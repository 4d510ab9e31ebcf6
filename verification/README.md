# Clock-in roster: a Dafny model

A model of the shift bookkeeping of the clock-system web page (`assets/js/main.js`): operators
clock in by name, the page keeps the roster of open shifts in local storage, and clocking out
sends a row `[name, clock-in, clock-out, HH:MM:SS]` to a spreadsheet. On success the entry
leaves the roster; on failure it stays, clocked out, for the operator to retry or cancel.

Modules:

- `Wrappers`: `Option`.
- `Duration`: the `HH:MM:SS` text computed at clock-out, as a function with lemmas.
- `Roster`: the roster entries and the two array edits the page makes (`splice(index, 1)`
  and stamping `clockOut`), with lemmas about how they combine.
- `Persistence`: what `saveData` writes to the `clock-state` slot and what the start-up load adopts.
- `App`: the class `ClockApp`, the root instance's fields and methods (plus the settings
  dialog's `selectSheet`). Every method states the whole new state, and its `modifies` frame
  names the only fields it touches.

Time, the spreadsheet service and the file picker are parameters: `now` for `Date.now()`, a
boolean or status for how a request ended, and the picker's result. Each asynchronous request is
split at its `.then`/`.catch`. `ClockOut` stamps the entry and returns the request.
`CompleteAppend(captured, ok)` applies the answer, using the index captured when the clock-out
started. Saving follows the page's reactivity. The `users` watcher saves after `push`, after
`splice`, and after the array is replaced at start-up. Stamping `clockOut` adds a property to an
element, so the watcher does not see it and nothing is saved.

The code has no guard in these places, and the model keeps each one as written:

- a name of only spaces is accepted (only the empty name is refused);
- a second clock-out simply overwrites `clockOut`;
- the append is sent even when no spreadsheet is configured;
- a success removes whatever sits at the captured position, with no re-check.
  `Roster.LateSuccessAfterEarlierCancel` and `App.LateSuccessScenario` show the consequence: after
  an earlier entry is cancelled, the wrong entry is removed;
- `verifySpreadsheet` clears the spreadsheet without saving.

## Model

| member | source | states |
|---|---|---|
| `Duration.Fields` | assets/js/main.js:198-202 | the floor chain with JavaScript's truncating `%=` (via `JsRem`): minutes and seconds lie strictly inside (-60, 60); for a non-negative difference all three fields are non-negative, for a negative one the hours are negative and the other two non-positive |
| `Duration.FormatDuration` | assets/js/main.js:196-204 | the three fields, each printed with `toFixed(0)` (`ToFixed0`) behind a "0" when below 10, joined by colons; the text is at least 8 characters for every difference (its read-back, width and truncation properties are the lemmas below) |
| `Duration.FieldsOfNonNegative` | assets/js/main.js:196-202 | for a non-negative difference, the source's chain of floors and `%=` gives hours = diff/3600000, minutes = (diff/60000) mod 60, seconds = (diff/1000) mod 60 |
| `Duration.JsRem` | assets/js/main.js:200-202 | JavaScript's truncating `%`: differs from the operand by a multiple of the divisor, lies strictly inside (-divisor, divisor) and has the operand's sign (never positive for a non-positive operand), which fixes it as the truncating remainder; for non-negative operands it is the ordinary remainder |
| `Duration.Pad` | assets/js/main.js:204 | each field is printed at least two characters wide |
| `Duration.ValueOfDigits` | assets/js/main.js:204 | the `toFixed(0)` numeral of a non-negative integer reads back as that integer |
| `Duration.FormatDurationReadsBack` | assets/js/main.js:196-204 | the text parses back as `H…:MM:SS` with two-character minute and second fields, hours = diff/3600000 (never wrapped), minutes and seconds modulo 60 |
| `Duration.FormatDurationWidth` | assets/js/main.js:204 | the text is exactly 8 characters wide if and only if the shift is under 100 hours (hours padded to at least two digits, otherwise as wide as needed) |
| `Duration.FormatDurationTruncates` | assets/js/main.js:196-198 | sub-second remainders are dropped: diff and diff rounded down to whole seconds give the same text |
| `Duration.FormatDurationInjective` | assets/js/main.js:196-204 | two non-negative differences give the same text if and only if they agree in whole seconds |
| `Duration.FormatDurationExample` | assets/js/main.js:196-204 | 3723000 ms gives "01:02:03" |
| `Duration.FormatDurationHundredHours` | assets/js/main.js:201-204 | 360000000 ms gives "100:00:00" |
| `Roster.SpliceStart` | assets/js/main.js:235 | `splice`'s start position: an index inside the array is used as is, one past the end clamps to the length, a negative one counts from the end and clamps at 0 |
| `Roster.SpliceOne` | assets/js/main.js:234-235 | `splice(index, 1)`: when the start position (negative counts from the end) is inside the array, exactly that element goes, the length drops by one and the others keep their order; at or past the end nothing changes |
| `Roster.SpliceRemovesOne` | assets/js/main.js:235 | a splice that removes something loses exactly the element at its start position and keeps every other one (as a multiset) |
| `Roster.StampClockOut` | assets/js/main.js:192-194 | the entry at the index gets `clockOut = now` with name and clock-in kept; every other entry and the length are unchanged |
| `Roster.CancelUndoesClockIn` | assets/js/main.js:234-235 | removing the entry just pushed (the last position) gives back the earlier roster |
| `Roster.SecondClockOutOverwrites` | assets/js/main.js:191-194 | a second clock-out of the same entry leaves only the second time; there is no guard |
| `Roster.AcknowledgeRemovesClockedOut` | assets/js/main.js:223-224 | with no edit in between, the success branch removes exactly the clocked-out entry and leaves the rest as it was |
| `Roster.LateSuccessAfterEarlierCancel` | assets/js/main.js:223-224 | when an earlier entry is cancelled while the append is in flight, the late success removes the entry after the clocked-out one (or nothing if it was last), and the clocked-out entry stays |
| `Roster.LateSuccessAfterOwnCancel` | assets/js/main.js:223-224 | when the clocked-out entry itself is cancelled while its append is in flight, the late success removes the entry that followed it (an open shift or another pending one) |
| `Persistence.Encode` | assets/js/main.js:151-158 | the slot `saveData` writes loads back as the same `{users, dark, spreadsheet}` |
| `Persistence.Decode` | assets/js/main.js:133-143 | state is adopted if and only if the slot parsed and has `users`; then users and dark are taken as stored and a missing spreadsheet becomes `{id: null, name: ''}` |
| `Persistence.SaveAfterLoad` | assets/js/main.js:138-142 | a slot with every field present loads and saves back unchanged |
| `Persistence.LoadIsStable` | assets/js/main.js:138-158 | load, save, load gives what the first load gave |
| `App.RowFor` | assets/js/main.js:206-222 | the appended row keeps the entry's name and clock-in, carries the clock-out time, and its duration text (for a clock-out at or after the clock-in) reads back as whole hours, minutes and seconds of the difference; `Stamped`, `IdSet` and `Rejects` are the small helpers for the stamp and the spreadsheet checks |
| `App.ClockApp.constructor` | assets/js/main.js:117-131 | the initial data: empty roster, empty draft, light theme, no current user, no spreadsheet, both notices off |
| `App.ClockApp.Mount` | assets/js/main.js:132-148 | a loadable slot is adopted and, through the `users` watcher, saved back; otherwise roster, theme, spreadsheet and slot are untouched and no error escapes |
| `App.ClockApp.SaveData` | assets/js/main.js:151-159 | the slot holds exactly `{users, dark, spreadsheet}` of the current state |
| `App.ClockApp.ToggleDark` | assets/js/main.js:160-163 | the theme flag flips and the state is saved; nothing else changes |
| `App.ClockApp.UpdateSpreadsheet` | assets/js/main.js:164-167 | the spreadsheet becomes the given one and the state is saved |
| `App.ClockApp.VerifySpreadsheet` | assets/js/main.js:168-177 | with no id nothing changes; with an id, a status other than 200 or a failed request resets the spreadsheet to `{id: null, name: ''}`; the slot is not written |
| `App.ClockApp.SelectSheet` | assets/js/main.js:67-78 | when the picker returns documents, the first one's id and name become the spreadsheet and the state is saved; otherwise nothing changes |
| `App.ClockApp.ClockIn` | assets/js/main.js:179-190 | an empty name changes nothing; otherwise exactly one entry `{name, clockIn: now}` without clock-out is appended after the unchanged earlier ones, it becomes the current user, the draft is reset and the roster saved |
| `App.ClockApp.ClockOut` | assets/js/main.js:191-222 | only the chosen entry is stamped with `now`; the request carries the configured id (even when absent) and the row name, clock-in, clock-out and formatted duration; nothing is saved |
| `App.ClockApp.CompleteAppend` | assets/js/main.js:223-229 | success splices the captured position, clears the current user, saves and raises the success notice; failure keeps roster, selection and slot and raises the error notice |
| `App.ClockApp.SetCurrentUser` | assets/js/main.js:231-233 | the current user becomes the given index, unchecked; nothing else changes |
| `App.ClockApp.Remove` | assets/js/main.js:234-237 | the roster is `splice(index, 1)` of the old one, the current user is -1, and the state is saved |
| `App.LateSuccessScenario` | assets/js/main.js:223-225 | with open shifts A, B, C loaded, B clocks out, A is cancelled, then the append succeeds: only B (clocked out) remains, C's open shift is gone, and that is what is saved |

## Left out

- The `user`, `user-picker` and `settings` templates and everything rendered (lines 3-113 apart from `selectSheet`): presentation.
- `signIn`/`signOut` and the `authorized` flag: the sign-in service is external, and the flag is only read by a template.
- The file picker, the spreadsheet service calls (`append`, `get`), `Date.now()` and local storage with JSON: external services, which became parameters and an abstract slot. A slot that holds something other than an object with `users` is treated like an empty one.
- The locale formatting of the two times in the row (`toLocaleString`) is left out because it depends on the locale: the row keeps the raw timestamps.
- Logging (`console.log`, `console.error`).
- The `save` event of the settings dialog is taken to be bound to `saveData`; the page markup that binds it is not part of this model.
- Vue's asynchronous, batched watcher: the model saves at the end of each method that changes the array. The slot ends up the same, but the intermediate timing is not modelled.
- The aliasing of the pushed `newUser` object: the entry is stored as a value.
- Several appends in flight at once: each answer is one `CompleteAppend` call, applied in whatever order the caller chooses.
- `App.ClockApp.VerifySpreadsheet` applies the lookup's answer in the same step as the id test, so a spreadsheet change between request and answer is not modelled.
- `App.ClockApp.ClockOut` requires an index inside the roster, because for any other index the source reads `undefined` and throws before changing anything.
- `Duration.FormatDuration` works on unbounded integers. JavaScript's floating-point `Math.floor(diff / 1000)` agrees with floor division for every difference below about 9·10^15 ms, which includes the difference of any two timestamps at or after 1970, such as `Date.now()` returns. Larger differences, where rounding of the difference or the quotient could matter, are not modelled.
- `Duration.FormatDurationReadsBack`, `Duration.FormatDurationWidth` and `Duration.FormatDurationInjective` are stated for clock-outs at or after the clock-in. Negative differences (a clock set back) are computed as the source does, with no stated property.
- A stored `dark` that is missing is read as false (the page keeps `undefined`, which behaves as false everywhere it is used). Stored entries are assumed to have the shape the page writes.
