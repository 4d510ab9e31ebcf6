/**
 * The root instance of assets/js/main.js: its data fields and the methods that change them,
 * plus the settings dialog's `selectSheet`, which writes the root's spreadsheet through its prop.
 *
 * The clock, the spreadsheet service and the file picker are parameters: `now` stands for
 * `Date.now()`, `ok` and `outcome` for how a request to the service ended, `picked` for what the
 * picker returned. Each request is split at its `.then`/`.catch`: the call that starts it and the
 * method that applies its answer.
 *
 * Saving follows the instance's reactivity: the `users` watcher saves after every change to the
 * array itself (`push`, `splice`, replacing it at start-up), while stamping `clockOut` on an entry
 * adds a property to an element and does not reach the watcher, so it saves nothing.
 */
module App {

  import opened Wrappers
  import opened Roster
  import opened Persistence
  import Duration

  /** The operator being typed into the clock-in form; `clockIn` is null until it is pushed. */
  datatype Draft = Draft(name: string, clockIn: Option<int>)

  const EmptyDraft := Draft("", None)

  /** The two notices shown after an append: it went through, or it failed. */
  datatype Notification = Notification(clockOutSuccess: bool, clockOutError: bool)

  /** The row sent for a completed shift; the two times are kept as timestamps, not locale text. */
  datatype Row = Row(name: string, clockIn: int, clockOut: int, duration: string)

  /** The row for an entry clocked out at `now`: name, both times, and the formatted shift length. */
  function RowFor(user: Entry, now: int): (r: Row)
    ensures r.name == user.name && r.clockIn == user.clockIn && r.clockOut == now
    ensures now >= user.clockIn ==>
      var diff := now - user.clockIn;
      Duration.ParseDuration(r.duration) == Some(Duration.Hms(diff / 3600000, diff / 60000 % 60, diff / 1000 % 60))
  {
    var diff := now - user.clockIn;
    assert diff >= 0 ==>
      Duration.ParseDuration(Duration.FormatDuration(diff)) == Some(Duration.Hms(diff / 3600000, diff / 60000 % 60, diff / 1000 % 60))
    by {
      if diff >= 0 { Duration.FormatDurationReadsBack(diff); }
    }
    Row(user.name, user.clockIn, now, Duration.FormatDuration(diff))
  }

  /** One append request: the target spreadsheet id as configured (possibly absent) and the row. */
  datatype AppendRequest = AppendRequest(spreadsheetId: Option<string>, row: Row)

  /** A document the picker returned. */
  datatype Doc = Doc(id: string, name: string)

  /** How the spreadsheet lookup ended: an HTTP status, or a rejected request. */
  datatype SheetCheck = Status(code: int) | RequestFailed

  /** JavaScript truthiness of a spreadsheet id: neither null nor the empty string. */
  predicate IdSet(id: Option<string>)
  {
    id.Some? && id.value != ""
  }

  /** Whether the lookup outcome makes the instance forget the configured spreadsheet. */
  predicate Rejects(outcome: SheetCheck)
  {
    outcome.RequestFailed? || outcome.code != 200
  }

  class ClockApp {
    var users: seq<Entry>
    var newUser: Draft
    var dark: bool
    var currentUser: int
    var spreadsheet: Sheet
    var notification: Notification
    /** The `clock-state` slot of local storage, as the loader would parse it. */
    var storage: Option<Stored>

    /** The part of the state that is persisted. */
    function State(): Snapshot
      reads this
    {
      Snapshot(users, dark, spreadsheet)
    }

    /** The slot holds exactly the current persisted state. */
    predicate Persisted()
      reads this
    {
      storage == Some(Encode(State()))
    }

    /** The instance's initial data, in a page whose storage slot holds `slot`. */
    constructor (slot: Option<Stored>)
      ensures users == [] && newUser == EmptyDraft && !dark && currentUser == -1
      ensures spreadsheet == NoSheet && notification == Notification(false, false)
      ensures storage == slot
    {
      users := [];
      newUser := EmptyDraft;
      dark := false;
      currentUser := -1;
      spreadsheet := NoSheet;
      notification := Notification(false, false);
      storage := slot;
    }

    /**
     * `mounted`: adopt the stored state when it loads; replacing `users` then makes the watcher
     * save it back. Otherwise the initial state stays and nothing is written.
     */
    method Mount()
      modifies this`users, this`dark, this`spreadsheet, this`storage
      ensures match Decode(old(storage))
        case Some(s) => State() == s && Persisted()
        case None => users == old(users) && dark == old(dark) && spreadsheet == old(spreadsheet) && storage == old(storage)
    {
      var loaded := Decode(storage);
      if loaded.Some? {
        users := loaded.value.users;
        dark := loaded.value.dark;
        spreadsheet := loaded.value.spreadsheet;
        SaveData();
      }
    }

    /** `saveData`: overwrite the slot with `{ users, dark, spreadsheet }`. */
    method SaveData()
      modifies this`storage
      ensures Persisted()
    {
      storage := Some(Encode(State()));
    }

    /** `toggleDark`: flip the theme flag and save. */
    method ToggleDark()
      modifies this`dark, this`storage
      ensures dark == !old(dark) && Persisted()
    {
      dark := !dark;
      SaveData();
    }

    /** `updateSpreadsheet`: take the given spreadsheet and save. */
    method UpdateSpreadsheet(sheet: Sheet)
      modifies this`spreadsheet, this`storage
      ensures spreadsheet == sheet && Persisted()
    {
      spreadsheet := sheet;
      SaveData();
    }

    /**
     * `verifySpreadsheet` with the lookup's answer applied: with no id nothing is asked; a status
     * other than 200 or a failed request forgets the spreadsheet. Nothing is saved here.
     */
    method VerifySpreadsheet(outcome: SheetCheck)
      modifies this`spreadsheet
      ensures spreadsheet == if IdSet(old(spreadsheet).id) && Rejects(outcome) then NoSheet else old(spreadsheet)
    {
      if IdSet(spreadsheet.id) {
        match outcome {
          case Status(code) =>
            if code != 200 {
              spreadsheet := NoSheet;
            }
          case RequestFailed =>
            spreadsheet := NoSheet;
        }
      }
    }

    /**
     * The settings dialog's `selectSheet` with the picker's answer applied: when documents came
     * back, the first one becomes the spreadsheet and the state is saved; otherwise nothing happens.
     */
    method SelectSheet(picked: Option<seq<Doc>>)
      modifies this`spreadsheet, this`storage
      ensures picked.Some? && |picked.value| > 0 ==>
        spreadsheet == Sheet(Some(picked.value[0].id), picked.value[0].name) && Persisted()
      ensures !(picked.Some? && |picked.value| > 0) ==>
        spreadsheet == old(spreadsheet) && storage == old(storage)
    {
      if picked.Some? && |picked.value| > 0 {
        var doc := picked.value[0];
        spreadsheet := Sheet(Some(doc.id), doc.name);
        SaveData();
      }
    }

    /**
     * `clockIn`: an empty name does nothing. Otherwise the draft is stamped with `now` and
     * appended, becomes the current user, the form is reset and the roster saved.
     */
    method ClockIn(now: int)
      modifies this`users, this`newUser, this`currentUser, this`storage
      ensures old(newUser.name) == "" ==>
        users == old(users) && newUser == old(newUser) && currentUser == old(currentUser) && storage == old(storage)
      ensures old(newUser.name) != "" ==>
        && users == old(users) + [Entry(old(newUser.name), now, None)]
        && currentUser == |users| - 1
        && newUser == EmptyDraft
        && Persisted()
    {
      if newUser.name == "" {
        return;
      }
      newUser := newUser.(clockIn := Some(now));
      users := users + [Entry(newUser.name, now, None)];
      currentUser := |users| - 1;
      newUser := EmptyDraft;
      SaveData();
    }

    /**
     * `clockOut(index)`: stamp the entry with `now` and build the append request for it. The entry
     * stays in the roster, and nothing is saved. An index outside the roster makes the source throw.
     */
    method ClockOut(index: int, now: int) returns (request: AppendRequest)
      requires 0 <= index < |users|
      modifies this`users
      ensures users == StampClockOut(old(users), index, now)
      ensures request.spreadsheetId == spreadsheet.id
      ensures request.row == RowFor(old(users)[index], now)
    {
      request := AppendRequest(spreadsheet.id, RowFor(users[index], now));
      users := StampClockOut(users, index, now);
    }

    /**
     * The append's continuation for a clock-out started at `captured`: on success remove whatever
     * is at that position now and raise the success notice; on failure keep the roster as it is
     * (the entry stays, clocked out) and raise the error notice.
     */
    method CompleteAppend(captured: int, ok: bool)
      modifies this`users, this`currentUser, this`notification, this`storage
      ensures ok ==> users == SpliceOne(old(users), captured) && currentUser == -1 && Persisted()
      ensures ok ==> notification == old(notification).(clockOutSuccess := true)
      ensures !ok ==> users == old(users) && currentUser == old(currentUser) && storage == old(storage)
      ensures !ok ==> notification == old(notification).(clockOutError := true)
    {
      if ok {
        Remove(captured);
        notification := notification.(clockOutSuccess := true);
      } else {
        notification := notification.(clockOutError := true);
      }
    }

    /** `setCurrentUser`: select an entry by position; nothing is checked and nothing saved. */
    method SetCurrentUser(index: int)
      modifies this`currentUser
      ensures currentUser == index
    {
      currentUser := index;
    }

    /** `remove(index)`: `splice(index, 1)` on the roster, clear the selection, and save. */
    method Remove(index: int)
      modifies this`users, this`currentUser, this`storage
      ensures users == SpliceOne(old(users), index) && currentUser == -1 && Persisted()
    {
      users := SpliceOne(users, index);
      currentUser := -1;
      SaveData();
    }
  }

  /**
   * Three open shifts are loaded from storage; the second clocks out, the first is cancelled while
   * the append is in flight, and then the append succeeds: the third operator's open shift is
   * removed and the clocked-out one stays behind, which is also what is saved.
   */
  method LateSuccessScenario(inA: int, inB: int, inC: int, outB: int) returns (remaining: seq<Entry>, saved: Option<Stored>)
    ensures remaining == [Entry("B", inB, Some(outB))]
    ensures saved == Some(Stored(Some(remaining), false, Some(NoSheet)))
  {
    var a, b, c := Entry("A", inA, None), Entry("B", inB, None), Entry("C", inC, None);
    var app := new ClockApp(Some(Stored(Some([a, b, c]), false, None)));
    app.Mount();
    var request := app.ClockOut(1, outB);
    var clockedOut := [a, Stamped(b, outB), c];
    assert app.users == clockedOut;
    app.Remove(0);
    assert app.users == clockedOut[1..];
    app.CompleteAppend(1, true);
    assert app.users == [Stamped(b, outB)];
    remaining, saved := app.users, app.storage;
  }
}
