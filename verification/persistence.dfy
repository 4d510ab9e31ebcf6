/**
 * The durable slot `clock-state` of assets/js/main.js: what `saveData` writes and what the
 * start-up load adopts. The JSON text is abstracted to the fields the loader looks at; a slot
 * that is empty or does not parse is `None`.
 */
module Persistence {

  import opened Wrappers
  import opened Roster

  /** The configured spreadsheet: an id (absent until one is picked) and a label. */
  datatype Sheet = Sheet(id: Option<string>, name: string)

  /** `{ id: null, name: '' }`: no spreadsheet selected. */
  const NoSheet := Sheet(None, "")

  /** What `saveData` serialises: `{ users, dark, spreadsheet }`. */
  datatype Snapshot = Snapshot(users: seq<Entry>, dark: bool, spreadsheet: Sheet)

  /**
   * A parsed slot as the loader reads it: `users` and `spreadsheet` may be missing (or null);
   * a missing `dark` reads as false.
   */
  datatype Stored = Stored(users: Option<seq<Entry>>, dark: bool, spreadsheet: Option<Sheet>)

  /** What `saveData` puts in the slot: every field present. */
  function Encode(s: Snapshot): (st: Stored)
    ensures Decode(Some(st)) == Some(s)
  {
    Stored(Some(s.users), s.dark, Some(s.spreadsheet))
  }

  /**
   * The start-up load: adopted only when the slot parsed and has a `users` field; a missing
   * spreadsheet falls back to `NoSheet`. Anything else yields nothing, without an error.
   */
  function Decode(slot: Option<Stored>): (r: Option<Snapshot>)
    ensures r.Some? <==> slot.Some? && slot.value.users.Some?
    ensures r.Some? ==> r.value.users == slot.value.users.value && r.value.dark == slot.value.dark
    ensures r.Some? ==> r.value.spreadsheet == if slot.value.spreadsheet.Some? then slot.value.spreadsheet.value else NoSheet
  {
    match slot
    case None => None
    case Some(st) =>
      if st.users.None? then None
      else Some(Snapshot(st.users.value, st.dark, st.spreadsheet.GetOr(NoSheet)))
  }

  /** A slot that `saveData` wrote loads back unchanged, and saving that again rewrites it unchanged. */
  lemma SaveAfterLoad(st: Stored)
    requires st.users.Some? && st.spreadsheet.Some?
    ensures Decode(Some(st)).Some? && Encode(Decode(Some(st)).value) == st
  {
  }

  /** Loading, saving and loading again gives what the first load gave. */
  lemma LoadIsStable(slot: Option<Stored>)
    ensures Decode(slot).Some? ==> Decode(Some(Encode(Decode(slot).value))) == Decode(slot)
  {
  }
}
