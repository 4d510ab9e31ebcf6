/**
 * The roster of clocked-in operators (the `users` array of the root instance in
 * assets/js/main.js) and the two array edits the instance performs on it:
 * `splice(index, 1)` and stamping the clock-out time of one entry.
 * Entries are addressed by position only.
 */
module Roster {

  import opened Wrappers

  /** One shift: who, when they clocked in (ms since the epoch), and when they clocked out, once they have. */
  datatype Entry = Entry(name: string, clockIn: int, clockOut: Option<int>)

  /** Where `Array.prototype.splice(index, 1)` starts on an array of length `len`: negative counts from the end. */
  function SpliceStart(len: nat, index: int): (p: nat)
    ensures p <= len
    ensures 0 <= index <= len ==> p == index
    ensures index > len ==> p == len
    ensures index < 0 && 0 <= len + index ==> p == len + index
    ensures len + index < 0 ==> p == 0
  {
    if index < 0 then (if len + index < 0 then 0 else len + index)
    else if index > len then len
    else index
  }

  /**
   * `users.splice(index, 1)`: removes the element at the start position when there is one,
   * keeping the others in order; an index at or past the end removes nothing.
   */
  function SpliceOne(s: seq<Entry>, index: int): (r: seq<Entry>)
    ensures var p := SpliceStart(|s|, index);
      && (p < |s| ==> |r| == |s| - 1)
      && (p == |s| ==> r == s)
      && (forall k :: 0 <= k < p && k < |r| ==> r[k] == s[k])
      && (forall k :: p <= k < |r| ==> r[k] == s[k + 1])
  {
    var p := SpliceStart(|s|, index);
    if p < |s| then s[..p] + s[p + 1..] else s
  }

  /** Splicing loses exactly one element, the one at the start position, and keeps every other. */
  lemma SpliceRemovesOne(s: seq<Entry>, index: int)
    requires SpliceStart(|s|, index) < |s|
    ensures multiset(SpliceOne(s, index)) + multiset{s[SpliceStart(|s|, index)]} == multiset(s)
  {
    var p := SpliceStart(|s|, index);
    assert s == s[..p] + [s[p]] + s[p + 1..];
  }

  /** An entry with its clock-out time set to `now`, whatever it held before. */
  function Stamped(e: Entry, now: int): (r: Entry)
    ensures r.name == e.name && r.clockIn == e.clockIn && r.clockOut == Some(now)
  {
    e.(clockOut := Some(now))
  }

  /** `users[index].clockOut = now`: the entry at `index` is stamped, every other entry is untouched. */
  function StampClockOut(users: seq<Entry>, index: int, now: int): (r: seq<Entry>)
    requires 0 <= index < |users|
    ensures |r| == |users| && r[index] == Stamped(users[index], now)
    ensures forall j :: 0 <= j < |r| && j != index ==> r[j] == users[j]
  {
    users[index := Stamped(users[index], now)]
  }

  // ---------------------------------------------------------------------------
  // How the edits combine

  /** Cancelling the entry just clocked in (the last one) gives back the roster as it was before. */
  lemma CancelUndoesClockIn(users: seq<Entry>, e: Entry)
    ensures SpliceOne(users + [e], |users|) == users
  {
    assert (users + [e])[..|users|] == users;
  }

  /** Clocking out twice leaves only the second time: there is no guard against a repeat. */
  lemma SecondClockOutOverwrites(users: seq<Entry>, index: int, first: int, second: int)
    requires 0 <= index < |users|
    ensures StampClockOut(StampClockOut(users, index, first), index, second) == StampClockOut(users, index, second)
  {
  }

  /**
   * With no edit in between, removing at the captured index after a clock-out removes exactly
   * the entry that was clocked out, and the rest of the roster is as it was.
   */
  lemma AcknowledgeRemovesClockedOut(users: seq<Entry>, index: int, now: int)
    requires 0 <= index < |users|
    ensures SpliceOne(StampClockOut(users, index, now), index) == users[..index] + users[index + 1..]
  {
    var stamped := StampClockOut(users, index, now);
    assert stamped[..index] == users[..index];
    assert stamped[index + 1..] == users[index + 1..];
  }

  /**
   * A captured index goes stale: if an earlier entry `i` is cancelled while the append for entry
   * `j` is in flight, the late success removes whatever now sits at `j`, namely the entry that
   * followed the clocked-out one (nothing at all when the clocked-out one was last), and the
   * clocked-out entry stays in the roster.
   */
  lemma LateSuccessAfterEarlierCancel(users: seq<Entry>, i: int, j: int, now: int)
    requires 0 <= i < j < |users|
    ensures var r := SpliceOne(SpliceOne(StampClockOut(users, j, now), i), j);
      r == users[..i] + users[i + 1..j] + [Stamped(users[j], now)] + users[if j + 1 < |users| then j + 2 else j + 1..]
  {
    var stamped := StampClockOut(users, j, now);
    var afterCancel := SpliceOne(stamped, i);
    assert afterCancel == users[..i] + users[i + 1..j] + [Stamped(users[j], now)] + users[j + 1..] by {
      assert stamped == users[..j] + [Stamped(users[j], now)] + users[j + 1..];
      assert stamped[..i] == users[..i];
      assert stamped[i + 1..] == users[i + 1..j] + [Stamped(users[j], now)] + users[j + 1..];
    }
    var prefix := users[..i] + users[i + 1..j] + [Stamped(users[j], now)];
    assert |prefix| == j;
    if j + 1 < |users| {
      assert afterCancel == prefix + [users[j + 1]] + users[j + 2..];
      assert afterCancel[..j] == prefix;
      assert afterCancel[j + 1..] == users[j + 2..];
    } else {
      assert users[j + 1..] == [];
    }
  }

  /**
   * The same stale index when the clocked-out entry itself is cancelled while its append is in
   * flight: the late success removes the entry that followed it (an open shift or another pending one).
   */
  lemma LateSuccessAfterOwnCancel(users: seq<Entry>, j: int, now: int)
    requires 0 <= j && j + 1 < |users|
    ensures SpliceOne(SpliceOne(StampClockOut(users, j, now), j), j) == users[..j] + users[j + 2..]
  {
    var afterCancel := SpliceOne(StampClockOut(users, j, now), j);
    assert afterCancel == users[..j] + users[j + 1..];
    assert afterCancel[..j] == users[..j];
    assert afterCancel[j + 1..] == users[j + 2..];
  }
}
