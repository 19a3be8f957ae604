/** The undo history: snapshots of the entry list and the cursor, newest last, at most
    UndoLimit of them. */
module Undo {
  import opened Dialogue

  /** The field the cursor is in. */
  datatype Field = Speaker | Content

  /** One saved state: a copy of the entries and the cursor as it was. */
  datatype Snapshot = Snapshot(entries: seq<DialogueEntry>, cursorDisplayLine: nat,
                               cursorField: Field, cursorPos: nat, scrollOffset: nat)

  /** The most snapshots the history keeps. */
  const UndoLimit := 100

  /** The history after a snapshot is saved: when full, the oldest snapshot is dropped first.
      The new snapshot is last, and the ones kept before it are the newest of the old history. */
  function Pushed(stack: seq<Snapshot>, s: Snapshot): (r: seq<Snapshot>)
    ensures |r| == if |stack| >= UndoLimit then |stack| else |stack| + 1
    ensures r[|r| - 1] == s
    ensures forall k :: 0 <= k < |r| - 1 ==> r[k] == stack[|stack| - (|r| - 1) + k]
  {
    if |stack| >= UndoLimit then stack[1..] + [s] else stack + [s]
  }

  /** A history within the limit stays within it, and is never empty after a save. */
  lemma PushedBound(stack: seq<Snapshot>, s: Snapshot)
    requires |stack| <= UndoLimit
    ensures 1 <= |Pushed(stack, s)| <= UndoLimit
  {
  }

  /** Below the limit nothing is dropped; at the limit exactly the oldest snapshot is. */
  lemma PushedKeeps(stack: seq<Snapshot>, s: Snapshot)
    requires |stack| <= UndoLimit
    ensures |stack| < UndoLimit ==> Pushed(stack, s)[..|stack|] == stack
    ensures |stack| == UndoLimit ==> Pushed(stack, s)[..|stack| - 1] == stack[1..]
  {
  }

  /** Every snapshot holds at least one entry. */
  predicate NonEmptySnapshots(stack: seq<Snapshot>)
  {
    forall i :: 0 <= i < |stack| ==> |stack[i].entries| >= 1
  }

  /** Saving a snapshot with entries into a history of such snapshots keeps the history so. */
  lemma PushedNonEmpty(stack: seq<Snapshot>, s: Snapshot)
    requires NonEmptySnapshots(stack) && |s.entries| >= 1
    ensures NonEmptySnapshots(Pushed(stack, s))
  {
    var r := Pushed(stack, s);
    forall i | 0 <= i < |r| ensures |r[i].entries| >= 1 {
      if i < |r| - 1 {
        assert r[i] == stack[|stack| - (|r| - 1) + i];
      }
    }
  }

  /** The history after an undo: the newest snapshot is removed. */
  function Popped(stack: seq<Snapshot>): (r: seq<Snapshot>)
    requires |stack| >= 2
    ensures |r| == |stack| - 1 && r == stack[..|r|]
  {
    stack[..|stack| - 1]
  }

  /** The snapshot an undo restores: the newest one left after the pop. */
  function Restored(stack: seq<Snapshot>): (s: Snapshot)
    requires |stack| >= 2
    ensures s == stack[|stack| - 2]
  {
    var r := Popped(stack);
    r[|r| - 1]
  }

  /** An undo keeps a history of snapshots with entries so, and restores entries. */
  lemma PoppedNonEmpty(stack: seq<Snapshot>)
    requires |stack| >= 2 && NonEmptySnapshots(stack)
    ensures NonEmptySnapshots(Popped(stack)) && |Restored(stack).entries| >= 1
  {
  }

  /** An undo right after a save below the limit gives back the history from before the
      save. */
  lemma PopUndoesPush(stack: seq<Snapshot>, s: Snapshot)
    requires 1 <= |stack| < UndoLimit
    ensures Popped(Pushed(stack, s)) == stack
  {
  }

  /** Every edit saves the state from before it, so the newest snapshot is the state the last
      edit started from, and an undo restores the snapshot below it: after two edits one undo
      goes back to the state from before the first of them. */
  lemma UndoSkipsOneEdit(stack: seq<Snapshot>, beforeFirst: Snapshot, beforeSecond: Snapshot)
    requires 1 <= |stack| && |stack| + 2 <= UndoLimit
    ensures Restored(Pushed(Pushed(stack, beforeFirst), beforeSecond)) == beforeFirst
  {
  }
}
