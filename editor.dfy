/** The editor: its state as fields of a class, and the methods that change it in place. Each
    method is proved to compute the function on views that describes it (modules Cursor,
    Operations and Keys), so what is proved about those functions holds of the editor. */
module EditorState {
  import opened Wrappers
  import opened Dialogue
  import opened Merge
  import opened Display
  import opened Undo
  import opened Edits
  import opened Cursor
  import opened Operations
  import opened Keys

  /** (a + b) + c == a + (b + c) on tables. */
  lemma TableAssoc(a: seq<Line>, b: seq<Line>, c: seq<Line>)
    ensures (a + b) + c == a + (b + c)
  {
  }

  /** reflow's loop over the entries: each entry's rows appended in entry order. */
  method BuildTable(es: seq<DialogueEntry>, cw: int) returns (lines: seq<Line>)
    requires cw >= 1
    ensures lines == Layout(es, cw)
  {
    lines := [];
    ghost var rs := AllRows(es, cw);
    var i := 0;
    while i < |es|
      invariant i <= |es|
      invariant lines + Concat(rs, i) == Concat(rs, 0)
    {
      AllRowsAt(es, cw, i);
      ConcatUnfold(rs, i);
      ghost var before := lines;
      lines := AppendEntryRows(lines, i, es[i].text, cw);
      TableAssoc(before, Tag(i, rs[i]), Concat(rs, i + 1));
      i := i + 1;
    }
    assert lines + Concat(rs, i) == lines;
  }

  /** The entries the editor starts from: the loaded ones, or a single empty entry of speaker
      "Speaker" when there is no file. */
  function StartEntries(loaded: Option<seq<DialogueEntry>>): (es: seq<DialogueEntry>)
    requires loaded.Some? ==> |loaded.value| >= 1
    ensures |es| >= 1
    ensures loaded.Some? ==> es == loaded.value
    ensures loaded.None? ==> es == [DialogueEntry("Speaker", "")]
  {
    if loaded.Some? then loaded.value else [DialogueEntry("Speaker", "")]
  }

  /** The entry-by-entry copy save_undo_state and undo make of an entry list. */
  method CopyEntries(es: seq<DialogueEntry>) returns (copy: seq<DialogueEntry>)
    ensures copy == es
  {
    copy := [];
    var k := 0;
    while k < |es|
      invariant k <= |es|
      invariant copy == es[..k]
    {
      copy := copy + [DialogueEntry(es[k].speaker, es[k].text)];
      k := k + 1;
    }
  }

  /** The split move_entry_up, move_entry_down and split_line_at_cursor make in the list:
      entry e keeps the text before `at`, and a new entry of the same speaker with the rest is
      inserted after it. */
  method SplitEntryAt(es: seq<DialogueEntry>, e: nat, at: nat) returns (r: seq<DialogueEntry>)
    requires e < |es| && at <= |es[e].text|
    ensures r == SplitEntry(es, e, at)
  {
    var entry := es[e];
    r := es[e := DialogueEntry(entry.speaker, entry.text[..at])];
    r := r[..e + 1] + [DialogueEntry(entry.speaker, entry.text[at..])] + r[e + 1..];
  }

  class Editor {
    var entries: seq<DialogueEntry>
    var displayLines: seq<Line>
    var cursorDisplayLine: nat
    var cursorField: Field
    var cursorPos: nat
    var statusMsg: Status
    var scrollOffset: nat
    var keystrokeCount: nat
    var undoStack: seq<Snapshot>
    var initialLoad: bool
    /** The terminal size, fixed for the session, and the content columns it leaves. */
    const width: int
    const height: int
    const cw: int

    /** The part of the state the keys work on. */
    function CurrentView(): View
      reads this`entries, this`displayLines, this`cursorDisplayLine, this`cursorField,
        this`cursorPos, this`scrollOffset
    {
      View(entries, displayLines, cursorDisplayLine, cursorField, cursorPos, scrollOffset)
    }

    /** Every saved snapshot holds at least one entry, and there are at most UndoLimit. */
    ghost predicate HistoryOk()
      reads this`undoStack
    {
      1 <= |undoStack| <= UndoLimit && NonEmptySnapshots(undoStack)
    }

    /** The state between two keys. */
    ghost predicate Valid()
      reads this`entries, this`displayLines, this`cursorDisplayLine, this`cursorField,
        this`cursorPos, this`scrollOffset, this`undoStack, this`initialLoad, this`keystrokeCount
    {
      Shown(CurrentView(), cw) && HistoryOk() && !initialLoad &&
      keystrokeCount < AutosaveInterval && cw == ContentWidth(width)
    }

    /** Loads the given entries, or one empty entry of speaker "Speaker" when there is no file;
        folds same-speaker neighbours once; lays out the table; saves the first snapshot. */
    constructor (loaded: Option<seq<DialogueEntry>>, width: int, height: int)
      requires ContentWidth(width) >= 1
      requires loaded.Some? ==> |loaded.value| >= 1
      ensures this.width == width && this.height == height && cw == ContentWidth(width)
      ensures entries == Combine(StartEntries(loaded)) && |entries| >= 1
      ensures CurrentView() == Reflowed(View(entries, [], 0, Content, 0, 0), cw)
      ensures undoStack == [SnapshotOf(CurrentView())]
      ensures statusMsg == NoStatus && keystrokeCount == 0
      ensures Valid()
    {
      this.width := width;
      this.height := height;
      cw := ContentWidth(width);
      entries := StartEntries(loaded);
      displayLines := [];
      cursorDisplayLine := 0;
      cursorField := Content;
      cursorPos := 0;
      statusMsg := NoStatus;
      scrollOffset := 0;
      keystrokeCount := 0;
      undoStack := [];
      initialLoad := true;
      new;
      Start();
    }

    /** The end of start-up: the first reflow (which folds same-speaker neighbours), the end of
        the initial load, and the first snapshot. */
    method Start()
      requires initialLoad && cw >= 1 && |entries| >= 1 && undoStack == []
      requires cw == ContentWidth(width) && keystrokeCount == 0
      requires displayLines == [] && cursorDisplayLine == 0 && cursorField == Content && cursorPos == 0 &&
        scrollOffset == 0
      modifies this`entries, this`displayLines, this`cursorDisplayLine, this`cursorPos,
        this`initialLoad, this`undoStack
      ensures entries == Combine(old(entries)) && |entries| >= 1
      ensures CurrentView() == Reflowed(View(entries, [], 0, Content, 0, 0), cw)
      ensures undoStack == [SnapshotOf(CurrentView())]
      ensures Valid()
    {
      FirstReflow();
      ghost var w := CurrentView();
      initialLoad := false;
      SaveUndoState();
      assert CurrentView() == w;
    }

    /** The reflow at load time, from the cursor reflow starts with. */
    method FirstReflow()
      requires initialLoad && cw >= 1 && |entries| >= 1
      requires displayLines == [] && cursorDisplayLine == 0 && cursorField == Content && cursorPos == 0 &&
        scrollOffset == 0
      modifies this`entries, this`displayLines, this`cursorDisplayLine, this`cursorPos
      ensures entries == Combine(old(entries)) && |entries| >= 1
      ensures CurrentView() == Reflowed(View(entries, [], 0, Content, 0, 0), cw)
    {
      Reflow();
    }

    /** combine_same_speaker_entries: the in-place pass over the list, which is the pass Combine
        describes. */
    method CombineSameSpeakerEntries()
      modifies this`entries
      ensures entries == Combine(old(entries))
    {
      ghost var target := Combine(entries);
      var i := 0;
      while i + 1 < |entries|
        invariant i <= |entries|
        invariant CombineFrom(entries, i) == target
        decreases |entries| - i
      {
        var current := entries[i];
        var next := entries[i + 1];
        CombineStep(entries, i);
        if current.speaker == next.speaker &&
           '[' !in current.text && ']' !in current.text &&
           '[' !in next.text && ']' !in next.text
        {
          var combinedLength := |current.text| + 1 + |next.text|;
          if combinedLength <= MergeCap {
            var text := current.text;
            if text != [] && text[|text| - 1] !in ".!?,:;" {
              text := text + " ";
            }
            text := text + next.text;
            assert text == JoinTexts(current.text, next.text);
            FoldAtInPlace(entries, i);
            entries := entries[i := DialogueEntry(current.speaker, text)];
            entries := entries[..i + 1] + entries[i + 2..];
            continue;
          }
        }
        i := i + 1;
      }
    }

    /** reflow: the load-time fold (only while loading), the table rebuilt from the entries, and
        the cursor clamped into it. */
    method Reflow()
      requires cw >= 1 && |entries| >= 1
      modifies this`entries, this`displayLines, this`cursorDisplayLine, this`cursorPos
      ensures |entries| >= 1
      ensures entries == if initialLoad then Combine(old(entries)) else old(entries)
      ensures CurrentView() == Reflowed(old(CurrentView()).(entries := entries), cw)
    {
      if initialLoad {
        CombineLength(entries);
        CombineSameSpeakerEntries();
      }
      displayLines := BuildTable(entries, cw);
      LayoutSize(entries, cw);
      if cursorDisplayLine >= |displayLines| {
        cursorDisplayLine := |displayLines| - 1;
        cursorPos := 0;
      }
      var curLen := FieldLength(CurrentView());
      if cursorPos > curLen {
        cursorPos := curLen;
      }
    }

    /** save_undo_state: a copy of the entries and the cursor saved as the newest snapshot, the
        oldest dropped first when the history is full. */
    method SaveUndoState()
      modifies this`undoStack
      ensures undoStack == Pushed(old(undoStack), SnapshotOf(CurrentView()))
      ensures |old(undoStack)| <= UndoLimit && NonEmptySnapshots(old(undoStack)) && |entries| >= 1 ==>
        HistoryOk()
    {
      var entriesCopy := CopyEntries(entries);
      var snapshot := Snapshot(entriesCopy, cursorDisplayLine, cursorField, cursorPos, scrollOffset);
      ghost var before := undoStack;
      if |undoStack| >= UndoLimit {
        undoStack := undoStack[1..];
      }
      undoStack := undoStack + [snapshot];
      if |before| <= UndoLimit && NonEmptySnapshots(before) && |entries| >= 1 {
        PushedBound(before, snapshot);
        PushedNonEmpty(before, snapshot);
      }
    }

    /** set_cursor_for_content: the forward scan for a row holding offset t of entry e, the
        backward scan for the entry's last row, and the move to the next row from the end of a
        row the entry continues on. */
    method SetCursorForContent(e: nat, t: nat)
      modifies this`cursorDisplayLine, this`cursorField, this`cursorPos
      ensures CurrentView() == Placed(old(CurrentView()), e, t)
    {
      var L := displayLines;
      var newLine: Option<nat> := None;
      var newPos: nat := 0;
      var fit := FindFirstFit(L, e, t);
      if fit.Some? {
        newLine := fit;
        newPos := t - L[fit.value].offset;
      } else {
        var last := FindLastBefore(L, e, |L|);
        if last.Some? {
          newLine := last;
          newPos := |L[last.value].text|;
        }
      }
      if newLine.Some? {
        var i := newLine.value;
        if newPos == |L[i].text| && i + 1 < |L| && L[i + 1].entry == e {
          newLine := Some(i + 1);
          newPos := 0;
        }
      }
      if newLine.Some? {
        cursorDisplayLine := newLine.value;
        cursorField := Content;
        cursorPos := newPos;
      }
    }

    /** handle_insert: a snapshot is saved, then the character goes in at the cursor. */
    method HandleInsert(ch: char)
      requires Valid()
      modifies this`entries, this`displayLines, this`cursorDisplayLine, this`cursorField,
        this`cursorPos, this`undoStack
      ensures undoStack == Pushed(old(undoStack), SnapshotOf(old(CurrentView())))
      ensures CurrentView() == Inserted(old(CurrentView()), cw, ch)
      ensures HistoryOk()
    {
      SaveUndoState();
      if cursorField == Speaker {
        InsertInSpeaker(ch);
      } else {
        InsertInContent(ch);
      }
    }

    /** handle_insert in the speaker field. */
    method InsertInSpeaker(ch: char)
      requires Shown(CurrentView(), cw) && !initialLoad && cursorField == Speaker
      modifies this`entries, this`displayLines, this`cursorDisplayLine, this`cursorPos
      ensures CurrentView() == Inserted(old(CurrentView()), cw, ch)
    {
      var entryIdx := displayLines[cursorDisplayLine].entry;
      var entry := entries[entryIdx];
      entries := entries[entryIdx := DialogueEntry(Spliced(entry.speaker, cursorPos, ch), entry.text)];
      cursorPos := cursorPos + 1;
      Reflow();
    }

    /** handle_insert in the content field. */
    method InsertInContent(ch: char)
      requires Shown(CurrentView(), cw) && !initialLoad && cursorField == Content
      modifies this`entries, this`displayLines, this`cursorDisplayLine, this`cursorField, this`cursorPos
      ensures CurrentView() == Inserted(old(CurrentView()), cw, ch)
    {
      ghost var v := CurrentView();
      var l := displayLines[cursorDisplayLine];
      var entryIdx := l.entry;
      var entry := entries[entryIdx];
      var oldActualOffset := l.offset + cursorPos;
      var es := entries[entryIdx := DialogueEntry(entry.speaker, Spliced(entry.text, oldActualOffset, ch))];
      var newActualOffset := oldActualOffset + 1;
      StoreAndPlace(es, entryIdx, newActualOffset);
      InsertedRelocates(v, cw, ch);
    }

    /** What the content edits do once the entries are changed: reflow, then
        set_cursor_for_content at the edit's new offset. */
    method StoreAndPlace(es: seq<DialogueEntry>, e: nat, t: nat)
      requires Shown(CurrentView(), cw) && !initialLoad && e < |es|
      modifies this`entries, this`displayLines, this`cursorDisplayLine, this`cursorField, this`cursorPos
      ensures CurrentView() == Relocated(old(CurrentView()), cw, es, e, t)
    {
      ghost var v := CurrentView();
      entries := es;
      Reflow();
      ghost var w := CurrentView();
      assert w == Reflowed(v.(entries := es), cw);
      SetCursorForContent(e, t);
    }

    /** handle_backspace: a snapshot is saved, then the speaker branch or the content branch. */
    method HandleBackspace()
      requires Valid()
      modifies this`entries, this`displayLines, this`cursorDisplayLine, this`cursorField,
        this`cursorPos, this`undoStack
      ensures undoStack == Pushed(old(undoStack), SnapshotOf(old(CurrentView())))
      ensures CurrentView() == Backspaced(old(CurrentView()), cw)
      ensures HistoryOk()
    {
      SaveUndoState();
      if cursorField == Speaker {
        BackspaceInSpeaker();
      } else {
        BackspaceInContent();
      }
    }

    /** handle_backspace in the speaker field. */
    method BackspaceInSpeaker()
      requires Shown(CurrentView(), cw) && !initialLoad && cursorField == Speaker
      modifies this`entries, this`displayLines, this`cursorDisplayLine, this`cursorPos
      ensures CurrentView() == Backspaced(old(CurrentView()), cw)
    {
      var entryIdx := displayLines[cursorDisplayLine].entry;
      var entry := entries[entryIdx];
      if cursorPos > 0 {
        entries := entries[entryIdx := DialogueEntry(Removed(entry.speaker, cursorPos - 1), entry.text)];
        cursorPos := cursorPos - 1;
      }
      Reflow();
    }

    /** handle_backspace in the content field: back to the row above, join with the previous
        entry, or delete the character before the cursor. */
    method BackspaceInContent()
      requires Shown(CurrentView(), cw) && !initialLoad && cursorField == Content
      modifies this`entries, this`displayLines, this`cursorDisplayLine, this`cursorField, this`cursorPos
      ensures CurrentView() == ContentBackspaced(old(CurrentView()), cw)
    {
      ghost var v := CurrentView();
      var l := displayLines[cursorDisplayLine];
      var entryIdx := l.entry;
      var offset := l.offset;
      var actualOffset := offset + cursorPos;
      if cursorPos == 0 && offset > 0 {
        var i := FindLastBefore(displayLines, entryIdx, cursorDisplayLine);
        if i.Some? {
          cursorDisplayLine := i.value;
          cursorPos := |displayLines[i.value].text|;
          return;
        }
      }
      if cursorPos == 0 && offset == 0 && entryIdx > 0 {
        if |entries[entryIdx - 1].text| + |entries[entryIdx].text| <= cw * 3 {
          JoinWithPrevious();
          assert ContentErase(v.entries, v.lines, v.line, v.pos, cw) == JoinPrevious;
          return;
        }
      }
      if actualOffset > 0 {
        DeleteBeforeCursor();
        assert ContentErase(v.entries, v.lines, v.line, v.pos, cw) == DeleteChar;
      }
    }

    /** The join branch of handle_backspace: the cursor's entry appended to the previous one and
        removed, the table rebuilt, and the cursor put at the join. */
    method JoinWithPrevious()
      requires Shown(CurrentView(), cw) && !initialLoad && CursorEntry(CurrentView()) > 0
      modifies this`entries, this`displayLines, this`cursorDisplayLine, this`cursorField, this`cursorPos
      ensures CurrentView() == Joined(old(CurrentView()), cw)
    {
      ghost var v := CurrentView();
      var entryIdx := displayLines[cursorDisplayLine].entry;
      var es := entries;
      var prevEntry := es[entryIdx - 1];
      var prevTextLen := |prevEntry.text|;
      es := es[entryIdx - 1 := DialogueEntry(prevEntry.speaker, prevEntry.text + es[entryIdx].text)];
      es := es[..entryIdx] + es[entryIdx + 1..];
      assert es == JoinBack(v.entries, entryIdx);
      StoreAndPlace(es, entryIdx - 1, prevTextLen);
    }

    /** The delete branch of handle_backspace: the character before the cursor's offset taken
        out, the table rebuilt, and the cursor put at the offset one less. */
    method DeleteBeforeCursor()
      requires Shown(CurrentView(), cw) && !initialLoad && cursorField == Content
      requires CursorOffset(CurrentView()) > 0
      modifies this`entries, this`displayLines, this`cursorDisplayLine, this`cursorField, this`cursorPos
      ensures CurrentView() == Deleted(old(CurrentView()), cw)
    {
      var l := displayLines[cursorDisplayLine];
      var entryIdx := l.entry;
      var entry := entries[entryIdx];
      var actualOffset := l.offset + cursorPos;
      var es := entries[entryIdx := DialogueEntry(entry.speaker, Removed(entry.text, actualOffset - 1))];
      StoreAndPlace(es, entryIdx, actualOffset - 1);
    }

    /** The `\` key in the speaker field: a snapshot is saved, then the speaker is emptied. */
    method ClearSpeakerField()
      requires Valid()
      modifies this`entries, this`displayLines, this`cursorDisplayLine, this`cursorPos, this`undoStack
      ensures undoStack == Pushed(old(undoStack), SnapshotOf(old(CurrentView())))
      ensures CurrentView() == ClearedSpeaker(old(CurrentView()), cw)
      ensures HistoryOk()
    {
      SaveUndoState();
      EmptySpeaker();
    }

    /** The speaker of the cursor's entry emptied, the cursor put at column 0, and the table
        rebuilt. */
    method EmptySpeaker()
      requires Shown(CurrentView(), cw) && !initialLoad
      modifies this`entries, this`displayLines, this`cursorDisplayLine, this`cursorPos
      ensures CurrentView() == ClearedSpeaker(old(CurrentView()), cw)
    {
      var entryIdx := displayLines[cursorDisplayLine].entry;
      var es := entries;
      es := es[entryIdx := DialogueEntry("", es[entryIdx].text)];
      entries, cursorPos := es, 0;
      Reflow();
    }

    /** split_line_at_cursor: only in the content field; the entry is cut at the cursor's
        offset, the rest becomes a new entry right after it, and the cursor goes to the start of
        that entry. */
    method SplitLineAtCursor()
      requires Shown(CurrentView(), cw) && !initialLoad
      modifies this`entries, this`displayLines, this`cursorDisplayLine, this`cursorPos, this`statusMsg
      ensures CurrentView() == SplitAtCursor(old(CurrentView()), cw)
      ensures statusMsg == if old(cursorField) == Content then SplitAt(CursorOffset(old(CurrentView())))
                           else NotInContent
    {
      if cursorField != Content {
        statusMsg := NotInContent;
        return;
      }
      var actualPos := displayLines[cursorDisplayLine].offset + cursorPos;
      SplitCursorEntry();
      statusMsg := SplitAt(actualPos);
    }

    /** The content-field case of split_line_at_cursor. */
    method SplitCursorEntry()
      requires Shown(CurrentView(), cw) && !initialLoad && cursorField == Content
      modifies this`entries, this`displayLines, this`cursorDisplayLine, this`cursorPos
      ensures CurrentView() == SplitAtCursor(old(CurrentView()), cw)
    {
      var l := displayLines[cursorDisplayLine];
      var entryIdx := l.entry;
      var es := SplitEntryAt(entries, entryIdx, l.offset + cursorPos);
      StoreAndStart(es, entryIdx + 1);
    }

    /** The new entries stored, reflow, and the cursor to the start of entry e. */
    method StoreAndStart(es: seq<DialogueEntry>, e: nat)
      requires cw >= 1 && |es| >= 1 && !initialLoad
      modifies this`entries, this`displayLines, this`cursorDisplayLine, this`cursorPos
      ensures CurrentView() == ToStart(Reflowed(old(CurrentView()).(entries := es), cw), cw, e)
    {
      ghost var v := CurrentView();
      entries := es;
      Reflow();
      assert CurrentView() == Reflowed(v.(entries := es), cw);
      CursorToStart(e);
    }

    /** The cursor to column 0 of the first row of entry e, found by the forward scan. */
    method CursorToStart(e: nat)
      requires Shown(CurrentView(), cw)
      modifies this`cursorDisplayLine, this`cursorPos
      ensures CurrentView() == ToStart(old(CurrentView()), cw, e)
    {
      var i := FindStart(displayLines, e);
      if i.Some? {
        cursorDisplayLine, cursorPos := i.value, 0;
      }
    }

    /** The cursor to the first row of entry e, found by the forward scan. */
    method FollowEntry(e: nat)
      modifies this`cursorDisplayLine
      ensures CurrentView() == Follow(old(CurrentView()), e)
    {
      var i := FindStart(displayLines, e);
      if i.Some? {
        cursorDisplayLine := i.value;
      }
    }

    /** The entries replaced by es, the table rebuilt, and the cursor taken to the first row of
        entry e: how both moves end. */
    method RelayAndFollow(es: seq<DialogueEntry>, e: nat)
      requires cw >= 1 && |es| >= 1 && !initialLoad
      modifies this`entries, this`displayLines, this`cursorDisplayLine, this`cursorPos
      ensures CurrentView() == Relaid(old(CurrentView()), cw, es, e)
    {
      entries := es;
      Reflow();
      FollowEntry(e);
    }

    /** Enter in process_key: a snapshot is saved, then split_line_at_cursor. */
    method SplitEntryKey()
      requires Valid()
      modifies this`entries, this`displayLines, this`cursorDisplayLine, this`cursorPos,
        this`statusMsg, this`undoStack
      ensures undoStack == Pushed(old(undoStack), SnapshotOf(old(CurrentView())))
      ensures CurrentView() == SplitAtCursor(old(CurrentView()), cw)
      ensures statusMsg == RearrangeStatus(old(CurrentView()), SplitHere)
      ensures HistoryOk()
    {
      SaveUndoState();
      SplitLineAtCursor();
    }

    /** move_entry_up: a snapshot is saved (even when the move is refused), then the move. */
    method MoveEntryUp()
      requires Valid()
      modifies this`entries, this`displayLines, this`cursorDisplayLine, this`cursorPos,
        this`statusMsg, this`undoStack
      ensures undoStack == Pushed(old(undoStack), SnapshotOf(old(CurrentView())))
      ensures CurrentView() == MovedUp(old(CurrentView()), cw)
      ensures statusMsg == if MoveUpRefused(old(CurrentView())) then AlreadyTop else EntryMovedUp
      ensures HistoryOk()
    {
      SaveUndoState();
      MoveUp();
    }

    /** move_entry_up after the snapshot: a continuation row first splits its entry there; the
        entry is exchanged with the one before it and the cursor follows it. */
    method MoveUp()
      requires Shown(CurrentView(), cw) && !initialLoad
      modifies this`entries, this`displayLines, this`cursorDisplayLine, this`cursorPos, this`statusMsg
      ensures CurrentView() == MovedUp(old(CurrentView()), cw)
      ensures statusMsg == if MoveUpRefused(old(CurrentView())) then AlreadyTop else EntryMovedUp
    {
      var es, entryIdx := SplitBeforeMoveUp();
      if entryIdx <= 0 {
        statusMsg := AlreadyTop;
        return;
      }
      es := Swapped(es, entryIdx, entryIdx - 1);
      RelayAndFollow(es, entryIdx - 1);
      statusMsg := EntryMovedUp;
    }

    /** move_entry_up's first step: a continuation row's entry split there (no reflow), and the
        index of the entry to move. */
    method SplitBeforeMoveUp() returns (es: seq<DialogueEntry>, e: nat)
      requires Shown(CurrentView(), cw)
      ensures (es, e) == SplitForMoveUp(CurrentView(), cw)
    {
      var l := displayLines[cursorDisplayLine];
      es, e := entries, l.entry;
      if l.offset > 0 {
        es := SplitEntryAt(es, e, l.offset);
        e := e + 1;
      }
    }

    /** move_entry_down: a snapshot is saved (even when the move is refused); a continuation
        row first splits its entry there, reflows and follows the second part; then the move. */
    method MoveEntryDown()
      requires Valid()
      modifies this`entries, this`displayLines, this`cursorDisplayLine, this`cursorPos,
        this`statusMsg, this`undoStack
      ensures undoStack == Pushed(old(undoStack), SnapshotOf(old(CurrentView())))
      ensures CurrentView() == MovedDown(old(CurrentView()), cw)
      ensures statusMsg == if MoveDownRefused(old(CurrentView())) then AlreadyBottom else EntryMovedDown
      ensures HistoryOk()
    {
      SaveUndoState();
      MoveDown();
    }

    /** move_entry_down after the snapshot: a continuation row first splits its entry there;
        the entry is exchanged with the one after it and the cursor follows it. */
    method MoveDown()
      requires Shown(CurrentView(), cw) && !initialLoad
      modifies this`entries, this`displayLines, this`cursorDisplayLine, this`cursorPos, this`statusMsg
      ensures CurrentView() == MovedDown(old(CurrentView()), cw)
      ensures statusMsg == if MoveDownRefused(old(CurrentView())) then AlreadyBottom else EntryMovedDown
    {
      SplitBeforeMoveDown();
      SwapWithNext();
    }

    /** move_entry_down's first step: on a continuation row the entry is split at the row's
        offset, the table rebuilt, and the cursor taken to the second part. */
    method SplitBeforeMoveDown()
      requires Shown(CurrentView(), cw) && !initialLoad
      modifies this`entries, this`displayLines, this`cursorDisplayLine, this`cursorPos
      ensures CurrentView() == SplitForMoveDown(old(CurrentView()), cw)
    {
      var l := displayLines[cursorDisplayLine];
      if l.offset > 0 {
        var es := SplitEntryAt(entries, l.entry, l.offset);
        RelayAndFollow(es, l.entry + 1);
      }
    }

    /** move_entry_down's second step: unless the cursor's entry is the last, it is exchanged
        with the one after it and the cursor follows it. */
    method SwapWithNext()
      requires Shown(CurrentView(), cw) && !initialLoad && displayLines[cursorDisplayLine].offset == 0
      modifies this`entries, this`displayLines, this`cursorDisplayLine, this`cursorPos, this`statusMsg
      ensures CurrentView() == SwappedDown(old(CurrentView()), cw)
      ensures statusMsg == if MoveDownRefused(old(CurrentView())) then AlreadyBottom else EntryMovedDown
    {
      var entryIdx := displayLines[cursorDisplayLine].entry;
      if entryIdx >= |entries| - 1 {
        statusMsg := AlreadyBottom;
        return;
      }
      var es := entries;
      es := Swapped(es, entryIdx, entryIdx + 1);
      RelayAndFollow(es, entryIdx + 1);
      statusMsg := EntryMovedDown;
    }

    /** undo: with at most one snapshot there is nothing to undo; otherwise the newest snapshot
        is dropped and the one below it is copied back, followed by a reflow. */
    method Undo()
      requires Valid()
      modifies this`entries, this`displayLines, this`cursorDisplayLine, this`cursorField,
        this`cursorPos, this`scrollOffset, this`statusMsg, this`undoStack
      ensures |old(undoStack)| <= 1 ==>
        CurrentView() == old(CurrentView()) && undoStack == old(undoStack) && statusMsg == NothingToUndo
      ensures |old(undoStack)| >= 2 ==>
        undoStack == Popped(old(undoStack)) && CurrentView() == Restore(Restored(old(undoStack)), cw) &&
        statusMsg == UndoDone
      ensures HistoryOk()
    {
      if |undoStack| <= 1 {
        statusMsg := NothingToUndo;
        return;
      }
      ghost var before := undoStack;
      PoppedNonEmpty(undoStack);
      undoStack := undoStack[..|undoStack| - 1];
      assert undoStack == Popped(before) && undoStack[|undoStack| - 1] == Restored(before);
      RestoreState(undoStack[|undoStack| - 1]);
      statusMsg := UndoDone;
    }

    /** undo's copy of a snapshot back into the editor, followed by a reflow. */
    method RestoreState(s: Snapshot)
      requires cw >= 1 && |s.entries| >= 1 && !initialLoad
      modifies this`entries, this`displayLines, this`cursorDisplayLine, this`cursorField,
        this`cursorPos, this`scrollOffset
      ensures CurrentView() == Restore(s, cw)
    {
      var copy := CopyEntries(s.entries);
      entries, cursorDisplayLine, cursorField, cursorPos, scrollOffset :=
        copy, s.cursorDisplayLine, s.cursorField, s.cursorPos, s.scrollOffset;
      Reflow();
    }

    /** The Up arrow. */
    method ArrowUp()
      requires Valid()
      modifies this`cursorDisplayLine, this`cursorPos, this`scrollOffset
      ensures CurrentView() == Up(old(CurrentView()))
    {
      UpShown(CurrentView(), cw);
      if cursorDisplayLine > 0 {
        cursorDisplayLine := cursorDisplayLine - 1;
        cursorPos := Min(cursorPos, FieldLength(CurrentView()));
        if cursorDisplayLine < scrollOffset {
          scrollOffset := cursorDisplayLine;
        }
      }
    }

    /** The Down arrow; the view scrolls when the row falls below the height - 1 visible
        rows. */
    method ArrowDown()
      requires Valid()
      modifies this`cursorDisplayLine, this`cursorPos, this`scrollOffset
      ensures CurrentView() == Down(old(CurrentView()), height)
    {
      DownShown(CurrentView(), cw, height);
      if cursorDisplayLine < |displayLines| - 1 {
        cursorDisplayLine := cursorDisplayLine + 1;
        cursorPos := Min(cursorPos, FieldLength(CurrentView()));
        var maxVisible := height - 1;
        if cursorDisplayLine >= scrollOffset + maxVisible {
          scrollOffset := cursorDisplayLine - maxVisible + 1;
        }
      }
    }

    /** The Left arrow: one column left, or from column 0 of the content field to the end of the
        nearest earlier row of the same entry. */
    method ArrowLeft()
      requires Valid()
      modifies this`cursorDisplayLine, this`cursorPos
      ensures CurrentView() == Left(old(CurrentView()))
    {
      LeftShown(CurrentView(), cw);
      if cursorPos > 0 {
        cursorPos := cursorPos - 1;
      } else if cursorField == Content {
        var currentEntryIdx := displayLines[cursorDisplayLine].entry;
        var i := FindLastBefore(displayLines, currentEntryIdx, cursorDisplayLine);
        if i.Some? {
          cursorDisplayLine := i.value;
          cursorPos := |displayLines[i.value].text|;
        }
      }
    }

    /** The Right arrow: one column right, or from the end of the content field to column 0 of
        the next row, scrolling down when needed. */
    method ArrowRight()
      requires Valid()
      modifies this`cursorDisplayLine, this`cursorPos, this`scrollOffset
      ensures CurrentView() == Right(old(CurrentView()), height)
    {
      RightShown(CurrentView(), cw, height);
      if cursorPos < FieldLength(CurrentView()) {
        cursorPos := cursorPos + 1;
      } else if cursorField == Content && cursorDisplayLine < |displayLines| - 1 {
        cursorDisplayLine := cursorDisplayLine + 1;
        cursorPos := 0;
        var maxVisible := height - 1;
        if cursorDisplayLine >= scrollOffset + maxVisible {
          scrollOffset := cursorDisplayLine - maxVisible + 1;
        }
      }
    }

    /** process_key: the status line is cleared, the keystroke counter advances (an autosave is
        due when it reaches the interval, and the counter restarts), and then the key's action
        is performed. The autosave and the file writes are left to the caller, which `autosave`
        and `req` tell what to do; the swap file gets the entries as they were before the
        key. */
    method ProcessKey(key: int) returns (autosave: bool, req: Request)
      requires Valid()
      modifies this
      ensures keystrokeCount == Tick(old(keystrokeCount)) && autosave == (keystrokeCount == 0)
      ensures var a := Dispatch(key, old(cursorField)); var v := old(CurrentView());
        CurrentView() == StepView(v, old(undoStack), a, cw, height) &&
        undoStack == StepStack(v, old(undoStack), a) &&
        statusMsg == StepStatus(v, old(undoStack), a, if autosave then Autosaved else NoStatus) &&
        req == StepRequest(a)
      ensures Valid()
    {
      var a := Dispatch(key, cursorField);
      autosave := CountKeystroke();
      req := if a == SaveFile then SaveRequested else if a == Quit then QuitRequested else NoRequest;
      Perform(a);
    }

    /** The start of process_key: the status line cleared and the keystroke counted; when the
        count reaches the autosave interval the autosave is due, the status line says so, and
        the count restarts. */
    method CountKeystroke() returns (autosave: bool)
      requires keystrokeCount < AutosaveInterval
      modifies this`keystrokeCount, this`statusMsg
      ensures keystrokeCount == Tick(old(keystrokeCount)) && autosave == (keystrokeCount == 0)
      ensures statusMsg == if autosave then Autosaved else NoStatus
    {
      statusMsg := NoStatus;
      keystrokeCount := keystrokeCount + 1;
      autosave := false;
      if keystrokeCount >= AutosaveInterval {
        autosave := true;
        statusMsg := Autosaved;
        keystrokeCount := 0;
      }
    }

    /** The action of a key. */
    method Perform(a: Action)
      requires Valid()
      modifies this`entries, this`displayLines, this`cursorDisplayLine, this`cursorField,
        this`cursorPos, this`scrollOffset, this`statusMsg, this`undoStack
      ensures CurrentView() == StepView(old(CurrentView()), old(undoStack), a, cw, height)
      ensures undoStack == StepStack(old(CurrentView()), old(undoStack), a)
      ensures statusMsg == StepStatus(old(CurrentView()), old(undoStack), a, old(statusMsg))
      ensures Valid()
    {
      if IsEdit(a) {
        PerformEdit(a);
      } else {
        PerformOther(a);
      }
    }

    /** The keys that change the entries; each saves a snapshot first. */
    method PerformEdit(a: Action)
      requires Valid() && IsEdit(a)
      modifies this`entries, this`displayLines, this`cursorDisplayLine, this`cursorField,
        this`cursorPos, this`scrollOffset, this`statusMsg, this`undoStack
      ensures CurrentView() == StepView(old(CurrentView()), old(undoStack), a, cw, height)
      ensures undoStack == StepStack(old(CurrentView()), old(undoStack), a)
      ensures statusMsg == StepStatus(old(CurrentView()), old(undoStack), a, old(statusMsg))
      ensures HistoryOk()
    {
      if IsTyping(a) {
        PerformTyping(a);
      } else {
        PerformRearrange(a);
      }
    }

    /** Typing, backspace and clearing the speaker. */
    method PerformTyping(a: Action)
      requires Valid() && IsTyping(a)
      modifies this`entries, this`displayLines, this`cursorDisplayLine, this`cursorField,
        this`cursorPos, this`scrollOffset, this`statusMsg, this`undoStack
      ensures CurrentView() == StepView(old(CurrentView()), old(undoStack), a, cw, height)
      ensures undoStack == StepStack(old(CurrentView()), old(undoStack), a)
      ensures statusMsg == StepStatus(old(CurrentView()), old(undoStack), a, old(statusMsg))
      ensures HistoryOk()
    {
      TypingStep(CurrentView(), undoStack, a, statusMsg, cw, height);
      match a {
        case Insert(c) =>
          HandleInsert(c);
        case Erase =>
          HandleBackspace();
        case ClearSpeaker =>
          ClearSpeakerField();
      }
    }

    /** Splitting an entry and moving one. */
    method PerformRearrange(a: Action)
      requires Valid() && IsRearrange(a)
      modifies this`entries, this`displayLines, this`cursorDisplayLine, this`cursorField,
        this`cursorPos, this`scrollOffset, this`statusMsg, this`undoStack
      ensures CurrentView() == StepView(old(CurrentView()), old(undoStack), a, cw, height)
      ensures undoStack == StepStack(old(CurrentView()), old(undoStack), a)
      ensures statusMsg == StepStatus(old(CurrentView()), old(undoStack), a, old(statusMsg))
      ensures HistoryOk()
    {
      RearrangeStep(CurrentView(), undoStack, a, statusMsg, cw, height);
      match a {
        case SplitHere =>
          SplitEntryKey();
        case MoveEntryUp =>
          MoveEntryUp();
        case MoveEntryDown =>
          MoveEntryDown();
      }
    }

    /** Undo, the control keys, and the keys that only move the cursor. */
    method PerformOther(a: Action)
      requires Valid() && !IsEdit(a)
      modifies this`entries, this`displayLines, this`cursorDisplayLine, this`cursorField,
        this`cursorPos, this`scrollOffset, this`statusMsg, this`undoStack
      ensures CurrentView() == StepView(old(CurrentView()), old(undoStack), a, cw, height)
      ensures undoStack == StepStack(old(CurrentView()), old(undoStack), a)
      ensures statusMsg == StepStatus(old(CurrentView()), old(undoStack), a, old(statusMsg))
      ensures HistoryOk()
    {
      if a.UndoKey? {
        Undo();
      } else if a.ControlKey? {
        statusMsg := ControlKeyPressed(a.code);
      } else {
        PerformMove(a);
      }
    }

    /** The keys that only move the cursor or toggle its field, and those that leave the
        editor's state alone. */
    method PerformMove(a: Action)
      requires Valid() && !IsEdit(a) && !a.UndoKey? && !a.ControlKey?
      modifies this`cursorDisplayLine, this`cursorField, this`cursorPos, this`scrollOffset
      ensures CurrentView() == StepView(old(CurrentView()), undoStack, a, cw, height)
      ensures StepStack(old(CurrentView()), undoStack, a) == undoStack
      ensures StepStatus(old(CurrentView()), undoStack, a, statusMsg) == statusMsg
    {
      MoveStep(CurrentView(), undoStack, a, statusMsg, cw, height);
      HomeEndTabShown(CurrentView(), cw);
      match a {
        case GoUp =>
          ArrowUp();
        case GoDown =>
          ArrowDown();
        case GoLeft =>
          ArrowLeft();
        case GoRight =>
          ArrowRight();
        case GoHome =>
          cursorPos := 0;
        case GoEnd =>
          cursorPos := FieldLength(CurrentView());
        case ToggleField =>
          cursorField, cursorPos := if cursorField == Content then Speaker else Content, 0;
        case SaveFile =>
        case Quit =>
        case Ignore =>
      }
    }
  }
}
