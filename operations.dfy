/** The edit keys as functions on the editor's view: insert, backspace, clearing the speaker,
    split, moving an entry up or down, and the state an undo restores. Each keeps the view shown
    (the table rebuilt from the entries, the cursor on a row and within its field). */
module Operations {
  import opened Wrappers
  import opened Dialogue
  import opened WordWrap
  import opened Display
  import opened Undo
  import opened Edits
  import opened Cursor

  // ---------------------------------------------------------------------------------------
  // The end of every content edit

  /** The entries replaced by es, the table rebuilt from them, and the cursor put on offset t
      of entry e: how insert, delete and join in the content field end. The cursor is then in
      the content field on a row of e, on t itself whenever a row shows t, and otherwise at the
      end of e's last row. */
  function Relocated(v: View, cw: int, es: seq<DialogueEntry>, e: nat, t: nat): (r: View)
    requires cw >= 1 && e < |es|
    ensures Shown(r, cw) && r.entries == es && r.field == Content && CursorEntry(r) == e
    ensures Reachable(es[e].text, cw, t) ==> Shows(r.lines, Spot(r.line, r.pos), e, t)
    ensures !Reachable(es[e].text, cw, t) ==> CursorOffset(r) == ShownEnd(es[e].text, cw)
  {
    var w := Reflowed(v.(entries := es), cw);
    PlacedLands(w, cw, e, t);
    Placed(w, e, t)
  }

  /** A shown cursor that shows offset t of its entry is on t itself, or at column 0 of a row
      that starts one past t, after a space that wrapping consumed. */
  lemma ShowsOffset(r: View, cw: int, t: nat)
    requires Shown(r, cw) && Shows(r.lines, Spot(r.line, r.pos), CursorEntry(r), t)
    ensures var text := r.entries[CursorEntry(r)].text;
      CursorOffset(r) == t ||
      (r.pos == 0 && CursorOffset(r) == t + 1 && t < |text| && text[t] == ' ')
  {
    if CursorOffset(r) != t {
      ContinuationGap(r.entries, cw, r.line - 1);
    }
  }

  // ---------------------------------------------------------------------------------------
  // Insert

  /** handle_insert: in the speaker field the character goes into the speaker at the cursor and
      the cursor moves one column right; in the content field it goes into the text at the
      cursor's offset, and the cursor is placed just after it. */
  function Inserted(v: View, cw: int, ch: char): (r: View)
    requires Shown(v, cw)
    ensures Shown(r, cw) && |r.entries| == |v.entries|
  {
    var e := CursorEntry(v);
    var d := v.entries[e];
    if v.field == Speaker then
      Reflowed(v.(entries := v.entries[e := DialogueEntry(Spliced(d.speaker, v.pos, ch), d.text)],
                  pos := v.pos + 1), cw)
    else
      var at := CursorOffset(v);
      Relocated(v, cw, v.entries[e := DialogueEntry(d.speaker, Spliced(d.text, at, ch))], e, at + 1)
  }

  /** A content insert ends as every content edit does, at the offset just after the new
      character. */
  lemma InsertedRelocates(v: View, cw: int, ch: char)
    requires Shown(v, cw) && v.field == Content
    ensures var e := CursorEntry(v); var d := v.entries[e]; var at := CursorOffset(v);
      Inserted(v, cw, ch) == Relocated(v, cw, v.entries[e := DialogueEntry(d.speaker, Spliced(d.text, at, ch))], e, at + 1)
  {
  }

  /** A speaker insert changes only that speaker, leaves the table and the cursor's row as they
      were, and moves the cursor one column right. */
  lemma InsertedSpeaker(v: View, cw: int, ch: char)
    requires Shown(v, cw) && v.field == Speaker
    ensures var e := CursorEntry(v); var d := v.entries[e];
      Inserted(v, cw, ch) ==
        v.(entries := v.entries[e := DialogueEntry(Spliced(d.speaker, v.pos, ch), d.text)], pos := v.pos + 1)
  {
    var e := CursorEntry(v);
    var d := v.entries[e];
    ShownSameTexts(v, v.entries[e := DialogueEntry(Spliced(d.speaker, v.pos, ch), d.text)], cw);
  }

  /** A content insert puts the character at the cursor's offset in the cursor's entry, leaves
      every other entry and the speaker alone, and leaves the cursor on that entry, just after
      the new character whenever a row shows that offset, and otherwise at the end of the
      entry's last row. */
  lemma InsertedContent(v: View, cw: int, ch: char)
    requires Shown(v, cw) && v.field == Content
    ensures var r := Inserted(v, cw, ch); var e := CursorEntry(v); var at := CursorOffset(v);
      r.entries == v.entries[e := DialogueEntry(v.entries[e].speaker, Spliced(v.entries[e].text, at, ch))] &&
      r.field == Content && CursorEntry(r) == e &&
      (Reachable(r.entries[e].text, cw, at + 1) ==> Shows(r.lines, Spot(r.line, r.pos), e, at + 1)) &&
      (!Reachable(r.entries[e].text, cw, at + 1) ==> CursorOffset(r) == ShownEnd(r.entries[e].text, cw))
  {
  }

  // ---------------------------------------------------------------------------------------
  // Backspace

  /** What backspace in the content field does, by the cursor's place: at column 0 of a row that
      continues its entry it moves to the end of the entry's row above; at column 0 of an
      entry's first row it joins the entry to the previous one when the two texts together are
      at most three content widths long; otherwise it deletes the character before the cursor,
      if there is one. */
  datatype Erase = ToRowAbove(row: nat) | JoinPrevious | DeleteChar | NoErase

  function ContentErase(es: seq<DialogueEntry>, L: seq<Line>, n: nat, p: nat, cw: int): (r: Erase)
    requires n < |L| && L[n].entry < |es|
    ensures r.ToRowAbove? ==> r.row < n && L[r.row].entry == L[n].entry
    ensures r.JoinPrevious? ==> L[n].entry > 0
    ensures r.DeleteChar? ==> L[n].offset + p > 0
  {
    var l := L[n];
    if p == 0 && l.offset > 0 && LastBefore(L, l.entry, n).Some? then ToRowAbove(LastBefore(L, l.entry, n).value)
    else if p == 0 && l.offset == 0 && l.entry > 0 &&
            |es[l.entry - 1].text| + |es[l.entry].text| <= cw * 3 then JoinPrevious
    else if l.offset + p > 0 then DeleteChar
    else NoErase
  }

  /** In the table reflow builds, backspace at column 0 of a continuation row always finds the
      row above; it leaves the text alone only at the very start of the first entry, or at the
      start of an entry whose join would be too long. */
  lemma ContentEraseCases(es: seq<DialogueEntry>, cw: int, n: nat, p: nat)
    requires cw >= 1 && n < |Layout(es, cw)| && Layout(es, cw)[n].entry < |es|
    ensures var L := Layout(es, cw); var l := L[n];
      (p == 0 && l.offset > 0 ==> ContentErase(es, L, n, p, cw) == ToRowAbove(n - 1)) &&
      (ContentErase(es, L, n, p, cw) == NoErase <==>
        p == 0 && l.offset == 0 &&
        (l.entry == 0 || |es[l.entry - 1].text| + |es[l.entry].text| > cw * 3))
  {
    if Layout(es, cw)[n].offset > 0 {
      ContinuationRowAbove(es, cw, n);
    }
  }

  /** handle_backspace: in the speaker field the character before the cursor, if any, is taken
      out of the speaker; in the content field the cursor's place decides, as ContentErase
      says. */
  function Backspaced(v: View, cw: int): (r: View)
    requires Shown(v, cw)
    ensures Shown(r, cw)
  {
    var e := CursorEntry(v);
    var d := v.entries[e];
    if v.field == Speaker then
      if v.pos > 0 then
        Reflowed(v.(entries := v.entries[e := DialogueEntry(Removed(d.speaker, v.pos - 1), d.text)],
                    pos := v.pos - 1), cw)
      else Reflowed(v, cw)
    else ContentBackspaced(v, cw)
  }

  /** Backspace in the content field, as ContentErase decides. */
  function ContentBackspaced(v: View, cw: int): (r: View)
    requires Shown(v, cw) && v.field == Content
    ensures Shown(r, cw)
  {
    match ContentErase(v.entries, v.lines, v.line, v.pos, cw)
    case ToRowAbove(i) =>
      LineFits(v.entries, cw, i);
      v.(line := i, pos := |v.lines[i].text|)
    case JoinPrevious => Joined(v, cw)
    case DeleteChar => Deleted(v, cw)
    case NoErase => v
  }

  /** The cursor's entry appended to the previous one and removed; the cursor goes to the join. */
  function Joined(v: View, cw: int): (r: View)
    requires Shown(v, cw) && CursorEntry(v) > 0
    ensures Shown(r, cw)
  {
    var e := CursorEntry(v);
    Relocated(v, cw, JoinBack(v.entries, e), e - 1, |v.entries[e - 1].text|)
  }

  /** The character before the cursor's offset taken out of the cursor's entry; the cursor goes
      to the offset one less. */
  function Deleted(v: View, cw: int): (r: View)
    requires Shown(v, cw) && v.field == Content && CursorOffset(v) > 0
    ensures Shown(r, cw)
  {
    var e := CursorEntry(v);
    var d := v.entries[e];
    var at := CursorOffset(v);
    Relocated(v, cw, v.entries[e := DialogueEntry(d.speaker, Removed(d.text, at - 1))], e, at - 1)
  }

  /** Deleting changes the cursor's entry only, by taking out the character before the cursor's
      offset, and leaves the cursor on that entry, at the offset one less whenever a row shows
      it, and otherwise at the end of the entry's last row. */
  lemma DeletedChar(v: View, cw: int)
    requires Shown(v, cw) && v.field == Content && CursorOffset(v) > 0
    ensures var r := Deleted(v, cw); var e := CursorEntry(v); var at := CursorOffset(v);
      r.entries == v.entries[e := DialogueEntry(v.entries[e].speaker, Removed(v.entries[e].text, at - 1))] &&
      r.field == Content && CursorEntry(r) == e &&
      (Reachable(r.entries[e].text, cw, at - 1) ==> Shows(r.lines, Spot(r.line, r.pos), e, at - 1)) &&
      (!Reachable(r.entries[e].text, cw, at - 1) ==> CursorOffset(r) == ShownEnd(r.entries[e].text, cw))
  {
  }

  /** A speaker backspace takes out the character before the cursor, if there is one, and
      leaves the table and the cursor's row as they were. */
  lemma BackspacedSpeaker(v: View, cw: int)
    requires Shown(v, cw) && v.field == Speaker
    ensures var e := CursorEntry(v); var d := v.entries[e];
      Backspaced(v, cw) ==
        if v.pos > 0 then
          v.(entries := v.entries[e := DialogueEntry(Removed(d.speaker, v.pos - 1), d.text)], pos := v.pos - 1)
        else v
  {
    var e := CursorEntry(v);
    var d := v.entries[e];
    if v.pos > 0 {
      ShownSameTexts(v, v.entries[e := DialogueEntry(Removed(d.speaker, v.pos - 1), d.text)], cw);
    }
  }

  /** At column 0 of a continuation row nothing is deleted: the cursor moves to the end of the
      row just above, which shows the same entry. */
  lemma BackspacedContinuation(v: View, cw: int)
    requires Shown(v, cw) && v.field == Content && v.pos == 0 && v.lines[v.line].offset > 0
    ensures var r := Backspaced(v, cw);
      r.entries == v.entries && r.lines == v.lines && v.line >= 1 && r.line == v.line - 1 &&
      r.pos == |v.lines[v.line - 1].text| && CursorEntry(r) == CursorEntry(v)
  {
    ContentEraseCases(v.entries, cw, v.line, v.pos);
  }

  /** At column 0 of an entry's first row, past the first entry, when the two texts together
      are at most three content widths long: the entry is appended to the previous one and
      removed, and the cursor goes to the join, the old end of the previous text, or to the end
      of the joined entry's last row when wrapping dropped a space there. */
  lemma BackspacedJoin(v: View, cw: int)
    requires Shown(v, cw) && v.field == Content && v.pos == 0 && v.lines[v.line].offset == 0
    requires CursorEntry(v) > 0
    requires |v.entries[CursorEntry(v) - 1].text| + |v.entries[CursorEntry(v)].text| <= cw * 3
    ensures var r := Backspaced(v, cw); var e := CursorEntry(v); var t := |v.entries[e - 1].text|;
      r.entries == JoinBack(v.entries, e) && |r.entries| == |v.entries| - 1 &&
      r.entries[e - 1].text == v.entries[e - 1].text + v.entries[e].text &&
      r.field == Content && CursorEntry(r) == e - 1 &&
      (Reachable(r.entries[e - 1].text, cw, t) ==> Shows(r.lines, Spot(r.line, r.pos), e - 1, t)) &&
      (!Reachable(r.entries[e - 1].text, cw, t) ==> CursorOffset(r) == ShownEnd(r.entries[e - 1].text, cw))
  {
    assert Backspaced(v, cw) == Joined(v, cw);
  }

  /** At column 0 of the first entry's first row, or of an entry whose join would be too long,
      backspace changes nothing. */
  lemma BackspacedRefused(v: View, cw: int)
    requires Shown(v, cw) && v.field == Content && v.pos == 0 && v.lines[v.line].offset == 0
    requires CursorEntry(v) == 0 ||
             |v.entries[CursorEntry(v) - 1].text| + |v.entries[CursorEntry(v)].text| > cw * 3
    ensures Backspaced(v, cw) == v
  {
    ContentEraseCases(v.entries, cw, v.line, v.pos);
  }

  /** Past column 0, backspace in the content field deletes the character before the cursor's
      offset. */
  lemma BackspacedDelete(v: View, cw: int)
    requires Shown(v, cw) && v.field == Content && v.pos > 0
    ensures CursorOffset(v) > 0 && Backspaced(v, cw) == Deleted(v, cw)
  {
  }

  /** Typing a character other than a space and then backspace gives the entries back, unless
      the cursor was carried to the start of the next row: there backspace only moves, and the
      typed character stays. */
  lemma InsertThenBackspace(v: View, cw: int, ch: char)
    requires Shown(v, cw) && v.field == Content && ch != ' '
    ensures var r := Inserted(v, cw, ch);
      (r.pos > 0 ==> Backspaced(r, cw).entries == v.entries) &&
      (r.pos == 0 ==> Backspaced(r, cw).entries == r.entries)
  {
    var r := Inserted(v, cw, ch);
    InsertedAfter(v, cw, ch);
    if r.pos > 0 {
      EraseTyped(v, r, cw, ch);
    } else {
      BackspacedContinuation(r, cw);
    }
  }

  /** Backspace right after a character typed at offset `at` of entry e takes it out again. */
  lemma EraseTyped(v: View, r: View, cw: int, ch: char)
    requires Shown(v, cw) && v.field == Content && Shown(r, cw) && r.field == Content && r.pos > 0
    requires CursorEntry(r) == CursorEntry(v) && CursorOffset(r) == CursorOffset(v) + 1
    requires r.entries == v.entries[CursorEntry(v) := DialogueEntry(v.entries[CursorEntry(v)].speaker,
                                     Spliced(v.entries[CursorEntry(v)].text, CursorOffset(v), ch))]
    ensures Backspaced(r, cw).entries == v.entries
  {
    BackspacedDelete(r, cw);
    DeletedChar(r, cw);
    TypeThenErase(v.entries, CursorEntry(v), CursorOffset(v), ch);
  }

  /** After typing a character other than a space, the cursor sits right after it, or, when
      that offset ends a row and the next row starts after a space wrapping consumed, at
      column 0 of that next row, one offset further on. */
  lemma InsertedAfter(v: View, cw: int, ch: char)
    requires Shown(v, cw) && v.field == Content && ch != ' '
    ensures var r := Inserted(v, cw, ch); var e := CursorEntry(v); var d := v.entries[e];
      var at := CursorOffset(v);
      r.field == Content && CursorEntry(r) == e &&
      r.entries == v.entries[e := DialogueEntry(d.speaker, Spliced(d.text, at, ch))] &&
      (CursorOffset(r) == at + 1 ||
       (r.pos == 0 && CursorOffset(r) == at + 2 && r.entries[e].text[at + 1] == ' '))
  {
    var e := CursorEntry(v);
    var at := CursorOffset(v);
    var r := Inserted(v, cw, ch);
    InsertedContent(v, cw, ch);
    ReachableWhen(r.entries[e].text, cw, at + 1);
    ShowsOffset(r, cw, at + 1);
  }

  // ---------------------------------------------------------------------------------------
  // Clearing the speaker

  /** The `\` key in the speaker field: the speaker of the cursor's entry becomes empty and the
      cursor goes to column 0; the table and the cursor's row stay as they were. */
  function ClearedSpeaker(v: View, cw: int): (r: View)
    requires Shown(v, cw)
    ensures Shown(r, cw)
    ensures r == v.(entries := v.entries[CursorEntry(v) := DialogueEntry("", v.entries[CursorEntry(v)].text)], pos := 0)
  {
    var e := CursorEntry(v);
    var es := v.entries[e := DialogueEntry("", v.entries[e].text)];
    ShownSameTexts(v, es, cw);
    Reflowed(v.(entries := es, pos := 0), cw)
  }

  // ---------------------------------------------------------------------------------------
  // Split

  /** split_line_at_cursor: outside the content field nothing changes; otherwise the cursor's
      entry keeps the text before the cursor, a new entry of the same speaker with the rest is
      put right after it, and the cursor goes to column 0 of the new entry's first row. */
  function SplitAtCursor(v: View, cw: int): (r: View)
    requires Shown(v, cw)
    ensures Shown(r, cw)
  {
    if v.field != Content then v
    else
      var e := CursorEntry(v);
      ToStart(Reflowed(v.(entries := SplitEntry(v.entries, e, CursorOffset(v))), cw), cw, e + 1)
  }

  /** The cursor to column 0 of the first row that starts entry e, when there is one. */
  function ToStart(w: View, cw: int, e: nat): (r: View)
    requires Shown(w, cw)
    ensures Shown(r, cw)
  {
    match FirstStart(w.lines, e, 0)
    case Some(i) =>
      LineFits(w.entries, cw, i);
      w.(line := i, pos := 0)
    case None => w
  }

  /** A split adds exactly one entry: the prefix stays in place, the suffix follows it with the
      same speaker, everything else shifts by one; the cursor is at column 0 of the first row of
      the new entry. */
  lemma SplitResult(v: View, cw: int)
    requires Shown(v, cw) && v.field == Content
    ensures var r := SplitAtCursor(v, cw); var e := CursorEntry(v);
      r.entries == SplitEntry(v.entries, e, CursorOffset(v)) && |r.entries| == |v.entries| + 1 &&
      r.field == Content && r.pos == 0 && CursorEntry(r) == e + 1 && r.lines[r.line].offset == 0 &&
      FirstStart(r.lines, e + 1, 0) == Some(r.line)
  {
    var e := CursorEntry(v);
    var w := Reflowed(v.(entries := SplitEntry(v.entries, e, CursorOffset(v))), cw);
    StartFound(w.entries, cw, e + 1);
  }

  /** Splitting an entry and then pressing backspace at the start of the new entry gives the
      entries back, when the text is at most three content widths long; the cursor is back on
      the same offset of the same entry. */
  lemma SplitThenBackspace(v: View, cw: int)
    requires Shown(v, cw) && v.field == Content
    requires |v.entries[CursorEntry(v)].text| <= cw * 3
    ensures var r := Backspaced(SplitAtCursor(v, cw), cw); var e := CursorEntry(v);
      r.entries == v.entries && CursorEntry(r) == e && r.field == Content &&
      Shows(r.lines, Spot(r.line, r.pos), e, CursorOffset(v))
  {
    var e := CursorEntry(v);
    var at := CursorOffset(v);
    CoveredReachable(v.entries, cw, e, at, v.line);
    var s := SplitAtCursor(v, cw);
    SplitResult(v, cw);
    var es := SplitEntry(v.entries, e, at);
    assert |es[e].text| + |es[e + 1].text| == |v.entries[e].text|;
    BackspacedJoin(s, cw);
    SplitJoinRoundTrip(v.entries, e, at);
  }

  // ---------------------------------------------------------------------------------------
  // Moving an entry

  /** The cursor goes to the first row that starts entry e, when there is one; its column is
      left as it was. */
  function Follow(w: View, e: nat): View
  {
    match FirstStart(w.lines, e, 0)
    case Some(i) => w.(line := i)
    case None => w
  }

  /** The entries replaced by es, the table rebuilt, and the cursor taken to entry e's first
      row. */
  function Relaid(v: View, cw: int, es: seq<DialogueEntry>, e: nat): View
    requires cw >= 1 && |es| >= 1
  {
    Follow(Reflowed(v.(entries := es), cw), e)
  }

  /** When entry e of the new list has the speaker of the cursor's entry and the text of the
      cursor's row from that row's offset on, following it keeps the cursor within its field:
      the row it lands on starts entry e and shows what the cursor's row showed. */
  lemma RelaidShown(v: View, cw: int, es: seq<DialogueEntry>, e: nat)
    requires Shown(v, cw) && e < |es|
    requires es[e].speaker == v.entries[CursorEntry(v)].speaker
    requires es[e].text == v.entries[CursorEntry(v)].text[v.lines[v.line].offset..]
    ensures var r := Relaid(v, cw, es, e);
      Shown(r, cw) && r.entries == es && r.field == v.field && r.scroll == v.scroll &&
      r.lines[r.line] == Line(e, 0, v.lines[v.line].text) && FirstStart(r.lines, e, 0) == Some(r.line)
  {
    var w := Reflowed(v.(entries := es), cw);
    StartFound(es, cw, e);
    var i := Before(AllRows(es, cw), e);
    LineFits(es, cw, i);
    MovedRowText(v.entries, cw, v.line, es, e, i);
  }

  /** Page Up is refused on the first row of the first entry. */
  predicate MoveUpRefused(v: View)
    requires v.line < |v.lines|
  {
    v.lines[v.line].offset == 0 && v.lines[v.line].entry == 0
  }

  /** move_entry_up's first step: on a continuation row the entry is split at the row's offset
      (with no reflow) and the entry to move is the second part; otherwise it is the cursor's
      entry. The result is the entry list and the index of the entry to move, which is 0 exactly
      when the move is refused. */
  function SplitForMoveUp(v: View, cw: int): (r: (seq<DialogueEntry>, nat))
    requires Shown(v, cw)
    ensures r.1 < |r.0| && (r.1 == 0 <==> MoveUpRefused(v))
    ensures var l := v.lines[v.line];
      if l.offset > 0 then r == (SplitEntry(v.entries, l.entry, l.offset), l.entry + 1)
      else r == (v.entries, l.entry)
  {
    var l := v.lines[v.line];
    if l.offset > 0 then (SplitEntry(v.entries, l.entry, l.offset), l.entry + 1)
    else (v.entries, l.entry)
  }

  /** move_entry_up: after the first step, the entry to move is exchanged with the one before
      it and the cursor follows it. On the first row of the first entry nothing changes. */
  function MovedUp(v: View, cw: int): (r: View)
    requires Shown(v, cw)
    ensures Shown(r, cw) && r.field == v.field && r.scroll == v.scroll
    ensures MoveUpRefused(v) ==> r == v
  {
    var (es, e) := SplitForMoveUp(v, cw);
    if e == 0 then v
    else
      var d := v.entries[CursorEntry(v)];
      assert d.text[0..] == d.text;
      RelaidShown(v, cw, Swapped(es, e, e - 1), e - 1);
      Relaid(v, cw, Swapped(es, e, e - 1), e - 1)
  }

  /** Page Up on an entry's first row, past the first entry, exchanges the entry with the
      previous one; the cursor ends on the moved entry's first row, which shows what the cursor's
      row showed. */
  lemma MovedUpSwap(v: View, cw: int)
    requires Shown(v, cw) && v.lines[v.line].offset == 0 && v.lines[v.line].entry > 0
    ensures var r := MovedUp(v, cw); var l := v.lines[v.line];
      r.entries == Swapped(v.entries, l.entry, l.entry - 1) && CursorEntry(r) == l.entry - 1 &&
      r.lines[r.line].offset == 0 && r.lines[r.line].text == l.text &&
      FirstStart(r.lines, l.entry - 1, 0) == Some(r.line)
  {
    var l := v.lines[v.line];
    assert v.entries[l.entry].text[0..] == v.entries[l.entry].text;
    RelaidShown(v, cw, Swapped(v.entries, l.entry, l.entry - 1), l.entry - 1);
  }

  /** Page Up on a continuation row splits the entry at the row's offset and puts the second
      part before the first; the cursor ends on the second part's first row, which shows what
      the cursor's row showed. */
  lemma MovedUpSplit(v: View, cw: int)
    requires Shown(v, cw) && v.lines[v.line].offset > 0
    ensures var r := MovedUp(v, cw); var l := v.lines[v.line];
      r.entries == Swapped(SplitEntry(v.entries, l.entry, l.offset), l.entry + 1, l.entry) &&
      CursorEntry(r) == l.entry &&
      r.lines[r.line].offset == 0 && r.lines[r.line].text == l.text &&
      FirstStart(r.lines, l.entry, 0) == Some(r.line)
  {
    var l := v.lines[v.line];
    var es := SplitEntry(v.entries, l.entry, l.offset);
    RelaidShown(v, cw, Swapped(es, l.entry + 1, l.entry), l.entry);
  }

  /** Page Down is refused on the last entry (after the split a continuation row makes). */
  predicate MoveDownRefused(v: View)
    requires v.line < |v.lines|
  {
    v.lines[v.line].entry + 1 >= |v.entries|
  }

  /** move_entry_down's first step: on a continuation row the entry is split at the row's
      offset, the table rebuilt, and the cursor taken to the first row of the second part. */
  function SplitForMoveDown(v: View, cw: int): (u: View)
    requires Shown(v, cw)
    ensures Shown(u, cw) && u.field == v.field && u.scroll == v.scroll
    ensures u.lines[u.line].offset == 0 && u.lines[u.line].text == v.lines[v.line].text
    ensures MoveDownRefused(u) == MoveDownRefused(v)
    ensures var l := v.lines[v.line];
      if l.offset > 0 then
        u.entries == SplitEntry(v.entries, l.entry, l.offset) && CursorEntry(u) == l.entry + 1 &&
        FirstStart(u.lines, l.entry + 1, 0) == Some(u.line)
      else u == v
  {
    var l := v.lines[v.line];
    if l.offset > 0 then
      RelaidShown(v, cw, SplitEntry(v.entries, l.entry, l.offset), l.entry + 1);
      Relaid(v, cw, SplitEntry(v.entries, l.entry, l.offset), l.entry + 1)
    else v
  }

  /** move_entry_down: a cursor on a continuation row first splits its entry at that row's
      offset, reflows, and moves to the second part; unless that entry is the last, it is
      exchanged with the one after it and the cursor follows it. */
  function MovedDown(v: View, cw: int): (r: View)
    requires Shown(v, cw)
    ensures Shown(r, cw) && r.field == v.field && r.scroll == v.scroll
  {
    SwappedDown(SplitForMoveDown(v, cw), cw)
  }

  /** move_entry_down's second step: unless the cursor's entry is the last, it is exchanged
      with the one after it and the cursor follows it. */
  function SwappedDown(u: View, cw: int): (r: View)
    requires Shown(u, cw) && u.lines[u.line].offset == 0
    ensures Shown(r, cw) && r.field == u.field && r.scroll == u.scroll
  {
    var e := CursorEntry(u);
    if e + 1 >= |u.entries| then u
    else
      assert u.entries[e].text[0..] == u.entries[e].text;
      RelaidShown(u, cw, Swapped(u.entries, e, e + 1), e + 1);
      Relaid(u, cw, Swapped(u.entries, e, e + 1), e + 1)
  }

  /** Page Down past the last entry: the moving entry (the second part, after a split) is
      exchanged with the next one and the cursor follows it to its first row, which shows what
      the cursor's row showed. */
  lemma MovedDownSwap(v: View, cw: int)
    requires Shown(v, cw) && !MoveDownRefused(v)
    ensures var r := MovedDown(v, cw); var l := v.lines[v.line];
      (l.offset == 0 ==>
        r.entries == Swapped(v.entries, l.entry, l.entry + 1) && CursorEntry(r) == l.entry + 1) &&
      (l.offset > 0 ==>
        r.entries == Swapped(SplitEntry(v.entries, l.entry, l.offset), l.entry + 1, l.entry + 2) &&
        CursorEntry(r) == l.entry + 2) &&
      r.lines[r.line].offset == 0 && r.lines[r.line].text == l.text &&
      FirstStart(r.lines, CursorEntry(r), 0) == Some(r.line)
  {
    var u := SplitForMoveDown(v, cw);
    assert MovedDown(v, cw) == SwappedDown(u, cw);
    SwappedDownMoves(u, cw);
  }

  /** The second step of Page Down, away from the last entry: the entry is exchanged with the
      next one and the cursor is on its first row, which shows what the cursor's row showed. */
  lemma SwappedDownMoves(u: View, cw: int)
    requires Shown(u, cw) && u.lines[u.line].offset == 0 && CursorEntry(u) + 1 < |u.entries|
    ensures var r := SwappedDown(u, cw); var e := CursorEntry(u);
      r.entries == Swapped(u.entries, e, e + 1) && r.lines[r.line] == Line(e + 1, 0, u.lines[u.line].text) &&
      FirstStart(r.lines, e + 1, 0) == Some(r.line)
  {
    var e := CursorEntry(u);
    var es := Swapped(u.entries, e, e + 1);
    assert u.entries[e].text[0..] == u.entries[e].text;
    RelaidShown(u, cw, es, e + 1);
  }

  /** Page Down on the last entry: on its first row nothing changes; on a continuation row the
      entry is still split there, and the cursor is on the second part's first row. */
  lemma MovedDownLast(v: View, cw: int)
    requires Shown(v, cw) && MoveDownRefused(v)
    ensures var r := MovedDown(v, cw); var l := v.lines[v.line];
      (l.offset == 0 ==> r == v) &&
      (l.offset > 0 ==>
        r.entries == SplitEntry(v.entries, l.entry, l.offset) && CursorEntry(r) == l.entry + 1 &&
        r.lines[r.line].offset == 0 && r.lines[r.line].text == l.text &&
        FirstStart(r.lines, l.entry + 1, 0) == Some(r.line))
  {
    var u := SplitForMoveDown(v, cw);
  }

  /** Moving an entry up from its first row and then down again restores the order of the
      entries. */
  lemma MoveUpThenDown(v: View, cw: int)
    requires Shown(v, cw) && v.lines[v.line].offset == 0 && CursorEntry(v) > 0
    ensures MovedDown(MovedUp(v, cw), cw).entries == v.entries
  {
    var e := CursorEntry(v);
    var u := MovedUp(v, cw);
    MovedUpSwap(v, cw);
    assert !MoveDownRefused(u) && u.lines[u.line].offset == 0 && CursorEntry(u) == e - 1;
    MovedDownSwap(u, cw);
    SwapTwice(v.entries, e, e - 1);
  }

  // ---------------------------------------------------------------------------------------
  // Undo

  /** What save_undo_state copies: the entries, the cursor and the scroll offset. */
  function SnapshotOf(v: View): Snapshot
  {
    Snapshot(v.entries, v.line, v.field, v.pos, v.scroll)
  }

  /** What undo puts back from a snapshot: its entries, cursor and scroll offset, followed by a
      reflow. */
  function Restore(s: Snapshot, cw: int): (r: View)
    requires cw >= 1 && |s.entries| >= 1
    ensures Shown(r, cw) && r.entries == s.entries && r.field == s.cursorField && r.scroll == s.scrollOffset
  {
    Reflowed(View(s.entries, [], s.cursorDisplayLine, s.cursorField, s.cursorPos, s.scrollOffset), cw)
  }

  /** Restoring the snapshot of a shown state gives back exactly that state. */
  lemma RestoreSnapshot(v: View, cw: int)
    requires Shown(v, cw)
    ensures Restore(SnapshotOf(v), cw) == v
  {
  }

  /** When the newest snapshot already is the current state (as right after start-up), an edit
      followed by an undo gives the state back. */
  lemma UndoAfterOneEdit(stack: seq<Snapshot>, v: View, cw: int)
    requires Shown(v, cw) && 1 <= |stack| < UndoLimit && stack[|stack| - 1] == SnapshotOf(v)
    ensures Restore(Restored(Pushed(stack, SnapshotOf(v))), cw) == v
  {
    RestoreSnapshot(v, cw);
  }
}
