/** The cursor over the display table: the part of the editor's state the keys work on, the
    clamping that ends reflow, set_cursor_for_content, and the arrow keys, as functions on
    values. The editor's methods are proved to compute these functions. */
module Cursor {
  import opened Wrappers
  import opened Dialogue
  import opened WordWrap
  import opened Display
  import opened Undo

  function Min(a: int, b: int): int { if a <= b then a else b }

  /** The entries, the display table, the cursor (row, field, column in the field) and the
      first visible row. */
  datatype View = View(entries: seq<DialogueEntry>, lines: seq<Line>, line: nat, field: Field,
                       pos: nat, scroll: nat)

  /** get_current_field_length for row n of a table: the speaker's length in the speaker field,
      the row's length in the content field. Rows of the table reflow builds always name an
      entry of the list (LineFits); the guard only keeps the function total. */
  function FieldLen(es: seq<DialogueEntry>, L: seq<Line>, n: nat, f: Field): nat
    requires n < |L|
  {
    if f == Speaker then (if L[n].entry < |es| then |es[L[n].entry].speaker| else 0)
    else |L[n].text|
  }

  /** The length of the field under the cursor. */
  function FieldLength(v: View): nat
    requires v.line < |v.lines|
  {
    FieldLen(v.entries, v.lines, v.line, v.field)
  }

  /** The entry of the cursor's row. */
  function CursorEntry(v: View): nat
    requires v.line < |v.lines|
  {
    v.lines[v.line].entry
  }

  /** The cursor's offset in its entry's text: the row's offset plus the column. */
  function CursorOffset(v: View): nat
    requires v.line < |v.lines|
  {
    v.lines[v.line].offset + v.pos
  }

  /** The state between two keys: there is an entry, the table is the one reflow builds from the
      entries at content width cw, and the cursor is on a row of it, within its field. */
  predicate Shown(v: View, cw: int)
  {
    cw >= 1 && |v.entries| >= 1 && v.lines == Layout(v.entries, cw) &&
    v.line < |v.lines| && RowFits(v.lines[v.line], v.entries, MaxWidth(cw)) &&
    v.pos <= FieldLength(v)
  }

  /** reflow once the file is loaded: the table is rebuilt from the entries; a cursor below the
      last row goes to the last row at column 0, and the column is cut back to the length of
      the field. Afterwards the cursor is on a row and within its field, and a cursor that still
      fits is left where it was. */
  function Reflowed(v: View, cw: int): (r: View)
    requires cw >= 1 && |v.entries| >= 1
    ensures Shown(r, cw)
    ensures r.entries == v.entries && r.field == v.field && r.scroll == v.scroll
    ensures r.line == if v.line < |r.lines| then v.line else |r.lines| - 1
    ensures r.pos <= v.pos
    ensures v.line < |r.lines| && v.pos <= FieldLen(v.entries, r.lines, v.line, v.field) ==> r.pos == v.pos
    ensures v.line < |r.lines| && v.pos > FieldLen(v.entries, r.lines, v.line, v.field) ==> r.pos == FieldLength(r)
    ensures v.line >= |r.lines| ==> r.pos == 0
  {
    var L := Layout(v.entries, cw);
    LayoutSize(v.entries, cw);
    var n := if v.line >= |L| then |L| - 1 else v.line;
    LineFits(v.entries, cw, n);
    var p := if v.line >= |L| then 0 else v.pos;
    View(v.entries, L, n, v.field, Min(p, FieldLen(v.entries, L, n, v.field)), v.scroll)
  }

  /** Reflowing a state that is already shown changes nothing. */
  lemma ReflowedShown(v: View, cw: int)
    requires Shown(v, cw)
    ensures Reflowed(v, cw) == v
  {
  }

  /** The table depends on the texts alone: a state whose speakers changed is still shown
      when its texts did not. */
  lemma ShownSameTexts(v: View, es: seq<DialogueEntry>, cw: int)
    requires Shown(v, cw) && |es| == |v.entries|
    requires forall i :: 0 <= i < |es| ==> es[i].text == v.entries[i].text
    ensures Layout(es, cw) == v.lines
  {
    LayoutSameTexts(v.entries, es, cw);
  }

  // ---------------------------------------------------------------------------------------
  // set_cursor_for_content

  /** set_cursor_for_content: the cursor goes, in the content field, to the place Resolve gives
      for offset t of entry e; when e has no row it stays where it is. */
  function Placed(v: View, e: nat, t: nat): View
  {
    match Resolve(v.lines, e, t)
    case Some(s) => v.(line := s.line, field := Content, pos := s.pos)
    case None => v
  }

  /** In a shown state the cursor is placed on a row of entry e, in the content field and
      within the row; on offset t itself when some row shows it (or at the start of the next
      row when t ends a row its entry continues on), and otherwise at the end of the entry's
      last row; and never at the end of a row that its entry continues on the next row. */
  lemma PlacedLands(v: View, cw: int, e: nat, t: nat)
    requires Shown(v, cw) && e < |v.entries|
    ensures var r := Placed(v, e, t);
      Shown(r, cw) && r.entries == v.entries && r.lines == v.lines && r.scroll == v.scroll &&
      r.field == Content && CursorEntry(r) == e &&
      (Reachable(v.entries[e].text, cw, t) ==> Shows(r.lines, Spot(r.line, r.pos), e, t)) &&
      (!Reachable(v.entries[e].text, cw, t) ==> CursorOffset(r) == ShownEnd(v.entries[e].text, cw)) &&
      !(r.pos == |r.lines[r.line].text| && r.line + 1 < |r.lines| && r.lines[r.line + 1].entry == e)
  {
    ResolvePlaces(v.entries, cw, e, t);
    if Reachable(v.entries[e].text, cw, t) {
      ResolveReaches(v.entries, cw, e, t);
    } else {
      ResolveBeyond(v.entries, cw, e, t);
    }
    AllRowsFit(v.entries, cw);
    ContinuedRowsNonEmpty(AllRows(v.entries, cw), v.entries, MaxWidth(cw));
    ResolveNotAtBreak(v.lines, e, t);
    var r := Placed(v, e, t);
    LineFits(v.entries, cw, r.line);
  }

  // ---------------------------------------------------------------------------------------
  // The arrow keys

  /** The scroll offset after the cursor moved down to `line`: when the line fell below the
      visible rows (all rows but the status line), the view scrolls so it is the last visible
      one; otherwise the view stays. */
  function ScrolledDown(line: nat, scroll: nat, height: int): (r: nat)
    ensures r >= scroll
    ensures height >= 2 && scroll <= line ==> r <= line < r + (height - 1)
    ensures line >= scroll + (height - 1) ==> r + (height - 2) == line
    ensures line < scroll + (height - 1) ==> r == scroll
  {
    if line >= scroll + (height - 1) then line - (height - 1) + 1 else scroll
  }

  /** The Up arrow: one row up when there is one, the column cut back to the new row's field,
      the view scrolled up when the row is above it. */
  function Up(v: View): View
    requires v.line < |v.lines|
  {
    if v.line > 0 then
      var n := v.line - 1;
      v.(line := n, pos := Min(v.pos, FieldLen(v.entries, v.lines, n, v.field)),
         scroll := if n < v.scroll then n else v.scroll)
    else v
  }

  /** The Down arrow: one row down when there is one, the column cut back to the new row's
      field, the view scrolled down when the row is below it. */
  function Down(v: View, height: int): View
    requires v.line < |v.lines|
  {
    if v.line < |v.lines| - 1 then
      var n := v.line + 1;
      v.(line := n, pos := Min(v.pos, FieldLen(v.entries, v.lines, n, v.field)),
         scroll := ScrolledDown(n, v.scroll, height))
    else v
  }

  /** The Left arrow: one column left; at column 0 of the content field, to the end of the
      nearest earlier row of the same entry, if there is one. */
  function Left(v: View): View
    requires v.line < |v.lines|
  {
    if v.pos > 0 then v.(pos := v.pos - 1)
    else if v.field == Content then
      match LastBefore(v.lines, v.lines[v.line].entry, v.line)
      case Some(i) => v.(line := i, pos := |v.lines[i].text|)
      case None => v
    else v
  }

  /** The Right arrow: one column right; at the end of the content field, to column 0 of the
      next row, whichever entry it belongs to. */
  function Right(v: View, height: int): View
    requires v.line < |v.lines|
  {
    if v.pos < FieldLength(v) then v.(pos := v.pos + 1)
    else if v.field == Content && v.line < |v.lines| - 1 then
      v.(line := v.line + 1, pos := 0, scroll := ScrolledDown(v.line + 1, v.scroll, height))
    else v
  }

  /** Home: column 0. */
  function Home(v: View): View { v.(pos := 0) }

  /** End, in the content field: the end of the row. */
  function End(v: View): View
    requires v.line < |v.lines|
  {
    v.(pos := FieldLength(v))
  }

  /** Tab: the other field, at column 0. */
  function Toggled(v: View): View
  {
    v.(field := if v.field == Content then Speaker else Content, pos := 0)
  }

  /** Up keeps the cursor on a row and within its field, and never leaves it above the view;
      it moves one row up unless the cursor is on the first row. */
  lemma UpShown(v: View, cw: int)
    requires Shown(v, cw)
    ensures var r := Up(v);
      Shown(r, cw) && r.entries == v.entries && r.field == v.field &&
      r.line == (if v.line > 0 then v.line - 1 else 0) &&
      (v.scroll <= v.line ==> r.scroll <= r.line)
  {
    if v.line > 0 {
      LineFits(v.entries, cw, v.line - 1);
    }
  }

  /** Down keeps the cursor on a row and within its field; it moves one row down unless the
      cursor is on the last row, and a cursor that was not above the view is then among the
      height - 1 visible rows. */
  lemma DownShown(v: View, cw: int, height: int)
    requires Shown(v, cw)
    ensures var r := Down(v, height);
      Shown(r, cw) && r.entries == v.entries && r.field == v.field &&
      r.line == (if v.line < |v.lines| - 1 then v.line + 1 else v.line) &&
      (v.line < |v.lines| - 1 && height >= 2 && v.scroll <= v.line ==>
        r.scroll <= r.line < r.scroll + (height - 1))
  {
    if v.line < |v.lines| - 1 {
      LineFits(v.entries, cw, v.line + 1);
    }
  }

  /** Left keeps the cursor on a row of the same entry and within its field; at column 0 of a
      row that continues its entry it goes to the end of the row just above. */
  lemma LeftShown(v: View, cw: int)
    requires Shown(v, cw)
    ensures var r := Left(v);
      Shown(r, cw) && r.entries == v.entries && r.field == v.field &&
      CursorEntry(r) == CursorEntry(v) &&
      (v.pos == 0 && v.field == Content && v.lines[v.line].offset > 0 ==>
        r.line == v.line - 1 && r.pos == |v.lines[v.line - 1].text|)
  {
    if v.pos == 0 && v.field == Content {
      var lb := LastBefore(v.lines, v.lines[v.line].entry, v.line);
      if lb.Some? {
        LineFits(v.entries, cw, lb.value);
      }
      if v.lines[v.line].offset > 0 {
        ContinuationRowAbove(v.entries, cw, v.line);
      }
    }
  }

  /** Right keeps the cursor on a row and within its field. */
  lemma RightShown(v: View, cw: int, height: int)
    requires Shown(v, cw)
    ensures Shown(Right(v, height), cw) && Right(v, height).entries == v.entries
  {
    if v.line < |v.lines| - 1 {
      LineFits(v.entries, cw, v.line + 1);
    }
  }

  /** Left and Right are not mirror images across entries: Right at the end of an entry's last
      row goes on to the next entry's first row, and Left there at column 0 does not come
      back. */
  lemma RightLeftAsymmetric(v: View, cw: int, height: int)
    requires Shown(v, cw) && v.field == Content && v.pos == |v.lines[v.line].text|
    requires v.line + 1 < |v.lines| && v.lines[v.line + 1].entry != v.lines[v.line].entry
    ensures var r := Right(v, height);
      r.line == v.line + 1 && r.pos == 0 && Left(r).line == r.line && Left(r).pos == 0
  {
    var L := v.lines;
    var n := v.line + 1;
    var rs := AllRows(v.entries, cw);
    AllRowsFit(v.entries, cw);
    LineFits(v.entries, cw, n);
    var e := L[n].entry;
    LayoutOrder(v.entries, cw, v.line, n);
    if L[n].offset > 0 {
      ContinuationRowAbove(v.entries, cw, n);
    }
    ZeroOffsetIsStart(rs, v.entries, MaxWidth(cw), n);
    forall j | 0 <= j < n ensures L[j].entry != e {
      EarlierRow(rs, e, j);
    }
    var r := Right(v, height);
    assert r.line == n && r.pos == 0 && r.field == Content;
    var b := LastBefore(L, e, n);
    if b.Some? {
      assert false;
    }
  }

  /** Within an entry, Right at the end of a row undoes Left at the start of the next one. */
  lemma LeftThenRight(v: View, cw: int, height: int)
    requires Shown(v, cw) && v.field == Content && v.pos == 0 && v.lines[v.line].offset > 0
    ensures var r := Right(Left(v), height); r.line == v.line && r.pos == 0
  {
    LeftShown(v, cw);
  }

  /** Home, End and Tab keep the cursor on its row and within its field. */
  lemma HomeEndTabShown(v: View, cw: int)
    requires Shown(v, cw)
    ensures Shown(Home(v), cw) && Home(v).pos == 0
    ensures Shown(End(v), cw) && End(v).pos == FieldLength(v)
    ensures Shown(Toggled(v), cw) && Toggled(v).field != v.field && Toggled(v).line == v.line
  {
  }
}
