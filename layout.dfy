/** The display table that reflow builds from the entry list, and the searches over it that the
    cursor code performs. */
module Display {
  import opened Wrappers
  import opened Dialogue
  import opened WordWrap

  /** Fixed column widths: line number, speaker name, and the separator between columns. */
  const LnWidth := 6
  const SpWidth := 15
  const ColSep := 1

  /** The columns left for entry text on a terminal of the given width. */
  function ContentWidth(width: int): int
  {
    width - (LnWidth + SpWidth + 2 * ColSep)
  }

  /** One row of the display table: the entry it shows, where in the entry's text it starts,
      and the characters it shows. */
  datatype Line = Line(entry: nat, offset: nat, text: string)

  /** The position just past the characters a row shows. */
  function LineEnd(l: Line): nat { l.offset + |l.text| }

  // ---------------------------------------------------------------------------------------
  // The rows of one entry

  /** The rows reflow gives one entry: its wrapped rows, or a single empty row for empty text. */
  function EntryRows(text: string, cw: int): (r: seq<Segment>)
    requires cw >= 1
    ensures |r| >= 1
  {
    if Wrap(text, cw) == [] then [Segment(0, "")] else Wrap(text, cw)
  }

  /** What the rows of an entry satisfy: there is at least one, the first starts at 0, an empty
      text has the single row (0, ""); every row is the slice of the text at its offset, at most
      mw wide, and not empty when it has a neighbour; the next row starts where a row ends or
      one consumed space later. */
  predicate EntryFit(rows: seq<Segment>, text: string, mw: int)
  {
    |rows| >= 1 && rows[0].offset == 0 && (text == [] <==> rows == [Segment(0, "")]) &&
    (forall k :: 0 <= k < |rows| ==>
      End(rows[k]) <= |text| && rows[k].text == text[rows[k].offset..End(rows[k])] &&
      |rows[k].text| <= mw && (|rows| > 1 ==> |rows[k].text| >= 1)) &&
    (forall k :: 0 <= k < |rows| - 1 ==> End(rows[k]) <= rows[k + 1].offset <= End(rows[k]) + 1)
  }

  /** The rows reflow gives an entry fit its text at the row width. */
  lemma EntryRowsFacts(text: string, cw: int)
    requires cw >= 1
    ensures EntryFit(EntryRows(text, cw), text, MaxWidth(cw))
  {
    WrapRows(text, cw);
    var w := Wrap(text, cw);
    if w != [] {
      assert EntryRows(text, cw) == w && |w[0].text| >= 1;
    }
  }

  /** Offsets grow by at least one per row, so only the first row starts at 0. */
  lemma {:induction false} RowOffsetAtLeast(rows: seq<Segment>, text: string, mw: int, k: nat)
    requires EntryFit(rows, text, mw) && k < |rows|
    ensures rows[k].offset >= k
    decreases k
  {
    if k > 0 {
      RowOffsetAtLeast(rows, text, mw, k - 1);
    }
  }

  /** A row that does not start the text is the first row of the text from its offset on: this
      is what splitting an entry at a row's offset leaves on the row of the new entry. */
  lemma EntryRowsSuffix(text: string, cw: int, k: nat)
    requires cw >= 1 && k < |EntryRows(text, cw)| && EntryRows(text, cw)[k].offset > 0
    ensures var o := EntryRows(text, cw)[k].offset;
      o <= |text| && EntryRows(text[o..], cw)[0].text == EntryRows(text, cw)[k].text
  {
    WrapRows(text, cw);
    RowIsFirstOfSuffix(text, cw, k);
  }

  /** The rows of an entry reach the end of its text, or stop one dropped space short of it. */
  lemma EntryRowsReach(text: string, cw: int)
    requires cw >= 1
    ensures var rows := EntryRows(text, cw); var e := End(rows[|rows| - 1]);
      e == |text| || (e + 1 == |text| && text[e] == ' ')
  {
    WrapRows(text, cw);
  }

  /** Every offset from row k's start up to the end of the last row is within some row at or
      after k: the rows leave no gap wider than the one consumed space. */
  lemma {:induction false} CoverFrom(rows: seq<Segment>, text: string, mw: int, t: int, k: nat)
    requires EntryFit(rows, text, mw) && k < |rows|
    requires rows[k].offset <= t <= End(rows[|rows| - 1])
    ensures exists j :: k <= j < |rows| && rows[j].offset <= t <= End(rows[j])
    decreases |rows| - k
  {
    if t > End(rows[k]) {
      CoverFrom(rows, text, mw, t, k + 1);
    }
  }

  // ---------------------------------------------------------------------------------------
  // The rows of every entry and the table built from them

  /** An entry's rows, tagged with the entry's index. */
  function Tag(e: nat, rows: seq<Segment>): (r: seq<Line>)
    ensures |r| == |rows|
    ensures forall k :: 0 <= k < |rows| ==> r[k] == Line(e, rows[k].offset, rows[k].text)
  {
    seq(|rows|, k requires 0 <= k < |rows| => Line(e, rows[k].offset, rows[k].text))
  }

  /** Every entry has at least one row. */
  predicate NonEmptyRows(rs: seq<seq<Segment>>)
  {
    forall i :: 0 <= i < |rs| ==> |rs[i]| >= 1
  }

  /** The rows of every entry, in entry order. */
  function AllRows(es: seq<DialogueEntry>, cw: int): (rs: seq<seq<Segment>>)
    requires cw >= 1
    ensures |rs| == |es| && NonEmptyRows(rs)
    decreases |es|
  {
    if es == [] then [] else [EntryRows(es[0].text, cw)] + AllRows(es[1..], cw)
  }

  /** Entry i's rows are the rows reflow gives its text. */
  lemma {:induction false} AllRowsAt(es: seq<DialogueEntry>, cw: int, i: nat)
    requires cw >= 1 && i < |es|
    ensures AllRows(es, cw)[i] == EntryRows(es[i].text, cw)
    decreases i
  {
    if i > 0 {
      AllRowsAt(es[1..], cw, i - 1);
    }
  }

  /** Every entry's rows fit that entry's text. */
  predicate RowsFit(rs: seq<seq<Segment>>, es: seq<DialogueEntry>, mw: int)
  {
    |rs| == |es| && forall i :: 0 <= i < |rs| ==> EntryFit(rs[i], es[i].text, mw)
  }

  /** The rows reflow gives fit the entries at the row width. */
  lemma AllRowsFit(es: seq<DialogueEntry>, cw: int)
    requires cw >= 1
    ensures RowsFit(AllRows(es, cw), es, MaxWidth(cw))
  {
    forall i | 0 <= i < |es| ensures EntryFit(AllRows(es, cw)[i], es[i].text, MaxWidth(cw)) {
      AllRowsAt(es, cw, i);
      EntryRowsFacts(es[i].text, cw);
    }
  }

  /** The tagged rows of entries i, i+1, ... in order. */
  function Concat(rs: seq<seq<Segment>>, i: nat): seq<Line>
    requires i <= |rs|
    decreases |rs| - i
  {
    if i == |rs| then [] else Tag(i, rs[i]) + Concat(rs, i + 1)
  }

  /** The display table reflow builds. */
  function Layout(es: seq<DialogueEntry>, cw: int): seq<Line>
    requires cw >= 1
  {
    Concat(AllRows(es, cw), 0)
  }

  /** The number of rows of the entries before entry e: the index of entry e's first row. */
  function Before(rs: seq<seq<Segment>>, e: nat): nat
    requires e <= |rs|
  {
    if e == 0 then 0 else Before(rs, e - 1) + |rs[e - 1]|
  }

  /** Later entries start further down, by at least one row per entry. */
  lemma {:induction false} BeforeGrows(rs: seq<seq<Segment>>, a: nat, b: nat)
    requires a <= b <= |rs| && NonEmptyRows(rs)
    ensures Before(rs, a) + (b - a) <= Before(rs, b)
    decreases b - a
  {
    if a < b {
      BeforeGrows(rs, a, b - 1);
    }
  }

  /** The rows from entry i on number Before(|rs|) - Before(i). */
  lemma {:induction false} ConcatLength(rs: seq<seq<Segment>>, i: nat)
    requires i <= |rs|
    ensures Before(rs, i) <= Before(rs, |rs|)
    ensures |Concat(rs, i)| == Before(rs, |rs|) - Before(rs, i)
    decreases |rs| - i
  {
    if i < |rs| {
      ConcatLength(rs, i + 1);
    }
  }

  /** Row k of entry e sits at Before(e) - Before(i) + k of the rows from entry i on. */
  lemma {:induction false} ConcatAt(rs: seq<seq<Segment>>, i: nat, e: nat, k: nat)
    requires i <= e < |rs| && k < |rs[e]|
    ensures Before(rs, i) <= Before(rs, e)
    ensures Before(rs, e) - Before(rs, i) + k < |Concat(rs, i)|
    ensures Concat(rs, i)[Before(rs, e) - Before(rs, i) + k] == Line(e, rs[e][k].offset, rs[e][k].text)
    decreases e - i
  {
    ConcatLength(rs, i);
    if i < e {
      ConcatAt(rs, i + 1, e, k);
      ConcatLength(rs, i + 1);
      var n := Before(rs, e) - Before(rs, i) + k;
      assert Concat(rs, i)[n] == Concat(rs, i + 1)[n - |rs[i]|];
    }
  }

  /** Each row from entry i on belongs to an entry e >= i and is row Before(i) + n - Before(e)
      of that entry. */
  lemma {:induction false} ConcatIndex(rs: seq<seq<Segment>>, i: nat, n: nat)
    requires i <= |rs| && n < |Concat(rs, i)|
    ensures var l := Concat(rs, i)[n]; var b := Before(rs, i);
      i <= l.entry < |rs| &&
      Before(rs, l.entry) <= b + n < Before(rs, l.entry + 1) &&
      l == Line(l.entry, rs[l.entry][b + n - Before(rs, l.entry)].offset, rs[l.entry][b + n - Before(rs, l.entry)].text)
    decreases |rs| - i
  {
    if n >= |rs[i]| {
      ConcatIndex(rs, i + 1, n - |rs[i]|);
    }
  }

  /** Row n of the table is row n - Before(e) of its entry e. */
  lemma RowOf(rs: seq<seq<Segment>>, n: nat)
    requires n < |Concat(rs, 0)|
    ensures Concat(rs, 0)[n].entry < |rs|
    ensures var e := Concat(rs, 0)[n].entry; var k := n - Before(rs, e);
      Before(rs, e) <= n && k < |rs[e]| &&
      Concat(rs, 0)[n] == Line(e, rs[e][k].offset, rs[e][k].text)
  {
    ConcatIndex(rs, 0, n);
  }

  /** Row k of entry e is row Before(e) + k of the table, which has Before(|rs|) rows. */
  lemma RowAt(rs: seq<seq<Segment>>, e: nat, k: nat)
    requires e < |rs| && k < |rs[e]|
    ensures |Concat(rs, 0)| == Before(rs, |rs|)
    ensures Before(rs, e) + k < |Concat(rs, 0)|
    ensures Concat(rs, 0)[Before(rs, e) + k] == Line(e, rs[e][k].offset, rs[e][k].text)
  {
    ConcatAt(rs, 0, e, k);
    ConcatLength(rs, 0);
  }

  /** What a display row says about its entry: the entry exists, and the row shows the slice of
      its text at the row's offset, at most the row width wide. */
  predicate RowFits(l: Line, es: seq<DialogueEntry>, mw: int)
  {
    l.entry < |es| && LineEnd(l) <= |es[l.entry].text| &&
    es[l.entry].text[..LineEnd(l)] == es[l.entry].text[..l.offset] + l.text && |l.text| <= mw
  }

  /** A row cut from a text at its offset continues the text's prefix up to that offset. */
  lemma SegmentRowFits(text: string, s: Segment)
    requires End(s) <= |text| && s.text == text[s.offset..End(s)]
    ensures text[..End(s)] == text[..s.offset] + s.text
  {
  }

  /** Every row of a table fits its entry. */
  predicate LinesFit(lines: seq<Line>, es: seq<DialogueEntry>, mw: int)
  {
    forall n :: 0 <= n < |lines| ==> RowFits(lines[n], es, mw)
  }

  /** Rows that fit their entries make a table that fits them. */
  lemma ConcatFits(rs: seq<seq<Segment>>, es: seq<DialogueEntry>, mw: int)
    requires RowsFit(rs, es, mw)
    ensures LinesFit(Concat(rs, 0), es, mw)
  {
    forall n | 0 <= n < |Concat(rs, 0)| ensures RowFits(Concat(rs, 0)[n], es, mw) {
      RowOf(rs, n);
    }
  }

  /** Every row of the table reflow builds fits its entry. */
  lemma LayoutFits(es: seq<DialogueEntry>, cw: int)
    requires cw >= 1
    ensures LinesFit(Layout(es, cw), es, MaxWidth(cw))
  {
    AllRowsFit(es, cw);
    ConcatFits(AllRows(es, cw), es, MaxWidth(cw));
  }

  /** Rows come in entry order. */
  lemma ConcatOrder(rs: seq<seq<Segment>>, n: nat, m: nat)
    requires NonEmptyRows(rs) && n <= m < |Concat(rs, 0)|
    ensures Concat(rs, 0)[n].entry <= Concat(rs, 0)[m].entry
  {
    var L := Concat(rs, 0);
    RowOf(rs, n);
    RowOf(rs, m);
    if L[m].entry < L[n].entry {
      BeforeGrows(rs, L[m].entry + 1, L[n].entry);
    }
  }

  /** Rows of the table reflow builds come in entry order. */
  lemma LayoutOrder(es: seq<DialogueEntry>, cw: int, n: nat, m: nat)
    requires cw >= 1 && n <= m < |Layout(es, cw)|
    ensures Layout(es, cw)[n].entry <= Layout(es, cw)[m].entry
  {
    ConcatOrder(AllRows(es, cw), n, m);
  }

  /** Every entry contributes at least one row, so the table has at least as many rows as
      there are entries. */
  lemma LayoutSize(es: seq<DialogueEntry>, cw: int)
    requires cw >= 1
    ensures |Layout(es, cw)| >= |es|
  {
    ConcatLength(AllRows(es, cw), 0);
    BeforeGrows(AllRows(es, cw), 0, |es|);
  }

  /** An empty text gets the single row (entry, 0, ""). */
  lemma LayoutEmptyText(es: seq<DialogueEntry>, cw: int, e: nat)
    requires cw >= 1 && e < |es| && es[e].text == []
    ensures var n := Before(AllRows(es, cw), e);
      n < |Layout(es, cw)| && Layout(es, cw)[n] == Line(e, 0, "") &&
      (n + 1 < |Layout(es, cw)| ==> Layout(es, cw)[n + 1].entry != e)
  {
    var rs := AllRows(es, cw);
    AllRowsFit(es, cw);
    RowAt(rs, e, 0);
    var n := Before(rs, e);
    if n + 1 < |Layout(es, cw)| {
      RowOf(rs, n + 1);
    }
  }

  /** A row of the table reflow builds fits its entry. */
  lemma LineFits(es: seq<DialogueEntry>, cw: int, n: nat)
    requires cw >= 1 && n < |Layout(es, cw)|
    ensures RowFits(Layout(es, cw)[n], es, MaxWidth(cw))
  {
    var rs := AllRows(es, cw);
    RowOf(rs, n);
    var e := Layout(es, cw)[n].entry;
    AllRowsAt(es, cw, e);
    EntryRowsFacts(es[e].text, cw);
    SegmentRowFits(es[e].text, rs[e][n - Before(rs, e)]);
  }

  /** When entry e2 of a list holds the text of row n of another list's table from that row's
      offset on, the row starting e2 in its table shows what row n shows. Moving or splitting
      an entry at the cursor's row keeps that row's text under the cursor. */
  lemma MovedRowText(es: seq<DialogueEntry>, cw: int, n: nat, es2: seq<DialogueEntry>, e2: nat, i: nat)
    requires cw >= 1 && n < |Layout(es, cw)| && e2 < |es2| && i < |Layout(es2, cw)|
    requires RowFits(Layout(es, cw)[n], es, MaxWidth(cw))
    requires es2[e2].text == es[Layout(es, cw)[n].entry].text[Layout(es, cw)[n].offset..]
    requires Layout(es2, cw)[i].entry == e2 && Layout(es2, cw)[i].offset == 0
    ensures Layout(es2, cw)[i].text == Layout(es, cw)[n].text
  {
    var mw := MaxWidth(cw);
    var rs := AllRows(es, cw);
    var rs2 := AllRows(es2, cw);
    RowOf(rs, n);
    var e := Layout(es, cw)[n].entry;
    var k := n - Before(rs, e);
    var text := es[e].text;
    AllRowsAt(es, cw, e);
    AllRowsFit(es2, cw);
    ZeroOffsetIsStart(rs2, es2, mw, i);
    AllRowsAt(es2, cw, e2);
    if rs[e][k].offset == 0 {
      EntryRowsFacts(text, cw);
      RowOffsetAtLeast(rs[e], text, mw, k);
      assert text[0..] == text;
    } else {
      EntryRowsSuffix(text, cw, k);
    }
  }

  /** The table from entry i on is entry i's rows and then the table from entry i + 1 on. */
  lemma ConcatUnfold(rs: seq<seq<Segment>>, i: nat)
    requires i < |rs|
    ensures Concat(rs, i) == Tag(i, rs[i]) + Concat(rs, i + 1)
  {
  }

  /** The per-entry part of reflow's loop: the entry's wrapped rows, or the single empty row,
      appended to the table with the entry's index. */
  method AppendEntryRows(lines: seq<Line>, e: nat, text: string, cw: int) returns (r: seq<Line>)
    requires cw >= 1
    ensures r == lines + Tag(e, EntryRows(text, cw))
  {
    var wrapped := WrapText(text, cw);
    if wrapped == [] {
      wrapped := [Segment(0, "")];
    }
    r := lines;
    var k := 0;
    while k < |wrapped|
      invariant k <= |wrapped|
      invariant r == lines + Tag(e, wrapped)[..k]
    {
      assert Tag(e, wrapped)[..k + 1] == Tag(e, wrapped)[..k] + [Line(e, wrapped[k].offset, wrapped[k].text)];
      r := r + [Line(e, wrapped[k].offset, wrapped[k].text)];
      k := k + 1;
    }
    assert Tag(e, wrapped)[..|wrapped|] == Tag(e, wrapped);
  }

  // ---------------------------------------------------------------------------------------
  // The searches the cursor code makes over the table

  /** A row of entry e whose span of cursor positions contains offset t. */
  predicate Fits(l: Line, e: nat, t: int)
  {
    l.entry == e && l.offset <= t <= LineEnd(l)
  }

  /** The first row at or after `from` whose span contains offset t of entry e. */
  function FirstFit(L: seq<Line>, e: nat, t: int, from: nat): (r: Option<nat>)
    requires from <= |L|
    ensures r.Some? ==> from <= r.value < |L| && Fits(L[r.value], e, t)
    decreases |L| - from
  {
    if from == |L| then None
    else if Fits(L[from], e, t) then Some(from)
    else FirstFit(L, e, t, from + 1)
  }

  /** FirstFit finds the first such row: none before it fits, and when it finds none, no row
      from `from` on fits. */
  lemma {:induction false} FirstFitFirst(L: seq<Line>, e: nat, t: int, from: nat)
    requires from <= |L|
    ensures var r := FirstFit(L, e, t, from);
      (r.Some? ==> forall j :: from <= j < r.value ==> !Fits(L[j], e, t)) &&
      (r.None? ==> forall j :: from <= j < |L| ==> !Fits(L[j], e, t))
    decreases |L| - from
  {
    if from < |L| && !Fits(L[from], e, t) {
      FirstFitFirst(L, e, t, from + 1);
    }
  }

  /** The last row before row n that belongs to entry e. */
  function LastBefore(L: seq<Line>, e: nat, n: nat): (r: Option<nat>)
    requires n <= |L|
    ensures r.Some? ==> r.value < n && L[r.value].entry == e
  {
    if n == 0 then None
    else if L[n - 1].entry == e then Some(n - 1)
    else LastBefore(L, e, n - 1)
  }

  /** LastBefore finds the last such row: no row between it and n belongs to e, and when it
      finds none, no row before n does. */
  lemma {:induction false} LastBeforeLast(L: seq<Line>, e: nat, n: nat)
    requires n <= |L|
    ensures var r := LastBefore(L, e, n);
      (r.Some? ==> forall j :: r.value < j < n ==> L[j].entry != e) &&
      (r.None? ==> forall j :: 0 <= j < n ==> L[j].entry != e)
  {
    if n > 0 && L[n - 1].entry != e {
      LastBeforeLast(L, e, n - 1);
    }
  }

  /** The first row at or after `from` that starts entry e (offset 0). */
  function FirstStart(L: seq<Line>, e: nat, from: nat): (r: Option<nat>)
    requires from <= |L|
    ensures r.Some? ==> from <= r.value < |L| && L[r.value].entry == e && L[r.value].offset == 0
    decreases |L| - from
  {
    if from == |L| then None
    else if L[from].entry == e && L[from].offset == 0 then Some(from)
    else FirstStart(L, e, from + 1)
  }

  /** FirstStart finds the first such row, and finds one whenever there is one from `from` on. */
  lemma {:induction false} FirstStartFirst(L: seq<Line>, e: nat, from: nat)
    requires from <= |L|
    ensures var r := FirstStart(L, e, from);
      (r.Some? ==> forall j :: from <= j < r.value ==> !(L[j].entry == e && L[j].offset == 0)) &&
      (r.None? ==> forall j :: from <= j < |L| ==> !(L[j].entry == e && L[j].offset == 0))
    decreases |L| - from
  {
    if from < |L| && !(L[from].entry == e && L[from].offset == 0) {
      FirstStartFirst(L, e, from + 1);
    }
  }

  /** A cursor place: a row of the table and a column in it. */
  datatype Spot = Spot(line: nat, pos: nat)

  /** Where set_cursor_for_content first puts the cursor for offset t of entry e: the first row
      whose span holds t, else the end of the entry's last row. */
  function Landing(L: seq<Line>, e: nat, t: nat): (r: Option<Spot>)
    ensures r.Some? ==> r.value.line < |L| && L[r.value.line].entry == e
  {
    match FirstFit(L, e, t, 0)
    case Some(i) => Some(Spot(i, t - L[i].offset))
    case None =>
      match LastBefore(L, e, |L|)
      case Some(i) => Some(Spot(i, |L[i].text|))
      case None => None
  }

  /** Where set_cursor_for_content leaves the cursor: the landing place, moved to the start of
      the next row when it is at the end of a row and the next row shows the same entry. */
  function Resolve(L: seq<Line>, e: nat, t: nat): (r: Option<Spot>)
    ensures r.Some? ==> r.value.line < |L| && L[r.value.line].entry == e
    ensures r.None? <==> Landing(L, e, t).None?
  {
    match Landing(L, e, t)
    case None => None
    case Some(s) =>
      if s.pos == |L[s.line].text| && s.line + 1 < |L| && L[s.line + 1].entry == e
      then Some(Spot(s.line + 1, 0))
      else Some(s)
  }

  /** When entry e has a row, the cursor is always placed, on a row of e and within its
      text. */
  lemma ResolveLands(L: seq<Line>, e: nat, t: nat, j: nat)
    requires j < |L| && L[j].entry == e
    ensures Resolve(L, e, t).Some?
    ensures var s := Resolve(L, e, t).value;
      L[s.line].entry == e && s.pos <= |L[s.line].text|
  {
    LastBeforeLast(L, e, |L|);
    FirstFitFirst(L, e, t, 0);
  }

  /** A cursor place shows offset t of entry e: the row's offset plus the column is t, or the
      place is the start of a row whose previous row, of the same entry, ends at t. */
  predicate Shows(L: seq<Line>, s: Spot, e: nat, t: nat)
  {
    s.line < |L| &&
    (L[s.line].offset + s.pos == t ||
     (s.pos == 0 && 1 <= s.line && L[s.line - 1].entry == e && LineEnd(L[s.line - 1]) == t))
  }

  /** When a row of e holds offset t, the cursor lands on t itself, or, when t ends a row that
      the same entry continues on the next one, at the start of that next row. */
  lemma ResolveHits(L: seq<Line>, e: nat, t: nat, j: nat)
    requires j < |L| && Fits(L[j], e, t)
    ensures Resolve(L, e, t).Some? && Shows(L, Resolve(L, e, t).value, e, t)
  {
    FirstFitFirst(L, e, t, 0);
  }

  /** When no row of e holds offset t, the cursor goes to the end of the last row of e. */
  lemma ResolveMisses(L: seq<Line>, e: nat, t: nat, j: nat)
    requires j < |L| && L[j].entry == e
    requires forall n :: 0 <= n < |L| ==> !Fits(L[n], e, t)
    ensures LastBefore(L, e, |L|).Some?
    ensures var i := LastBefore(L, e, |L|).value;
      Resolve(L, e, t) == Some(Spot(i, |L[i].text|))
  {
    FirstFitFirst(L, e, t, 0);
    assert FirstFit(L, e, t, 0).None?;
    LastBeforeLast(L, e, |L|);
  }

  /** In a table where a row followed by another row of its entry is never empty, the cursor
      is never left at the end of a row that its entry continues on the next row. */
  lemma ResolveNotAtBreak(L: seq<Line>, e: nat, t: nat)
    requires BreaksNonEmpty(L)
    requires Resolve(L, e, t).Some?
    ensures var s := Resolve(L, e, t).value;
      !(s.pos == |L[s.line].text| && s.line + 1 < |L| && L[s.line + 1].entry == e)
  {
  }

  // ---------------------------------------------------------------------------------------
  // Facts about the searches on the table reflow builds

  /** Every row followed by another row of its entry is not empty. */
  predicate BreaksNonEmpty(L: seq<Line>)
  {
    forall n :: 0 <= n < |L| - 1 && L[n + 1].entry == L[n].entry ==> |L[n].text| >= 1
  }

  /** A row followed by another row of its entry is not empty. */
  lemma ContinuedRowsNonEmpty(rs: seq<seq<Segment>>, es: seq<DialogueEntry>, mw: int)
    requires RowsFit(rs, es, mw)
    ensures BreaksNonEmpty(Concat(rs, 0))
  {
    var L := Concat(rs, 0);
    forall n | 0 <= n < |L| - 1 && L[n + 1].entry == L[n].entry ensures |L[n].text| >= 1 {
      RowOf(rs, n);
      RowOf(rs, n + 1);
    }
  }

  /** The rows before Before(e) belong to earlier entries. */
  lemma EarlierRow(rs: seq<seq<Segment>>, e: nat, j: nat)
    requires NonEmptyRows(rs) && e < |rs| && j < Before(rs, e) && j < |Concat(rs, 0)|
    ensures Concat(rs, 0)[j].entry < e
  {
    RowOf(rs, j);
    if Concat(rs, 0)[j].entry >= e {
      BeforeGrows(rs, e, Concat(rs, 0)[j].entry);
    }
  }

  /** A row that starts entry e with no such row before it is the first one. */
  lemma FirstStartAt(L: seq<Line>, e: nat, n: nat)
    requires n < |L| && L[n].entry == e && L[n].offset == 0
    requires forall j :: 0 <= j < n ==> L[j].entry != e
    ensures FirstStart(L, e, 0) == Some(n)
  {
    FirstStartFirst(L, e, 0);
  }

  /** The first row that starts entry e is its first row, at Before(e). */
  lemma StartRow(rs: seq<seq<Segment>>, e: nat)
    requires NonEmptyRows(rs) && e < |rs| && rs[e][0].offset == 0
    ensures var L := Concat(rs, 0); var n := Before(rs, e);
      n < |L| && L[n] == Line(e, 0, rs[e][0].text) && FirstStart(L, e, 0) == Some(n)
  {
    var L := Concat(rs, 0);
    var n := Before(rs, e);
    RowAt(rs, e, 0);
    forall j | 0 <= j < n ensures L[j].entry != e {
      EarlierRow(rs, e, j);
    }
    FirstStartAt(L, e, n);
  }

  /** A row at offset 0 is its entry's first row. */
  lemma ZeroOffsetIsStart(rs: seq<seq<Segment>>, es: seq<DialogueEntry>, mw: int, n: nat)
    requires RowsFit(rs, es, mw) && n < |Concat(rs, 0)| && Concat(rs, 0)[n].offset == 0
    ensures var e := Concat(rs, 0)[n].entry;
      e < |rs| && n == Before(rs, e) && Concat(rs, 0)[n].text == rs[e][0].text
  {
    RowOf(rs, n);
    var e := Concat(rs, 0)[n].entry;
    RowOffsetAtLeast(rs[e], es[e].text, mw, n - Before(rs, e));
  }

  /** A row at an offset past 0 continues its entry from the row just above it. */
  lemma ContinuationHasPrev(rs: seq<seq<Segment>>, es: seq<DialogueEntry>, mw: int, n: nat)
    requires RowsFit(rs, es, mw) && n < |Concat(rs, 0)| && Concat(rs, 0)[n].offset > 0
    ensures var L := Concat(rs, 0);
      n >= 1 && L[n - 1].entry == L[n].entry && LastBefore(L, L[n].entry, n) == Some(n - 1)
  {
    RowOf(rs, n);
    var e := Concat(rs, 0)[n].entry;
    var k := n - Before(rs, e);
    RowAt(rs, e, k - 1);
  }

  /** Entry e has a row, at Before(e). */
  lemma EntryHasRow(rs: seq<seq<Segment>>, e: nat)
    requires NonEmptyRows(rs) && e < |rs|
    ensures Before(rs, e) < |Concat(rs, 0)| && Concat(rs, 0)[Before(rs, e)].entry == e
  {
    RowAt(rs, e, 0);
  }

  /** The rows of each entry of the table reflow builds, as the entry-level facts say. */
  lemma EntryRowsInTable(es: seq<DialogueEntry>, cw: int, e: nat)
    requires cw >= 1 && e < |es|
    ensures var rs := AllRows(es, cw);
      rs[e] == EntryRows(es[e].text, cw) && EntryFit(rs[e], es[e].text, MaxWidth(cw))
  {
    AllRowsAt(es, cw, e);
    EntryRowsFacts(es[e].text, cw);
  }

  /** The offset where the last row of an entry's text ends: the end of the text, or one short
      of it when the text ends in a space that wrapping dropped. */
  function ShownEnd(text: string, cw: int): (e: nat)
    requires cw >= 1
    ensures e <= |text| && (e == |text| || (e + 1 == |text| && text[e] == ' '))
  {
    EntryRowsReach(text, cw);
    EntryRowsFacts(text, cw);
    var rows := EntryRows(text, cw);
    End(rows[|rows| - 1])
  }

  /** An offset of an entry's text that some row of the entry shows: every offset up to the end
      of the entry's last row. */
  predicate Reachable(text: string, cw: int, t: nat)
    requires cw >= 1
  {
    t <= ShownEnd(text, cw)
  }

  /** Every offset before the end of a text is shown, and so is the end of a text that does not
      end in a space. */
  lemma ReachableWhen(text: string, cw: int, t: nat)
    requires cw >= 1 && t <= |text| && (t < |text| || t == 0 || text[|text| - 1] != ' ')
    ensures Reachable(text, cw, t)
  {
  }

  /** Row ends grow down an entry's rows, so the last row ends furthest. */
  lemma {:induction false} EndsGrow(rows: seq<Segment>, text: string, mw: int, k: nat)
    requires EntryFit(rows, text, mw) && k < |rows|
    ensures End(rows[k]) <= End(rows[|rows| - 1])
    decreases |rows| - k
  {
    if k < |rows| - 1 {
      EndsGrow(rows, text, mw, k + 1);
    }
  }

  /** Rows that fit a text hold every offset up to the end of the last of them. */
  lemma RowsCover(rows: seq<Segment>, text: string, mw: int, t: nat)
    requires EntryFit(rows, text, mw) && t <= End(rows[|rows| - 1])
    ensures exists k :: 0 <= k < |rows| && rows[k].offset <= t <= End(rows[k])
  {
    CoverFrom(rows, text, mw, t, 0);
  }

  /** An offset within a row of entry e is within that row's line of the table. */
  lemma RowCovers(rs: seq<seq<Segment>>, e: nat, k: nat, t: nat)
    requires e < |rs| && k < |rs[e]| && rs[e][k].offset <= t <= End(rs[e][k])
    ensures exists j :: 0 <= j < |Concat(rs, 0)| && Fits(Concat(rs, 0)[j], e, t)
  {
    RowAt(rs, e, k);
    assert Fits(Concat(rs, 0)[Before(rs, e) + k], e, t);
  }

  /** Each reachable offset of an entry lies within one of its rows of the table. */
  lemma OffsetCovered(es: seq<DialogueEntry>, cw: int, e: nat, t: nat)
    requires cw >= 1 && e < |es| && Reachable(es[e].text, cw, t)
    ensures exists j :: 0 <= j < |Layout(es, cw)| && Fits(Layout(es, cw)[j], e, t)
  {
    var rs := AllRows(es, cw);
    EntryRowsInTable(es, cw, e);
    RowsCover(rs[e], es[e].text, MaxWidth(cw), t);
    var k :| 0 <= k < |rs[e]| && rs[e][k].offset <= t <= End(rs[e][k]);
    RowCovers(rs, e, k, t);
    var j :| 0 <= j < |Concat(rs, 0)| && Fits(Concat(rs, 0)[j], e, t);
    assert Layout(es, cw)[j] == Concat(rs, 0)[j];
  }

  /** An offset that a row of entry e holds is reachable. */
  lemma CoveredReachable(es: seq<DialogueEntry>, cw: int, e: nat, t: nat, j: nat)
    requires cw >= 1 && e < |es| && j < |Layout(es, cw)| && Fits(Layout(es, cw)[j], e, t)
    ensures Reachable(es[e].text, cw, t)
  {
    var rs := AllRows(es, cw);
    RowOf(rs, j);
    EntryRowsInTable(es, cw, e);
    EndsGrow(rs[e], es[e].text, MaxWidth(cw), j - Before(rs, e));
  }

  /** The reachable offsets of an entry are exactly those that some row of it holds. */
  lemma ReachableIff(es: seq<DialogueEntry>, cw: int, e: nat, t: nat)
    requires cw >= 1 && e < |es|
    ensures Reachable(es[e].text, cw, t) <==>
      exists j :: 0 <= j < |Layout(es, cw)| && Fits(Layout(es, cw)[j], e, t)
  {
    if Reachable(es[e].text, cw, t) {
      OffsetCovered(es, cw, e, t);
    }
    if exists j :: 0 <= j < |Layout(es, cw)| && Fits(Layout(es, cw)[j], e, t) {
      var j :| 0 <= j < |Layout(es, cw)| && Fits(Layout(es, cw)[j], e, t);
      CoveredReachable(es, cw, e, t, j);
    }
  }

  /** In the table reflow builds the cursor is always placed for an existing entry, on one of
      its rows and within that row. */
  lemma ResolvePlaces(es: seq<DialogueEntry>, cw: int, e: nat, t: nat)
    requires cw >= 1 && e < |es|
    ensures var L := Layout(es, cw);
      Resolve(L, e, t).Some? &&
      L[Resolve(L, e, t).value.line].entry == e &&
      Resolve(L, e, t).value.pos <= |L[Resolve(L, e, t).value.line].text|
  {
    EntryHasRow(AllRows(es, cw), e);
    ResolveLands(Layout(es, cw), e, t, Before(AllRows(es, cw), e));
  }

  /** For a reachable offset the cursor shows exactly that offset, or sits at the start of the
      next row of the entry when the offset ends a row. */
  lemma ResolveReaches(es: seq<DialogueEntry>, cw: int, e: nat, t: nat)
    requires cw >= 1 && e < |es| && Reachable(es[e].text, cw, t)
    ensures Resolve(Layout(es, cw), e, t).Some?
    ensures Shows(Layout(es, cw), Resolve(Layout(es, cw), e, t).value, e, t)
  {
    OffsetCovered(es, cw, e, t);
    var j :| 0 <= j < |Layout(es, cw)| && Fits(Layout(es, cw)[j], e, t);
    ResolveHits(Layout(es, cw), e, t, j);
  }

  /** For an offset past the end of the entry's last row, the cursor goes to the end of that
      row, the last offset of the entry that a row shows. */
  lemma ResolveBeyond(es: seq<DialogueEntry>, cw: int, e: nat, t: nat)
    requires cw >= 1 && e < |es| && !Reachable(es[e].text, cw, t)
    ensures Resolve(Layout(es, cw), e, t).Some?
    ensures var L := Layout(es, cw); var s := Resolve(L, e, t).value;
      L[s.line].offset + s.pos == ShownEnd(es[e].text, cw)
  {
    var L := Layout(es, cw);
    var rs := AllRows(es, cw);
    EntryRowsInTable(es, cw, e);
    EntryHasRow(rs, e);
    forall n | 0 <= n < |L| ensures !Fits(L[n], e, t) {
      if Fits(L[n], e, t) {
        CoveredReachable(es, cw, e, t, n);
      }
    }
    ResolveMisses(L, e, t, Before(rs, e));
    var i := LastBefore(L, e, |L|).value;
    LastBeforeLast(L, e, |L|);
    RowOf(rs, i);
    var k := i - Before(rs, e);
    if k + 1 < |rs[e]| {
      RowAt(rs, e, k + 1);
      assert false;
    }
  }

  /** In the table reflow builds the search for the row starting an entry always succeeds. */
  lemma StartFound(es: seq<DialogueEntry>, cw: int, e: nat)
    requires cw >= 1 && e < |es|
    ensures FirstStart(Layout(es, cw), e, 0) == Some(Before(AllRows(es, cw), e))
  {
    EntryRowsInTable(es, cw, e);
    StartRow(AllRows(es, cw), e);
  }

  /** In the table reflow builds, a row at an offset past 0 has the row above it in the same
      entry, and that is the row the backward search finds. */
  lemma ContinuationRowAbove(es: seq<DialogueEntry>, cw: int, n: nat)
    requires cw >= 1 && n < |Layout(es, cw)| && Layout(es, cw)[n].offset > 0
    ensures var L := Layout(es, cw);
      n >= 1 && L[n - 1].entry == L[n].entry && LastBefore(L, L[n].entry, n) == Some(n - 1)
  {
    AllRowsFit(es, cw);
    ContinuationHasPrev(AllRows(es, cw), es, MaxWidth(cw), n);
  }

  /** The next row of an entry starts where a row ends, or one later when wrapping consumed a
      space there. */
  lemma RowGap(text: string, cw: int, k: nat)
    requires cw >= 1 && k + 1 < |EntryRows(text, cw)|
    ensures var rows := EntryRows(text, cw);
      rows[k + 1].offset == End(rows[k]) ||
      (End(rows[k]) < |text| && rows[k + 1].offset == End(rows[k]) + 1 && text[End(rows[k])] == ' ')
  {
    WrapRows(text, cw);
    assert Wrap(text, cw) != [];
  }

  /** In the table reflow builds, the next row of the same entry starts where a row ends, or
      one position later when wrapping consumed a space there. */
  lemma ContinuationGap(es: seq<DialogueEntry>, cw: int, n: nat)
    requires cw >= 1 && n + 1 < |Layout(es, cw)| && Layout(es, cw)[n + 1].entry == Layout(es, cw)[n].entry
    ensures var L := Layout(es, cw); var e := L[n].entry;
      e < |es| &&
      (L[n + 1].offset == LineEnd(L[n]) ||
       (LineEnd(L[n]) < |es[e].text| && L[n + 1].offset == LineEnd(L[n]) + 1 &&
        es[e].text[LineEnd(L[n])] == ' '))
  {
    var rs := AllRows(es, cw);
    var e := Layout(es, cw)[n].entry;
    RowOf(rs, n);
    RowOf(rs, n + 1);
    AllRowsAt(es, cw, e);
    RowGap(es[e].text, cw, n - Before(rs, e));
  }

  /** The table depends on the texts alone: changing speakers leaves it as it is. */
  lemma LayoutSameTexts(es: seq<DialogueEntry>, es2: seq<DialogueEntry>, cw: int)
    requires cw >= 1 && |es| == |es2|
    requires forall i :: 0 <= i < |es| ==> es[i].text == es2[i].text
    ensures Layout(es, cw) == Layout(es2, cw)
  {
    forall i | 0 <= i < |es| ensures AllRows(es, cw)[i] == AllRows(es2, cw)[i] {
      AllRowsAt(es, cw, i);
      AllRowsAt(es2, cw, i);
    }
    assert AllRows(es, cw) == AllRows(es2, cw);
  }

  // ---------------------------------------------------------------------------------------
  // The loops that perform the searches

  /** set_cursor_for_content's forward scan for a row holding offset t. */
  method FindFirstFit(L: seq<Line>, e: nat, t: nat) returns (r: Option<nat>)
    ensures r == FirstFit(L, e, t, 0)
  {
    var i := 0;
    while i < |L|
      invariant i <= |L|
      invariant FirstFit(L, e, t, 0) == FirstFit(L, e, t, i)
    {
      var l := L[i];
      if l.entry == e && l.offset <= t <= l.offset + |l.text| {
        return Some(i);
      }
      i := i + 1;
    }
    return None;
  }

  /** The backward scan from row n - 1 to row 0 for a row of entry e. */
  method FindLastBefore(L: seq<Line>, e: nat, n: nat) returns (r: Option<nat>)
    requires n <= |L|
    ensures r == LastBefore(L, e, n)
  {
    var i: nat := n;
    while i > 0
      invariant i <= n
      invariant LastBefore(L, e, n) == LastBefore(L, e, i)
    {
      if L[i - 1].entry == e {
        return Some(i - 1);
      }
      i := i - 1;
    }
    return None;
  }

  /** The forward scan for the row that starts entry e. */
  method FindStart(L: seq<Line>, e: nat) returns (r: Option<nat>)
    ensures r == FirstStart(L, e, 0)
  {
    var i := 0;
    while i < |L|
      invariant i <= |L|
      invariant FirstStart(L, e, 0) == FirstStart(L, e, i)
    {
      if L[i].entry == e && L[i].offset == 0 {
        return Some(i);
      }
      i := i + 1;
    }
    return None;
  }
}
