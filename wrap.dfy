/** Word wrapping of one entry's text into display rows (Editor.wrap_text). */
module WordWrap {

  /** A display row of one entry: where it starts in the entry's text and what it shows. */
  datatype Segment = Segment(offset: nat, text: string)

  /** One past the last character a row shows. */
  function End(s: Segment): nat { s.offset + |s.text| }

  /** The effective row width: the content width, never more than fifty columns. */
  function MaxWidth(width: int): (mw: int)
    ensures mw <= width && mw <= 50
    ensures mw == width || mw == 50
  {
    if width < 50 then width else 50
  }

  /** str.rfind(" "): the index of the last space of w, or -1 when w has none. */
  function LastSpace(w: string): (k: int)
    ensures -1 <= k < |w|
    ensures k >= 0 ==> w[k] == ' '
  {
    if |w| == 0 then -1
    else if w[|w| - 1] == ' ' then |w| - 1
    else LastSpace(w[..|w| - 1])
  }

  /** No space follows the one LastSpace finds. */
  lemma {:induction false} LastSpaceIsLast(w: string, j: int)
    requires LastSpace(w) < j < |w|
    ensures w[j] != ' '
    decreases |w|
  {
    if w[|w| - 1] != ' ' && j < |w| - 1 {
      LastSpaceIsLast(w[..|w| - 1], j);
    }
  }

  /** Where the wrapping loop cuts the text when `start` has reached the given position: the
      end of the text if the remainder fits, otherwise the last space of the next mw+1
      characters, or mw characters on when that space is missing or leading (a hard break). */
  function CutAt(text: string, mw: nat, start: nat): (cut: nat)
    requires 1 <= mw && start < |text|
    ensures start < cut <= start + mw && cut <= |text|
  {
    if |text| - start <= mw then |text|
    else
      var k := LastSpace(text[start..start + mw + 1]);
      if k <= 0 then start + mw else start + k
  }

  /** Where the next row starts: right at the cut, or one past it when the cut is a space
      that the break consumes. */
  function ResumeAt(text: string, mw: nat, start: nat): (next: nat)
    requires 1 <= mw && start < |text|
    ensures next == CutAt(text, mw, start) ||
            (CutAt(text, mw, start) < |text| && next == CutAt(text, mw, start) + 1 && text[CutAt(text, mw, start)] == ' ')
    ensures next <= |text|
  {
    if |text| - start <= mw then |text|
    else
      var k := LastSpace(text[start..start + mw + 1]);
      if k <= 0 then start + mw else start + k + 1
  }

  /** The rows the wrapping loop emits once `start` has reached the given position. */
  function WrapFrom(text: string, mw: nat, start: nat): seq<Segment>
    requires 1 <= mw && start <= |text|
    decreases |text| - start
  {
    if start == |text| then []
    else [Segment(start, text[start..CutAt(text, mw, start)])] + WrapFrom(text, mw, ResumeAt(text, mw, start))
  }

  /** The rows wrap_text returns for a text at a given content width. */
  function Wrap(text: string, width: int): seq<Segment>
    requires width >= 1
  {
    WrapFrom(text, MaxWidth(width), 0)
  }

  /** Concatenation of rows regroups freely. */
  lemma AppendAssoc(a: seq<Segment>, b: seq<Segment>, c: seq<Segment>)
    ensures a + (b + c) == (a + b) + c
  {
  }

  /** The rows from a position not at the end are the row cut there, then the rows from where
      the loop resumes. */
  lemma WrapFromUnfold(text: string, mw: nat, start: nat)
    requires 1 <= mw && start < |text|
    ensures WrapFrom(text, mw, start) ==
      [Segment(start, text[start..CutAt(text, mw, start)])] + WrapFrom(text, mw, ResumeAt(text, mw, start))
  {
  }

  /** One turn of wrap_text's loop: the row appended at `start` and where the next turn starts
      (the end of the text when the rest fits, which ends the loop as its break does). */
  method NextRow(text: string, mw: nat, start: nat) returns (row: Segment, next: nat)
    requires 1 <= mw && start < |text|
    ensures row == Segment(start, text[start..CutAt(text, mw, start)])
    ensures next == ResumeAt(text, mw, start)
  {
    var remaining := |text| - start;
    if remaining <= mw {
      row, next := Segment(start, text[start..]), |text|;
      assert text[start..] == text[start..|text|];
      return;
    }
    var window := text[start..start + mw + 1];
    var breakIndex := LastSpace(window);
    if breakIndex == -1 || breakIndex == 0 {
      row, next := Segment(start, text[start..start + mw]), start + mw;
    } else {
      row, next := Segment(start, text[start..start + breakIndex]), start + breakIndex + 1;
    }
  }

  /** wrap_text: rows are appended one turn at a time until the text is used up. */
  method WrapText(text: string, width: int) returns (lines: seq<Segment>)
    requires width >= 1
    ensures lines == Wrap(text, width)
  {
    var maxWidth := MaxWidth(width);
    lines := [];
    var start := 0;
    ghost var rows := Wrap(text, width);
    while start < |text|
      invariant start <= |text|
      invariant lines + WrapFrom(text, maxWidth, start) == rows
      decreases |text| - start
    {
      var row, next := NextRow(text, maxWidth, start);
      WrapFromUnfold(text, maxWidth, start);
      AppendAssoc(lines, [row], WrapFrom(text, maxWidth, next));
      lines := lines + [row];
      start := next;
    }
    assert lines + [] == lines;
  }

  /** `segs` are the rows of text[from..]: each row is a non-empty slice of the text, at
      most mw wide, starting where the previous one ended (a hard break) or one past it
      over a space (a consumed break); the text ends after the last row, or after one
      consumed space following it. */
  ghost predicate Tiles(text: string, from: nat, segs: seq<Segment>, mw: nat)
    decreases |segs|
  {
    if segs == [] then from == |text|
    else
      var s := segs[0];
      s.offset == from && 1 <= |s.text| <= mw && End(s) <= |text| && s.text == text[from..End(s)] &&
      (Tiles(text, End(s), segs[1..], mw) ||
       (End(s) < |text| && text[End(s)] == ' ' && Tiles(text, End(s) + 1, segs[1..], mw)))
  }

  /** Joins rows back into text, putting one space back wherever a row starts one past the
      end of the row before it. */
  function Reassemble(segs: seq<Segment>): string
  {
    if segs == [] then ""
    else if |segs| == 1 then segs[0].text
    else segs[0].text + (if segs[1].offset == End(segs[0]) + 1 then " " else "") + Reassemble(segs[1..])
  }

  lemma {:induction false} WrapFromTiles(text: string, mw: nat, start: nat)
    requires 1 <= mw && start <= |text|
    ensures Tiles(text, start, WrapFrom(text, mw, start), mw)
    decreases |text| - start
  {
    if start < |text| {
      var cut := CutAt(text, mw, start);
      var next := ResumeAt(text, mw, start);
      WrapFromTiles(text, mw, next);
      WrapFromUnfold(text, mw, start);
      TilesCons(text, start, Segment(start, text[start..cut]), WrapFrom(text, mw, next), mw);
    }
  }

  /** A row that fits at `from`, followed by a tiling of what comes after it (directly or past
      one space), tiles from `from`. */
  lemma TilesCons(text: string, from: nat, s: Segment, rest: seq<Segment>, mw: nat)
    requires s.offset == from && 1 <= |s.text| <= mw && End(s) <= |text| && s.text == text[from..End(s)]
    requires Tiles(text, End(s), rest, mw) ||
             (End(s) < |text| && text[End(s)] == ' ' && Tiles(text, End(s) + 1, rest, mw))
    ensures Tiles(text, from, [s] + rest, mw)
  {
    assert ([s] + rest)[0] == s && ([s] + rest)[1..] == rest;
  }

  /** Each row of a tiling lies inside the text, shows exactly the characters at its offset, and
      is followed by the next row either directly or after one space. */
  lemma {:induction false} TilesRows(text: string, from: nat, segs: seq<Segment>, mw: nat)
    requires Tiles(text, from, segs, mw)
    ensures segs != [] ==> segs[0].offset == from
    ensures forall k :: 0 <= k < |segs| ==>
      from <= segs[k].offset && End(segs[k]) <= |text| &&
      segs[k].text == text[segs[k].offset..End(segs[k])] && 1 <= |segs[k].text| <= mw
    ensures forall k :: 0 <= k < |segs| - 1 ==>
      segs[k + 1].offset == End(segs[k]) ||
      (End(segs[k]) < |text| && segs[k + 1].offset == End(segs[k]) + 1 && text[End(segs[k])] == ' ')
    decreases |segs|
  {
    if segs != [] {
      var s := segs[0];
      if Tiles(text, End(s), segs[1..], mw) {
        TilesRows(text, End(s), segs[1..], mw);
      } else {
        TilesRows(text, End(s) + 1, segs[1..], mw);
      }
      forall k | 0 <= k < |segs| - 1
        ensures segs[k + 1].offset == End(segs[k]) ||
                (End(segs[k]) < |text| && segs[k + 1].offset == End(segs[k]) + 1 && text[End(segs[k])] == ' ')
      {
        if k > 0 { assert segs[k] == segs[1..][k - 1] && segs[k + 1] == segs[1..][k]; }
      }
      forall k | 0 <= k < |segs|
        ensures from <= segs[k].offset && End(segs[k]) <= |text| &&
                segs[k].text == text[segs[k].offset..End(segs[k])] && 1 <= |segs[k].text| <= mw
      {
        if k > 0 { assert segs[k] == segs[1..][k - 1]; }
      }
    }
  }

  /** Putting the consumed spaces back rebuilds the text up to the end of the last row, and that
      end is the end of the text or, at most, one trailing space before it. */
  lemma {:induction false} TilesReassemble(text: string, from: nat, segs: seq<Segment>, mw: nat)
    requires Tiles(text, from, segs, mw) && segs != []
    ensures var e := End(segs[|segs| - 1]);
      from <= e <= |text| && Reassemble(segs) == text[from..e] &&
      (e == |text| || (e + 1 == |text| && text[e] == ' '))
    decreases |segs|
  {
    var s := segs[0];
    var rest := segs[1..];
    if rest != [] {
      var next := if Tiles(text, End(s), rest, mw) then End(s) else End(s) + 1;
      assert Tiles(text, next, rest, mw);
      TilesReassemble(text, next, rest, mw);
      assert rest[|rest| - 1] == segs[|segs| - 1];
      var e := End(segs[|segs| - 1]);
      var gap := text[End(s)..next];
      assert gap == if rest[0].offset == End(s) + 1 then " " else "";
      assert Reassemble(segs) == (s.text + gap) + Reassemble(rest);
      SliceConcat(text, from, End(s), next);
      SliceConcat(text, from, next, e);
    }
  }

  /** Adjacent slices of a text join into one. */
  lemma SliceConcat(text: string, a: nat, b: nat, c: nat)
    requires a <= b <= c <= |text|
    ensures text[a..b] + text[b..c] == text[a..c]
  {
  }

  /** The rows of a text: empty text has none; otherwise every row is a non-empty slice of the
      text at most min(width, 50) wide, the first at offset 0, each next one right after the
      previous or after one skipped space; putting those spaces back rebuilds the text, except
      that a trailing space right after a full row is dropped. */
  lemma WrapRows(text: string, width: int)
    requires width >= 1
    ensures var r := Wrap(text, width);
      (r == [] <==> text == []) &&
      (r != [] ==> r[0].offset == 0) &&
      (forall k :: 0 <= k < |r| ==>
        End(r[k]) <= |text| && r[k].text == text[r[k].offset..End(r[k])] &&
        1 <= |r[k].text| <= MaxWidth(width)) &&
      (forall k :: 0 <= k < |r| - 1 ==>
        r[k + 1].offset == End(r[k]) ||
        (End(r[k]) < |text| && r[k + 1].offset == End(r[k]) + 1 && text[End(r[k])] == ' ')) &&
      (r != [] ==> var e := End(r[|r| - 1]);
        Reassemble(r) == text[..e] && (e == |text| || (e + 1 == |text| && text[e] == ' ')))
  {
    var r := Wrap(text, width);
    WrapFromTiles(text, MaxWidth(width), 0);
    TilesRows(text, 0, r, MaxWidth(width));
    if r != [] {
      TilesReassemble(text, 0, r, MaxWidth(width));
    }
  }

  /** Rows follow each other without overlap, so offsets strictly increase. */
  lemma {:induction false} WrapOffsetsIncrease(text: string, width: int, i: nat, j: nat)
    requires width >= 1 && i < j < |Wrap(text, width)|
    ensures End(Wrap(text, width)[i]) <= Wrap(text, width)[j].offset
    ensures Wrap(text, width)[i].offset < Wrap(text, width)[j].offset
    decreases j - i
  {
    WrapRows(text, width);
    if j > i + 1 {
      WrapOffsetsIncrease(text, width, i, j - 1);
    }
  }

  /** A non-empty text that fits in one row is a single row at offset zero. */
  lemma WrapShortText(text: string, width: int)
    requires width >= 1 && 1 <= |text| <= MaxWidth(width)
    ensures Wrap(text, width) == [Segment(0, text)]
  {
    assert WrapFrom(text, MaxWidth(width), |text|) == [];
    assert text[0..|text|] == text;
  }

  /** Cutting the text at an offset d does not move the cuts made after it. */
  lemma CutShift(text: string, mw: nat, d: nat, s: nat)
    requires 1 <= mw && d + s < |text|
    ensures CutAt(text, mw, d + s) == d + CutAt(text[d..], mw, s)
    ensures ResumeAt(text, mw, d + s) == d + ResumeAt(text[d..], mw, s)
  {
    if |text| - (d + s) > mw {
      assert text[d..][s..s + mw + 1] == text[d + s..d + s + mw + 1];
    }
  }

  /** The rows from row k on are exactly the rows the loop emits when it starts at row k's offset. */
  lemma {:induction false} WrapFromTail(text: string, mw: nat, start: nat, k: nat)
    requires 1 <= mw && start <= |text| && k < |WrapFrom(text, mw, start)|
    ensures WrapFrom(text, mw, start)[k].offset <= |text|
    ensures WrapFrom(text, mw, start)[k..] == WrapFrom(text, mw, WrapFrom(text, mw, start)[k].offset)
    decreases k
  {
    var r := WrapFrom(text, mw, start);
    if k > 0 {
      var next := ResumeAt(text, mw, start);
      assert r[1..] == WrapFrom(text, mw, next);
      WrapFromTail(text, mw, next, k - 1);
      assert r[k..] == r[1..][k - 1..];
    }
  }

  /** A row at offset o is also the first row of the text's suffix starting at o. */
  lemma RowIsFirstOfSuffix(text: string, width: int, k: nat)
    requires width >= 1 && k < |Wrap(text, width)|
    ensures var s := Wrap(text, width)[k];
      s.offset < |text| && Wrap(text[s.offset..], width) != [] &&
      Wrap(text[s.offset..], width)[0].text == s.text
  {
    var mw := MaxWidth(width);
    var s := Wrap(text, width)[k];
    WrapFromTail(text, mw, 0, k);
    assert WrapFrom(text, mw, s.offset)[0] == s;
    var t := text[s.offset..];
    WrapFromUnfold(text, mw, s.offset);
    WrapFromUnfold(t, mw, 0);
    CutShift(text, mw, s.offset, 0);
    assert t[0..CutAt(t, mw, 0)] == text[s.offset..CutAt(text, mw, s.offset)];
  }

  /** Dropping a last character that is not a space does not change where the last space is. */
  lemma LastSpaceSkip(w: string)
    requires |w| > 0 && w[|w| - 1] != ' '
    ensures LastSpace(w) == LastSpace(w[..|w| - 1])
  {
  }

  /** "Hello there" at width 10 breaks at the space. */
  lemma WrapHelloThere()
    ensures Wrap("Hello there", 10) == [Segment(0, "Hello"), Segment(6, "there")]
  {
    var text := "Hello there";
    assert LastSpace("Hello ") == 5;
    LastSpaceSkip("Hello t");
    assert "Hello t"[..6] == "Hello ";
    LastSpaceSkip("Hello th");
    assert "Hello th"[..7] == "Hello t";
    LastSpaceSkip("Hello the");
    assert "Hello the"[..8] == "Hello th";
    LastSpaceSkip("Hello ther");
    assert "Hello ther"[..9] == "Hello the";
    LastSpaceSkip("Hello there");
    assert "Hello there"[..10] == "Hello ther";
    assert text[0..11] == text;
    assert CutAt(text, 10, 0) == 5 && ResumeAt(text, 10, 0) == 6;
    assert CutAt(text, 10, 6) == 11 && ResumeAt(text, 10, 6) == 11;
    WrapFromUnfold(text, 10, 0);
    WrapFromUnfold(text, 10, 6);
    assert WrapFrom(text, 10, 11) == [];
    assert text[0..5] == "Hello";
    assert text[6..11] == "there";
  }

  /** The trailing-space case: a space right after a full row is consumed with no row after it,
      so the rows end one character before the end of the text. */
  lemma WrapDropsTrailingSpace()
    ensures Wrap("abcde ", 5) == [Segment(0, "abcde")]
    ensures Reassemble(Wrap("abcde ", 5)) != "abcde "
  {
    var text := "abcde ";
    assert text[0..6] == text;
    assert LastSpace(text) == 5;
    assert CutAt(text, 5, 0) == 5 && ResumeAt(text, 5, 0) == 6;
    assert WrapFrom(text, 5, 6) == [];
    assert text[0..5] == "abcde";
  }
}
