/** The load-time folding of consecutive same-speaker entries (Editor.combine_same_speaker_entries),
    as functions on the entry list; the editor's in-place loop is proved against them. */
module Merge {
  import opened Dialogue

  /** The longest text a fold may produce, counting one separator. */
  const MergeCap := 150

  /** The characters after which no separating space is added. */
  predicate IsPunct(c: char) { c in ".!?,:;" }

  /** A text holding a square bracket is never folded. */
  predicate Bracketed(t: string) { '[' in t || ']' in t }

  /** Two neighbouring entries that the load-time pass folds into one. */
  predicate Mergeable(a: DialogueEntry, b: DialogueEntry)
  {
    a.speaker == b.speaker && !Bracketed(a.text) && !Bracketed(b.text) &&
    |a.text| + 1 + |b.text| <= MergeCap
  }

  /** The first text, a space unless it is empty or ends in punctuation, then the second text. */
  function JoinTexts(a: string, b: string): (r: string)
    ensures |a| + |b| <= |r| && r[..|a|] == a && r[|r| - |b|..] == b
    ensures |r| == |a| + |b| || (|r| == |a| + 1 + |b| && r[|a|] == ' ')
    ensures |r| == |a| + 1 + |b| <==> a != [] && !IsPunct(a[|a| - 1])
  {
    var head := if a != [] && !IsPunct(a[|a| - 1]) then a + " " else a;
    assert (head + b)[..|a|] == a;
    head + b
  }

  /** The list after entry i+1 is folded into entry i. */
  function FoldAt(es: seq<DialogueEntry>, i: nat): (r: seq<DialogueEntry>)
    requires i + 1 < |es|
    ensures |r| == |es| - 1
    ensures r[..i] == es[..i] && r[i + 1..] == es[i + 2..]
    ensures r[i] == DialogueEntry(es[i].speaker, JoinTexts(es[i].text, es[i + 1].text))
  {
    es[..i] + [DialogueEntry(es[i].speaker, JoinTexts(es[i].text, es[i + 1].text))] + es[i + 2..]
  }

  /** Folding writes the joined entry over entry i and deletes entry i+1. */
  lemma FoldAtInPlace(es: seq<DialogueEntry>, i: nat)
    requires i + 1 < |es|
    ensures var u := es[i := DialogueEntry(es[i].speaker, JoinTexts(es[i].text, es[i + 1].text))];
      u[..i + 1] + u[i + 2..] == FoldAt(es, i)
  {
    var u := es[i := DialogueEntry(es[i].speaker, JoinTexts(es[i].text, es[i + 1].text))];
    assert u[..i + 1] == es[..i] + [u[i]];
  }

  /** The pass from position i on: fold while the pair at i is mergeable, then move on. */
  function CombineFrom(es: seq<DialogueEntry>, i: nat): seq<DialogueEntry>
    requires i <= |es|
    decreases |es| - i
  {
    if i + 1 >= |es| then es
    else if Mergeable(es[i], es[i + 1]) then CombineFrom(FoldAt(es, i), i)
    else CombineFrom(es, i + 1)
  }

  /** The whole pass over an entry list. */
  function Combine(es: seq<DialogueEntry>): seq<DialogueEntry>
  {
    CombineFrom(es, 0)
  }

  /** One turn of the pass: past the last pair it stops; a mergeable pair is folded and the same
      position is looked at again; otherwise the pass moves to the next position. */
  lemma CombineStep(es: seq<DialogueEntry>, i: nat)
    requires i <= |es|
    ensures i + 1 >= |es| ==> CombineFrom(es, i) == es
    ensures i + 1 < |es| && Mergeable(es[i], es[i + 1]) ==> CombineFrom(es, i) == CombineFrom(FoldAt(es, i), i)
    ensures i + 1 < |es| && !Mergeable(es[i], es[i + 1]) ==> CombineFrom(es, i) == CombineFrom(es, i + 1)
  {
  }

  /** No two neighbours among the first n+1 entries are mergeable. */
  predicate BlockedUpTo(es: seq<DialogueEntry>, n: nat)
  {
    forall j :: 0 <= j < n && j + 1 < |es| ==> !Mergeable(es[j], es[j + 1])
  }

  /** No two neighbours are mergeable. */
  predicate NoMergeable(es: seq<DialogueEntry>)
  {
    forall j :: 0 <= j && j + 1 < |es| ==> !Mergeable(es[j], es[j + 1])
  }

  /** A pair that is not mergeable stays so when the second entry's text grows at its end. */
  lemma BlockedStaysBlocked(a: DialogueEntry, b: DialogueEntry, b2: DialogueEntry)
    requires !Mergeable(a, b)
    requires b2.speaker == b.speaker && |b.text| <= |b2.text| && b2.text[..|b.text|] == b.text
    ensures !Mergeable(a, b2)
  {
    if Bracketed(b.text) {
      var k :| 0 <= k < |b.text| && (b.text[k] == '[' || b.text[k] == ']');
      assert b2.text[k] == b.text[k];
    }
  }

  /** The pass leaves no mergeable neighbours behind it. */
  lemma {:induction false} CombineFromBlocked(es: seq<DialogueEntry>, i: nat)
    requires i <= |es| && BlockedUpTo(es, i)
    ensures NoMergeable(CombineFrom(es, i))
    decreases |es| - i
  {
    CombineStep(es, i);
    if i + 1 < |es| {
      if Mergeable(es[i], es[i + 1]) {
        var f := FoldAt(es, i);
        forall j | 0 <= j < i && j + 1 < |f| ensures !Mergeable(f[j], f[j + 1]) {
          assert f[j] == f[..i][j] == es[j];
          if j + 1 < i {
            assert f[j + 1] == f[..i][j + 1] == es[j + 1];
          } else {
            BlockedStaysBlocked(es[j], es[j + 1], f[j + 1]);
          }
        }
        CombineFromBlocked(f, i);
      } else {
        CombineFromBlocked(es, i + 1);
      }
    }
  }

  /** After the pass no two neighbours are mergeable. */
  lemma CombineNoMergeable(es: seq<DialogueEntry>)
    ensures NoMergeable(Combine(es))
  {
    CombineFromBlocked(es, 0);
  }

  /** A list without mergeable neighbours is left as it is. */
  lemma {:induction false} CombineFromStable(es: seq<DialogueEntry>, i: nat)
    requires i <= |es| && NoMergeable(es)
    ensures CombineFrom(es, i) == es
    decreases |es| - i
  {
    CombineStep(es, i);
    if i + 1 < |es| {
      CombineFromStable(es, i + 1);
    }
  }

  /** Running the pass on its own output changes nothing. */
  lemma CombineIdempotent(es: seq<DialogueEntry>)
    ensures Combine(Combine(es)) == Combine(es)
  {
    CombineNoMergeable(es);
    CombineFromStable(Combine(es), 0);
  }

  /** The pass changes a list exactly when it has a mergeable pair of neighbours. */
  lemma CombineChangesIff(es: seq<DialogueEntry>)
    ensures Combine(es) == es <==> NoMergeable(es)
  {
    CombineNoMergeable(es);
    if NoMergeable(es) {
      CombineFromStable(es, 0);
    }
  }

  /** The pass never grows the list, and never empties a non-empty one. */
  lemma {:induction false} CombineFromLength(es: seq<DialogueEntry>, i: nat)
    requires i <= |es|
    ensures |CombineFrom(es, i)| <= |es|
    ensures |es| >= 1 ==> |CombineFrom(es, i)| >= 1
    ensures |CombineFrom(es, i)| >= i
    decreases |es| - i
  {
    CombineStep(es, i);
    if i + 1 < |es| {
      if Mergeable(es[i], es[i + 1]) {
        CombineFromLength(FoldAt(es, i), i);
      } else {
        CombineFromLength(es, i + 1);
      }
    }
  }

  /** The same bounds for the whole pass. */
  lemma CombineLength(es: seq<DialogueEntry>)
    ensures |Combine(es)| <= |es|
    ensures |es| >= 1 ==> |Combine(es)| >= 1
  {
    CombineFromLength(es, 0);
  }
}
