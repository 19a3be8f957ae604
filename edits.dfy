/** The string and entry-list surgery the edit keys perform, as functions on values. */
module Edits {
  import opened Dialogue

  /** A character put in at index `at`: everything before it stays, everything from `at` on
      moves one place right. */
  function Spliced(s: string, at: nat, c: char): (r: string)
    requires at <= |s|
    ensures |r| == |s| + 1 && r[at] == c
    ensures forall i :: 0 <= i < at ==> r[i] == s[i]
    ensures forall i :: at < i < |r| ==> r[i] == s[i - 1]
  {
    s[..at] + [c] + s[at..]
  }

  /** The character at index `at` taken out. */
  function Removed(s: string, at: nat): (r: string)
    requires at < |s|
    ensures |r| == |s| - 1
    ensures forall i :: 0 <= i < at ==> r[i] == s[i]
    ensures forall i :: at <= i < |r| ==> r[i] == s[i + 1]
  {
    s[..at] + s[at + 1..]
  }

  /** Taking out a character just put in gives back the string, and putting back a character
      just taken out gives back the string: insert and backspace at the same place undo each
      other. */
  lemma SpliceRemoveRoundTrip(s: string, at: nat, c: char)
    requires at <= |s|
    ensures Removed(Spliced(s, at, c), at) == s
    ensures at < |s| ==> Spliced(Removed(s, at), at, s[at]) == s
  {
    var r := Removed(Spliced(s, at, c), at);
    assert forall i :: 0 <= i < |s| ==> r[i] == s[i];
    if at < |s| {
      var q := Spliced(Removed(s, at), at, s[at]);
      assert forall i :: 0 <= i < |s| ==> q[i] == s[i];
    }
  }

  /** In an entry list: a character put into entry e's text and then taken out again at the same
      place gives back the list. */
  lemma TypeThenErase(es: seq<DialogueEntry>, e: nat, at: nat, c: char)
    requires e < |es| && at <= |es[e].text|
    ensures var d := es[e]; var r := es[e := DialogueEntry(d.speaker, Spliced(d.text, at, c))];
      r[e := DialogueEntry(r[e].speaker, Removed(r[e].text, at))] == es
  {
    SpliceRemoveRoundTrip(es[e].text, at, c);
  }

  /** Entry e split at index `at` of its text: the prefix stays at e, the suffix becomes a new
      entry of the same speaker right after it, and every other entry keeps its place up to the
      shift of the later ones. */
  function SplitEntry(es: seq<DialogueEntry>, e: nat, at: nat): (r: seq<DialogueEntry>)
    requires e < |es| && at <= |es[e].text|
    ensures |r| == |es| + 1
    ensures r[..e] == es[..e] && r[e + 2..] == es[e + 1..]
    ensures r[e].speaker == es[e].speaker && r[e + 1].speaker == es[e].speaker
    ensures r[e].text == es[e].text[..at] && r[e + 1].text == es[e].text[at..]
    ensures r[e].text + r[e + 1].text == es[e].text
  {
    var d := es[e];
    es[..e] + [DialogueEntry(d.speaker, d.text[..at]), DialogueEntry(d.speaker, d.text[at..])] + es[e + 1..]
  }

  /** Entry e appended to entry e - 1 and removed: the joined text is the earlier text followed
      by the later one, with nothing between them. */
  function JoinBack(es: seq<DialogueEntry>, e: nat): (r: seq<DialogueEntry>)
    requires 0 < e < |es|
    ensures |r| == |es| - 1
    ensures r[..e - 1] == es[..e - 1] && r[e..] == es[e + 1..]
    ensures r[e - 1] == DialogueEntry(es[e - 1].speaker, es[e - 1].text + es[e].text)
  {
    es[..e - 1] + [DialogueEntry(es[e - 1].speaker, es[e - 1].text + es[e].text)] + es[e + 1..]
  }

  /** Splitting an entry and joining the new entry back gives back the list. */
  lemma SplitJoinRoundTrip(es: seq<DialogueEntry>, e: nat, at: nat)
    requires e < |es| && at <= |es[e].text|
    ensures JoinBack(SplitEntry(es, e, at), e + 1) == es
  {
    var s := SplitEntry(es, e, at);
    var j := JoinBack(s, e + 1);
    assert j[e] == es[e];
    assert j == j[..e] + [j[e]] + j[e + 1..];
    assert es == es[..e] + [es[e]] + es[e + 1..];
  }

  /** Entries a and b exchanged. */
  function Swapped(es: seq<DialogueEntry>, a: nat, b: nat): (r: seq<DialogueEntry>)
    requires a < |es| && b < |es|
    ensures |r| == |es| && r[a] == es[b] && r[b] == es[a]
    ensures forall i :: 0 <= i < |es| && i != a && i != b ==> r[i] == es[i]
  {
    es[a := es[b]][b := es[a]]
  }

  /** Exchanging two entries keeps the same entries, and exchanging the same two twice gives
      back the list, so moving an entry up and then down again restores the order. */
  lemma SwapTwice(es: seq<DialogueEntry>, a: nat, b: nat)
    requires a < |es| && b < |es|
    ensures multiset(Swapped(es, a, b)) == multiset(es)
    ensures Swapped(Swapped(es, a, b), a, b) == es
    ensures Swapped(es, a, b) == Swapped(es, b, a)
  {
  }
}
