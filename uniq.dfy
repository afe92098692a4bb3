/**
  Ruby's `Array#uniq` and the "append unless already present" loop: both
  keep the first occurrence of every element, in first-seen order.
 */
module Uniq {

  predicate NoDups(s: seq<string>) {
    forall i, j :: 0 <= i < j < |s| ==> s[i] != s[j]
  }

  /** `s` with every repeated element dropped after its first occurrence. */
  function Dedup(s: seq<string>): (r: seq<string>)
    ensures NoDups(r)
    ensures forall x :: x in r <==> x in s
    ensures |r| <= |s|
  {
    if s == [] then []
    else
      var init, last := s[..|s| - 1], s[|s| - 1];
      assert s == init + [last];
      var d := Dedup(init);
      if last in d then d else d + [last]
  }

  lemma DedupSnoc(s: seq<string>, x: string)
    ensures Dedup(s + [x]) == if x in Dedup(s) then Dedup(s) else Dedup(s) + [x]
  {
    assert (s + [x])[..|s|] == s;
  }

  /** Dedup keeps the first element in front. */
  lemma {:induction false} DedupHead(s: seq<string>)
    requires s != []
    ensures Dedup(s) != [] && Dedup(s)[0] == s[0]
  {
    var init := s[..|s| - 1];
    if init != [] {
      DedupHead(init);
      assert init[0] == s[0];
    }
  }

  /** The position of the first occurrence of `x` in `s`. */
  function FirstPosition(s: seq<string>, x: string): (k: nat)
    requires x in s
    ensures k < |s| && s[k] == x
    ensures forall j :: 0 <= j < k ==> s[j] != x
  {
    if s[0] == x then 0 else 1 + FirstPosition(s[1..], x)
  }

  /** The elements of `r` come in the order of their first occurrences in `s`. */
  ghost predicate FirstSeenOrder(r: seq<string>, s: seq<string>) {
    forall i, j :: 0 <= i < j < |r| ==> r[i] in s && r[j] in s && FirstPosition(s, r[i]) < FirstPosition(s, r[j])
  }

  lemma FirstPositionExtend(s: seq<string>, y: string, x: string)
    requires x in s
    ensures FirstPosition(s + [y], x) == FirstPosition(s, x)
  {
    var k, k' := FirstPosition(s, x), FirstPosition(s + [y], x);
    assert (s + [y])[k] == x;
  }

  /** Dedup lists its elements in first-seen order. */
  lemma {:induction false} DedupFirstSeen(s: seq<string>)
    ensures FirstSeenOrder(Dedup(s), s)
  {
    if s != [] {
      var init, last := s[..|s| - 1], s[|s| - 1];
      assert s == init + [last];
      DedupFirstSeen(init);
      var d := Dedup(init);
      forall x | x in init
        ensures FirstPosition(s, x) == FirstPosition(init, x)
      {
        FirstPositionExtend(init, last, x);
      }
      if last !in d {
        assert FirstPosition(s, last) == |init|;
      }
    }
  }

  /**
    Deduplicating `a + b` first lists the deduplicated `a`, then only
    elements of `b` that do not occur in `a`.
   */
  lemma {:induction false} DedupAppend(a: seq<string>, b: seq<string>)
    ensures Dedup(a) <= Dedup(a + b)
    ensures forall i :: |Dedup(a)| <= i < |Dedup(a + b)| ==> Dedup(a + b)[i] in b && Dedup(a + b)[i] !in a
  {
    if b == [] {
      assert a + b == a;
    } else {
      var b', y := b[..|b| - 1], b[|b| - 1];
      assert b == b' + [y];
      assert a + b == (a + b') + [y];
      DedupAppend(a, b');
    }
  }
}
