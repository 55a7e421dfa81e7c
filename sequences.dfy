/** Generic facts about sequences: JavaScript's [...new Set(s)] and first occurrences. */
module Sequences {

  /** No element occurs twice in s. */
  predicate NoDuplicates<T(==)>(s: seq<T>) {
    forall i, j :: 0 <= i < j < |s| ==> s[i] != s[j]
  }

  /** The position of the first occurrence of x in s. */
  function IndexOf<T(==)>(s: seq<T>, x: T): (n: nat)
    requires x in s
    ensures n < |s| && s[n] == x
    ensures forall k :: 0 <= k < n ==> s[k] != x
  {
    if s[0] == x then 0 else IndexOf(s[1..], x) + 1
  }

  /** Appending an element leaves the first occurrence of everything already there in place. */
  lemma IndexOfSnoc<T>(s: seq<T>, y: T, x: T)
    requires x in s + [y]
    ensures x in s ==> IndexOf(s + [y], x) == IndexOf(s, x)
    ensures x !in s ==> IndexOf(s + [y], x) == |s|
  {
    if x in s {
      var m := IndexOf(s, x);
      assert (s + [y])[m] == x;
    }
  }

  /** The elements of s, each once, in the order of their first occurrence:
      what spreading a JavaScript Set built from s yields. */
  function Distinct<T(==)>(s: seq<T>): (r: seq<T>)
    ensures forall i :: 0 <= i < |r| ==> r[i] in s
    ensures forall i :: 0 <= i < |s| ==> s[i] in r
    ensures NoDuplicates(r)
  {
    if |s| == 0 then []
    else
      var d := Distinct(s[..|s| - 1]);
      assert s == s[..|s| - 1] + [s[|s| - 1]];
      if s[|s| - 1] in d then d else d + [s[|s| - 1]]
  }

  /** Distinct, unfolded at the end of the sequence. */
  lemma DistinctSnoc<T>(s: seq<T>, y: T)
    ensures Distinct(s + [y]) == if y in s then Distinct(s) else Distinct(s) + [y]
  {
    assert (s + [y])[..|s|] == s;
  }

  /** Distinct lists the elements in the order in which they first occur in s. */
  lemma {:induction false} DistinctKeepsFirstSeenOrder<T>(s: seq<T>)
    ensures forall i, j :: 0 <= i < j < |Distinct(s)| ==>
      IndexOf(s, Distinct(s)[i]) < IndexOf(s, Distinct(s)[j])
  {
    if |s| > 0 {
      var p, y := s[..|s| - 1], s[|s| - 1];
      assert s == p + [y];
      DistinctKeepsFirstSeenOrder(p);
      DistinctSnoc(p, y);
      var d, r := Distinct(p), Distinct(s);
      forall i, j | 0 <= i < j < |r|
        ensures IndexOf(s, r[i]) < IndexOf(s, r[j])
      {
        IndexOfSnoc(p, y, r[i]);
        IndexOfSnoc(p, y, r[j]);
        if j == |d| {
          assert r[i] in d;
        }
      }
    }
  }
}
