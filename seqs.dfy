/**
 * Sequence helpers behind the queries: filtering, de-duplication that keeps
 * the first occurrence (what spreading a JavaScript `Set` built from an array
 * does), first-occurrence index and prefix.
 */
module Seqs {

  /** The elements of `s` that satisfy `p`, in their order in `s`. */
  function Filter<T(==,!new)>(s: seq<T>, p: T -> bool): (r: seq<T>)
    ensures |r| <= |s|
    ensures forall x :: x in r <==> x in s && p(x)
  {
    if s == [] then []
    else
      assert s == s[..|s| - 1] + [s[|s| - 1]];
      Filter(s[..|s| - 1], p) + (if p(s[|s| - 1]) then [s[|s| - 1]] else [])
  }

  /** Filtering keeps every relation that held between earlier and later elements. */
  lemma {:induction false} FilterKeepsPairwise<T(!new)>(s: seq<T>, p: T -> bool, rel: (T, T) -> bool)
    requires forall i, j :: 0 <= i < j < |s| ==> rel(s[i], s[j])
    ensures forall i, j :: 0 <= i < j < |Filter(s, p)| ==> rel(Filter(s, p)[i], Filter(s, p)[j])
  {
    if s != [] {
      var init, last := s[..|s| - 1], s[|s| - 1];
      FilterKeepsPairwise(init, p, rel);
      var r, f := Filter(s, p), Filter(init, p);
      assert r == f || r == f + [last];
      forall i, j | 0 <= i < j < |r| ensures rel(r[i], r[j]) {
        if j < |f| {
          assert r[i] == f[i] && r[j] == f[j];
          assert rel(f[i], f[j]);
        } else {
          assert r[i] == f[i] && r[i] in f;
          var k :| 0 <= k < |init| && init[k] == r[i];
          assert s[k] == r[i] && s[|s| - 1] == r[j];
          assert rel(s[k], s[|s| - 1]);
        }
      }
    }
  }

  predicate Distinct<T(==,!new)>(s: seq<T>) {
    forall i, j :: 0 <= i < j < |s| ==> s[i] != s[j]
  }

  /** The distinct elements of `s`, each at the place of its first occurrence. */
  function Dedup<T(==,!new)>(s: seq<T>): (r: seq<T>)
    ensures forall x :: x in r <==> x in s
    ensures Distinct(r)
  {
    if s == [] then []
    else
      assert s == s[..|s| - 1] + [s[|s| - 1]];
      var d := Dedup(s[..|s| - 1]);
      if s[|s| - 1] in d then d else d + [s[|s| - 1]]
  }

  /** The index of the first occurrence of `x` in `s`, or `|s|` when there is none. */
  function IndexOf<T(==,!new)>(s: seq<T>, x: T): (k: nat)
    ensures k <= |s|
    ensures k < |s| <==> x in s
    ensures k < |s| ==> s[k] == x
    ensures forall i :: 0 <= i < k && i < |s| ==> s[i] != x
  {
    if s == [] then 0
    else if s[0] == x then 0
    else 1 + IndexOf(s[1..], x)
  }

  /** Appending an element does not move the first occurrence of anything already present. */
  lemma IndexOfAppend<T(!new)>(s: seq<T>, y: T, x: T)
    ensures IndexOf(s + [y], x) == if x in s then IndexOf(s, x) else if x == y then |s| else |s| + 1
  {
    var t := s + [y];
    var k, k' := IndexOf(t, x), IndexOf(s, x);
    if x in s {
      assert t[k'] == x;
    } else if x == y {
      assert t[|s|] == x;
    }
  }

  /** The de-duplicated sequence lists its elements in the order of their first occurrence. */
  lemma {:induction false} DedupKeepsFirstOccurrenceOrder<T(!new)>(s: seq<T>)
    ensures forall i, j :: 0 <= i < j < |Dedup(s)| ==> IndexOf(s, Dedup(s)[i]) < IndexOf(s, Dedup(s)[j])
  {
    if s != [] {
      var init, last := s[..|s| - 1], s[|s| - 1];
      assert s == init + [last];
      DedupKeepsFirstOccurrenceOrder(init);
      var d, r := Dedup(init), Dedup(s);
      assert r == d || (r == d + [last] && last !in init);
      forall i, j | 0 <= i < j < |r| ensures IndexOf(s, r[i]) < IndexOf(s, r[j]) {
        assert r[i] == d[i] && d[i] in init;
        IndexOfAppend(init, last, r[i]);
        if j < |d| {
          assert r[j] == d[j] && d[j] in init;
          IndexOfAppend(init, last, r[j]);
          assert IndexOf(init, d[i]) < IndexOf(init, d[j]);
        } else {
          IndexOfAppend(init, last, last);
          assert r[j] == last;
          assert IndexOf(init, r[i]) < |init|;
        }
      }
    }
  }

  /**
   * The positions in `s` of the elements satisfying `p`, from the last to the
   * first: strictly decreasing, and covering every such position.
   */
  function PositionsDesc<T>(s: seq<T>, p: T -> bool): (r: seq<nat>)
    ensures forall k :: 0 <= k < |r| ==> r[k] < |s| && p(s[r[k]])
    ensures forall i :: 0 <= i < |s| && p(s[i]) ==> i in r
    ensures forall k, l :: 0 <= k < l < |r| ==> r[k] > r[l]
  {
    if s == [] then []
    else
      var n := |s| - 1;
      var rest := PositionsDesc(s[..n], p);
      assert forall i :: 0 <= i < n ==> s[..n][i] == s[i];
      (if p(s[n]) then [n] else []) + rest
  }

  /** The de-duplicated sequence starts with the first element. */
  lemma {:induction false} DedupHead<T(!new)>(s: seq<T>)
    requires s != []
    ensures Dedup(s) != [] && Dedup(s)[0] == s[0]
  {
    var init := s[..|s| - 1];
    if init != [] {
      DedupHead(init);
      assert init[0] == s[0];
    }
  }

  /** The first `n` elements of `s`, or all of `s` when it is shorter. */
  function Take<T>(s: seq<T>, n: nat): (r: seq<T>)
    ensures |r| == if |s| <= n then |s| else n
    ensures r == s[..|r|]
  {
    if |s| <= n then s else s[..n]
  }
}
