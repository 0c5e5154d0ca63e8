/** `Array.prototype.filter` over sequences, with what it keeps and in which order. */
module Seqs {

  /** The elements of `s` that satisfy `p`, in their original order. */
  function Filter<T>(s: seq<T>, p: T -> bool): (r: seq<T>)
    ensures |r| <= |s|
  {
    if s == [] then []
    else
      assert s == [s[0]] + s[1..];
      (if p(s[0]) then [s[0]] else []) + Filter(s[1..], p)
  }

  /** Filtering distributes over concatenation: the kept elements stay in their relative order. */
  lemma {:induction false} FilterAppend<T>(a: seq<T>, b: seq<T>, p: T -> bool)
    ensures Filter(a + b, p) == Filter(a, p) + Filter(b, p)
  {
    if a == [] {
      assert a + b == b;
    } else {
      var ab := a + b;
      assert ab[0] == a[0] && ab[1..] == a[1..] + b;
      var head := if p(a[0]) then [a[0]] else [];
      calc {
        Filter(ab, p);
        head + Filter(a[1..] + b, p);
        { FilterAppend(a[1..], b, p); }
        head + (Filter(a[1..], p) + Filter(b, p));
        (head + Filter(a[1..], p)) + Filter(b, p);
      }
    }
  }

  /** When every element passes, filtering changes nothing. */
  lemma {:induction false} FilterKeepsAll<T>(s: seq<T>, p: T -> bool)
    requires forall i :: 0 <= i < |s| ==> p(s[i])
    ensures Filter(s, p) == s
  {
    if s != [] {
      FilterKeepsAll(s[1..], p);
    }
  }

  lemma FilterCons<T>(x: T, s: seq<T>, p: T -> bool)
    ensures Filter([x] + s, p) == (if p(x) then [x] else []) + Filter(s, p)
  {
    assert ([x] + s)[1..] == s;
  }

  /** Every element that passes keeps its multiplicity; every other one is gone. */
  lemma {:induction false} FilterMultiplicity<T>(s: seq<T>, p: T -> bool, x: T)
    ensures multiset(Filter(s, p))[x] == if p(x) then multiset(s)[x] else 0
  {
    if s != [] {
      assert s == [s[0]] + s[1..];
      FilterMultiplicity(s[1..], p, x);
      FilterCons(s[0], s[1..], p);
    }
  }

  lemma FilterMultiplicities<T>(s: seq<T>, p: T -> bool)
    ensures forall x :: multiset(Filter(s, p))[x] == if p(x) then multiset(s)[x] else 0
  {
    forall x ensures multiset(Filter(s, p))[x] == if p(x) then multiset(s)[x] else 0 {
      FilterMultiplicity(s, p, x);
    }
  }

  /** Only elements of `s` that pass are kept. */
  lemma {:induction false} FilterOnlyPassing<T>(s: seq<T>, p: T -> bool)
    ensures forall x :: x in Filter(s, p) ==> x in s && p(x)
  {
    if s != [] {
      FilterOnlyPassing(s[1..], p);
      FilterCons(s[0], s[1..], p);
      assert s == [s[0]] + s[1..];
    }
  }

  /** Nothing that passes is lost. */
  lemma FilterKeepsPassing<T>(s: seq<T>, p: T -> bool)
    ensures forall x :: x in s && p(x) ==> x in Filter(s, p)
  {
    forall x | x in s && p(x) ensures x in Filter(s, p) {
      FilterMultiplicity(s, p, x);
    }
  }

  /** Filtering a sequence in which only position `i` fails removes just that element. */
  lemma {:induction false} FilterDropsAt<T>(s: seq<T>, i: int, p: T -> bool)
    requires 0 <= i < |s| && !p(s[i])
    requires forall j :: 0 <= j < |s| && j != i ==> p(s[j])
    ensures Filter(s, p) == s[..i] + s[i + 1..]
    decreases |s|
  {
    if i == 0 {
      FilterKeepsAll(s[1..], p);
    } else {
      FilterDropsAt(s[1..], i - 1, p);
      assert s[..i] == [s[0]] + s[1..][..i - 1];
      assert s[i + 1..] == s[1..][i..];
    }
  }

  /** Cutting out position `i` removes exactly one occurrence of `s[i]`. */
  lemma RemoveAt<T>(s: seq<T>, i: int)
    requires 0 <= i < |s|
    ensures |s[..i] + s[i + 1..]| == |s| - 1
    ensures multiset(s[..i] + s[i + 1..]) == multiset(s) - multiset{s[i]}
  {
    assert s == s[..i] + ([s[i]] + s[i + 1..]);
  }

  /**
   * The positions of `s` whose elements pass `p`, in increasing order: an
   * index map independent of `Filter`.
   */
  function Passing<T>(s: seq<T>, p: T -> bool): (ps: seq<nat>)
    ensures forall k :: 0 <= k < |ps| ==> ps[k] < |s| && p(s[ps[k]])
    ensures forall k, l :: 0 <= k < l < |ps| ==> ps[k] < ps[l]
    ensures forall j :: 0 <= j < |s| && p(s[j]) ==> j in ps
  {
    if s == [] then []
    else
      var n := |s| - 1;
      var init := Passing(s[..n], p);
      assert forall k :: 0 <= k < |init| ==> s[..n][init[k]] == s[init[k]];
      assert forall j :: 0 <= j < n ==> s[..n][j] == s[j];
      init + (if p(s[n]) then [n] else [])
  }

  /**
   * `filter` keeps exactly the passing elements in their original order: the
   * k-th element kept is the element at the k-th passing position.
   */
  lemma {:induction false} FilterSelectsPassing<T>(s: seq<T>, p: T -> bool)
    ensures |Filter(s, p)| == |Passing(s, p)|
    ensures forall k :: 0 <= k < |Passing(s, p)| ==> Filter(s, p)[k] == s[Passing(s, p)[k]]
    decreases |s|
  {
    if s != [] {
      var n := |s| - 1;
      var init := s[..n];
      FilterSelectsPassing(init, p);
      assert s == init + [s[n]];
      FilterAppend(init, [s[n]], p);
      FilterCons(s[n], [], p);
      var f, ps, fi, pi := Filter(s, p), Passing(s, p), Filter(init, p), Passing(init, p);
      assert f == fi + (if p(s[n]) then [s[n]] else []);
      assert ps == pi + (if p(s[n]) then [n] else []);
      forall k | 0 <= k < |ps| ensures f[k] == s[ps[k]] {
        if k < |pi| {
          assert init[pi[k]] == s[pi[k]];
        }
      }
    }
  }
}
