/** Sequence and set helpers shared by the models: duplicate removal in first-seen
    order (Python's `list(dict.fromkeys(xs))`), Python prefix slicing and set sizes. */
module Seqs {

  predicate NoDup<T(==)>(xs: seq<T>) {
    forall i, j :: 0 <= i < j < |xs| ==> xs[i] != xs[j]
  }

  /** Index of the first occurrence of `x` in `xs`. */
  function FirstIndex<T(==)>(xs: seq<T>, x: T): (k: nat)
    requires x in xs
    ensures k < |xs| && xs[k] == x
    ensures forall j :: 0 <= j < k ==> xs[j] != x
  {
    if xs[0] == x then 0 else 1 + FirstIndex(xs[1..], x)
  }

  lemma {:induction false} AppendAssociative<T>(a: seq<T>, b: seq<T>, c: seq<T>)
    ensures a + (b + c) == (a + b) + c
  {
  }

  /** `[f(x) for x in xs]`. */
  function MapSeq<A, B>(f: A -> B, xs: seq<A>): (r: seq<B>)
    ensures |r| == |xs|
    ensures forall i :: 0 <= i < |xs| ==> r[i] == f(xs[i])
  {
    if xs == [] then []
    else MapSeq(f, xs[..|xs| - 1]) + [f(xs[|xs| - 1])]
  }

  /** Mapping a list extended by one element extends the mapped list by its image. */
  lemma MapSeqSnoc<A, B>(f: A -> B, xs: seq<A>, i: nat)
    requires i < |xs|
    ensures MapSeq(f, xs[..i + 1]) == MapSeq(f, xs[..i]) + [f(xs[i])]
  {
    assert xs[..i + 1][..i] == xs[..i];
  }

  /** `[f(x) for x in xs if p(x)]`. */
  function FilterMap<A, B>(p: A -> bool, f: A -> B, xs: seq<A>): (r: seq<B>)
    ensures |r| <= |xs|
  {
    if xs == [] then []
    else FilterMap(p, f, xs[..|xs| - 1]) + if p(xs[|xs| - 1]) then [f(xs[|xs| - 1])] else []
  }

  /** Filtering a list extended by one element extends the result by that element's image
      when it passes. */
  lemma FilterMapSnoc<A, B>(p: A -> bool, f: A -> B, xs: seq<A>, i: nat)
    requires i < |xs|
    ensures FilterMap(p, f, xs[..i + 1]) == FilterMap(p, f, xs[..i]) + if p(xs[i]) then [f(xs[i])] else []
  {
    assert xs[..i + 1][..i] == xs[..i];
  }

  /** The results are exactly the images of the elements that pass. */
  lemma {:induction false} FilterMapMembers<A, B>(p: A -> bool, f: A -> B, xs: seq<A>, y: B)
    ensures y in FilterMap(p, f, xs) <==> exists i :: 0 <= i < |xs| && p(xs[i]) && y == f(xs[i])
  {
    if xs != [] {
      var n := |xs| - 1;
      var front := xs[..n];
      FilterMapMembers(p, f, front, y);
      var added := if p(xs[n]) then [f(xs[n])] else [];
      assert FilterMap(p, f, xs) == FilterMap(p, f, front) + added;
      if y in FilterMap(p, f, front) {
        var i :| 0 <= i < n && p(front[i]) && y == f(front[i]);
        assert front[i] == xs[i];
      }
      if exists i :: 0 <= i < |xs| && p(xs[i]) && y == f(xs[i]) {
        var i :| 0 <= i < |xs| && p(xs[i]) && y == f(xs[i]);
        if i < n {
          assert front[i] == xs[i];
        } else {
          assert y in added;
        }
      }
    }
  }

  /** The positions of the elements of `xs` that pass `p`, in increasing order. */
  function PassingIndices<A>(p: A -> bool, xs: seq<A>): (r: seq<nat>)
    ensures |r| <= |xs|
    ensures forall k :: 0 <= k < |r| ==> r[k] < |xs| && p(xs[r[k]])
    ensures forall k, l :: 0 <= k < l < |r| ==> r[k] < r[l]
    ensures forall i :: 0 <= i < |xs| && p(xs[i]) ==> i in r
  {
    if xs == [] then []
    else
      var n := |xs| - 1;
      var front := PassingIndices(p, xs[..n]);
      assert forall k :: 0 <= k < |front| ==> xs[..n][front[k]] == xs[front[k]];
      front + if p(xs[n]) then [n] else []
  }

  /** `FilterMap` keeps exactly the images of the passing positions, in order: the result
      is a subsequence of the mapped list. */
  lemma {:induction false} FilterMapIndices<A, B>(p: A -> bool, f: A -> B, xs: seq<A>)
    ensures var r, idx := FilterMap(p, f, xs), PassingIndices(p, xs);
      |r| == |idx| && forall k :: 0 <= k < |r| ==> r[k] == f(xs[idx[k]])
  {
    if xs != [] {
      var n, front := |xs| - 1, xs[..|xs| - 1];
      FilterMapIndices(p, f, front);
      var r, idx := FilterMap(p, f, front), PassingIndices(p, front);
      assert FilterMap(p, f, xs) == r + if p(xs[n]) then [f(xs[n])] else [];
      assert PassingIndices(p, xs) == idx + if p(xs[n]) then [n] else [];
      forall k | 0 <= k < |r| ensures r[k] == f(xs[idx[k]]) {
        assert front[idx[k]] == xs[idx[k]];
      }
    }
  }

  /** Removing duplicates from `[f(x) for x in xs if p(x)]` keeps the order in which the
      values first arise from `xs`: for `i < j`, some passing element giving the `i`-th
      distinct value comes before every passing element giving the `j`-th. */
  lemma DedupFilterMapOrder<A, B(!new)>(p: A -> bool, f: A -> B, xs: seq<A>, i: nat, j: nat)
    requires i < j < |Dedup(FilterMap(p, f, xs))|
    ensures var ys := Dedup(FilterMap(p, f, xs));
      FirstSource(p, f, xs, ys[i], ys[j])
  {
    var kept := FilterMap(p, f, xs);
    var ys := Dedup(kept);
    DedupOrder(kept);
    assert ys[i] in kept && ys[j] in kept;
    SourceBefore(p, f, xs, FirstIndex(kept, ys[i]), FirstIndex(kept, ys[j]));
  }

  /** Some element of `xs` that passes `p` and gives `u` comes before every element that
      passes and gives `v`. */
  ghost predicate FirstSource<A, B>(p: A -> bool, f: A -> B, xs: seq<A>, u: B, v: B) {
    exists a ::
      && 0 <= a < |xs| && p(xs[a]) && f(xs[a]) == u
      && forall b :: 0 <= b < |xs| && p(xs[b]) && f(xs[b]) == v ==> a < b
  }

  /** The source of the `fi`-th result of `FilterMap` comes before every source of a value
      first produced at position `fj > fi`. */
  lemma SourceBefore<A, B>(p: A -> bool, f: A -> B, xs: seq<A>, fi: nat, fj: nat)
    requires var kept := FilterMap(p, f, xs);
      && fi < fj < |kept|
      && forall l :: 0 <= l < fj ==> kept[l] != kept[fj]
    ensures var kept := FilterMap(p, f, xs);
      FirstSource(p, f, xs, kept[fi], kept[fj])
  {
    var kept, idx := FilterMap(p, f, xs), PassingIndices(p, xs);
    FilterMapIndices(p, f, xs);
    var a := idx[fi];
    forall b | 0 <= b < |xs| && p(xs[b]) && f(xs[b]) == kept[fj] ensures a < b {
      var l :| 0 <= l < |idx| && idx[l] == b;
      assert kept[l] == kept[fj];
    }
    assert p(xs[a]) && f(xs[a]) == kept[fi];
  }

  /** The set of the elements among the first `n` of `xs` that pass `p`. */
  function KeptAmong<T(!new)>(p: T -> bool, xs: seq<T>, n: nat): (r: set<T>)
    requires n <= |xs|
    ensures forall x :: x in r <==> exists m :: 0 <= m < n && xs[m] == x && p(x)
  {
    if n == 0 then {}
    else KeptAmong(p, xs, n - 1) + if p(xs[n - 1]) then {xs[n - 1]} else {}
  }

  /** `list(dict.fromkeys(xs))`: the distinct elements of `xs` in order of first occurrence. */
  function Dedup<T(==,!new)>(xs: seq<T>): (r: seq<T>)
    ensures NoDup(r)
    ensures forall x :: x in r <==> x in xs
    ensures |r| <= |xs|
  {
    if xs == [] then []
    else
      var d := Dedup(xs[..|xs| - 1]);
      var x := xs[|xs| - 1];
      assert forall y :: y in xs <==> y in xs[..|xs| - 1] || y == x;
      if x in d then d else d + [x]
  }

  lemma FirstIndexPrefix<T>(xs: seq<T>, n: nat, x: T)
    requires n <= |xs| && x in xs[..n]
    ensures FirstIndex(xs[..n], x) == FirstIndex(xs, x)
  {
    var k, k' := FirstIndex(xs[..n], x), FirstIndex(xs, x);
    assert xs[k] == xs[..n][k] == x;
    assert k' <= k;
    assert xs[..n][k'] == xs[k'] == x;
  }

  /** Dedup keeps the order of first occurrence. */
  lemma {:induction false} DedupOrder<T(!new)>(xs: seq<T>)
    ensures forall i, j :: 0 <= i < j < |Dedup(xs)| ==>
      FirstIndex(xs, Dedup(xs)[i]) < FirstIndex(xs, Dedup(xs)[j])
  {
    if xs != [] {
      var p := xs[..|xs| - 1];
      var x := xs[|xs| - 1];
      var d := Dedup(p);
      DedupOrder(p);
      forall y | y in d ensures FirstIndex(xs, y) == FirstIndex(p, y) && FirstIndex(xs, y) < |p| {
        assert xs[..|xs| - 1] == p;
        FirstIndexPrefix(xs, |xs| - 1, y);
      }
      if x !in d {
        assert x !in p;
        assert FirstIndex(xs, x) == |p| by {
          assert forall k :: 0 <= k < |p| ==> xs[k] == p[k];
        }
        var r := d + [x];
        assert Dedup(xs) == r;
        forall i, j | 0 <= i < j < |r| ensures FirstIndex(xs, r[i]) < FirstIndex(xs, r[j]) {
          assert r[i] in d;
          if j < |d| {
            assert r[j] in d;
          }
        }
      } else {
        forall i, j | 0 <= i < j < |d| ensures FirstIndex(xs, d[i]) < FirstIndex(xs, d[j]) {
          assert d[i] in d && d[j] in d;
        }
      }
    }
  }

  /** `r` is the first `n` distinct elements of `xs`, all of them when there are fewer. */
  predicate IsFirstDistinct<T(==,!new)>(xs: seq<T>, n: nat, r: seq<T>) {
    var d := Dedup(xs);
    r <= d && |r| == if |d| < n then |d| else n
  }

  /** `list(dict.fromkeys(xs))[:n]`: the first `n` distinct elements of `xs`, without
      duplicates and in order of first occurrence. */
  function FirstDistinct<T(==,!new)>(xs: seq<T>, n: nat): (r: seq<T>)
    ensures |r| <= n && NoDup(r)
    ensures forall i, j :: 0 <= i < j < |r| ==>
      r[i] in xs && r[j] in xs && FirstIndex(xs, r[i]) < FirstIndex(xs, r[j])
    ensures forall x :: x in r ==> x in xs
    ensures |Dedup(xs)| <= n ==> r == Dedup(xs)
    ensures IsFirstDistinct(xs, n, r)
  {
    var d := Dedup(xs);
    var r := SlicePrefix(d, n);
    DedupOrder(xs);
    forall i, j | 0 <= i < j < |r|
      ensures r[i] != r[j] && r[i] in xs && r[j] in xs && FirstIndex(xs, r[i]) < FirstIndex(xs, r[j])
    {
      assert r[i] == d[i] && r[j] == d[j];
    }
    r
  }

  /** A sequence that already has no duplicates is its own Dedup. */
  lemma {:induction false} DedupNoDup<T(!new)>(xs: seq<T>)
    requires NoDup(xs)
    ensures Dedup(xs) == xs
  {
    if xs != [] {
      var p := xs[..|xs| - 1];
      assert NoDup(p);
      DedupNoDup(p);
      assert xs[|xs| - 1] !in p;
      assert p + [xs[|xs| - 1]] == xs;
    }
  }

  /** Python's `xs[:k]` for an integer `k`: a negative `k` counts from the end. */
  function SlicePrefix<T>(xs: seq<T>, k: int): (r: seq<T>)
    ensures r <= xs
    ensures 0 <= k ==> |r| == if k < |xs| then k else |xs|
    ensures k < 0 ==> |r| == if |xs| + k < 0 then 0 else |xs| + k
  {
    if 0 <= k then
      (if k < |xs| then xs[..k] else xs)
    else
      (if |xs| + k < 0 then [] else xs[..|xs| + k])
  }

  lemma {:induction false} SubsetCardinality<T>(a: set<T>, b: set<T>)
    requires a <= b
    ensures |a| <= |b|
    decreases b
  {
    if a != {} {
      var x :| x in a;
      SubsetCardinality(a - {x}, b - {x});
    }
  }

  /** A sequence without duplicates has as many elements as the set of its elements. */
  lemma {:induction false} NoDupCardinality<T>(xs: seq<T>)
    requires NoDup(xs)
    ensures |set x | x in xs| == |xs|
  {
    if xs != [] {
      var p := xs[..|xs| - 1];
      var x := xs[|xs| - 1];
      assert NoDup(p);
      NoDupCardinality(p);
      assert x !in p;
      assert (set y | y in xs) == (set y | y in p) + {x};
    }
  }

  /** `{f(x) for x in xs}` has at most as many elements as `xs` has entries. */
  lemma {:induction false} ImageCardinality<A, B>(f: A -> B, xs: seq<A>)
    ensures |set x | x in xs :: f(x)| <= |xs|
  {
    if xs != [] {
      var front, last := xs[..|xs| - 1], xs[|xs| - 1];
      ImageCardinality(f, front);
      var all, fs := set x | x in xs :: f(x), set x | x in front :: f(x);
      forall y | y in all ensures y in fs + {f(last)} {
        var x :| x in xs && y == f(x);
        if x != last {
          assert x in front by {
            assert xs == front + [last];
          }
        }
      }
      SubsetCardinality(all, fs + {f(last)});
    }
  }

  /** A set of images of the entries of `xs` has at most as many elements as `xs` has entries. */
  lemma ImageBound<A, B>(f: A -> B, xs: seq<A>, r: set<B>)
    requires forall y :: y in r ==> exists x :: x in xs && y == f(x)
    ensures |r| <= |xs|
  {
    ImageCardinality(f, xs);
    SubsetCardinality(r, set x | x in xs :: f(x));
  }

  /** A list has at least as many entries as it has distinct elements. */
  lemma {:induction false} SetOfSeqCardinality<T>(xs: seq<T>)
    ensures |set x | x in xs| <= |xs|
  {
    if xs != [] {
      var front := xs[..|xs| - 1];
      SetOfSeqCardinality(front);
      assert (set x | x in xs) == (set x | x in front) + {xs[|xs| - 1]};
    }
  }
}
