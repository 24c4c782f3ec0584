/**
  The value-level account of the bottom-up merge sort in `hw2/utlist.h`: what one
  merge, one pass and the whole sort do to the sequence of nodes.  Everything here
  speaks about sequences of node references; the heap is not involved, because the
  payload a comparison looks at is constant.
 */
module MergeSpec {
  import opened Prelude

  class Node<T> {
    var prev: Node?<T>
    var next: Node?<T>
    const data: T

    constructor (data: T)
      ensures this.data == data && prev == null && next == null
    {
      this.data := data;
      prev, next := null, null;
    }
  }

  type Comparison<!T> = (T, T) -> int

  predicate Le<T>(cmp: Comparison<T>, x: Node<T>, y: Node<T>) {
    cmp(x.data, y.data) <= 0
  }

  ghost predicate TotalPreorder<T(!new)>(cmp: Comparison<T>) {
    && (forall a, b :: cmp(a, b) <= 0 || cmp(b, a) <= 0)
    && (forall a, b, c :: cmp(a, b) <= 0 && cmp(b, c) <= 0 ==> cmp(a, c) <= 0)
  }

  ghost predicate Sorted<T>(cmp: Comparison<T>, xs: seq<Node<T>>) {
    forall i, j :: 0 <= i < j < |xs| ==> Le(cmp, xs[i], xs[j])
  }

  // ---------- The functional reading of the three loops ----------

  ghost function Merge<T>(cmp: Comparison<T>, a: seq<Node<T>>, b: seq<Node<T>>): (r: seq<Node<T>>)
    ensures |r| == |a| + |b|
    decreases |a| + |b|
  {
    if a == [] then b
    else if b == [] then a
    else if Le(cmp, a[0], b[0]) then [a[0]] + Merge(cmp, a[1..], b)
    else [b[0]] + Merge(cmp, a, b[1..])
  }

  ghost function Pass<T>(cmp: Comparison<T>, k: nat, xs: seq<Node<T>>): (r: seq<Node<T>>)
    requires k >= 1
    ensures |r| == |xs|
    decreases |xs|
  {
    if xs == [] then []
    else
      var p, q := Min(k, |xs|), Min(2 * k, |xs|);
      Merge(cmp, xs[..p], xs[p..q]) + Pass(cmp, k, xs[q..])
  }

  ghost function BottomUp<T>(cmp: Comparison<T>, k: nat, xs: seq<Node<T>>): (r: seq<Node<T>>)
    requires k >= 1
    ensures |r| == |xs|
    decreases |xs| - k
  {
    var ys := Pass(cmp, k, xs);
    if 2 * k >= |xs| then ys else BottomUp(cmp, 2 * k, ys)
  }

  // ---------- How often cmp is called ----------

  // Once for every node taken while both runs have one left.
  ghost function MergeCompares<T>(cmp: Comparison<T>, a: seq<Node<T>>, b: seq<Node<T>>): (c: nat)
    ensures c <= |a| + |b|
    decreases |a| + |b|
  {
    if a == [] || b == [] then 0
    else if Le(cmp, a[0], b[0]) then 1 + MergeCompares(cmp, a[1..], b)
    else 1 + MergeCompares(cmp, a, b[1..])
  }

  // As long as both runs have nodes left cmp is called: at least until one of them is used up, at
  // most until one node is left.
  lemma {:induction false} MergeComparesBounds<T>(cmp: Comparison<T>, a: seq<Node<T>>, b: seq<Node<T>>)
    requires a != [] && b != []
    ensures Min(|a|, |b|) <= MergeCompares(cmp, a, b) <= |a| + |b| - 1
    decreases |a| + |b|
  {
    if Le(cmp, a[0], b[0]) {
      if |a| > 1 {
        MergeComparesBounds(cmp, a[1..], b);
      }
    } else if |b| > 1 {
      MergeComparesBounds(cmp, a, b[1..]);
    }
  }

  ghost function PassCompares<T>(cmp: Comparison<T>, k: nat, xs: seq<Node<T>>): (c: nat)
    requires k >= 1
    ensures c <= |xs|
    decreases |xs|
  {
    if xs == [] then 0
    else
      var p, q := Min(k, |xs|), Min(2 * k, |xs|);
      MergeCompares(cmp, xs[..p], xs[p..q]) + PassCompares(cmp, k, xs[q..])
  }

  ghost function BottomUpCompares<T>(cmp: Comparison<T>, k: nat, xs: seq<Node<T>>): nat
    requires k >= 1
    decreases |xs| - k
  {
    PassCompares(cmp, k, xs) + if 2 * k >= |xs| then 0 else BottomUpCompares(cmp, 2 * k, Pass(cmp, k, xs))
  }

  // ---------- Permutation ----------

  lemma {:induction false} MergePermutes<T>(cmp: Comparison<T>, a: seq<Node<T>>, b: seq<Node<T>>)
    ensures multiset(Merge(cmp, a, b)) == multiset(a) + multiset(b)
    decreases |a| + |b|
  {
    if a != [] && b != [] {
      if Le(cmp, a[0], b[0]) {
        MergePermutes(cmp, a[1..], b);
        HeadAndTail(a, Merge(cmp, a[1..], b));
      } else {
        MergePermutes(cmp, a, b[1..]);
        HeadAndTail(b, Merge(cmp, a, b[1..]));
      }
    }
  }

  lemma HeadAndTail<X>(s: seq<X>, more: seq<X>)
    requires s != []
    ensures multiset(s) == multiset{s[0]} + multiset(s[1..])
    ensures multiset([s[0]] + more) == multiset{s[0]} + multiset(more)
  {
    assert s == [s[0]] + s[1..];
  }

  lemma CutInThree<X>(xs: seq<X>, p: nat, q: nat)
    requires p <= q <= |xs|
    ensures xs[..q] == xs[..p] + xs[p..q] && xs == xs[..q] + xs[q..]
  {
  }

  lemma {:induction false} PassPermutes<T>(cmp: Comparison<T>, k: nat, xs: seq<Node<T>>)
    requires k >= 1
    ensures multiset(Pass(cmp, k, xs)) == multiset(xs)
    decreases |xs|
  {
    if xs != [] {
      var p, q := Min(k, |xs|), Min(2 * k, |xs|);
      MergePermutes(cmp, xs[..p], xs[p..q]);
      PassPermutes(cmp, k, xs[q..]);
      CutInThree(xs, p, q);
    }
  }

  lemma {:induction false} BottomUpPermutes<T>(cmp: Comparison<T>, k: nat, xs: seq<Node<T>>)
    requires k >= 1
    ensures multiset(BottomUp(cmp, k, xs)) == multiset(xs)
    decreases |xs| - k
  {
    PassPermutes(cmp, k, xs);
    if 2 * k < |xs| {
      BottomUpPermutes(cmp, 2 * k, Pass(cmp, k, xs));
    }
  }

  // ---------- Sortedness ----------

  // Every aligned run of k elements (the last may be shorter) is sorted.
  ghost predicate RunsSorted<T>(cmp: Comparison<T>, k: nat, xs: seq<Node<T>>)
    requires k >= 1
    decreases |xs|
  {
    xs != [] ==>
      var p := Min(k, |xs|);
      Sorted(cmp, xs[..p]) && RunsSorted(cmp, k, xs[p..])
  }

  lemma {:induction false} SingletonRunsSorted<T>(cmp: Comparison<T>, xs: seq<Node<T>>)
    ensures RunsSorted(cmp, 1, xs)
    decreases |xs|
  {
    if xs != [] {
      SingletonRunsSorted(cmp, xs[1..]);
    }
  }

  lemma PrependSorted<T>(cmp: Comparison<T>, x: Node<T>, rest: seq<Node<T>>)
    requires Sorted(cmp, rest)
    requires forall y :: y in rest ==> Le(cmp, x, y)
    ensures Sorted(cmp, [x] + rest)
  {
    forall i, j | 0 <= i < j < |rest| + 1
      ensures Le(cmp, ([x] + rest)[i], ([x] + rest)[j])
    {
      assert ([x] + rest)[j] == rest[j - 1];
    }
  }

  lemma HeadIsLeast<T(!new)>(cmp: Comparison<T>, xs: seq<Node<T>>, x: Node<T>)
    requires TotalPreorder(cmp) && Sorted(cmp, xs) && x in xs
    ensures Le(cmp, xs[0], x)
  {
    var i :| 0 <= i < |xs| && xs[i] == x;
  }

  lemma {:induction false} MergeSorts<T(!new)>(cmp: Comparison<T>, a: seq<Node<T>>, b: seq<Node<T>>)
    requires TotalPreorder(cmp) && Sorted(cmp, a) && Sorted(cmp, b)
    ensures Sorted(cmp, Merge(cmp, a, b))
    decreases |a| + |b|
  {
    if a != [] && b != [] {
      var fromA := Le(cmp, a[0], b[0]);
      var least := if fromA then a[0] else b[0];
      var a', b' := if fromA then a[1..] else a, if fromA then b else b[1..];
      MergeSorts(cmp, a', b');
      MergePermutes(cmp, a', b');
      var rest := Merge(cmp, a', b');
      forall y | y in rest
        ensures Le(cmp, least, y)
      {
        assert y in multiset(rest);
        if y in a' {
          HeadIsLeast(cmp, a, y);
        } else {
          HeadIsLeast(cmp, b, y);
        }
      }
      PrependSorted(cmp, least, rest);
    }
  }

  // The run that follows the first one, and what comes after it.
  lemma SecondRun<T>(cmp: Comparison<T>, k: nat, xs: seq<Node<T>>)
    requires k >= 1 && xs != [] && RunsSorted(cmp, k, xs)
    ensures var p, q := Min(k, |xs|), Min(2 * k, |xs|);
      Sorted(cmp, xs[..p]) && Sorted(cmp, xs[p..q]) && RunsSorted(cmp, k, xs[q..])
  {
    var p, q := Min(k, |xs|), Min(2 * k, |xs|);
    var rest := xs[p..];
    if rest != [] {
      assert rest[..Min(k, |rest|)] == xs[p..q] && rest[Min(k, |rest|)..] == xs[q..];
    }
  }

  lemma {:induction false} PassDoublesRuns<T(!new)>(cmp: Comparison<T>, k: nat, xs: seq<Node<T>>)
    requires k >= 1 && TotalPreorder(cmp) && RunsSorted(cmp, k, xs)
    ensures RunsSorted(cmp, 2 * k, Pass(cmp, k, xs))
    decreases |xs|
  {
    if xs != [] {
      var p, q := Min(k, |xs|), Min(2 * k, |xs|);
      SecondRun(cmp, k, xs);
      var m, tail := Merge(cmp, xs[..p], xs[p..q]), Pass(cmp, k, xs[q..]);
      MergeSorts(cmp, xs[..p], xs[p..q]);
      PassDoublesRuns(cmp, k, xs[q..]);
      assert |m| == q;
      assert (m + tail)[..q] == m && (m + tail)[q..] == tail;
    }
  }

  lemma {:induction false} BottomUpSorts<T(!new)>(cmp: Comparison<T>, k: nat, xs: seq<Node<T>>)
    requires k >= 1 && TotalPreorder(cmp) && RunsSorted(cmp, k, xs)
    ensures Sorted(cmp, BottomUp(cmp, k, xs))
    decreases |xs| - k
  {
    var ys := Pass(cmp, k, xs);
    PassDoublesRuns(cmp, k, xs);
    if 2 * k < |xs| {
      BottomUpSorts(cmp, 2 * k, ys);
    } else if ys != [] {
      assert ys[..Min(2 * k, |ys|)] == ys;
    }
  }

  // ---------- Stability ----------

  // The elements of xs that compare equal to x, in the order they occur.
  ghost function Ties<T>(cmp: Comparison<T>, x: Node<T>, xs: seq<Node<T>>): (r: seq<Node<T>>)
    ensures forall y :: y in r ==> y in xs && Le(cmp, x, y) && Le(cmp, y, x)
    ensures forall y :: y in xs ==> Le(cmp, x, y) && Le(cmp, y, x) ==> y in r
  {
    if xs == [] then []
    else
      var rest := Ties(cmp, x, xs[1..]);
      if Le(cmp, x, xs[0]) && Le(cmp, xs[0], x) then [xs[0]] + rest else rest
  }

  lemma {:induction false} TiesConcat<T>(cmp: Comparison<T>, x: Node<T>, a: seq<Node<T>>, b: seq<Node<T>>)
    ensures Ties(cmp, x, a + b) == Ties(cmp, x, a) + Ties(cmp, x, b)
  {
    if a == [] {
      assert a + b == b;
    } else {
      assert (a + b)[1..] == a[1..] + b;
      TiesConcat(cmp, x, a[1..], b);
    }
  }

  lemma {:induction false} MergeKeepsTies<T(!new)>(cmp: Comparison<T>, x: Node<T>, a: seq<Node<T>>, b: seq<Node<T>>)
    requires TotalPreorder(cmp) && Sorted(cmp, a) && Sorted(cmp, b)
    ensures Ties(cmp, x, Merge(cmp, a, b)) == Ties(cmp, x, a) + Ties(cmp, x, b)
    decreases |a| + |b|
  {
    if a == [] || b == [] {
    } else if Le(cmp, a[0], b[0]) {
      var rest := Merge(cmp, a[1..], b);
      MergeKeepsTies(cmp, x, a[1..], b);
      assert ([a[0]] + rest)[1..] == rest;
    } else {
      var rest := Merge(cmp, a, b[1..]);
      MergeKeepsTies(cmp, x, a, b[1..]);
      assert ([b[0]] + rest)[1..] == rest;
      if Le(cmp, x, b[0]) && Le(cmp, b[0], x) {
        // b[0] is strictly below all of a, so nothing in a ties with x.
        var ties := Ties(cmp, x, a);
        if ties != [] {
          HeadIsLeast(cmp, a, ties[0]);
          assert false;
        }
      }
    }
  }

  lemma {:induction false} PassKeepsTies<T(!new)>(cmp: Comparison<T>, k: nat, x: Node<T>, xs: seq<Node<T>>)
    requires k >= 1 && TotalPreorder(cmp) && RunsSorted(cmp, k, xs)
    ensures Ties(cmp, x, Pass(cmp, k, xs)) == Ties(cmp, x, xs)
    decreases |xs|
  {
    if xs != [] {
      var p, q := Min(k, |xs|), Min(2 * k, |xs|);
      SecondRun(cmp, k, xs);
      MergeKeepsTies(cmp, x, xs[..p], xs[p..q]);
      PassKeepsTies(cmp, k, x, xs[q..]);
      TiesConcat(cmp, x, Merge(cmp, xs[..p], xs[p..q]), Pass(cmp, k, xs[q..]));
      TiesConcat(cmp, x, xs[..p], xs[p..q]);
      TiesConcat(cmp, x, xs[..q], xs[q..]);
      CutInThree(xs, p, q);
    }
  }

  lemma {:induction false} BottomUpKeepsTies<T(!new)>(cmp: Comparison<T>, k: nat, x: Node<T>, xs: seq<Node<T>>)
    requires k >= 1 && TotalPreorder(cmp) && RunsSorted(cmp, k, xs)
    ensures Ties(cmp, x, BottomUp(cmp, k, xs)) == Ties(cmp, x, xs)
    decreases |xs| - k
  {
    PassKeepsTies(cmp, k, x, xs);
    if 2 * k < |xs| {
      PassDoublesRuns(cmp, k, xs);
      BottomUpKeepsTies(cmp, 2 * k, x, Pass(cmp, k, xs));
    }
  }

  // ---------- The specification, and that it leaves no freedom ----------

  // ys is xs sorted with equal elements in their original order.
  ghost predicate StablySorts<T>(cmp: Comparison<T>, xs: seq<Node<T>>, ys: seq<Node<T>>) {
    && Sorted(cmp, ys)
    && multiset(ys) == multiset(xs)
    && forall x: Node<T> :: x in xs ==> Ties(cmp, x, ys) == Ties(cmp, x, xs)
  }

  lemma BottomUpIsStableSort<T(!new)>(cmp: Comparison<T>, xs: seq<Node<T>>)
    requires TotalPreorder(cmp)
    ensures StablySorts(cmp, xs, BottomUp(cmp, 1, xs))
  {
    SingletonRunsSorted(cmp, xs);
    BottomUpSorts(cmp, 1, xs);
    BottomUpPermutes(cmp, 1, xs);
    forall x: Node<T> | x in xs
      ensures Ties(cmp, x, BottomUp(cmp, 1, xs)) == Ties(cmp, x, xs)
    {
      BottomUpKeepsTies(cmp, 1, x, xs);
    }
  }

  // Node x stands before node y.
  ghost predicate Before<T>(ys: seq<Node<T>>, x: Node<T>, y: Node<T>) {
    exists a, b :: 0 <= a < b < |ys| && ys[a] == x && ys[b] == y
  }

  // Nodes that cmp calls equal, both ways, stand in ys as they stood in xs.
  ghost predicate KeepsEquals<T>(cmp: Comparison<T>, xs: seq<Node<T>>, ys: seq<Node<T>>) {
    forall i, j :: 0 <= i < j < |xs| && cmp(xs[i].data, xs[j].data) <= 0 && cmp(xs[j].data, xs[i].data) <= 0 ==>
      Before(ys, xs[i], xs[j])
  }

  lemma {:induction false} TiesInOrder<T>(cmp: Comparison<T>, x: Node<T>, xs: seq<Node<T>>, i: nat, j: nat)
    returns (p: nat, q: nat)
    requires i < j < |xs|
    requires Le(cmp, x, xs[i]) && Le(cmp, xs[i], x) && Le(cmp, x, xs[j]) && Le(cmp, xs[j], x)
    ensures p < q < |Ties(cmp, x, xs)| && Ties(cmp, x, xs)[p] == xs[i] && Ties(cmp, x, xs)[q] == xs[j]
  {
    var skip := if Le(cmp, x, xs[0]) && Le(cmp, xs[0], x) then 1 else 0;
    if i == 0 {
      assert xs[j] == xs[1..][j - 1] && xs[j] in xs[1..];
      assert xs[j] in Ties(cmp, x, xs[1..]);
      var r :| 0 <= r < |Ties(cmp, x, xs[1..])| && Ties(cmp, x, xs[1..])[r] == xs[j];
      p, q := 0, r + 1;
    } else {
      p, q := TiesInOrder(cmp, x, xs[1..], i - 1, j - 1);
      p, q := p + skip, q + skip;
    }
  }

  lemma {:induction false} TiesFrom<T>(cmp: Comparison<T>, x: Node<T>, xs: seq<Node<T>>, p: nat, q: nat)
    returns (i: nat, j: nat)
    requires p < q < |Ties(cmp, x, xs)|
    ensures i < j < |xs| && xs[i] == Ties(cmp, x, xs)[p] && xs[j] == Ties(cmp, x, xs)[q]
  {
    var rest := Ties(cmp, x, xs[1..]);
    if Le(cmp, x, xs[0]) && Le(cmp, xs[0], x) {
      if p == 0 {
        assert rest[q - 1] in xs[1..];
        var r :| 0 <= r < |xs[1..]| && xs[1..][r] == rest[q - 1];
        i, j := 0, r + 1;
      } else {
        i, j := TiesFrom(cmp, x, xs[1..], p - 1, q - 1);
        i, j := i + 1, j + 1;
      }
    } else {
      i, j := TiesFrom(cmp, x, xs[1..], p, q);
      i, j := i + 1, j + 1;
    }
  }

  // What stable sorting means in terms of cmp alone.
  lemma StableSortSpec<T(!new)>(cmp: Comparison<T>, xs: seq<Node<T>>, ys: seq<Node<T>>)
    requires TotalPreorder(cmp) && StablySorts(cmp, xs, ys)
    ensures forall i, j :: 0 <= i < j < |ys| ==> cmp(ys[i].data, ys[j].data) <= 0
    ensures KeepsEquals(cmp, xs, ys)
  {
    forall i, j | 0 <= i < j < |xs| && cmp(xs[i].data, xs[j].data) <= 0 && cmp(xs[j].data, xs[i].data) <= 0
      ensures Before(ys, xs[i], xs[j])
    {
      assert cmp(xs[i].data, xs[i].data) <= 0;
      var p, q := TiesInOrder(cmp, xs[i], xs, i, j);
      assert xs[i] in xs && Ties(cmp, xs[i], ys) == Ties(cmp, xs[i], xs);
      var a, b := TiesFrom(cmp, xs[i], ys, p, q);
    }
  }

  // A sequence has only one stable sort.
  lemma {:induction false} StableSortIsUnique<T(!new)>(cmp: Comparison<T>, xs: seq<Node<T>>, ys: seq<Node<T>>,
      zs: seq<Node<T>>)
    requires TotalPreorder(cmp) && StablySorts(cmp, xs, ys) && StablySorts(cmp, xs, zs)
    ensures ys == zs
  {
    assert forall y :: y in ys || y in zs ==> y in multiset(xs);
    SameTiesSameSequence(cmp, ys, zs);
  }

  lemma {:induction false} SameTiesSameSequence<T(!new)>(cmp: Comparison<T>, ys: seq<Node<T>>, zs: seq<Node<T>>)
    requires TotalPreorder(cmp) && Sorted(cmp, ys) && Sorted(cmp, zs)
    requires forall x: Node<T> :: x in ys || x in zs ==> Ties(cmp, x, ys) == Ties(cmp, x, zs)
    ensures ys == zs
  {
    if ys == [] || zs == [] {
      assert |zs| > 0 ==> zs[0] in Ties(cmp, zs[0], zs);
      assert |ys| > 0 ==> ys[0] in Ties(cmp, ys[0], ys);
    } else {
      var y, z := ys[0], zs[0];
      assert y in Ties(cmp, y, ys) && z in Ties(cmp, z, zs);
      HeadIsLeast(cmp, zs, y);
      HeadIsLeast(cmp, ys, z);
      assert Ties(cmp, y, ys)[0] == y && Ties(cmp, y, zs)[0] == z;
      forall x: Node<T> | x in ys[1..] || x in zs[1..]
        ensures Ties(cmp, x, ys[1..]) == Ties(cmp, x, zs[1..])
      {
        assert Ties(cmp, x, ys) == Ties(cmp, x, zs);
        var t := Le(cmp, x, y) && Le(cmp, y, x);
        assert Ties(cmp, x, ys) == (if t then [y] else []) + Ties(cmp, x, ys[1..]);
        assert Ties(cmp, x, zs) == (if t then [y] else []) + Ties(cmp, x, zs[1..]);
        assert Ties(cmp, x, ys[1..]) == Ties(cmp, x, ys)[if t then 1 else 0..];
      }
      SameTiesSameSequence(cmp, ys[1..], zs[1..]);
    }
  }
}
