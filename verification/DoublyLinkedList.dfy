/**
  The doubly linked list macros of `hw2/utlist.h` on the heap: `DL_SORT2`,
  `DL_APPEND2` and `DL_DELETE2`.  A list of this library is circular backwards only:
  the head's `prev` is the tail, the tail's `next` is null.
 */
module DoublyLinkedList {
  import opened Prelude
  import opened MergeSpec

  // The node at position i, or null past the end.
  ghost function At<T>(ns: seq<Node<T>>, i: nat): Node?<T> {
    if i < |ns| then ns[i] else null
  }

  ghost predicate Distinct<T>(ns: seq<Node<T>>) {
    forall i, j :: 0 <= i < j < |ns| ==> ns[i] != ns[j]
  }

  // The nodes of out are linked to each other both ways; the two ends are left open.
  ghost predicate Linked<T>(out: seq<Node<T>>)
    reads out
  {
    && (forall i {:trigger out[i].next} :: 0 <= i < |out| - 1 ==> out[i].next == out[i + 1])
    && (forall i {:trigger out[i].prev} :: 1 <= i < |out| ==> out[i].prev == out[i - 1])
  }

  // A whole list: its nodes in order, with the two ends closed.
  ghost predicate IsList<T>(head: Node?<T>, ns: seq<Node<T>>)
    reads ns
  {
    && Distinct(ns)
    && Linked(ns)
    && head == At(ns, 0)
    && (ns != [] ==> ns[0].prev == ns[|ns| - 1] && ns[|ns| - 1].next == null)
  }

  // Nodes lo..hi of ns still carry the next links they had when the pass began.
  ghost predicate Untouched<T>(ns: seq<Node<T>>, lo: nat, hi: nat)
    requires hi <= |ns|
    reads ns
  {
    forall j {:trigger ns[j].next} :: lo <= j < hi ==> ns[j].next == At(ns, j + 1)
  }

  ghost predicate Apart<T>(out: seq<Node<T>>, ns: seq<Node<T>>, lo: nat, hi: nat)
    requires hi <= |ns|
  {
    forall k, j :: 0 <= k < |out| && lo <= j < hi ==> out[k] != ns[j]
  }

  ghost predicate Among<T>(out: seq<Node<T>>, ns: seq<Node<T>>) {
    forall k :: 0 <= k < |out| ==> out[k] in ns
  }

  // What the merging loop has still to take: what is left of the run of p at i..mid,
  // and everything from j on.  None of it is in out.
  ghost predicate Remaining<T>(ns: seq<Node<T>>, i: nat, mid: nat, j: nat, out: seq<Node<T>>) {
    && i <= mid <= j <= |ns| && Distinct(ns)
    && Apart(out, ns, i, mid) && Apart(out, ns, j, |ns|)
    && Among(out, ns)
  }

  // The list under construction: `list` and `_ls_tail` are the ends of out.
  ghost predicate Building<T>(list: Node?<T>, tail: Node?<T>, out: seq<Node<T>>)
    reads out
  {
    && Distinct(out)
    && Linked(out)
    && list == At(out, 0)
    && tail == (if out == [] then null else out[|out| - 1])
  }

  // In the middle of merging two runs: i..mid and j.. are still to be taken.
  ghost predicate Merging<T>(list: Node?<T>, tail: Node?<T>, out: seq<Node<T>>, ns: seq<Node<T>>, i: nat, mid: nat,
                             j: nat)
    reads ns, out
  {
    Remaining(ns, i, mid, j, out) && Untouched(ns, i, mid) && Untouched(ns, j, |ns|) && Building(list, tail, out)
  }

  // Lines 262-272: node e moves to the end of the list under construction.
  method Emit<T>(list: Node?<T>, tail: Node?<T>, e: Node<T>,
                 ghost out: seq<Node<T>>, ghost ns: seq<Node<T>>, ghost i: nat, ghost mid: nat, ghost j: nat)
    returns (list': Node?<T>)
    requires Building(list, tail, out) && e !in out
    requires Remaining(ns, i, mid, j, out + [e]) && Untouched(ns, i, mid) && Untouched(ns, j, |ns|)
    modifies if tail == null then {} else {tail}, e
    ensures Merging(list', e, out + [e], ns, i, mid, j)
  {
    list' := list;
    if tail != null {
      assert tail == (out + [e])[|out| - 1];
      tail.next := e;
    } else {
      list' := e;
    }
    e.prev := tail;
  }

  // Lines 276-279: the two ends of the finished list.
  method Close<T>(list: Node<T>, tail: Node<T>, ghost out: seq<Node<T>>)
    requires out != [] && Building(list, tail, out)
    modifies list, tail
    ensures IsList(list, out)
  {
    list.prev := tail;
    tail.next := null;
  }

  // The counting loop: steps q over the run that starts at position lo and measures it.
  method MeasureRun<T>(p: Node<T>, insize: nat, ghost ns: seq<Node<T>>, ghost lo: nat) returns (q: Node?<T>, psize: nat)
    requires insize >= 1 && lo < |ns| && p == ns[lo] && Untouched(ns, lo, |ns|)
    ensures psize == Min(insize, |ns| - lo)
    ensures q == At(ns, lo + psize)
  {
    q, psize := p, 0;
    for i := 0 to insize
      invariant psize == i && lo + psize < |ns| && q == ns[lo + psize]
    {
      psize := psize + 1;
      q := q.next;
      if q == null {
        break;
      }
    }
  }

  lemma TakeLeft<T>(cmp: Comparison<T>, ns: seq<Node<T>>, i: nat, mid: nat, j: nat, hi: nat)
    requires i < mid <= j <= hi <= |ns|
    requires j == hi || Le(cmp, ns[i], ns[j])
    ensures Merge(cmp, ns[i..mid], ns[j..hi]) == [ns[i]] + Merge(cmp, ns[i + 1..mid], ns[j..hi])
    ensures MergeCompares(cmp, ns[i..mid], ns[j..hi])
      == (if j < hi then 1 else 0) + MergeCompares(cmp, ns[i + 1..mid], ns[j..hi])
  {
    assert ns[i..mid] == [ns[i]] + ns[i + 1..mid];
  }

  lemma TakeRight<T>(cmp: Comparison<T>, ns: seq<Node<T>>, i: nat, mid: nat, j: nat, hi: nat)
    requires i <= mid <= j < hi <= |ns|
    requires i == mid || !Le(cmp, ns[i], ns[j])
    ensures Merge(cmp, ns[i..mid], ns[j..hi]) == [ns[j]] + Merge(cmp, ns[i..mid], ns[j + 1..hi])
    ensures MergeCompares(cmp, ns[i..mid], ns[j..hi])
      == (if i < mid then 1 else 0) + MergeCompares(cmp, ns[i..mid], ns[j + 1..hi])
  {
    assert ns[j..hi] == [ns[j]] + ns[j + 1..hi];
  }

  // Lines 237-261: which node goes next.
  method Choose<T>(cmp: Comparison<T>, p: Node?<T>, psize: nat, q: Node?<T>, qsize: nat,
                   ghost ns: seq<Node<T>>, ghost i: nat, ghost mid: nat, ghost j: nat, ghost hi: nat)
    returns (e: Node<T>, p': Node?<T>, psize': nat, q': Node?<T>, qsize': nat,
             ghost i': nat, ghost j': nat, ghost compares: nat)
    requires psize > 0 || (qsize > 0 && q != null)
    requires i <= mid <= j <= hi <= |ns| && psize == mid - i && hi == Min(j + qsize, |ns|)
    requires (psize > 0 ==> p == ns[i]) && q == At(ns, j)
    requires Untouched(ns, i, mid) && Untouched(ns, j, |ns|)
    ensures (i' == i + 1 && j' == j && i < mid && e == ns[i]) || (i' == i && j' == j + 1 && j < hi && e == ns[j])
    ensures psize' == mid - i' && hi == Min(j' + qsize', |ns|) && psize' + qsize' < psize + qsize
    ensures (psize' > 0 ==> p' == ns[i']) && q' == At(ns, j')
    ensures Merge(cmp, ns[i..mid], ns[j..hi]) == [e] + Merge(cmp, ns[i'..mid], ns[j'..hi])
    ensures compares == if psize > 0 && qsize > 0 && q != null then 1 else 0
    ensures compares + MergeCompares(cmp, ns[i'..mid], ns[j'..hi]) == MergeCompares(cmp, ns[i..mid], ns[j..hi])
  {
    p', psize', q', qsize' := p, psize, q, qsize;
    i', j', compares := i, j, 0;
    if psize == 0 {
      TakeRight(cmp, ns, i, mid, j, hi);
      e, q', qsize', j' := q, q.next, qsize - 1, j + 1;
    } else if qsize == 0 || q == null {
      TakeLeft(cmp, ns, i, mid, j, hi);
      e, p', psize', i' := p, p.next, psize - 1, i + 1;
    } else if cmp(p.data, q.data) <= 0 {
      TakeLeft(cmp, ns, i, mid, j, hi);
      e, p', psize', i', compares := p, p.next, psize - 1, i + 1, 1;
    } else {
      TakeRight(cmp, ns, i, mid, j, hi);
      e, q', qsize', j', compares := q, q.next, qsize - 1, j + 1, 1;
    }
  }

  lemma RemainingAfter<T>(ns: seq<Node<T>>, i: nat, mid: nat, j: nat, out: seq<Node<T>>, e: Node<T>, i': nat, j': nat)
    requires Remaining(ns, i, mid, j, out)
    requires (i' == i + 1 && j' == j && i < mid && e == ns[i]) || (i' == i && j' == j + 1 && j < |ns| && e == ns[j])
    ensures e in ns && e !in out && Remaining(ns, i', mid, j', out + [e])
  {
  }

  // One trip of the merging loop.
  method MergeNext<T>(cmp: Comparison<T>, p: Node?<T>, psize: nat, q: Node?<T>, qsize: nat,
                      list: Node?<T>, tail: Node?<T>, ghost ns: seq<Node<T>>,
                      ghost i: nat, ghost mid: nat, ghost j: nat, ghost hi: nat, ghost out: seq<Node<T>>)
    returns (list': Node?<T>, e: Node<T>, p': Node?<T>, psize': nat, q': Node?<T>, qsize': nat,
             ghost i': nat, ghost j': nat, ghost out': seq<Node<T>>, ghost compares: nat)
    requires psize > 0 || (qsize > 0 && q != null)
    requires i <= mid <= j <= hi <= |ns| && psize == mid - i && hi == Min(j + qsize, |ns|)
    requires (psize > 0 ==> p == ns[i]) && q == At(ns, j) && Merging(list, tail, out, ns, i, mid, j)
    modifies ns
    ensures i <= i' <= mid && j <= j' <= hi && i' + j' == i + j + 1
    ensures psize' == mid - i' && hi == Min(j' + qsize', |ns|) && psize' + qsize' < psize + qsize
    ensures (psize' > 0 ==> p' == ns[i']) && q' == At(ns, j') && Merging(list', e, out', ns, i', mid, j')
    ensures out' + Merge(cmp, ns[i'..mid], ns[j'..hi]) == out + Merge(cmp, ns[i..mid], ns[j..hi])
    ensures compares + MergeCompares(cmp, ns[i'..mid], ns[j'..hi]) == MergeCompares(cmp, ns[i..mid], ns[j..hi])
  {
    e, p', psize', q', qsize', i', j', compares := Choose(cmp, p, psize, q, qsize, ns, i, mid, j, hi);
    RemainingAfter(ns, i, mid, j, out, e, i', j');
    ConcatAssociates(out, [e], Merge(cmp, ns[i'..mid], ns[j'..hi]));
    out' := out + [e];
    list' := Emit(list, tail, e, out, ns, i', mid, j');
  }

  // The merging loop, lines 236-273: the run of p (positions lo..mid) and the run of q (from
  // mid, at most insize nodes) move to the end of the list under construction.
  method MergeRuns<T>(cmp: Comparison<T>, p0: Node<T>, psize0: nat, q0: Node?<T>, insize: nat,
                      list0: Node?<T>, tail0: Node?<T>,
                      ghost ns: seq<Node<T>>, ghost lo: nat, ghost mid: nat, ghost hi: nat, ghost out0: seq<Node<T>>)
    returns (list: Node?<T>, tail: Node?<T>, q: Node?<T>, ghost out: seq<Node<T>>, ghost compares: nat)
    requires psize0 >= 1 && mid == lo + psize0 <= |ns| && hi == Min(mid + insize, |ns|)
    requires p0 == ns[lo] && q0 == At(ns, mid)
    requires Remaining(ns, lo, lo, lo, out0) && Untouched(ns, lo, |ns|) && Building(list0, tail0, out0)
    modifies ns
    ensures out == out0 + Merge(cmp, ns[lo..mid], ns[mid..hi])
    ensures Remaining(ns, hi, hi, hi, out) && Untouched(ns, hi, |ns|) && Building(list, tail, out)
    ensures q == At(ns, hi) && compares == MergeCompares(cmp, ns[lo..mid], ns[mid..hi])
  {
    ghost var i, j := lo, mid;
    var p: Node?<T>, psize, qsize := p0, psize0, insize;
    list, tail, q, out, compares := list0, tail0, q0, out0, 0;
    while psize > 0 || (qsize > 0 && q != null)
      invariant lo <= i <= mid <= j <= hi
      invariant psize == mid - i && hi == Min(j + qsize, |ns|)
      invariant (psize > 0 ==> p == ns[i]) && q == At(ns, j)
      invariant Merging(list, tail, out, ns, i, mid, j)
      invariant out + Merge(cmp, ns[i..mid], ns[j..hi]) == out0 + Merge(cmp, ns[lo..mid], ns[mid..hi])
      invariant compares + MergeCompares(cmp, ns[i..mid], ns[j..hi]) == MergeCompares(cmp, ns[lo..mid], ns[mid..hi])
      decreases psize + qsize
    {
      ghost var more: nat;
      list, tail, p, psize, q, qsize, i, j, out, more :=
        MergeNext(cmp, p, psize, q, qsize, list, tail, ns, i, mid, j, hi, out);
      compares := compares + more;
    }
  }

  // out, followed by the pass over what is left, is the pass over everything; so are the
  // comparisons made so far and those to come.
  ghost predicate Midway<T>(cmp: Comparison<T>, k: nat, ns: seq<Node<T>>, lo: nat, out: seq<Node<T>>, compares: nat)
    requires k >= 1 && lo <= |ns|
  {
    && out + Pass(cmp, k, ns[lo..]) == Pass(cmp, k, ns)
    && compares + PassCompares(cmp, k, ns[lo..]) == PassCompares(cmp, k, ns)
  }

  lemma MidwayStep<T>(cmp: Comparison<T>, k: nat, ns: seq<Node<T>>, lo: nat, mid: nat, hi: nat,
                      out: seq<Node<T>>, out': seq<Node<T>>, compares: nat)
    requires k >= 1 && lo < |ns| && Midway(cmp, k, ns, lo, out, compares)
    requires mid == lo + Min(k, |ns| - lo) && hi == Min(mid + k, |ns|)
    requires out' == out + Merge(cmp, ns[lo..mid], ns[mid..hi])
    ensures Midway(cmp, k, ns, hi, out', compares + MergeCompares(cmp, ns[lo..mid], ns[mid..hi]))
  {
    var xs := ns[lo..];
    assert xs[..Min(k, |xs|)] == ns[lo..mid];
    assert xs[Min(k, |xs|)..Min(2 * k, |xs|)] == ns[mid..hi];
    assert xs[Min(2 * k, |xs|)..] == ns[hi..];
    ConcatAssociates(out, Merge(cmp, ns[lo..mid], ns[mid..hi]), Pass(cmp, k, ns[hi..]));
  }

  lemma MidwayStart<T>(cmp: Comparison<T>, k: nat, ns: seq<Node<T>>)
    requires k >= 1
    ensures Midway(cmp, k, ns, 0, [], 0)
  {
    assert ns[0..] == ns;
  }

  lemma MidwayEnd<T>(cmp: Comparison<T>, k: nat, ns: seq<Node<T>>, out: seq<Node<T>>, compares: nat)
    requires k >= 1 && Midway(cmp, k, ns, |ns|, out, compares)
    ensures out == Pass(cmp, k, ns) && compares == PassCompares(cmp, k, ns)
  {
  }

  // Between two pairs of runs: positions before lo are in out, the rest is as it was.
  ghost predicate Paused<T>(p: Node?<T>, list: Node?<T>, tail: Node?<T>, ns: seq<Node<T>>, lo: nat, out: seq<Node<T>>)
    reads ns, out
  {
    && lo <= |ns| && p == At(ns, lo)
    && Remaining(ns, lo, lo, lo, out) && Untouched(ns, lo, |ns|) && Building(list, tail, out)
  }

  // One pair of runs, lines 225-274.
  method MergePair<T>(cmp: Comparison<T>, p0: Node<T>, insize: nat, list0: Node?<T>, tail0: Node?<T>,
                      ghost ns: seq<Node<T>>, ghost lo: nat, ghost out0: seq<Node<T>>, ghost compares0: nat)
    returns (list: Node?<T>, tail: Node?<T>, p: Node?<T>, ghost hi: nat, ghost out: seq<Node<T>>, ghost compares: nat)
    requires insize >= 1 && Paused(p0, list0, tail0, ns, lo, out0)
    requires Midway(cmp, insize, ns, lo, out0, compares0)
    modifies ns
    ensures hi == Min(lo + 2 * insize, |ns|) && Paused(p, list, tail, ns, hi, out)
    ensures Midway(cmp, insize, ns, hi, out, compares)
  {
    var q, psize := MeasureRun(p0, insize, ns, lo);
    ghost var mid := lo + psize;
    hi := Min(mid + insize, |ns|);
    list, tail, q, out, compares := MergeRuns(cmp, p0, psize, q, insize, list0, tail0, ns, lo, mid, hi, out0);
    MidwayStep(cmp, insize, ns, lo, mid, hi, out0, out, compares0);
    compares := compares0 + compares;
    p := q;
  }

  // What the number of merges says about how far the pass has come.
  ghost predicate Merged(nmerges: nat, lo: nat, insize: nat, n: nat) {
    if nmerges == 0 then lo == 0 else if nmerges == 1 then lo == Min(2 * insize, n) else 2 * insize < n
  }

  // Lines 219-275: all pairs of runs.
  method MergeAll<T>(cmp: Comparison<T>, list0: Node<T>, insize: nat, ghost ns: seq<Node<T>>)
    returns (list: Node?<T>, tail: Node?<T>, nmerges: nat, ghost out: seq<Node<T>>, ghost compares: nat)
    requires insize >= 1 && ns != [] && IsList(list0, ns)
    modifies ns
    ensures Paused(null, list, tail, ns, |ns|, out) && Midway(cmp, insize, ns, |ns|, out, compares)
    ensures Merged(nmerges, |ns|, insize, |ns|)
  {
    var p: Node?<T> := list0;
    ghost var lo := 0;
    list, tail, nmerges, out, compares := null, null, 0, [], 0;
    MidwayStart(cmp, insize, ns);
    while p != null
      invariant Paused(p, list, tail, ns, lo, out) && Midway(cmp, insize, ns, lo, out, compares)
      invariant Merged(nmerges, lo, insize, |ns|)
      decreases |ns| - lo
    {
      nmerges := nmerges + 1;
      list, tail, p, lo, out, compares := MergePair(cmp, p, insize, list, tail, ns, lo, out, compares);
    }
  }

  // One trip of the outer loop, lines 219-279.
  method SortPass<T>(cmp: Comparison<T>, list0: Node<T>, insize: nat, ghost ns: seq<Node<T>>)
    returns (list: Node<T>, nmerges: nat, ghost out: seq<Node<T>>, ghost compares: nat)
    requires insize >= 1 && ns != [] && IsList(list0, ns)
    modifies ns
    ensures out == Pass(cmp, insize, ns) && IsList(list, out)
    ensures Among(out, ns)
    ensures nmerges <= 1 <==> 2 * insize >= |ns|
    ensures compares == PassCompares(cmp, insize, ns)
  {
    var head, tail;
    head, tail, nmerges, out, compares := MergeAll(cmp, list0, insize, ns);
    MidwayEnd(cmp, insize, ns, out, compares);
    Close(head, tail, out);
    list := head;
  }

  ghost function Pow2(p: nat): nat {
    if p == 0 then 1 else 2 * Pow2(p - 1)
  }

  // p is the logarithm of n to base 2, rounded up (n >= 2).
  ghost predicate IsCeilLog2(p: nat, n: nat) {
    p >= 1 && Pow2(p - 1) < n <= Pow2(p)
  }

  // p passes, the first over runs of k nodes, make out of xs with so many comparisons; the next
  // would be over runs of k'.
  ghost predicate Passes<T>(cmp: Comparison<T>, k: nat, xs: seq<Node<T>>, p: nat, k': nat, out: seq<Node<T>>,
                            compares: int)
    requires k >= 1
    decreases p
  {
    if p == 0 then k' == k && out == xs && compares == 0
    else Passes(cmp, 2 * k, Pass(cmp, k, xs), p - 1, k', out, compares - PassCompares(cmp, k, xs))
  }

  lemma {:induction false} OnePassMore<T>(cmp: Comparison<T>, k: nat, xs: seq<Node<T>>, p: nat, k': nat,
                                          out: seq<Node<T>>, compares: int)
    requires k >= 1 && k' >= 1 && Passes(cmp, k, xs, p, k', out, compares)
    ensures Passes(cmp, k, xs, p + 1, 2 * k', Pass(cmp, k', out), compares + PassCompares(cmp, k', out))
    decreases p
  {
    if p > 0 {
      OnePassMore(cmp, 2 * k, Pass(cmp, k, xs), p - 1, k', out, compares - PassCompares(cmp, k, xs));
    } else {
      assert Passes(cmp, 2 * k', Pass(cmp, k', out), 0, 2 * k', Pass(cmp, k', out), 0);
    }
  }

  // No pass makes more comparisons than there are nodes.
  lemma {:induction false} PassesGrow<T>(cmp: Comparison<T>, k: nat, xs: seq<Node<T>>, p: nat, k': nat,
                                         out: seq<Node<T>>, compares: int)
    requires k >= 1 && Passes(cmp, k, xs, p, k', out, compares)
    ensures |out| == |xs| && k' >= k && (p > 0 ==> k' >= 2 * k)
    ensures 0 <= compares <= Times(|xs|, p)
    decreases p
  {
    if p > 0 {
      PassesGrow(cmp, 2 * k, Pass(cmp, k, xs), p - 1, k', out, compares - PassCompares(cmp, k, xs));
    }
  }

  // After p passes the run size k' is at least n for the first time.
  ghost predicate StopsAt(p: nat, k': nat, n: nat) {
    p >= 1 && n <= k' && (p == 1 || k' < 2 * n)
  }

  lemma {:induction false} AllPasses<T>(cmp: Comparison<T>, k: nat, xs: seq<Node<T>>, p: nat, k': nat,
                                        out: seq<Node<T>>, compares: int)
    requires k >= 1 && Passes(cmp, k, xs, p, k', out, compares) && StopsAt(p, k', |xs|)
    ensures out == BottomUp(cmp, k, xs) && compares == BottomUpCompares(cmp, k, xs)
    decreases p
  {
    var ys, more := Pass(cmp, k, xs), compares - PassCompares(cmp, k, xs);
    PassesGrow(cmp, 2 * k, ys, p - 1, k', out, more);
    if p > 1 {
      AllPasses(cmp, 2 * k, ys, p - 1, k', out, more);
    }
  }

  // One pass more, and what has been spent on comparisons so far.
  method NextPass<T>(cmp: Comparison<T>, list0: Node<T>, insize: nat, ghost ns: seq<Node<T>>, ghost passes: nat,
                     ghost out0: seq<Node<T>>, ghost compares0: nat)
    returns (list: Node<T>, nmerges: nat, ghost out: seq<Node<T>>, ghost compares: nat)
    requires insize >= 1 && out0 != [] && IsList(list0, out0) && |out0| == |ns|
    requires Passes(cmp, 1, ns, passes, insize, out0, compares0)
    modifies out0
    ensures IsList(list, out) && |out| == |ns| && Among(out, out0)
    ensures Passes(cmp, 1, ns, passes + 1, 2 * insize, out, compares)
    ensures nmerges <= 1 <==> 2 * insize >= |ns|
  {
    hide Passes, IsList, Among, Pass, PassCompares;
    list, nmerges, out, compares := SortPass(cmp, list0, insize, out0);
    OnePassMore(cmp, 1, ns, passes, insize, out0, compares0);
    compares := compares0 + compares;
  }

  // Lines 215-284: the loop over the passes, on a list that is not empty.
  method SortLoop<T>(list0: Node<T>, cmp: Comparison<T>, ghost ns: seq<Node<T>>)
    returns (list: Node<T>, insize: nat, ghost out: seq<Node<T>>, ghost passes: nat, ghost compares: nat)
    requires ns != [] && IsList(list0, ns)
    modifies ns
    ensures IsList(list, out) && Passes(cmp, 1, ns, passes, insize, out, compares)
    ensures insize == Pow2(passes) && StopsAt(passes, insize, |ns|)
  {
    var looping := true;
    list, insize, out, passes, compares := list0, 1, ns, 0, 0;
    while looping
      invariant IsList(list, out) && Among(out, ns) && |out| == |ns|
      invariant Passes(cmp, 1, ns, passes, insize, out, compares) && insize == Pow2(passes) && insize >= 1
      invariant if looping then passes == 0 || insize < |ns| else StopsAt(passes, insize, |ns|)
      decreases looping, |ns| - insize
    {
      var nmerges;
      list, nmerges, out, compares := NextPass(cmp, list, insize, ns, passes, out, compares);
      if nmerges <= 1 {
        looping := false;
      }
      insize := insize * 2;
      passes := passes + 1;
    }
  }

  // DL_SORT2, lines 208-286.
  method Sort<T(!new)>(list0: Node?<T>, cmp: Comparison<T>, ghost ns: seq<Node<T>>)
    returns (list: Node?<T>, ghost out: seq<Node<T>>, ghost passes: nat, ghost compares: nat, ghost insizeAtExit: nat)
    requires IsList(list0, ns)
    modifies ns
    ensures IsList(list, out) && multiset(out) == multiset(ns)
    ensures TotalPreorder(cmp) ==> forall i, j :: 0 <= i < j < |out| ==> cmp(out[i].data, out[j].data) <= 0
    ensures TotalPreorder(cmp) ==> StablySorts(cmp, ns, out) && KeepsEquals(cmp, ns, out)
    ensures compares == BottomUpCompares(cmp, 1, ns) <= |ns| * passes
    ensures |ns| >= 2 ==> IsCeilLog2(passes, |ns|)
    ensures ns != [] ==> insizeAtExit == Pow2(passes)
  {
    list, out, passes, compares, insizeAtExit := list0, ns, 0, 0, 1;
    SortSpec(cmp, ns);
    if list != null {
      var insize;
      list, insize, out, passes, compares := SortLoop(list, cmp, ns);
      AllPasses(cmp, 1, ns, passes, insize, out, compares);
      PassesGrow(cmp, 1, ns, passes, insize, out, compares);
      insizeAtExit := insize;
    }
    TimesIsProduct(|ns|, passes);
    if TotalPreorder(cmp) {
      StableSortSpec(cmp, ns, out);
    }
  }

  // At most |xs| comparisons in each of p passes, if the runs cover xs after p doublings.
  lemma {:induction false} ComparesBound<T>(cmp: Comparison<T>, k: nat, xs: seq<Node<T>>, p: nat)
    requires k >= 1 && p >= 1 && |xs| <= k * Pow2(p)
    ensures BottomUpCompares(cmp, k, xs) <= Times(|xs|, p)
    decreases p
  {
    if 2 * k < |xs| {
      assert p > 1 by {
        assert p == 1 ==> Pow2(p) == 2;
      }
      assert k * Pow2(p) == 2 * k * Pow2(p - 1);
      ComparesBound(cmp, 2 * k, Pass(cmp, k, xs), p - 1);
    }
  }

  // Any list of n >= 2 nodes is sorted with at most n times the rounded-up logarithm of n calls.
  lemma SortCost<T>(cmp: Comparison<T>, ns: seq<Node<T>>, p: nat)
    requires IsCeilLog2(p, |ns|)
    ensures BottomUpCompares(cmp, 1, ns) <= |ns| * p
  {
    ComparesBound(cmp, 1, ns, p);
    TimesIsProduct(|ns|, p);
  }

  lemma SortSpec<T(!new)>(cmp: Comparison<T>, ns: seq<Node<T>>)
    ensures multiset(BottomUp(cmp, 1, ns)) == multiset(ns)
    ensures TotalPreorder(cmp) ==> StablySorts(cmp, ns, BottomUp(cmp, 1, ns))
  {
    BottomUpPermutes(cmp, 1, ns);
    if TotalPreorder(cmp) {
      BottomUpIsStableSort(cmp, ns);
    }
  }

  // n added up k times, so that the loop needs no multiplication.
  ghost function Times(n: nat, k: nat): nat {
    if k == 0 then 0 else Times(n, k - 1) + n
  }

  lemma TimesIsProduct(n: nat, k: nat)
    ensures Times(n, k) == n * k
  {
  }

  lemma Pow2Monotone(a: nat, b: nat)
    requires a <= b
    ensures Pow2(a) <= Pow2(b)
    decreases b - a
  {
    if a < b {
      Pow2Monotone(a, b - 1);
    }
  }

  lemma Pow2Thirty()
    ensures Pow2(30) == 0x4000_0000
  {
    assert Pow2(10) == 1024;
    assert Pow2(20) == 1024 * Pow2(10) by { Pow2Sum(10, 10); }
    Pow2Sum(10, 20);
  }

  lemma Pow2Sum(a: nat, b: nat)
    ensures Pow2(a + b) == Pow2(a) * Pow2(b)
  {
    if a > 0 {
      Pow2Sum(a - 1, b);
    }
  }

  // `int _ls_insize` stays in range exactly for lists of at most 2^30 nodes.
  lemma InsizeFitsInt(n: nat, passes: nat)
    requires IsCeilLog2(passes, n)
    ensures Pow2(passes) <= 0x7fff_ffff <==> n <= 0x4000_0000
  {
    Pow2Thirty();
    if passes <= 30 {
      Pow2Monotone(passes, 30);
    } else {
      Pow2Monotone(30, passes - 1);
    }
  }

  // ---------- DL_APPEND2 and DL_DELETE2 ----------

  method Append<T>(head: Node?<T>, add: Node<T>, ghost ns: seq<Node<T>>) returns (head': Node?<T>)
    requires IsList(head, ns) && add !in ns
    modifies ns, add
    ensures IsList(head', ns + [add])
  {
    head' := head;
    if head' != null {
      add.prev := head'.prev;
      head'.prev.next := add;
      head'.prev := add;
      add.next := null;
    } else {
      head' := add;
      head'.prev := head';
      head'.next := null;
    }
  }

  ghost function Without<X>(s: seq<X>, k: nat): (r: seq<X>)
    requires k < |s|
    ensures |r| == |s| - 1
    ensures forall i :: 0 <= i < |r| ==> r[i] == s[if i < k then i else i + 1]
  {
    seq(|s| - 1, i requires 0 <= i < |s| - 1 => s[if i < k then i else i + 1])
  }

  lemma WithoutKeepsDistinct<T>(ns: seq<Node<T>>, k: nat)
    requires Distinct(ns) && k < |ns|
    ensures Distinct(Without(ns, k))
  {
  }

  // Lines 641-643: the node is neither first nor last.
  method DeleteMiddle<T>(del: Node<T>, ghost head: Node<T>, ghost ns: seq<Node<T>>, ghost k: nat)
    requires IsList(head, ns) && 0 < k < |ns| - 1 && del == ns[k]
    modifies ns
    ensures IsList(head, Without(ns, k))
  {
    WithoutKeepsDistinct(ns, k);
    ghost var left := Without(ns, k);
    assert del.prev == left[k - 1] && del.next == left[k];
    del.prev.next := del.next;
    del.next.prev := del.prev;
    assert forall i {:trigger left[i].next} :: 0 <= i < |left| - 1 ==> left[i].next == left[i + 1];
    assert forall i {:trigger left[i].prev} :: 1 <= i < |left| ==> left[i].prev == left[i - 1];
  }

  // Lines 641-645: the node is the last of several.
  method DeleteLast<T>(head: Node<T>, del: Node<T>, ghost ns: seq<Node<T>>)
    requires |ns| >= 2 && IsList(head, ns) && del == ns[|ns| - 1]
    modifies ns
    ensures IsList(head, Without(ns, |ns| - 1))
  {
    WithoutKeepsDistinct(ns, |ns| - 1);
    del.prev.next := del.next;
    head.prev := del.prev;
  }

  method Delete<T>(head: Node?<T>, del: Node<T>, ghost ns: seq<Node<T>>, ghost k: nat) returns (head': Node?<T>)
    requires IsList(head, ns) && k < |ns| && del == ns[k]
    modifies ns
    ensures IsList(head', Without(ns, k))
  {
    head' := head;
    WithoutKeepsDistinct(ns, k);
    if del.prev == del {
      head' := null;
    } else if del == head' {
      del.next.prev := del.prev;
      head' := del.next;
    } else {
      if del.next != null {
        DeleteMiddle(del, head', ns, k);
      } else {
        DeleteLast(head', del, ns);
      }
    }
  }
}
