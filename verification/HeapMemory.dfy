/**
  The memory `malloc-master/mm_alloc.c` works in: one flat row of bytes in which the block
  headers (`struct metadata`, 24 bytes on a 64-bit machine) and the payloads lie side by
  side.  An address is a position in that row; position 0 is NULL and is never handed out.
 */
module HeapMemory {
  import opened CBytes

  // sizeof(metadata): two pointers, an int and an unsigned int.
  const H: nat := 24

  datatype Meta = Meta(prev: nat, next: nat, free: nat, size: nat)

  predicate MetaOk(x: Meta) {
    x.prev < Pow256(8) && x.next < Pow256(8) && x.free < Pow256(4) && x.size < Pow256(4)
  }

  // The four fields, in the order the structure declares them.
  ghost predicate HeaderAt(m: string, a: nat, x: Meta) {
    && a + H <= |m| && MetaOk(x)
    && m[a..a + 8] == Le(x.prev, 8) && m[a + 8..a + 16] == Le(x.next, 8)
    && m[a + 16..a + 20] == Le(x.free, 4) && m[a + 20..a + 24] == Le(x.size, 4)
  }

  lemma ReadsHeader(m: string, a: nat, x: Meta)
    requires HeaderAt(m, a, x)
    ensures Unle(m[a..a + 8]) == x.prev && Unle(m[a + 8..a + 16]) == x.next
    ensures Unle(m[a + 16..a + 20]) == x.free && Unle(m[a + 20..a + 24]) == x.size
  {
    UnleLe(x.prev, 8);
    UnleLe(x.next, 8);
    UnleLe(x.free, 4);
    UnleLe(x.size, 4);
  }

  // A header as bytes.
  function HeaderText(x: Meta): (s: string)
    ensures |s| == H
  {
    Le(x.prev, 8) + (Le(x.next, 8) + (Le(x.free, 4) + Le(x.size, 4)))
  }

  lemma HeaderBytes(m: string, a: nat, x: Meta)
    requires HeaderAt(m, a, x)
    ensures m[a..a + H] == HeaderText(x)
  {
    Join(m, a + 16, a + 20, a + H);
    Join(m, a + 8, a + 16, a + H);
    Join(m, a, a + 8, a + H);
  }

  lemma HeaderSame(m: string, m': string, a: nat, x: Meta)
    requires HeaderAt(m, a, x) && a + H <= |m'| && m'[a..a + H] == m[a..a + H]
    ensures HeaderAt(m', a, x)
  {
    SameSlice(m, m', a, a + H, a, a + 8);
    SameSlice(m, m', a, a + H, a + 8, a + 16);
    SameSlice(m, m', a, a + H, a + 16, a + 20);
    SameSlice(m, m', a, a + H, a + 20, a + 24);
  }

  lemma SameSlice(m: string, m': string, a: nat, b: nat, lo: nat, hi: nat)
    requires a <= lo <= hi <= b <= |m| && b <= |m'| && m'[a..b] == m[a..b]
    ensures m'[lo..hi] == m[lo..hi]
  {
    var s, s' := m[a..b], m'[a..b];
    assert forall j :: lo <= j < hi ==> m[j] == s[j - a] && m'[j] == s'[j - a];
  }

  lemma Join(m: string, a: nat, b: nat, c: nat)
    requires a <= b <= c <= |m|
    ensures m[a..b] + m[b..c] == m[a..c]
  {
  }

  // The n bytes at a and the k bytes at b have none in common.
  predicate Apart(a: nat, n: nat, b: nat, k: nat) {
    a + n <= b || b + k <= a
  }

  ghost predicate Watched(m: string, p: nat, s: string) {
    p + |s| <= |m| && m[p..p + |s|] == s
  }

  ghost predicate HeadersHold(m: string, brk: nat, metas: map<nat, Meta>) {
    brk <= |m| && forall a {:trigger HeaderAt(m, a, metas[a])} ::
      a in metas ==> 0 < a && a + H <= brk && HeaderAt(m, a, metas[a])
  }

  ghost predicate DataHolds(m: string, brk: nat, data: map<nat, string>) {
    brk <= |m| && forall p {:trigger Watched(m, p, data[p])} ::
      p in data ==> p + |data[p]| <= brk && Watched(m, p, data[p])
  }

  ghost predicate NoOverlap(metas: map<nat, Meta>, data: map<nat, string>) {
    && (forall a, b {:trigger Apart(a, H, b, H)} :: a in metas && b in metas && a != b ==> Apart(a, H, b, H))
    && (forall a, p {:trigger Apart(a, H, p, |data[p]|)} :: a in metas && p in data ==> Apart(a, H, p, |data[p]|))
    && (forall p, q {:trigger Apart(p, |data[p]|, q, |data[q]|)} ::
          p in data && q in data && p != q ==> Apart(p, |data[p]|, q, |data[q]|))
  }

  // What memory holds: a header at every address of metas, the watched bytes data[p] at
  // every address p of data, all of them below the break and none overlapping.
  ghost predicate Holds(m: string, brk: nat, metas: map<nat, Meta>, data: map<nat, string>) {
    |m| < Pow256(8) && HeadersHold(m, brk, metas) && DataHolds(m, brk, data) && NoOverlap(metas, data)
  }

  lemma HeaderKept(m: string, b: nat, x: Meta, a: nat, s: string)
    requires HeaderAt(m, b, x) && a + |s| <= |m| && Apart(a, |s|, b, H)
    ensures HeaderAt(Splice(m, a, s), b, x)
  {
    SpliceApart(m, a, s, b, b + 8);
    SpliceApart(m, a, s, b + 8, b + 16);
    SpliceApart(m, a, s, b + 16, b + 20);
    SpliceApart(m, a, s, b + 20, b + 24);
  }

  lemma HeadersKept(m: string, brk: nat, metas: map<nat, Meta>, a: nat, s: string)
    requires HeadersHold(m, brk, metas) && a + |s| <= |m|
    requires forall b :: b in metas ==> Apart(a, |s|, b, H)
    ensures HeadersHold(Splice(m, a, s), brk, metas)
  {
    forall b | b in metas
      ensures 0 < b && b + H <= brk && HeaderAt(Splice(m, a, s), b, metas[b])
    {
      assert HeaderAt(m, b, metas[b]);
      HeaderKept(m, b, metas[b], a, s);
    }
  }

  lemma DataKept(m: string, brk: nat, data: map<nat, string>, a: nat, s: string)
    requires DataHolds(m, brk, data) && a + |s| <= |m|
    requires forall p :: p in data ==> Apart(a, |s|, p, |data[p]|)
    ensures DataHolds(Splice(m, a, s), brk, data)
  {
    forall p | p in data
      ensures p + |data[p]| <= brk && Watched(Splice(m, a, s), p, data[p])
    {
      assert Watched(m, p, data[p]);
      SpliceApart(m, a, s, p, p + |data[p]|);
    }
  }

  // Knowing less is no harm.
  lemma FewerHold(m: string, brk: nat, metas: map<nat, Meta>, data: map<nat, string>,
                  metas': map<nat, Meta>, data': map<nat, string>)
    requires Holds(m, brk, metas, data)
    requires forall a :: a in metas' ==> a in metas && metas'[a] == metas[a]
    requires forall p :: p in data' ==> p in data && data'[p] == data[p]
    ensures Holds(m, brk, metas', data')
  {
    forall a | a in metas'
      ensures 0 < a && a + H <= brk && HeaderAt(m, a, metas'[a])
    {
      assert HeaderAt(m, a, metas[a]);
    }
    forall p | p in data'
      ensures p + |data'[p]| <= brk && Watched(m, p, data'[p])
    {
      assert Watched(m, p, data[p]);
    }
    FewerApart(metas, data, metas', data');
  }

  lemma FewerApart(metas: map<nat, Meta>, data: map<nat, string>, metas': map<nat, Meta>, data': map<nat, string>)
    requires NoOverlap(metas, data)
    requires forall a :: a in metas' ==> a in metas
    requires forall p :: p in data' ==> p in data && data'[p] == data[p]
    ensures NoOverlap(metas', data')
  {
    forall a, p | a in metas' && p in data'
      ensures Apart(a, H, p, |data'[p]|)
    {
      assert Apart(a, H, p, |data[p]|);
    }
    forall p, q | p in data' && q in data' && p != q
      ensures Apart(p, |data'[p]|, q, |data'[q]|)
    {
      assert Apart(p, |data[p]|, q, |data[q]|);
    }
  }

  lemma HeadersUpdated(m: string, brk: nat, metas: map<nat, Meta>, a: nat, x: Meta)
    requires HeadersHold(m, brk, metas - {a}) && 0 < a && a + H <= brk && HeaderAt(m, a, x)
    ensures HeadersHold(m, brk, metas[a := x])
  {
    var metas' := metas[a := x];
    forall b | b in metas'
      ensures 0 < b && b + H <= brk && HeaderAt(m, b, metas'[b])
    {
      if b != a {
        assert b in metas - {a} && HeaderAt(m, b, (metas - {a})[b]);
      }
    }
  }

  lemma DataUpdated(m: string, brk: nat, data: map<nat, string>, p: nat, s: string)
    requires DataHolds(m, brk, data - {p}) && p + |s| <= brk && m[p..p + |s|] == s
    ensures DataHolds(m, brk, data[p := s])
  {
    var data' := data[p := s];
    forall q | q in data'
      ensures q + |data'[q]| <= brk && Watched(m, q, data'[q])
    {
      if q != p {
        assert q in data - {p} && Watched(m, q, (data - {p})[q]);
      }
    }
  }

  lemma OverlapHeader(metas: map<nat, Meta>, data: map<nat, string>, a: nat, x: Meta)
    requires NoOverlap(metas, data)
    requires forall b :: b in metas && b != a ==> Apart(a, H, b, H)
    requires forall p :: p in data ==> Apart(a, H, p, |data[p]|)
    ensures NoOverlap(metas[a := x], data)
  {
  }

  lemma OverlapData(metas: map<nat, Meta>, data: map<nat, string>, p: nat, s: string)
    requires NoOverlap(metas, data)
    requires forall b :: b in metas ==> Apart(b, H, p, |s|)
    requires forall q :: q in data && q != p ==> Apart(p, |s|, q, |data[q]|)
    ensures NoOverlap(metas, data[p := s])
  {
  }

  // Writing bytes that turn the header at a into x: a field of it, or all of it.
  lemma WriteHeader(m: string, brk: nat, metas: map<nat, Meta>, data: map<nat, string>, a: nat, at: nat, s: string,
                    x: Meta)
    requires Holds(m, brk, metas, data) && 0 < a <= at && at + |s| <= a + H <= brk
    requires forall b :: b in metas && b != a ==> Apart(a, H, b, H)
    requires forall p :: p in data ==> Apart(a, H, p, |data[p]|)
    requires HeaderAt(Splice(m, at, s), a, x)
    ensures Holds(Splice(m, at, s), brk, metas[a := x], data)
  {
    FewerHold(m, brk, metas, data, metas - {a}, data);
    HeadersKept(m, brk, metas - {a}, at, s);
    DataKept(m, brk, data, at, s);
    HeadersUpdated(Splice(m, at, s), brk, metas, a, x);
    OverlapHeader(metas, data, a, x);
  }

  // Writing bytes and watching them.
  lemma WritePayload(m: string, brk: nat, metas: map<nat, Meta>, data: map<nat, string>, p: nat, s: string)
    requires Holds(m, brk, metas, data) && p + |s| <= brk
    requires forall b :: b in metas ==> Apart(b, H, p, |s|)
    requires forall q :: q in data && q != p ==> Apart(p, |s|, q, |data[q]|)
    ensures Holds(Splice(m, p, s), brk, metas, data[p := s])
  {
    FewerHold(m, brk, metas, data, metas, data - {p});
    HeadersKept(m, brk, metas, p, s);
    DataKept(m, brk, data - {p}, p, s);
    SpliceExact(m, p, s);
    DataUpdated(Splice(m, p, s), brk, data, p, s);
    OverlapData(metas, data, p, s);
  }

  lemma SetPrev(m: string, a: nat, x: Meta, v: nat)
    requires HeaderAt(m, a, x) && v < Pow256(8)
    ensures HeaderAt(Splice(m, a, Le(v, 8)), a, x.(prev := v))
  {
    var s := Le(v, 8);
    SpliceExact(m, a, s);
    SpliceApart(m, a, s, a + 8, a + 16);
    SpliceApart(m, a, s, a + 16, a + 20);
    SpliceApart(m, a, s, a + 20, a + 24);
  }

  lemma SetNext(m: string, a: nat, x: Meta, v: nat)
    requires HeaderAt(m, a, x) && v < Pow256(8)
    ensures HeaderAt(Splice(m, a + 8, Le(v, 8)), a, x.(next := v))
  {
    var s := Le(v, 8);
    SpliceExact(m, a + 8, s);
    SpliceApart(m, a + 8, s, a, a + 8);
    SpliceApart(m, a + 8, s, a + 16, a + 20);
    SpliceApart(m, a + 8, s, a + 20, a + 24);
  }

  lemma SetFree(m: string, a: nat, x: Meta, v: nat)
    requires HeaderAt(m, a, x) && v < Pow256(4)
    ensures HeaderAt(Splice(m, a + 16, Le(v, 4)), a, x.(free := v))
  {
    var s := Le(v, 4);
    SpliceExact(m, a + 16, s);
    SpliceApart(m, a + 16, s, a, a + 8);
    SpliceApart(m, a + 16, s, a + 8, a + 16);
    SpliceApart(m, a + 16, s, a + 20, a + 24);
  }

  lemma SetSize(m: string, a: nat, x: Meta, v: nat)
    requires HeaderAt(m, a, x) && v < Pow256(4)
    ensures HeaderAt(Splice(m, a + 20, Le(v, 4)), a, x.(size := v))
  {
    var s := Le(v, 4);
    SpliceExact(m, a + 20, s);
    SpliceApart(m, a + 20, s, a, a + 8);
    SpliceApart(m, a + 20, s, a + 8, a + 16);
    SpliceApart(m, a + 20, s, a + 16, a + 20);
  }

  // All four fields, one store after the other.
  lemma SetAll(m: string, a: nat, x: Meta)
    requires a + H <= |m| && MetaOk(x)
    ensures var m1 := Splice(m, a, Le(x.prev, 8));
            var m2 := Splice(m1, a + 8, Le(x.next, 8));
            var m3 := Splice(m2, a + 16, Le(x.free, 4));
      HeaderAt(Splice(m3, a + 20, Le(x.size, 4)), a, x)
  {
    var m1 := Splice(m, a, Le(x.prev, 8));
    var m2 := Splice(m1, a + 8, Le(x.next, 8));
    var m3 := Splice(m2, a + 16, Le(x.free, 4));
    SpliceExact(m, a, Le(x.prev, 8));
    SpliceExact(m1, a + 8, Le(x.next, 8));
    SpliceExact(m2, a + 16, Le(x.free, 4));
    SpliceExact(m3, a + 20, Le(x.size, 4));
    SpliceApart(m1, a + 8, Le(x.next, 8), a, a + 8);
    SpliceApart(m2, a + 16, Le(x.free, 4), a, a + 8);
    SpliceApart(m2, a + 16, Le(x.free, 4), a + 8, a + 16);
    SpliceApart(m3, a + 20, Le(x.size, 4), a, a + 8);
    SpliceApart(m3, a + 20, Le(x.size, 4), a + 8, a + 16);
    SpliceApart(m3, a + 20, Le(x.size, 4), a + 16, a + 20);
  }

  // Writing where nothing lies disturbs nothing.
  lemma WriteElsewhere(m: string, brk: nat, metas: map<nat, Meta>, data: map<nat, string>, a: nat, s: string)
    requires Holds(m, brk, metas, data) && a + |s| <= brk
    requires forall b :: b in metas ==> Apart(a, |s|, b, H)
    requires forall p :: p in data ==> Apart(a, |s|, p, |data[p]|)
    ensures Holds(Splice(m, a, s), brk, metas, data)
  {
    HeadersKept(m, brk, metas, a, s);
    DataKept(m, brk, data, a, s);
  }

  lemma AddHeader(m: string, brk: nat, metas: map<nat, Meta>, data: map<nat, string>, a: nat, x: Meta)
    requires Holds(m, brk, metas, data) && 0 < a && a + H <= brk && HeaderAt(m, a, x)
    requires forall b :: b in metas ==> Apart(a, H, b, H)
    requires forall p :: p in data ==> Apart(a, H, p, |data[p]|)
    ensures Holds(m, brk, metas[a := x], data)
  {
    FewerHold(m, brk, metas, data, metas - {a}, data);
    HeadersUpdated(m, brk, metas, a, x);
    OverlapHeader(metas, data, a, x);
  }

  // The watched bytes that do not meet lo..hi.
  function Outside(data: map<nat, string>, lo: nat, hi: nat): map<nat, string>
    requires lo <= hi
  {
    map p | p in data && Apart(lo, hi - lo, p, |data[p]|) :: data[p]
  }

  lemma GrowHolds(m: string, brk: nat, brk': nat, metas: map<nat, Meta>, data: map<nat, string>)
    requires Holds(m, brk, metas, data) && brk <= brk' <= |m|
    ensures Holds(m, brk', metas, data)
  {
    forall a | a in metas
      ensures 0 < a && a + H <= brk' && HeaderAt(m, a, metas[a])
    {
      assert HeaderAt(m, a, metas[a]);
    }
    forall p | p in data
      ensures p + |data[p]| <= brk' && Watched(m, p, data[p])
    {
      assert Watched(m, p, data[p]);
    }
  }

  lemma LastUpdateCounts(metas: map<nat, Meta>, a: nat, x: Meta, y: Meta)
    ensures metas[a := x][a := y] == metas[a := y]
  {
  }

  // Writing inside a watched stretch changes what is watched there.
  lemma SpliceWrite(m: string, brk: nat, metas: map<nat, Meta>, data: map<nat, string>, p: nat, offset: nat, s: string)
    requires Holds(m, brk, metas, data) && p in data && offset + |s| <= |data[p]|
    ensures p + offset + |s| <= |m|
    ensures Holds(Splice(m, p + offset, s), brk, metas, data[p := Splice(data[p], offset, s)])
  {
    var whole := Splice(data[p], offset, s);
    assert Watched(m, p, data[p]);
    assert Splice(m, p + offset, s) == Splice(m, p, whole) by {
      forall i | 0 <= i < |m|
        ensures Splice(m, p + offset, s)[i] == Splice(m, p, whole)[i]
      {
        if p <= i < p + |whole| {
          assert m[i] == m[p..p + |data[p]|][i - p];
        }
      }
    }
    assert forall q :: q in data && q != p ==> Apart(p, |data[p]|, q, |data[q]|);
    assert forall a :: a in metas ==> Apart(a, H, p, |data[p]|);
    WritePayload(m, brk, metas, data, p, whole);
  }

  lemma PartialWrite(m: string, brk: nat, metas: map<nat, Meta>, data: map<nat, string>, p: nat, s: string)
    requires Holds(m, brk, metas, data) && p in data && |s| <= |data[p]|
    ensures p + |s| <= |m| && Holds(Splice(m, p, s), brk, metas, data[p := s + data[p][|s|..]])
  {
    SpliceWrite(m, brk, metas, data, p, 0, s);
    assert Splice(data[p], 0, s) == s + data[p][|s|..];
  }
}
