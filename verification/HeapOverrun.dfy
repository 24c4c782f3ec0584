/**
  mm_realloc of `malloc-master/mm_alloc.c` for a request smaller than the block: line 111 copies
  the old size into a block that was asked for less.  What the bytes too many overwrite.
 */
module HeapOverrun {
  import opened Prelude
  import opened CBytes
  import opened HeapMemory
  import opened HeapBlocks
  import opened HeapPayloads

  // The headers that do not meet the len bytes at from.
  function HeadersClear(metas: map<nat, Meta>, from: nat, len: nat): map<nat, Meta> {
    map a | a in metas && Apart(a, H, from, len) :: metas[a]
  }

  // No block of the row has its header there.
  predicate NoHeaderIn(bs: seq<Block>, from: nat, len: nat) {
    forall b :: b in bs ==> Apart(b.addr, H, from, len)
  }

  // Does shrinking block k do no harm?  If the copy lands where it came from, or hits no header.
  predicate ShrinksSafely(bs: seq<Block>, k: nat, brk: nat, size: nat)
    requires k < |bs| && size <= Stored(bs[k])
  {
    var freed := FreedAt(bs, k);
    var dest: nat := Place(freed, brk, size) + H;
    dest == bs[k].addr + H || NoHeaderIn(Allocated(freed, brk, size), dest + size, Stored(bs[k]) - size)
  }

  // Memory after the copy, if `before` is what mm_malloc leaves, apart from the payload: bytes that
  // it has not written at the old place are still those of the payload.
  function AfterCopy(before: string, payload: string, ptr: nat, dest: nat, written: string): (m: string)
    requires ptr + |payload| <= |before| && dest + |payload| <= |before|
    ensures |m| == |before|
  {
    var found := Copied(payload, ptr, dest, written);
    Splice(Splice(before, ptr, found), dest, found)
  }

  // What a shrinking mm_realloc of block k leaves.  Before the copy memory was `before`, with the
  // headers `full` in it; now it is m, the new block's bytes and the ones behind it being what memcpy
  // found at the old place.  Of the headers and watched bytes that it meets nothing is said any more
  // (metas, data); all others stand.
  ghost predicate Shrunk(before: string, full: map<nat, Meta>, m: string, brk': nat, data0: map<nat, string>,
                         bs: seq<Block>, k: nat, brk: nat, size: nat, metas: map<nat, Meta>, data: map<nat, string>)
    requires k < |bs|
  {
    var freed := FreedAt(bs, k);
    var (lo, hi) := (Place(freed, brk, size), PlaceEnd(freed, brk, size));
    var ptr: nat, n: nat, dest: nat := bs[k].addr + H, Stored(bs[k]), lo + H;
    && full.Keys == Addrs(Allocated(freed, brk, size)) && Chained(full, Allocated(freed, brk, size), 0, 0)
    && HeadersHold(before, brk', full)
    && ptr in data0 && size < n <= |data0[ptr]| && lo <= hi && dest + n <= |before| && ptr + n <= |before|
    && |WrittenAt(full, dest, size, hi)| == hi - dest && hi <= |before|
    && before[dest..hi] == WrittenAt(full, dest, size, hi)
    && m == AfterCopy(before, data0[ptr][..n], ptr, dest, WrittenAt(full, dest, size, hi))
    && Overrun(full, Outside(data0, lo, hi), metas, data, dest, size,
               Copied(data0[ptr][..n], ptr, dest, WrittenAt(full, dest, size, hi)), dest == ptr)
  }

  // memcpy has copied len bytes from ptr to dest, and memory was `before` when it began.
  ghost predicate CopiedFrom(before: string, now: string, ptr: nat, len: nat, dest: nat) {
    && |now| == |before| && ptr + len <= |before| && dest + len <= |before|
    && forall i :: 0 <= i < |before| ==>
         now[i] == if dest <= i < dest + len then before[ptr + (i - dest)] else before[i]
  }

  // What a shrinking mm_realloc puts in the new block if mm_malloc has missed the old payload.
  lemma ShrunkKeeps(before: string, full: map<nat, Meta>, m: string, brk': nat, data0: map<nat, string>,
                    bs: seq<Block>, k: nat, brk: nat, size: nat, metas: map<nat, Meta>, data: map<nat, string>)
    requires WellFormed(bs, brk) && k < |bs| && bs[k].Used? && KeepsPayload(bs, k, brk, size)
    requires Shrunk(before, full, m, brk', data0, bs, k, brk, size, metas, data)
    requires |data0[bs[k].addr + H]| == bs[k].extent
    ensures var (dest, p) := (Place(FreedAt(bs, k), brk, size) + H, data0[bs[k].addr + H]);
      size < |p| && dest in data && data[dest] == p[..size]
  {
    hide Place, PlaceEnd, FreedAt, WellFormed, MissesPayload, Outside, Copied, WrittenAt, HeadersClear;
    hide HeadersHold, Chained, Addrs, Allocated, AfterCopy;
    var p, dest, hi := data0[bs[k].addr + H], Place(FreedAt(bs, k), brk, size) + H, PlaceEnd(FreedAt(bs, k), brk, size);
    var written := WrittenAt(full, dest, size, hi);
    StoredPartKeptIff(bs, k, brk, size, written);
    assert p[..|p|] == p == Copied(p, bs[k].addr + H, dest, written);
  }

  // The same for both.
  lemma NewPayload(before: string, full: map<nat, Meta>, m: string, brk': nat, data0: map<nat, string>,
                   bs: seq<Block>, k: nat, brk: nat, size: nat, metas: map<nat, Meta>, data: map<nat, string>)
    requires WellFormed(bs, brk) && k < |bs| && bs[k].Used?
    requires bs[k].addr + H in data0 && |data0[bs[k].addr + H]| == bs[k].extent
    requires if Stored(bs[k]) <= size then Regrown(data0, bs, k, brk, size, metas, data)
             else Shrunk(before, full, m, brk', data0, bs, k, brk, size, metas, data)
    ensures KeepsPayload(bs, k, brk, size) ==>
      var (dest, p, n) := (Place(FreedAt(bs, k), brk, size) + H, data0[bs[k].addr + H], Min(bs[k].extent, size));
      dest in data && data[dest] == p[..n] + Zeros(size - n)
  {
    hide Place, FreedAt, WellFormed, KeepsPayload, Regrown, Shrunk;
    if KeepsPayload(bs, k, brk, size) {
      StoredInFull(bs, k, brk, size);
      if Stored(bs[k]) <= size {
        RegrownKeeps(data0, bs, k, brk, size, metas, data);
      } else {
        ShrunkKeeps(before, full, m, brk', data0, bs, k, brk, size, metas, data);
        assert data0[bs[k].addr + H][..size] + Zeros(0) == data0[bs[k].addr + H][..size];
      }
    }
  }

  // Unless a header is overwritten, every other used block stays, watched as it was.
  lemma NewOthers(before: string, full: map<nat, Meta>, m: string, brk': nat, data0: map<nat, string>,
                  bs: seq<Block>, k: nat, brk: nat, size: nat, metas: map<nat, Meta>, data: map<nat, string>)
    requires WellFormed(bs, brk) && NoTwoFree(bs) && Served(bs, data0) && brk > 0 && size > 0
    requires k < |bs| && bs[k].Used?
    requires if Stored(bs[k]) <= size then Regrown(data0, bs, k, brk, size, metas, data)
             else Shrunk(before, full, m, brk', data0, bs, k, brk, size, metas, data)
    ensures var now := Allocated(FreedAt(bs, k), brk, size);
      && Used(Place(FreedAt(bs, k), brk, size), size) in now
      && (Stored(bs[k]) <= size || ShrinksSafely(bs, k, brk, size) ==>
            forall b :: b in bs && b.Used? && b.addr != bs[k].addr ==>
              b in now && b.addr + H in data && data[b.addr + H] == data0[b.addr + H])
  {
    hide WellFormed, NoTwoFree, FreedAt, Place, PlaceEnd, Allocated, Addrs, Chained, HeadersHold;
    hide Copied, WrittenAt, AfterCopy;
    AllocatedThere(FreedAt(bs, k), brk, size);
    if Stored(bs[k]) <= size || ShrinksSafely(bs, k, brk, size) {
      forall b | b in bs && b.Used? && b.addr != bs[k].addr
        ensures b in Allocated(FreedAt(bs, k), brk, size)
        ensures b.addr + H in data && data[b.addr + H] == data0[b.addr + H]
      {
        MoveSparesOthers(bs, k, brk, size, data0, b);
        if Stored(bs[k]) > size {
          NewApart(bs, k, brk, size, b);
        }
      }
    }
  }

  // What that means for the bytes in memory.
  lemma NewBytes(was: string, metas0: map<nat, Meta>, before: string, full: map<nat, Meta>, now: string, brk': nat,
                 data0: map<nat, string>, bs: seq<Block>, k: nat, brk: nat, size: nat, metas: map<nat, Meta>,
                 data: map<nat, string>)
    requires WellFormed(bs, brk) && NoTwoFree(bs) && Served(bs, data0) && brk > 0 && size > 0
    requires k < |bs| && bs[k].Used? && Holds(was, brk, metas0, data0) && Holds(now, brk', metas, data)
    requires if Stored(bs[k]) <= size then Regrown(data0, bs, k, brk, size, metas, data)
             else Shrunk(before, full, now, brk', data0, bs, k, brk, size, metas, data)
    ensures var (row, lo) := (Allocated(FreedAt(bs, k), brk, size), Place(FreedAt(bs, k), brk, size));
      && Used(lo, size) in row
      && (Stored(bs[k]) <= size || ShrinksSafely(bs, k, brk, size) ==> PayloadsKept(was, now, bs, row, bs[k].addr))
      && (KeepsPayload(bs, k, brk, size) ==> PayloadMoved(was, now, bs[k].addr + H, bs[k].extent, lo + H, size))
  {
    hide Holds, WellFormed, NoTwoFree, Served, Allocated, Place, FreedAt, KeepsPayload, Regrown, Shrunk, ShrinksSafely;
    hide PayloadsKept, PayloadMoved, Watched;
    PayloadWatched(was, brk, metas0, data0, bs, k);
    NewOthers(before, full, now, brk', data0, bs, k, brk, size, metas, data);
    NewPayload(before, full, now, brk', data0, bs, k, brk, size, metas, data);
    if Stored(bs[k]) <= size || ShrinksSafely(bs, k, brk, size) {
      WatchedThroughout(was, brk, metas0, data0, bs, now, brk', metas, data, Allocated(FreedAt(bs, k), brk, size),
                        bs[k].addr);
    }
    if KeepsPayload(bs, k, brk, size) {
      var dest := Place(FreedAt(bs, k), brk, size) + H;
      IsWatched(now, brk', metas, data, dest);
      MovedIfWatched(was, now, bs[k].addr + H, data0[bs[k].addr + H], dest, data[dest]);
    }
  }

  lemma NewApart(bs: seq<Block>, k: nat, brk: nat, size: nat, b: Block)
    requires WellFormed(bs, brk) && brk > 0 && k < |bs| && bs[k].Used?
    requires b in Allocated(FreedAt(bs, k), brk, size) && b.addr != Place(FreedAt(bs, k), brk, size)
    ensures var lo := Place(FreedAt(bs, k), brk, size);
      b.addr + H + Room(b) <= lo || lo + H + size <= b.addr
  {
    var freed := FreedAt(bs, k);
    assert bs == bs[..k] + ([bs[k]] + bs[k + 1..]);
    FreedWellFormed(bs[..k], bs[k], bs[k + 1..], brk);
    AllocatedWellFormed(freed, brk, size);
    AllocatedThere(freed, brk, size);
    ElementsApart(Allocated(freed, brk, size), brk + Demand(freed, size), b, Used(Place(freed, brk, size), size));
  }

  lemma ShrunkNow(before: string, full: map<nat, Meta>, m: string, brk': nat, data0: map<nat, string>,
                  bs: seq<Block>, k: nat, brk: nat, size: nat, metas: map<nat, Meta>, data: map<nat, string>,
                  ptr: nat, n: nat, dest: nat, hi: nat, found: string)
    requires H <= dest <= hi && Moves(bs, k, brk, size, ptr, n, dest - H, hi)
    requires full.Keys == Addrs(Allocated(FreedAt(bs, k), brk, size))
    requires Chained(full, Allocated(FreedAt(bs, k), brk, size), 0, 0) && HeadersHold(before, brk', full)
    requires ptr in data0 && size < n <= |data0[ptr]| && dest + n <= |before| && ptr + n <= |before|
    requires |WrittenAt(full, dest, size, hi)| == hi - dest && hi <= |before|
    requires before[dest..hi] == WrittenAt(full, dest, size, hi)
    requires found == Copied(data0[ptr][..n], ptr, dest, WrittenAt(full, dest, size, hi)) == before[ptr..ptr + n]
    requires m == Splice(before, dest, found)
    requires Overrun(full, Outside(data0, dest - H, hi), metas, data, dest, size, found, dest == ptr)
    ensures Shrunk(before, full, m, brk', data0, bs, k, brk, size, metas, data)
  {
    hide Place, PlaceEnd, FreedAt, Allocated, Chained, Addrs, HeadersHold, Overrun, Outside, Copied, WrittenAt, Splice;
    SpliceSame(before, ptr, n);
  }

  // What is known after s was written at dest, where size bytes are watched; nothing is lost if the
  // bytes were there already.
  function KeptMetas(metas: map<nat, Meta>, dest: nat, size: nat, s: string, same: bool): map<nat, Meta>
    requires size <= |s|
  {
    if same then metas else HeadersClear(metas, dest + size, |s| - size)
  }

  function KeptData(others: map<nat, string>, dest: nat, size: nat, s: string, same: bool): map<nat, string>
    requires size <= |s|
  {
    (if same then others else Outside(others, dest, dest + |s|))[dest := s[..size]]
  }

  ghost predicate Overrun(metas: map<nat, Meta>, others: map<nat, string>, metas': map<nat, Meta>,
                          data': map<nat, string>, dest: nat, size: nat, s: string, same: bool)
  {
    size <= |s| && metas' == KeptMetas(metas, dest, size, s, same) && data' == KeptData(others, dest, size, s, same)
  }

  // Writing more bytes at dest than are watched there.
  lemma OverrunHolds(m: string, brk: nat, metas: map<nat, Meta>, others: map<nat, string>, dest: nat, size: nat,
                     s: string)
    requires Holds(m, brk, metas, others[dest := Zeros(size)]) && size <= |s| && dest + |s| <= |m|
    ensures Holds(Splice(m, dest, s), brk, HeadersClear(metas, dest + size, |s| - size),
                  Outside(others, dest, dest + |s|)[dest := s[..size]])
  {
    var data := others[dest := Zeros(size)];
    var metas', kept := HeadersClear(metas, dest + size, |s| - size), Outside(others, dest, dest + |s|) - {dest};
    var m' := Splice(m, dest, s);
    FewerHold(m, brk, metas, data, metas', kept);
    forall a | a in metas'
      ensures Apart(dest, |s|, a, H) && Apart(a, H, dest, size)
    {
      assert Apart(a, H, dest, |data[dest]|);
    }
    HeadersKept(m, brk, metas', dest, s);
    forall p | p in kept
      ensures Apart(dest, |s|, p, |kept[p]|) && Apart(dest, size, p, |kept[p]|)
    {
      assert Apart(p, |data[p]|, dest, |data[dest]|);
    }
    DataKept(m, brk, kept, dest, s);
    SplicedAt(m, dest, s, size);
    assert kept - {dest} == kept;
    assert Watched(m, dest, data[dest]);
    DataUpdated(m', brk, kept, dest, s[..size]);
    OverlapData(metas', kept, dest, s[..size]);
    assert Outside(others, dest, dest + |s|)[dest := s[..size]] == kept[dest := s[..size]];
  }

  lemma WrittenOver(m: string, brk: nat, metas: map<nat, Meta>, others: map<nat, string>, dest: nat, size: nat,
                    s: string, same: bool)
    requires Holds(m, brk, metas, others[dest := Zeros(size)]) && size <= |s| && dest + |s| <= |m|
    requires same ==> s == m[dest..dest + |s|]
    ensures Splice(m, dest, s)[dest..dest + |s|] == s
    ensures Holds(Splice(m, dest, s), brk, KeptMetas(metas, dest, size, s, same), KeptData(others, dest, size, s, same))
  {
    SplicedAt(m, dest, s, size);
    if same {
      var data := others[dest := Zeros(size)];
      SpliceSame(m, dest, |s|);
      assert Watched(m, dest, data[dest]);
      assert s[..size] == m[dest..dest + size];
      assert others[dest := s[..size]] == data;
    } else {
      OverrunHolds(m, brk, metas, others, dest, size, s);
    }
  }

  lemma SplicedAt(m: string, dest: nat, s: string, size: nat)
    requires dest + |s| <= |m| && size <= |s|
    ensures Splice(m, dest, s)[dest..dest + |s|] == s && Splice(m, dest, s)[dest..dest + size] == s[..size]
  {
  }

  // Writing the bytes that are there.
  lemma SpliceSame(m: string, dest: nat, n: nat)
    requires dest + n <= |m|
    ensures Splice(m, dest, m[dest..dest + n]) == m
  {
  }

  // ---------- When no header is hit ----------

  // Then every block is still served.
  lemma OverrunServes(bs: seq<Block>, brk: nat, others: map<nat, string>, dest: nat, size: nat, s: string)
    requires WellFormed(bs, brk) && dest >= H && Used(dest - H, size) in bs && size <= |s|
    requires Served(bs, others[dest := Zeros(size)]) && NoHeaderIn(bs, dest + size, |s| - size)
    ensures Served(bs, Outside(others, dest, dest + |s|)[dest := s[..size]])
  {
    forall b | b in bs && b.Used?
      ensures b == Used(dest - H, size)
        || (b.addr + H != dest && Apart(dest, |s|, b.addr + H, b.extent))
    {
      if b != Used(dest - H, size) {
        ElementsApart(bs, brk, b, Used(dest - H, size));
      }
    }
  }

  lemma HeadersAllClear(metas: map<nat, Meta>, bs: seq<Block>, from: nat, len: nat)
    requires metas.Keys == Addrs(bs)
    ensures HeadersClear(metas, from, len).Keys == metas.Keys <==> NoHeaderIn(bs, from, len)
    ensures NoHeaderIn(bs, from, len) ==> HeadersClear(metas, from, len) == metas
  {
    AddrsHold(bs);
    if NoHeaderIn(bs, from, len) {
      forall a | a in metas
        ensures Apart(a, H, from, len)
      {
        var b := BlockOf(bs, a);
      }
    }
    if HeadersClear(metas, from, len).Keys == metas.Keys {
      forall b | b in bs
        ensures Apart(b.addr, H, from, len)
      {
        assert b.addr in metas;
        assert b.addr in HeadersClear(metas, from, len).Keys;
      }
    }
  }

  lemma {:induction false} BlockOf(bs: seq<Block>, a: nat) returns (b: Block)
    requires a in Addrs(bs)
    ensures b in bs && b.addr == a
  {
    if a == bs[0].addr {
      b := bs[0];
    } else {
      b := BlockOf(bs[1..], a);
    }
  }

  // No header lost, nothing lost.
  lemma OverrunLeaves(full: map<nat, Meta>, bs: seq<Block>, brk: nat, others: map<nat, string>, metas: map<nat, Meta>,
                      data: map<nat, string>, dest: nat, size: nat, s: string, same: bool)
    requires WellFormed(bs, brk) && full.Keys == Addrs(bs) && dest >= H && Used(dest - H, size) in bs
    requires Served(bs, others[dest := Zeros(size)]) && Overrun(full, others, metas, data, dest, size, s, same)
    ensures same || NoHeaderIn(bs, dest + size, |s| - size) ==> metas == full && Served(bs, data)
  {
    HeadersAllClear(full, bs, dest + size, |s| - size);
    if same {
      ServedSameLength(bs, others[dest := Zeros(size)], dest, s[..size]);
      assert others[dest := Zeros(size)][dest := s[..size]] == others[dest := s[..size]];
    } else if NoHeaderIn(bs, dest + size, |s| - size) {
      OverrunServes(bs, brk, others, dest, size, s);
    }
  }

  // ---------- Exactly when the headers stand ----------

  // Only the header split off can lie in the old payload.
  lemma HeaderOutside(bs: seq<Block>, k: nat, brk: nat, size: nat, a: nat)
    requires WellFormed(bs, brk) && k < |bs| && bs[k].Used? && a in Addrs(Allocated(FreedAt(bs, k), brk, size))
    ensures var (lo, hi, ptr) := (Place(FreedAt(bs, k), brk, size), PlaceEnd(FreedAt(bs, k), brk, size),
      bs[k].addr + H);
      Apart(a, H, ptr, bs[k].extent) || (lo + H <= ptr && a == lo + H + size && hi == a + H)
  {
    var freed := FreedAt(bs, k);
    AllocatedAddrs(freed, brk, size, a);
    if a in Addrs(freed) || a == brk {
      if a in Addrs(freed) {
        PartsAddrs(bs[..k], bs[k], bs[k + 1..], a);
      }
      assert bs == bs[..k] + ([bs[k]] + bs[k + 1..]);
      ThreeParts(bs[..k], bs[k], bs[k + 1..], brk);
    } else {
      JoinedBelow(bs, k, brk);
      if Place(freed, brk, size) != Joined(bs, k) {
        FreedBytesMissed(bs, k, brk, size);
      }
    }
  }

  lemma {:induction false} AllocatedAddrs(bs: seq<Block>, brk: nat, size: nat, a: nat)
    requires a in Addrs(Allocated(bs, brk, size))
    ensures var end := Place(bs, brk, size) + H + size;
      a in Addrs(bs) || a == brk || (a == end && PlaceEnd(bs, brk, size) == end + H)
  {
    if bs != [] {
      if Takes(bs[0], bs[1..], size) {
        AddrsConcat(Carve(bs[0], bs[1..], size), bs[1..]);
        assert Carve(bs[0], bs[1..], size)[1..] == []
          || Carve(bs[0], bs[1..], size)[1..][1..] == [];
      } else {
        AddrsConcat([bs[0]], Allocated(bs[1..], brk, size));
        if a != bs[0].addr {
          AllocatedAddrs(bs[1..], brk, size, a);
        }
      }
    }
  }

  lemma PartsAddrs(pre: seq<Block>, b: Block, post: seq<Block>, a: nat)
    requires a in Addrs(Freed(pre, b, post))
    ensures a in Addrs(pre) || a == b.addr || a in Addrs(post)
  {
    var (pre', b') := JoinedBefore(pre, b);
    var (b'', post') := JoinedBehind(b', post);
    BeforeAddrs(pre, b, a);
    BehindAddrs(b', post, a);
    hide JoinedBefore, JoinedBehind;
    AddrsConcat(pre', [b''] + post');
    AddrsConcat([b''], post');
  }

  lemma BeforeAddrs(pre: seq<Block>, b: Block, a: nat)
    ensures a in Addrs(JoinedBefore(pre, b).0) || a == JoinedBefore(pre, b).1.addr ==> a in Addrs(pre) || a == b.addr
  {
    if EndsFree(pre) {
      var init, p := pre[..|pre| - 1], pre[|pre| - 1];
      assert pre == init + [p];
      AddrsConcat(init, [p]);
    }
  }

  lemma BehindAddrs(b: Block, post: seq<Block>, a: nat)
    ensures JoinedBehind(b, post).0.addr == b.addr
    ensures a in Addrs(JoinedBehind(b, post).1) ==> a in Addrs(post)
  {
  }

  // The bytes copied too many are the payload's own.
  lemma ExcessIsPayload(bs: seq<Block>, k: nat, brk: nat, size: nat, payload: string, written: string, i: nat)
    requires WellFormed(bs, brk) && k < |bs| && bs[k].Used? && size <= i < |payload| == Stored(bs[k])
    requires var freed := FreedAt(bs, k); Place(freed, brk, size) + H + |written| == PlaceEnd(freed, brk, size)
    requires Place(FreedAt(bs, k), brk, size) != bs[k].addr
    ensures var dest: nat := Place(FreedAt(bs, k), brk, size) + H;
      Copied(payload, bs[k].addr + H, dest, written)[i] == payload[i]
  {
    SplitThere(FreedAt(bs, k), brk, size);
    if Place(FreedAt(bs, k), brk, size) != Joined(bs, k) {
      FreedBytesMissed(bs, k, brk, size);
    } else {
      JoinedFarBelow(bs, k, brk);
    }
  }

  lemma JoinedFarBelow(bs: seq<Block>, k: nat, brk: nat)
    requires WellFormed(bs, brk) && k < |bs| && bs[k].Used?
    ensures Joined(bs, k) == bs[k].addr || Joined(bs, k) + H <= bs[k].addr
  {
    var pre := bs[..k];
    assert bs == pre + ([bs[k]] + bs[k + 1..]);
    ThreeParts(pre, bs[k], bs[k + 1..], brk);
    if EndsFree(pre) {
      AddrsHold(pre);
      assert pre[|pre| - 1] in pre;
    }
  }

  // With the payload put back, all headers still stand: what mm_malloc wrote is not put back.
  lemma PayloadPutBack(before: string, end: nat, full: map<nat, Meta>, bs: seq<Block>, k: nat, brk: nat, size: nat,
                       payload: string, written: string)
    requires WellFormed(bs, brk) && k < |bs| && bs[k].Used? && |payload| == Stored(bs[k])
    requires var (lo, hi) := (Place(FreedAt(bs, k), brk, size), PlaceEnd(FreedAt(bs, k), brk, size));
      && lo + H + |written| == hi <= |before| && before[lo + H..hi] == written
    requires bs[k].addr + H + |payload| <= |before|
    requires HeadersHold(before, end, full) && full.Keys == Addrs(Allocated(FreedAt(bs, k), brk, size))
    ensures var dest: nat := Place(FreedAt(bs, k), brk, size) + H;
      HeadersHold(Splice(before, bs[k].addr + H, Copied(payload, bs[k].addr + H, dest, written)), end, full)
  {
    hide Place, PlaceEnd, FreedAt, Allocated, WellFormed, Addrs, HeaderAt, Stored;
    assert |payload| <= bs[k].extent by {
      StoredIsPart(bs[k]);
    }
    var dest: nat, hi := Place(FreedAt(bs, k), brk, size) + H, PlaceEnd(FreedAt(bs, k), brk, size);
    var ptr: nat := bs[k].addr + H;
    var found := Copied(payload, ptr, dest, written);
    var m := Splice(before, ptr, found);
    forall a | a in full
      ensures 0 < a && a + H <= end && HeaderAt(m, a, full[a])
    {
      assert HeaderAt(before, a, full[a]);
      HeaderOutside(bs, k, brk, size, a);
      if Apart(a, H, ptr, bs[k].extent) {
        HeaderKept(before, a, full[a], ptr, found);
      } else {
        SameHeader(before, m, a, full[a], ptr, dest, hi, payload, written);
      }
    }
  }

  lemma StoredIsPart(b: Block)
    ensures b.Used? ==> Stored(b) <= b.extent
  {
  }

  lemma SameHeader(before: string, m: string, a: nat, x: Meta, ptr: nat, dest: nat, hi: nat, payload: string,
                   written: string)
    requires HeaderAt(before, a, x) && dest <= a && a + H == hi <= |before| && dest + |written| == hi
    requires before[dest..hi] == written && ptr + |payload| <= |before|
    requires m == Splice(before, ptr, Copied(payload, ptr, dest, written))
    ensures HeaderAt(m, a, x)
  {
    assert forall j :: dest <= j < hi ==> before[j] == written[j - dest] by {
      assert forall j :: dest <= j < hi ==> before[j] == before[dest..hi][j - dest];
    }
    hide HeaderAt;
    assert m[a..a + H] == before[a..a + H];
    HeaderSame(before, m, a, x);
  }

  // Whatever the payload is, all headers stand in memory after the copy, exactly if the copy lands
  // where it came from or meets no header.
  lemma HeadersStandIff(before: string, end: nat, full: map<nat, Meta>, bs: seq<Block>, k: nat, brk: nat, size: nat,
                        written: string)
    requires WellFormed(bs, brk) && brk > 0 && k < |bs| && bs[k].Used? && 0 < size < Stored(bs[k])
    requires var (lo, hi) := (Place(FreedAt(bs, k), brk, size), PlaceEnd(FreedAt(bs, k), brk, size));
      && lo + H + |written| == hi <= |before| && before[lo + H..hi] == written
      && lo + H + Stored(bs[k]) <= |before|
    requires bs[k].addr + H + Stored(bs[k]) <= |before|
    requires HeadersHold(before, end, full) && full.Keys == Addrs(Allocated(FreedAt(bs, k), brk, size))
    ensures var dest: nat, ptr: nat := Place(FreedAt(bs, k), brk, size) + H, bs[k].addr + H;
      (forall payload: string {:trigger AfterCopy(before, payload, ptr, dest, written)} ::
         |payload| == Stored(bs[k]) ==> HeadersHold(AfterCopy(before, payload, ptr, dest, written), end, full))
      <==> ShrinksSafely(bs, k, brk, size)
  {
    hide Place, PlaceEnd, FreedAt, Allocated, WellFormed, Addrs, HeadersHold, AfterCopy, ShrinksSafely, Copied, Stored;
    var dest: nat, ptr: nat, n := Place(FreedAt(bs, k), brk, size) + H, bs[k].addr + H, Stored(bs[k]);
    if ShrinksSafely(bs, k, brk, size) {
      forall payload: string | |payload| == n
        ensures HeadersHold(AfterCopy(before, payload, ptr, dest, written), end, full)
      {
        PayloadPutBack(before, end, full, bs, k, brk, size, payload, written);
        SafeCopyKeeps(before, end, full, bs, k, brk, size, payload, written);
      }
    } else {
      var payload := Spoiler(before, end, full, bs, k, brk, size, written);
    }
  }

  lemma SafeCopyKeeps(before: string, end: nat, full: map<nat, Meta>, bs: seq<Block>, k: nat, brk: nat, size: nat,
                      payload: string, written: string)
    requires WellFormed(bs, brk) && brk > 0 && k < |bs| && bs[k].Used? && 0 < size < |payload| == Stored(bs[k])
    requires ShrinksSafely(bs, k, brk, size) && full.Keys == Addrs(Allocated(FreedAt(bs, k), brk, size))
    requires bs[k].addr + H + |payload| <= |before| && Place(FreedAt(bs, k), brk, size) + H + |payload| <= |before|
    requires var dest: nat := Place(FreedAt(bs, k), brk, size) + H;
      HeadersHold(Splice(before, bs[k].addr + H, Copied(payload, bs[k].addr + H, dest, written)), end, full)
    ensures var dest: nat := Place(FreedAt(bs, k), brk, size) + H;
      HeadersHold(AfterCopy(before, payload, bs[k].addr + H, dest, written), end, full)
  {
    var dest: nat, ptr: nat := Place(FreedAt(bs, k), brk, size) + H, bs[k].addr + H;
    var found := Copied(payload, ptr, dest, written);
    var m := Splice(before, ptr, found);
    if dest == ptr {
      assert Splice(m, ptr, found) == m;
    } else {
      forall a | a in full
        ensures Apart(dest, |found|, a, H)
      {
        ClearOfCopy(bs, k, brk, size, a);
      }
      HeadersKept(m, end, full, dest, found);
    }
  }

  // No header lies in the new block's payload, so one that the excess misses is missed altogether.
  lemma ClearOfCopy(bs: seq<Block>, k: nat, brk: nat, size: nat, a: nat)
    requires WellFormed(bs, brk) && brk > 0 && k < |bs| && bs[k].Used? && 0 < size < Stored(bs[k])
    requires a in Addrs(Allocated(FreedAt(bs, k), brk, size))
    requires var freed := FreedAt(bs, k);
      NoHeaderIn(Allocated(freed, brk, size), Place(freed, brk, size) + H + size, Stored(bs[k]) - size)
    ensures Apart(Place(FreedAt(bs, k), brk, size) + H, Stored(bs[k]), a, H)
  {
    var freed := FreedAt(bs, k);
    assert bs == bs[..k] + ([bs[k]] + bs[k + 1..]);
    FreedWellFormed(bs[..k], bs[k], bs[k + 1..], brk);
    AllocatedWellFormed(freed, brk, size);
    AllocatedThere(freed, brk, size);
    var b := BlockOf(Allocated(freed, brk, size), a);
    if b != Used(Place(freed, brk, size), size) {
      ElementsApart(Allocated(freed, brk, size), brk + Demand(freed, size), b, Used(Place(freed, brk, size), size));
    }
  }

  lemma ElementsApart(bs: seq<Block>, brk: nat, b: Block, c: Block)
    requires WellFormed(bs, brk) && b in bs && c in bs && b != c
    ensures b.addr + H + Room(b) <= c.addr || c.addr + H + Room(c) <= b.addr
  {
    var i, j :| 0 <= i < |bs| && 0 <= j < |bs| && bs[i] == b && bs[j] == c;
    if i < j {
      BlocksApart(bs, brk, i, j);
    } else {
      BlocksApart(bs, brk, j, i);
    }
  }

  lemma HeaderHit(bs: seq<Block>, k: nat, brk: nat, size: nat) returns (b: Block)
    requires k < |bs| && size <= Stored(bs[k]) && !ShrinksSafely(bs, k, brk, size)
    ensures var (row, dest) := (Allocated(FreedAt(bs, k), brk, size), Place(FreedAt(bs, k), brk, size) + H);
      && b in row && b.addr in Addrs(row) && !Apart(b.addr, H, dest + size, Stored(bs[k]) - size)
      && dest != bs[k].addr + H
  {
    hide Allocated, FreedAt, Place, Addrs, Stored;
    var row, dest := Allocated(FreedAt(bs, k), brk, size), Place(FreedAt(bs, k), brk, size) + H;
    b :| b in row && !Apart(b.addr, H, dest + size, Stored(bs[k]) - size);
    AddrsHold(row);
  }

  // A payload that makes a header that is hit another one.
  lemma Spoiler(before: string, end: nat, full: map<nat, Meta>, bs: seq<Block>, k: nat, brk: nat, size: nat,
                written: string) returns (payload: string)
    requires WellFormed(bs, brk) && k < |bs| && bs[k].Used? && 0 < size < Stored(bs[k])
    requires !ShrinksSafely(bs, k, brk, size) && full.Keys == Addrs(Allocated(FreedAt(bs, k), brk, size))
    requires var freed := FreedAt(bs, k); Place(freed, brk, size) + H + |written| == PlaceEnd(freed, brk, size)
    requires bs[k].addr + H + Stored(bs[k]) <= |before|
    requires Place(FreedAt(bs, k), brk, size) + H + Stored(bs[k]) <= |before|
    ensures |payload| == Stored(bs[k])
    ensures var dest: nat := Place(FreedAt(bs, k), brk, size) + H;
      !HeadersHold(AfterCopy(before, payload, bs[k].addr + H, dest, written), end, full)
  {
    hide Place, PlaceEnd, FreedAt, Allocated, WellFormed, Addrs, Copied, AfterCopy, HeadersHold, HeaderText, Stored;
    hide ShrinksSafely, NoHeaderIn;
    var dest: nat, ptr: nat, n := Place(FreedAt(bs, k), brk, size) + H, bs[k].addr + H, Stored(bs[k]);
    var b := HeaderHit(bs, k, brk, size);
    var x := if b.addr < dest + size then dest + size else b.addr;
    var was := HeaderText(full[b.addr])[x - b.addr];
    payload := seq(n, i => if was == 'x' then 'y' else 'x');
    ExcessIsPayload(bs, k, brk, size, payload, written, x - dest);
    ByteCopied(before, payload, ptr, dest, written, x);
    if HeadersHold(AfterCopy(before, payload, ptr, dest, written), end, full) {
      HeaderByte(AfterCopy(before, payload, ptr, dest, written), end, full, b.addr, x);
    }
  }

  lemma ByteCopied(before: string, payload: string, ptr: nat, dest: nat, written: string, x: nat)
    requires ptr + |payload| <= |before| && dest + |payload| <= |before| && dest <= x < dest + |payload|
    ensures AfterCopy(before, payload, ptr, dest, written)[x] == Copied(payload, ptr, dest, written)[x - dest]
  {
  }

  lemma HeaderByte(m: string, end: nat, full: map<nat, Meta>, a: nat, x: nat)
    requires a in full && a <= x < a + H && HeadersHold(m, end, full)
    ensures x < |m| && m[x] == HeaderText(full[a])[x - a]
  {
    assert HeaderAt(m, a, full[a]);
    HeaderBytes(m, a, full[a]);
    assert m[a..a + H][x - a] == m[x];
  }

  // ---------- Where the copy ends ----------

  // As long as the joined block's size is not cut to fewer bytes than are asked for, the walk stops
  // there at the latest, and the copy stays below the break.
  lemma ShrinkStaysInside(bs: seq<Block>, k: nat, brk: nat, size: nat)
    requires WellFormed(bs, brk) && k < |bs| && bs[k].Used? && size < Stored(bs[k])
    requires JoinedBehind(JoinedBefore(bs[..k], bs[k]).1, bs[k + 1..]).0.size >= size
    ensures Place(FreedAt(bs, k), brk, size) + H + Stored(bs[k]) <= brk
  {
    var pre, b, post := bs[..k], bs[k], bs[k + 1..];
    assert bs == pre + ([b] + post);
    var (pre', b') := JoinedBefore(pre, b);
    var (b'', post') := JoinedBehind(b', post);
    FreedWellFormed(pre, b, post, brk);
    PlaceAtMost(pre', b'', post', brk, size);
    JoinedBelow(bs, k, brk);
    ThreeParts(pre, b, post, brk);
  }

  lemma {:induction false} PlaceAtMost(pre: seq<Block>, b: Block, post: seq<Block>, brk: nat, size: nat)
    requires b.Free? && b.size >= size && WellFormed(pre + ([b] + post), brk)
    ensures Place(pre + ([b] + post), brk, size) <= b.addr
    decreases |pre|
  {
    var bs := pre + ([b] + post);
    if pre != [] {
      assert bs[0] == pre[0] && bs[1..] == pre[1..] + ([b] + post);
      FirstBelow(pre, b, post, brk);
      PlaceAtMost(pre[1..], b, post, brk, size);
    }
  }
}
