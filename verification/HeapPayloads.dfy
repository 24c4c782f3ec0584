/**
  Who relies on which bytes of the heap of `malloc-master/mm_alloc.c`: payloads of used blocks,
  and what mm_malloc, mm_free and mm_realloc do to them.
 */
module HeapPayloads {
  import opened Prelude
  import opened CBytes
  import opened HeapMemory
  import opened HeapBlocks

  // Every used block's payload is watched.
  ghost predicate Served(bs: seq<Block>, data: map<nat, string>) {
    forall b :: b in bs && b.Used? ==> b.addr + H in data && |data[b.addr + H]| == b.extent
  }

  lemma ServedConcat(a: seq<Block>, b: seq<Block>, data: map<nat, string>)
    ensures Served(a + b, data) <==> Served(a, data) && Served(b, data)
  {
    assert forall x :: x in a || x in b ==> x in a + b;
  }

  // Nobody loses a watched payload to an allocation, and the new block is served.
  lemma ServedAfter(bs: seq<Block>, brk: nat, size: nat, data: map<nat, string>)
    requires WellFormed(bs, brk) && Served(bs, data) && size > 0
    ensures Place(bs, brk, size) <= PlaceEnd(bs, brk, size)
    ensures var kept := Outside(data, Place(bs, brk, size), PlaceEnd(bs, brk, size));
      Served(Allocated(bs, brk, size), kept[Place(bs, brk, size) + H := Zeros(size)])
  {
    PlaceBounds(bs, brk, size);
    AllocatedAddsOne(bs, brk, size);
    var kept := Outside(data, Place(bs, brk, size), PlaceEnd(bs, brk, size));
    forall b | b in Allocated(bs, brk, size) && b.Used?
      ensures b == Used(Place(bs, brk, size), size)
        || (b.addr + H in kept && |kept[b.addr + H]| == b.extent && b.addr != Place(bs, brk, size))
    {
      assert b in UsedBlocks(Allocated(bs, brk, size));
      if b != Used(Place(bs, brk, size), size) {
        assert b in UsedBlocks(bs);
        PlaceApart(bs, brk, size, b);
      }
    }
  }

  lemma AllocationKeeps(bs: seq<Block>, brk: nat, data: map<nat, string>, size: nat)
    requires WellFormed(bs, brk) && NoTwoFree(bs) && Served(bs, data) && size > 0 && brk > 0
    ensures var bs' := Allocated(bs, brk, size);
      && WellFormed(bs', brk + Demand(bs, size)) && NoTwoFree(bs') && bs' != [] && bs'[0].addr == First(bs, brk)
      && Place(bs, brk, size) <= PlaceEnd(bs, brk, size)
      && Served(bs', Outside(data, Place(bs, brk, size), PlaceEnd(bs, brk, size))
                       [Place(bs, brk, size) + H := Zeros(size)])
  {
    AllocatedWellFormed(bs, brk, size);
    AllocatedNoTwoFree(bs, brk, size);
    ServedAfter(bs, brk, size, data);
  }

  lemma ServedSameLength(bs: seq<Block>, data: map<nat, string>, p: nat, s: string)
    requires Served(bs, data) && p in data && |s| == |data[p]|
    ensures Served(bs, data[p := s])
  {
  }

  // An allocation changes no byte of any live payload and hands out zeros.
  lemma AllocationSparesOthers(bs: seq<Block>, brk: nat, size: nat, data: map<nat, string>, b: Block)
    requires WellFormed(bs, brk) && Served(bs, data) && size > 0 && b in bs && b.Used?
    ensures var (lo, hi, ptr) := (Place(bs, brk, size), PlaceEnd(bs, brk, size), Place(bs, brk, size) + H);
      lo <= hi &&
      var data' := Outside(data, lo, hi)[ptr := Zeros(size)];
      && b.addr + H in data' && data'[b.addr + H] == data[b.addr + H]
      && b in Allocated(bs, brk, size) && Used(lo, size) in Allocated(bs, brk, size) && data'[ptr] == Zeros(size)
  {
    PlaceBounds(bs, brk, size);
    PlaceApart(bs, brk, size, b);
    AllocatedAddsOne(bs, brk, size);
    assert b in UsedBlocks(bs);
    assert b in UsedBlocks(Allocated(bs, brk, size))
      && Used(Place(bs, brk, size), size) in UsedBlocks(Allocated(bs, brk, size));
  }

  // Freeing block k joins it to a free block before it while the block behind is in use.
  predicate LosesBackLink(bs: seq<Block>, k: nat)
    requires k < |bs|
  {
    k > 0 && bs[k - 1].Free? && k + 1 < |bs| && bs[k + 1].Used?
  }

  lemma FreedKeeps(pre: seq<Block>, b: Block, post: seq<Block>, brk: nat, data: map<nat, string>)
    requires b.Used? && WellFormed(pre + ([b] + post), brk) && NoTwoFree(pre + ([b] + post))
      && Served(pre + ([b] + post), data)
    ensures var bs := Freed(pre, b, post);
      && WellFormed(bs, brk) && NoTwoFree(bs) && Served(bs, data) && bs != []
      && bs[0].addr == First(pre + ([b] + post), 0)
  {
    FreedWellFormed(pre, b, post, brk);
    FreedNoTwoFree(pre, b, post);
    FreedRemovesOne(pre, b, post);
    ServedConcat(pre, [b] + post, data);
    ServedConcat([b], post, data);
    forall x | x in Freed(pre, b, post) && x.Used?
      ensures x.addr + H in data && |data[x.addr + H]| == x.extent
    {
      assert x in UsedBlocks(Freed(pre, b, post));
    }
  }

  function FreedAt(bs: seq<Block>, k: nat): seq<Block>
    requires k < |bs|
  {
    Freed(bs[..k], bs[k], bs[k + 1..])
  }

  // After freeing block k and allocating, every other used block is there, watched as it was.
  lemma MoveSparesOthers(bs: seq<Block>, k: nat, brk: nat, size: nat, data: map<nat, string>, b: Block)
    requires WellFormed(bs, brk) && NoTwoFree(bs) && Served(bs, data) && size > 0
    requires k < |bs| && bs[k].Used? && b in bs && b.Used? && b.addr != bs[k].addr
    ensures var freed := FreedAt(bs, k); var (lo, hi) := (Place(freed, brk, size), PlaceEnd(freed, brk, size));
      && lo <= hi && b in Allocated(freed, brk, size) && b.addr != lo
      && b.addr + H in Outside(data, lo, hi) && |data[b.addr + H]| == b.extent
  {
    var pre, c, post := bs[..k], bs[k], bs[k + 1..];
    assert bs == pre + ([c] + post);
    FreedKeeps(pre, c, post, brk, data);
    FreedRemovesOne(pre, c, post);
    assert b in UsedBlocks(pre) + UsedBlocks(post);
    assert b in UsedBlocks(FreedAt(bs, k));
    AllocationSparesOthers(FreedAt(bs, k), brk, size, data, b);
    PlaceApart(FreedAt(bs, k), brk, size, b);
    PlaceBounds(FreedAt(bs, k), brk, size);
  }

  // The block that takes in block k when it is freed.
  function Joined(bs: seq<Block>, k: nat): nat
    requires k < |bs|
  {
    JoinedBefore(bs[..k], bs[k]).1.addr
  }

  lemma BlockAt(metas: map<nat, Meta>, bs: seq<Block>, k: nat, end: nat)
    requires Chained(metas, bs, 0, 0) && WellFormed(bs, end) && k < |bs|
    ensures bs[k].addr in metas && metas[bs[k].addr].size == Stored(bs[k])
    ensures bs[k].addr + H + Room(bs[k]) <= end
  {
    assert bs == bs[..k] + ([bs[k]] + bs[k + 1..]);
    MetaInside(metas, bs[..k], bs[k], bs[k + 1..]);
    ThreeParts(bs[..k], bs[k], bs[k + 1..], end);
  }

  // Unless mm_malloc takes the joined block, it keeps off the bytes just freed.
  lemma FreedBytesMissed(bs: seq<Block>, k: nat, brk: nat, size: nat)
    requires WellFormed(bs, brk) && k < |bs| && bs[k].Used? && Place(FreedAt(bs, k), brk, size) != Joined(bs, k)
    ensures var (lo, hi) := (Place(FreedAt(bs, k), brk, size), PlaceEnd(FreedAt(bs, k), brk, size));
      lo <= hi && Apart(lo, hi - lo, bs[k].addr + H, bs[k].extent) && (size > 0 ==> lo != bs[k].addr)
  {
    var pre, b, post := bs[..k], bs[k], bs[k + 1..];
    assert bs == pre + ([b] + post);
    var (pre', b') := JoinedBefore(pre, b);
    var (b'', post') := JoinedBehind(b', post);
    FreedWellFormed(pre, b, post, brk);
    ThreeParts(pre, b, post, brk);
    JoinedBeforeMoves(pre, b, post, brk);
    if StartsFree(post) {
      CutLayout(pre, [b] + post, brk);
      CutLayout([b], post, brk);
    }
    OtherPlaceApart(pre', b'', post', brk, size, b.addr + H, b.extent);
    PlaceBounds(FreedAt(bs, k), brk, size);
  }

  // The used blocks that are left are not the one that was freed.
  lemma FreedElsewhere(bs: seq<Block>, k: nat, brk: nat, b: Block)
    requires WellFormed(bs, brk) && k < |bs| && bs[k].Used? && b in FreedAt(bs, k) && b.Used?
    ensures b in bs && b.addr != bs[k].addr
  {
    var pre, post := bs[..k], bs[k + 1..];
    assert bs == pre + ([bs[k]] + post);
    FreedRemovesOne(pre, bs[k], post);
    assert b in UsedBlocks(FreedAt(bs, k));
    ThreeParts(pre, bs[k], post, brk);
    AddrsHold(pre);
    AddrsHold(post);
  }

  lemma AddrsHold(bs: seq<Block>)
    ensures forall b :: b in bs ==> b.addr in Addrs(bs)
  {
  }

  lemma IsWatched(m: string, brk: nat, metas: map<nat, Meta>, data: map<nat, string>, p: nat)
    requires Holds(m, brk, metas, data) && p in data
    ensures Watched(m, p, data[p]) && p + |data[p]| <= |m|
  {
  }

  lemma PayloadWatched(m: string, brk: nat, metas: map<nat, Meta>, data: map<nat, string>, bs: seq<Block>, k: nat)
    requires Holds(m, brk, metas, data) && Served(bs, data) && k < |bs| && bs[k].Used?
    ensures bs[k].addr + H in data && |data[bs[k].addr + H]| == bs[k].extent
    ensures Watched(m, bs[k].addr + H, data[bs[k].addr + H]) && bs[k].addr + H + bs[k].extent <= |m|
  {
    assert bs[k] in bs;
    IsWatched(m, brk, metas, data, bs[k].addr + H);
  }

  // Every used block of bs0 but the one at `but` is one of bs, and its bytes in memory are the same.
  ghost predicate PayloadsKept(was: string, now: string, bs0: seq<Block>, bs: seq<Block>, but: int) {
    forall b :: b in bs0 && b.Used? && b.addr != but ==>
      && b in bs && b.addr + H + b.extent <= |was| && b.addr + H + b.extent <= |now|
      && now[b.addr + H..b.addr + H + b.extent] == was[b.addr + H..b.addr + H + b.extent]
  }

  // What is watched throughout stays the same.
  lemma WatchedThroughout(was: string, brk0: nat, metas0: map<nat, Meta>, data0: map<nat, string>, bs0: seq<Block>,
                          now: string, brk: nat, metas: map<nat, Meta>, data: map<nat, string>, bs: seq<Block>,
                          but: int)
    requires Holds(was, brk0, metas0, data0) && Served(bs0, data0) && Holds(now, brk, metas, data)
    requires forall b :: b in bs0 && b.Used? && b.addr != but ==>
      b in bs && b.addr + H in data && data[b.addr + H] == data0[b.addr + H]
    ensures PayloadsKept(was, now, bs0, bs, but)
  {
    forall b | b in bs0 && b.Used? && b.addr != but
      ensures b in bs && b.addr + H + b.extent <= |was| && b.addr + H + b.extent <= |now|
      ensures now[b.addr + H..b.addr + H + b.extent] == was[b.addr + H..b.addr + H + b.extent]
    {
      IsWatched(was, brk0, metas0, data0, b.addr + H);
      IsWatched(now, brk, metas, data, b.addr + H);
    }
  }

  lemma AllocatedBytes(was: string, brk: nat, metas0: map<nat, Meta>, data0: map<nat, string>, bs: seq<Block>,
                       now: string, brk': nat, metas: map<nat, Meta>, data: map<nat, string>, size: nat)
    requires Holds(was, brk, metas0, data0) && WellFormed(bs, brk) && Served(bs, data0) && Holds(now, brk', metas, data)
    requires size > 0 && Place(bs, brk, size) <= PlaceEnd(bs, brk, size)
    requires data == Outside(data0, Place(bs, brk, size),
      PlaceEnd(bs, brk, size))[Place(bs, brk, size) + H := Zeros(size)]
    ensures var (ptr, row) := (Place(bs, brk, size) + H, Allocated(bs, brk, size));
      && PayloadsKept(was, now, bs, row, -1) && Used(Place(bs, brk, size), size) in row && ptr + size <= |now|
      && forall i :: ptr <= i < ptr + size ==> now[i] == '\0'
  {
    hide Holds, WellFormed, Allocated, Place, PlaceEnd, Outside, PayloadsKept;
    var ptr, row := Place(bs, brk, size) + H, Allocated(bs, brk, size);
    forall b | b in bs && b.Used?
      ensures b in row && b.addr + H in data && data[b.addr + H] == data0[b.addr + H]
    {
      AllocationSparesOthers(bs, brk, size, data0, b);
    }
    WatchedThroughout(was, brk, metas0, data0, bs, now, brk', metas, data, row, -1);
    AllocatedThere(bs, brk, size);
    IsWatched(now, brk', metas, data, ptr);
    assert forall i :: ptr <= i < ptr + size ==> now[i] == now[ptr..ptr + size][i - ptr];
  }

  lemma FreedBytes(was: string, metas0: map<nat, Meta>, bs: seq<Block>, k: nat, now: string, metas: map<nat, Meta>,
                   brk: nat, data: map<nat, string>)
    requires Holds(was, brk, metas0, data) && Holds(now, brk, metas, data) && WellFormed(bs, brk) && Served(bs, data)
    requires k < |bs| && bs[k].Used?
    ensures PayloadsKept(was, now, bs, FreedAt(bs, k), bs[k].addr) && bs[k] !in FreedAt(bs, k)
  {
    var pre, b, post := bs[..k], bs[k], bs[k + 1..];
    assert bs == pre + ([b] + post);
    FreedRemovesOne(pre, b, post);
    hide Holds, WellFormed, PayloadsKept, Freed;
    forall x | x in bs && x.Used? && x.addr != b.addr
      ensures x in FreedAt(bs, k) && x.addr + H in data
    {
      assert x in UsedBlocks(pre) + UsedBlocks(post);
      assert x in UsedBlocks(FreedAt(bs, k));
    }
    WatchedThroughout(was, brk, metas0, data, bs, now, brk, metas, data, FreedAt(bs, k), b.addr);
    if b in FreedAt(bs, k) {
      FreedElsewhere(bs, k, brk, b);
    }
  }

  // Of the len bytes at ptr as many as go into size stand at dest now, with zeros behind them.
  ghost predicate PayloadMoved(was: string, now: string, ptr: nat, len: nat, dest: nat, size: nat) {
    && ptr + len <= |was| && dest + size <= |now|
    && (forall i :: dest <= i < dest + Min(len, size) ==> now[i] == was[ptr + (i - dest)])
    && (forall i :: dest + len <= i < dest + size ==> now[i] == '\0')
  }

  lemma MovedIfWatched(was: string, now: string, ptr: nat, p: string, dest: nat, s: string)
    requires Watched(was, ptr, p) && Watched(now, dest, s)
    requires s == p[..Min(|p|, |s|)] + Zeros(|s| - Min(|p|, |s|))
    ensures PayloadMoved(was, now, ptr, |p|, dest, |s|)
  {
    assert forall i :: dest <= i < dest + |s| ==> now[i] == now[dest..dest + |s|][i - dest];
    assert forall i :: ptr <= i < ptr + |p| ==> was[i] == was[ptr..ptr + |p|][i - ptr];
  }

  // ---------- mm_realloc ----------

  // What memcpy copies from ptr when `written` was written at dest after the bytes at ptr had been
  // payload.
  function Copied(payload: string, ptr: nat, dest: nat, written: string): (s: string)
    ensures |s| == |payload|
    ensures forall i :: 0 <= i < |payload| ==>
      s[i] == if dest <= ptr + i < dest + |written| then written[ptr + i - dest] else payload[i]
  {
    seq(|payload|, i requires 0 <= i < |payload| =>
      if dest <= ptr + i < dest + |written| then written[ptr + i - dest] else payload[i])
  }

  // What mm_malloc writes from dest on: zeros, and the header behind them if it splits.
  ghost function WrittenAt(metas: map<nat, Meta>, dest: nat, size: nat, hi: nat): string {
    Zeros(size) + if hi > dest + size && dest + size in metas then HeaderText(metas[dest + size]) else ""
  }

  // A growing mm_realloc of block k: where the block is now, its bytes are what memcpy found at
  // the old place, then zeros.  All other bytes are as mm_malloc leaves them.
  ghost predicate Regrown(data0: map<nat, string>, bs: seq<Block>, k: nat, brk: nat, size: nat,
                          metas: map<nat, Meta>, data: map<nat, string>)
    requires k < |bs|
  {
    var (lo, hi) := (Place(FreedAt(bs, k), brk, size), PlaceEnd(FreedAt(bs, k), brk, size));
    var ptr: nat, n: nat, dest: nat := bs[k].addr + H, Stored(bs[k]), lo + H;
    && ptr in data0 && n <= |data0[ptr]| && n <= size && lo <= hi
    && |WrittenAt(metas, dest, size, hi)| == hi - dest
    && data == Outside(data0, lo, hi)
         [dest := Copied(data0[ptr][..n], ptr, dest, WrittenAt(metas, dest, size, hi)) + Zeros(size - n)]
  }

  // Is the payload of block k safe from what mm_malloc writes before memcpy reads it?
  predicate MissesPayload(bs: seq<Block>, k: nat, brk: nat, size: nat)
    requires k < |bs|
  {
    || Place(FreedAt(bs, k), brk, size) != Joined(bs, k)
    || PlaceEnd(FreedAt(bs, k), brk, size) <= bs[k].addr + H
  }

  // And is all of it copied?  The size field has kept 32 bits of its length.
  predicate KeepsPayload(bs: seq<Block>, k: nat, brk: nat, size: nat)
    requires k < |bs| && bs[k].Used?
  {
    bs[k].extent == 0 || (bs[k].extent < 0x1_0000_0000 && MissesPayload(bs, k, brk, size))
  }

  // The first bytes of the block that dest then begins, after a growing mm_realloc.
  function BroughtBack(payload: string, n: nat, ptr: nat, dest: nat, size: nat, written: string): string
    requires n <= size && n <= |payload| <= size
  {
    (Copied(payload[..n], ptr, dest, written) + Zeros(size - n))[..|payload|]
  }

  // Whatever the payload is, it comes back whole, exactly if its length was kept, and mm_malloc took
  // another block than the joined one or wrote nothing but before it.
  lemma PayloadKeptIff(bs: seq<Block>, k: nat, brk: nat, size: nat, written: string)
    requires WellFormed(bs, brk) && k < |bs| && bs[k].Used? && bs[k].extent <= size
    requires var freed := FreedAt(bs, k); Place(freed, brk, size) + H + |written| == PlaceEnd(freed, brk, size)
    ensures var dest: nat, ptr: nat, n := Place(FreedAt(bs, k), brk, size) + H, bs[k].addr + H, Stored(bs[k]);
      (forall payload: string {:trigger BroughtBack(payload, n, ptr, dest, size, written)} ::
         |payload| == bs[k].extent ==> BroughtBack(payload, n, ptr, dest, size, written) == payload)
      <==> KeepsPayload(bs, k, brk, size)
  {
    hide Place, PlaceEnd, FreedAt, Joined, WellFormed, Copied, MissesPayload, BroughtBack;
    var dest: nat, ptr: nat, n := Place(FreedAt(bs, k), brk, size) + H, bs[k].addr + H, Stored(bs[k]);
    var len := bs[k].extent;
    if len < 0x1_0000_0000 {
      StoredPartKeptIff(bs, k, brk, size, written);
      forall payload: string | |payload| == len
        ensures BroughtBack(payload, n, ptr, dest, size, written) == Copied(payload, ptr, dest, written)
      {
        AllBroughtBack(payload, ptr, dest, size, written);
      }
    } else {
      var lost := RestIsLost(len, n, ptr, dest, size, written);
    }
  }

  lemma AllBroughtBack(payload: string, ptr: nat, dest: nat, size: nat, written: string)
    requires |payload| <= size
    ensures BroughtBack(payload, |payload|, ptr, dest, size, written) == Copied(payload, ptr, dest, written)
  {
    assert payload[..|payload|] == payload;
  }

  lemma RestIsLost(len: nat, n: nat, ptr: nat, dest: nat, size: nat, written: string) returns (payload: string)
    requires n < len <= size
    ensures |payload| == len && BroughtBack(payload, n, ptr, dest, size, written) != payload
  {
    payload := seq(len, i => 'x');
    assert BroughtBack(payload, n, ptr, dest, size, written)[n] == '\0';
  }

  // The part of it whose length the size field says.
  lemma StoredPartKeptIff(bs: seq<Block>, k: nat, brk: nat, size: nat, written: string)
    requires WellFormed(bs, brk) && k < |bs| && bs[k].Used?
    requires var freed := FreedAt(bs, k); Place(freed, brk, size) + H + |written| == PlaceEnd(freed, brk, size)
    ensures var dest: nat, ptr: nat := Place(FreedAt(bs, k), brk, size) + H, bs[k].addr + H;
      (forall payload {:trigger Copied(payload, ptr, dest, written)} ::
         |payload| == Stored(bs[k]) ==> Copied(payload, ptr, dest, written) == payload)
      <==> Stored(bs[k]) == 0 || MissesPayload(bs, k, brk, size)
  {
    var lo, hi := Place(FreedAt(bs, k), brk, size), PlaceEnd(FreedAt(bs, k), brk, size);
    var dest: nat, ptr: nat := lo + H, bs[k].addr + H;
    JoinedBelow(bs, k, brk);
    if Stored(bs[k]) == 0 || MissesPayload(bs, k, brk, size) {
      if lo != Joined(bs, k) {
        FreedBytesMissed(bs, k, brk, size);
      }
      forall payload: string | |payload| == Stored(bs[k])
        ensures Copied(payload, ptr, dest, written) == payload
      {
        if payload != "" {
          ApartCopied(payload, ptr, dest, written);
        }
      }
    } else {
      var other := if written[ptr - dest] == '\0' then 'x' else '\0';
      var lost := seq(Stored(bs[k]), i => other);
      assert Copied(lost, ptr, dest, written)[0] == written[ptr - dest] != lost[0];
    }
  }

  lemma StoredInFull(bs: seq<Block>, k: nat, brk: nat, size: nat)
    requires k < |bs| && bs[k].Used? && KeepsPayload(bs, k, brk, size)
    ensures Stored(bs[k]) == bs[k].extent
  {
  }

  // What a growing mm_realloc puts in the new block then.
  lemma RegrownKeeps(data0: map<nat, string>, bs: seq<Block>, k: nat, brk: nat, size: nat, metas: map<nat, Meta>,
                     data: map<nat, string>)
    requires WellFormed(bs, brk) && k < |bs| && bs[k].Used? && KeepsPayload(bs, k, brk, size)
    requires Regrown(data0, bs, k, brk, size, metas, data) && |data0[bs[k].addr + H]| == bs[k].extent <= size
    ensures var (dest, p) := (Place(FreedAt(bs, k), brk, size) + H, data0[bs[k].addr + H]);
      dest in data && data[dest] == p[..bs[k].extent] + Zeros(size - bs[k].extent)
  {
    hide Place, PlaceEnd, FreedAt, WellFormed, MissesPayload, Outside, WrittenAt;
    var p, dest: nat, hi := data0[bs[k].addr + H], Place(FreedAt(bs, k), brk, size) + H,
      PlaceEnd(FreedAt(bs, k), brk, size);
    var written := WrittenAt(metas, dest, size, hi);
    StoredPartKeptIff(bs, k, brk, size, written);
    StoredInFull(bs, k, brk, size);
    assert p[..|p|] == p;
    assert Copied(p, bs[k].addr + H, dest, written) == p;
  }

  // The least that is lost: if the same bytes are taken again, everything.
  lemma SameBytesTaken(payload: string, ptr: nat, size: nat, header: string)
    requires |payload| <= size
    ensures Copied(payload, ptr, ptr, Zeros(size) + header) == Zeros(|payload|)
  {
  }

  lemma JoinedBelow(bs: seq<Block>, k: nat, brk: nat)
    requires WellFormed(bs, brk) && k < |bs| && bs[k].Used?
    ensures Joined(bs, k) <= bs[k].addr
  {
    assert bs == bs[..k] + ([bs[k]] + bs[k + 1..]);
    JoinedBeforeMoves(bs[..k], bs[k], bs[k + 1..], brk);
  }

  // ---------- Watching a payload in two parts ----------

  // Does a write to lo..hi end inside the payload at ptr?
  predicate EndsInside(data: map<nat, string>, ptr: nat, lo: nat, hi: nat) {
    ptr in data && lo < ptr + |data[ptr]| && ptr < hi < ptr + |data[ptr]|
  }

  // Then the part behind hi is watched on its own.
  function InParts(data: map<nat, string>, ptr: nat, lo: nat, hi: nat): map<nat, string> {
    if EndsInside(data, ptr, lo, hi) then data[ptr := data[ptr][..hi - ptr]][hi := data[ptr][hi - ptr..]] else data
  }

  lemma InPartsHold(m: string, brk: nat, metas: map<nat, Meta>, data: map<nat, string>, ptr: nat, lo: nat, hi: nat)
    requires Holds(m, brk, metas, data)
    ensures Holds(m, brk, metas, InParts(data, ptr, lo, hi))
    ensures EndsInside(data, ptr, lo, hi) ==> hi !in data
  {
    if EndsInside(data, ptr, lo, hi) {
      var s, parts := data[ptr], InParts(data, ptr, lo, hi);
      assert Watched(m, ptr, s);
      assert hi in data ==> Apart(ptr, |s|, hi, |data[hi]|);
      assert m[ptr..ptr + |s|][..hi - ptr] == m[ptr..hi] && m[ptr..ptr + |s|][hi - ptr..] == m[hi..ptr + |s|];
      forall p | p in parts
        ensures p + |parts[p]| <= brk && Watched(m, p, parts[p])
      {
        if p in data {
          assert Watched(m, p, data[p]);
        }
      }
      PartsApart(metas, data, ptr, lo, hi);
    }
  }

  lemma PartsApart(metas: map<nat, Meta>, data: map<nat, string>, ptr: nat, lo: nat, hi: nat)
    requires NoOverlap(metas, data) && EndsInside(data, ptr, lo, hi)
    ensures NoOverlap(metas, InParts(data, ptr, lo, hi))
  {
    var s, parts := data[ptr], InParts(data, ptr, lo, hi);
    forall a, p | a in metas && p in parts
      ensures Apart(a, H, p, |parts[p]|)
    {
      assert Apart(a, H, ptr, |s|);
      assert p in data ==> Apart(a, H, p, |data[p]|);
    }
    forall p, q | p in parts && q in parts && p != q
      ensures Apart(p, |parts[p]|, q, |parts[q]|)
    {
      assert p in data && q in data ==> Apart(p, |data[p]|, q, |data[q]|);
      assert p in data && p != ptr ==> Apart(p, |data[p]|, ptr, |s|);
      assert q in data && q != ptr ==> Apart(ptr, |s|, q, |data[q]|);
    }
  }

  lemma InPartsServed(bs: seq<Block>, data: map<nat, string>, ptr: nat, lo: nat, hi: nat)
    requires Served(bs, data) && (EndsInside(data, ptr, lo, hi) ==> hi !in data)
    requires forall b :: b in bs && b.Used? ==> b.addr + H != ptr
    ensures Served(bs, InParts(data, ptr, lo, hi))
  {
  }

  // The write takes the first part away and leaves the second.
  lemma OutsideParts(data: map<nat, string>, ptr: nat, lo: nat, hi: nat)
    requires lo < hi && (EndsInside(data, ptr, lo, hi) ==> hi !in data)
    ensures var kept := Outside(InParts(data, ptr, lo, hi), lo, hi);
      if EndsInside(data, ptr, lo, hi)
      then hi !in Outside(data, lo, hi) && kept == Outside(data, lo, hi)[hi := data[ptr][hi - ptr..]]
      else kept == Outside(data, lo, hi)
  {
  }

  // The watched bytes after mm_malloc has written to lo..hi, the old payload being watched in parts.
  predicate Reserved(data0: map<nat, string>, data: map<nat, string>, ptr: nat, lo: nat, hi: nat, size: nat)
    requires lo <= hi
  {
    && (EndsInside(data0, ptr, lo, hi) ==> hi !in data0)
    && data == Outside(InParts(data0, ptr, lo, hi), lo, hi)[lo + H := Zeros(size)]
  }

  // The bytes memcpy finds at the old place of the payload.
  lemma BytesFound(m: string, brk: nat, metas: map<nat, Meta>, data0: map<nat, string>, data: map<nat, string>,
                   ptr: nat, n: nat, lo: nat, hi: nat, size: nat)
    requires Holds(m, brk, metas, data) && ptr in data0 && n <= |data0[ptr]| && ptr + |data0[ptr]| <= |m| && size > 0
    requires hi == lo + H + size || (hi == lo + H + size + H && lo + H + size in metas)
    requires Reserved(data0, data, ptr, lo, hi, size)
    requires lo + H <= ptr || Apart(lo, hi - lo, ptr, |data0[ptr]|)
    ensures |WrittenAt(metas, lo + H, size, hi)| == hi - (lo + H)
    ensures m[ptr..ptr + n] == Copied(data0[ptr][..n], ptr, lo + H, WrittenAt(metas, lo + H, size, hi))
  {
    WrittenFound(m, brk, metas, data, lo + H, size, hi);
    hide WrittenAt, Reserved, InParts, Outside, EndsInside;
    if Apart(lo, hi - lo, ptr, |data0[ptr]|) {
      WholeFound(m, brk, data0, data, ptr, n, lo, hi, size);
      ApartCopied(data0[ptr][..n], ptr, lo + H, WrittenAt(metas, lo + H, size, hi));
    } else {
      if hi < ptr + |data0[ptr]| {
        PartFound(m, brk, data0, data, ptr, lo, hi, size);
      }
      TwoParts(m, data0[ptr], ptr, n, lo + H, hi);
    }
  }

  lemma WholeFound(m: string, brk: nat, data0: map<nat, string>, data: map<nat, string>,
                   ptr: nat, n: nat, lo: nat, hi: nat, size: nat)
    requires DataHolds(m, brk, data) && lo <= hi && lo + H < hi && Reserved(data0, data, ptr, lo, hi, size)
    requires ptr in data0 && n <= |data0[ptr]| && Apart(lo, hi - lo, ptr, |data0[ptr]|)
    ensures ptr + n <= |m| && m[ptr..ptr + n] == data0[ptr][..n]
  {
    OutsideParts(data0, ptr, lo, hi);
    var whole := data[ptr];
    assert Watched(m, ptr, whole);
    Slice(m, ptr, |whole|, n);
  }

  lemma PartFound(m: string, brk: nat, data0: map<nat, string>, data: map<nat, string>,
                  ptr: nat, lo: nat, hi: nat, size: nat)
    requires DataHolds(m, brk, data) && lo <= hi && lo + H < hi && Reserved(data0, data, ptr, lo, hi, size)
    requires ptr in data0 && ptr < hi < ptr + |data0[ptr]| && lo < ptr + |data0[ptr]|
    ensures ptr + |data0[ptr]| <= |m| && m[hi..ptr + |data0[ptr]|] == data0[ptr][hi - ptr..]
  {
    OutsideParts(data0, ptr, lo, hi);
    var part := data[hi];
    assert Watched(m, hi, part);
  }

  lemma Slice(m: string, p: nat, len: nat, n: nat)
    requires n <= len && p + len <= |m|
    ensures m[p..p + n] == m[p..p + len][..n]
  {
  }

  lemma ApartCopied(payload: string, ptr: nat, dest: nat, written: string)
    requires Apart(dest, |written|, ptr, |payload|)
    ensures Copied(payload, ptr, dest, written) == payload
  {
  }

  lemma WrittenFound(m: string, brk: nat, metas: map<nat, Meta>, data: map<nat, string>, dest: nat, size: nat, hi: nat)
    requires Holds(m, brk, metas, data) && dest in data && data[dest] == Zeros(size)
    requires hi == dest + size || (hi == dest + size + H && dest + size in metas)
    ensures hi <= |m| && |WrittenAt(metas, dest, size, hi)| == hi - dest
      && m[dest..hi] == WrittenAt(metas, dest, size, hi)
  {
    assert Watched(m, dest, data[dest]);
    if hi > dest + size {
      HeaderBytes(m, dest + size, metas[dest + size]);
      Join(m, dest, dest + size, hi);
    }
  }

  lemma TwoParts(m: string, s: string, ptr: nat, n: nat, dest: nat, hi: nat)
    requires dest <= ptr < hi <= |m| && n <= |s| && ptr + |s| <= |m|
    requires hi < ptr + |s| ==> m[hi..ptr + |s|] == s[hi - ptr..]
    ensures m[ptr..ptr + n] == Copied(s[..n], ptr, dest, m[dest..hi])
  {
    forall i | 0 <= i < n
      ensures m[ptr + i] == Copied(s[..n], ptr, dest, m[dest..hi])[i]
    {
      if hi <= ptr + i {
        assert m[hi..ptr + |s|][ptr + i - hi] == s[hi - ptr..][ptr + i - hi];
      }
    }
  }

  // Behind the payload of a new block nothing is written, or the header of a block of its own.
  lemma {:induction false} SplitThere(bs: seq<Block>, brk: nat, size: nat)
    ensures var (end, hi) := (Place(bs, brk, size) + H + size, PlaceEnd(bs, brk, size));
      hi == end || (hi == end + H && end in Addrs(Allocated(bs, brk, size)))
  {
    if bs != [] {
      if Takes(bs[0], bs[1..], size) {
        var carved := Carve(bs[0], bs[1..], size);
        AddrsConcat(carved, bs[1..]);
        AddrsHold(carved);
      } else {
        SplitThere(bs[1..], brk, size);
        AddrsConcat([bs[0]], Allocated(bs[1..], brk, size));
      }
    }
  }

  lemma AllocatedThere(bs: seq<Block>, brk: nat, size: nat)
    ensures Used(Place(bs, brk, size), size) in Allocated(bs, brk, size)
  {
    AllocatedAddsOne(bs, brk, size);
    assert Used(Place(bs, brk, size), size) in UsedBlocks(Allocated(bs, brk, size));
  }

  // What mm_malloc writes lies behind the start of the old payload, or away from it.
  lemma WrittenBehind(bs: seq<Block>, k: nat, brk: nat, size: nat)
    requires WellFormed(bs, brk) && k < |bs| && bs[k].Used?
    ensures var (lo, hi) := (Place(FreedAt(bs, k), brk, size), PlaceEnd(FreedAt(bs, k), brk, size));
      lo <= hi && (lo + H <= bs[k].addr + H || Apart(lo, hi - lo, bs[k].addr + H, bs[k].extent))
  {
    JoinedBelow(bs, k, brk);
    FreedWellFormed(bs[..k], bs[k], bs[k + 1..], brk) by {
      assert bs == bs[..k] + ([bs[k]] + bs[k + 1..]);
    }
    PlaceBounds(FreedAt(bs, k), brk, size);
    if Place(FreedAt(bs, k), brk, size) != Joined(bs, k) {
      FreedBytesMissed(bs, k, brk, size);
    }
  }

  // Block k, its payload of n bytes at ptr, is freed, and a block of size bytes allocated whose
  // bytes from lo to hi are written.
  predicate Moves(bs: seq<Block>, k: nat, brk: nat, size: nat, ptr: nat, n: nat, lo: nat, hi: nat) {
    && k < |bs| && bs[k].Used? && ptr == bs[k].addr + H && n == Stored(bs[k]) && 0 < size
    && lo == Place(FreedAt(bs, k), brk, size) && hi == PlaceEnd(FreedAt(bs, k), brk, size)
  }

  lemma MovesBounds(bs: seq<Block>, k: nat, brk: nat, size: nat, ptr: nat, n: nat, lo: nat, hi: nat)
    requires WellFormed(bs, brk) && Moves(bs, k, brk, size, ptr, n, lo, hi)
    ensures lo <= hi && (lo + H <= ptr || Apart(lo, hi - lo, ptr, bs[k].extent))
    ensures hi == lo + H + size
      || (hi == lo + H + size + H && lo + H + size in Addrs(Allocated(FreedAt(bs, k), brk, size)))
  {
    SplitThere(FreedAt(bs, k), brk, size);
    WrittenBehind(bs, k, brk, size);
  }

  // The second part of the old payload belongs to no block.
  lemma PartsUnowned(bs: seq<Block>, k: nat, brk: nat, size: nat, data0: map<nat, string>,
                     ptr: nat, n: nat, lo: nat, hi: nat)
    requires Moves(bs, k, brk, size, ptr, n, lo, hi) && hi > lo + H
    requires Served(FreedAt(bs, k), data0) && hi !in data0
    ensures forall b :: b in Allocated(FreedAt(bs, k), brk, size) && b.Used? ==> b.addr + H != hi
  {
    forall b | b in Allocated(FreedAt(bs, k), brk, size) && b.Used?
      ensures b.addr + H != hi
    {
      var freed := FreedAt(bs, k);
      AllocatedAddsOne(freed, brk, size);
      assert b in UsedBlocks(Allocated(freed, brk, size));
      assert b != Used(lo, size) ==> b in UsedBlocks(freed);
    }
  }

  // Where the blocks, the bytes and the break are once mm_malloc has allocated from `freed`.
  ghost predicate Relocated(bs': seq<Block>, data: map<nat, string>, brk': nat, freed: seq<Block>, brk: nat,
                            data0: map<nat, string>, size: nat, ptr: nat, dest: nat)
  {
    var (lo, hi) := (Place(freed, brk, size), PlaceEnd(freed, brk, size));
    && dest == lo + H && bs' == Allocated(freed, brk, size) && brk <= brk' && lo <= hi
    && Served(freed, data0) && Reserved(data0, data, ptr, lo, hi, size)
  }

  // What memcpy and what follows rely on.
  ghost predicate MayCopy(bs: seq<Block>, metas: map<nat, Meta>, brk: nat,
                          data0: map<nat, string>, data: map<nat, string>,
                          ptr: nat, n: nat, dest: nat, hi: nat, size: nat)
  {
    && ptr in data0 && n <= |data0[ptr]| && 0 < size && ptr + |data0[ptr]| <= brk
    && H <= dest <= hi + H && Reserved(data0, data, ptr, dest - H, hi, size)
    && (hi == dest + size || (hi == dest + size + H && dest + size in metas))
    && (dest <= ptr || Apart(dest - H, hi - (dest - H), ptr, |data0[ptr]|))
    && (EndsInside(data0, ptr, dest - H, hi) ==> forall b :: b in bs && b.Used? ==> b.addr + H != hi)
  }

  lemma MovesMayCopy(bs': seq<Block>, metas: map<nat, Meta>, brk': nat, data: map<nat, string>, bs: seq<Block>, k: nat,
                     brk: nat, data0: map<nat, string>, size: nat, ptr: nat, n: nat, dest: nat, hi: nat)
    requires WellFormed(bs, brk) && H <= dest && Moves(bs, k, brk, size, ptr, n, dest - H, hi)
    requires dest - H <= hi && Reserved(data0, data, ptr, dest - H, hi, size)
    requires bs' == Allocated(FreedAt(bs, k), brk, size) && metas.Keys == Addrs(bs') && Served(FreedAt(bs, k), data0)
    requires ptr in data0 && |data0[ptr]| == bs[k].extent && ptr + |data0[ptr]| <= brk <= brk'
    ensures MayCopy(bs', metas, brk', data0, data, ptr, n, dest, hi, size)
  {
    MovesBounds(bs, k, brk, size, ptr, n, dest - H, hi);
    if EndsInside(data0, ptr, dest - H, hi) {
      PartsUnowned(bs, k, brk, size, data0, ptr, n, dest - H, hi);
    }
  }

  ghost predicate CopyDone(metas: map<nat, Meta>, data0: map<nat, string>, data1: map<nat, string>,
                           data: map<nat, string>,
                           ptr: nat, n: nat, dest: nat, hi: nat, size: nat)
  {
    && ptr in data0 && n <= |data0[ptr]| && n <= size && H <= dest < hi
    && |WrittenAt(metas, dest, size, hi)| == hi - dest && Reserved(data0, data1, ptr, dest - H, hi, size)
    && data == data1
         [dest := Copied(data0[ptr][..n], ptr, dest, WrittenAt(metas, dest, size, hi)) + Zeros(size)[n..]]
         - (if EndsInside(data0, ptr, dest - H, hi) then {hi} else {})
  }

  lemma RegrownAtLast(metas: map<nat, Meta>, data1: map<nat, string>, data: map<nat, string>, bs: seq<Block>, k: nat,
                      brk: nat, data0: map<nat, string>, size: nat, ptr: nat, n: nat, dest: nat, hi: nat)
    requires H <= dest && Moves(bs, k, brk, size, ptr, n, dest - H, hi)
    requires CopyDone(metas, data0, data1, data, ptr, n, dest, hi, size)
    ensures Regrown(data0, bs, k, brk, size, metas, data)
  {
    PartForgotten(data0, data1, ptr, dest, hi, size,
                  Copied(data0[ptr][..n], ptr, dest, WrittenAt(metas, dest, size, hi)) + Zeros(size)[n..]);
    assert Zeros(size)[n..] == Zeros(size - n);
  }

  lemma PartForgotten(data0: map<nat, string>, data1: map<nat, string>, ptr: nat, dest: nat, hi: nat, size: nat,
                      x: string)
    requires H <= dest < hi && Reserved(data0, data1, ptr, dest - H, hi, size)
    ensures data1[dest := x] - (if EndsInside(data0, ptr, dest - H, hi) then {hi} else {})
      == Outside(data0, dest - H, hi)[dest := x]
    ensures data1[dest := Zeros(size)] == data1
  {
    OutsideParts(data0, ptr, dest - H, hi);
  }
}
