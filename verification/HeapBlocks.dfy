/**
  The allocator of `malloc-master/mm_alloc.c` as a policy on a row of blocks: what a block
  list looks like, what mm_malloc and mm_free do to it, and what they keep.
 */
module HeapBlocks {
  import opened Prelude
  import opened HeapMemory

  // A block starts at addr with its header.  A used block serves `extent` bytes, as many as
  // were asked for; the header keeps the low 32 bits of that.  A free block offers `size`.
  datatype Block =
    | Used(addr: nat, extent: nat)
    | Free(addr: nat, size: nat)

  // What is left of a size when it is kept in an unsigned int.
  function Low32(v: nat): (r: nat)
    ensures r <= v && r < 0x1_0000_0000
    ensures v < 0x1_0000_0000 ==> r == v
  {
    v % 0x1_0000_0000
  }

  // The header's size field.
  function Stored(b: Block): (r: nat)
    ensures r <= Room(b)
  {
    if b.Used? then Low32(b.extent) else b.size
  }

  function Room(b: Block): nat {
    if b.Used? then b.extent else b.size
  }

  // Address of the first (last) block, or the given one when there is none.
  function First(bs: seq<Block>, end: nat): nat {
    if bs == [] then end else bs[0].addr
  }

  function Last(bs: seq<Block>, start: nat): nat {
    if bs == [] then start else bs[|bs| - 1].addr
  }

  // ---------- Layout ----------

  ghost function Addrs(bs: seq<Block>): set<nat> {
    if bs == [] then {} else {bs[0].addr} + Addrs(bs[1..])
  }

  lemma {:induction false} AddrsConcat(a: seq<Block>, b: seq<Block>)
    ensures Addrs(a + b) == Addrs(a) + Addrs(b)
  {
    if a == [] {
      assert a + b == b;
    } else {
      assert (a + b)[1..] == a[1..] + b;
      AddrsConcat(a[1..], b);
    }
  }

  ghost predicate FitsBelow(b: Block, end: nat) {
    b.addr > 0 && b.addr + H + Room(b) <= end && (b.Free? ==> b.size < 0x1_0000_0000)
  }

  // Blocks lie in address order and the room of each ends before the next header (the last:
  // before end).  This is an inequality: a shrunk block may leave bytes behind that belong to
  // nobody until it is freed again.
  ghost predicate WellFormed(bs: seq<Block>, end: nat) {
    bs != [] ==> FitsBelow(bs[0], First(bs[1..], end)) && WellFormed(bs[1..], end)
  }

  lemma {:induction false} CutLayout(a: seq<Block>, b: seq<Block>, end: nat)
    ensures WellFormed(a + b, end) <==> WellFormed(a, First(b, end)) && WellFormed(b, end)
  {
    if a == [] {
      assert a + b == b;
    } else {
      assert (a + b)[1..] == a[1..] + b;
      CutLayout(a[1..], b, end);
    }
  }

  lemma {:induction false} StartsBelow(bs: seq<Block>, end: nat)
    requires WellFormed(bs, end)
    ensures First(bs, end) <= end && forall a :: a in Addrs(bs) ==> First(bs, end) <= a && a + H <= end
  {
    if bs != [] {
      StartsBelow(bs[1..], end);
    }
  }

  ghost predicate NoTwoFree(bs: seq<Block>) {
    |bs| >= 2 ==> !(bs[0].Free? && bs[1].Free?) && NoTwoFree(bs[1..])
  }

  ghost predicate StartsFree(bs: seq<Block>) {
    bs != [] && bs[0].Free?
  }

  ghost predicate EndsFree(bs: seq<Block>) {
    bs != [] && bs[|bs| - 1].Free?
  }

  lemma {:induction false} CutNoTwoFree(a: seq<Block>, b: seq<Block>)
    ensures NoTwoFree(a + b) <==> NoTwoFree(a) && NoTwoFree(b) && !(EndsFree(a) && StartsFree(b))
  {
    if a == [] {
      assert a + b == b;
    } else {
      assert (a + b)[1..] == a[1..] + b;
      CutNoTwoFree(a[1..], b);
    }
  }

  // ---------- mm_malloc ----------

  // Lines 41 and 62: does the walk stop at b, with `after` behind it?
  predicate Takes(b: Block, after: seq<Block>, size: nat) {
    b.Free? && (after == [] || b.size >= size)
  }

  // The bytes behind b's header that may be split (lines 48 and 66).
  function Gap(b: Block, after: seq<Block>): int {
    if after == [] then Room(b) else after[0].addr - b.addr - H
  }

  // What becomes of the block taken.
  function Carve(b: Block, after: seq<Block>, size: nat): seq<Block> {
    if Gap(b, after) >= size + H
    then [Used(b.addr, size), Free(b.addr + H + size, Low32(Gap(b, after) - size - H))]
    else [Used(b.addr, size)]
  }

  // Where the bytes written in it end: the payload, and the header split off behind it if any.
  function CarveEnd(b: Block, after: seq<Block>, size: nat): nat {
    b.addr + H + size + if Gap(b, after) >= size + H then H else 0
  }

  function Allocated(bs: seq<Block>, brk: nat, size: nat): seq<Block> {
    if bs == [] then [Used(brk, size)]
    else if Takes(bs[0], bs[1..], size) then Carve(bs[0], bs[1..], size) + bs[1..]
    else [bs[0]] + Allocated(bs[1..], brk, size)
  }

  // Where the new block's header is.
  function Place(bs: seq<Block>, brk: nat, size: nat): nat {
    if bs == [] then brk
    else if Takes(bs[0], bs[1..], size) then bs[0].addr
    else Place(bs[1..], brk, size)
  }

  // Where the bytes written in the new block and behind it end; beyond it nothing but a back link
  // is written.
  function PlaceEnd(bs: seq<Block>, brk: nat, size: nat): nat {
    if bs == [] then brk + H + size
    else if Takes(bs[0], bs[1..], size) then CarveEnd(bs[0], bs[1..], size)
    else PlaceEnd(bs[1..], brk, size)
  }

  // How many bytes are asked of sbrk; 0 when none.
  function Demand(bs: seq<Block>, size: nat): nat {
    if bs == [] then size + H
    else if Takes(bs[0], bs[1..], size) then
      if bs[1..] == [] && bs[0].size < size then size - bs[0].size else 0
    else Demand(bs[1..], size)
  }

  lemma {:induction false} AllocatedWellFormed(bs: seq<Block>, brk: nat, size: nat)
    requires WellFormed(bs, brk) && brk > 0
    ensures WellFormed(Allocated(bs, brk, size), brk + Demand(bs, size))
    ensures First(Allocated(bs, brk, size), 0) == First(bs, brk)
  {
    if bs == [] {
    } else if Takes(bs[0], bs[1..], size) {
      var carved, brk' := Carve(bs[0], bs[1..], size), brk + Demand(bs, size);
      CutLayout(carved, bs[1..], brk');
      StartsBelow(bs[1..], brk);
      assert carved[1..] == [] || carved[1..][1..] == [];
    } else {
      AllocatedWellFormed(bs[1..], brk, size);
    }
  }

  lemma {:induction false} AllocatedNoTwoFree(bs: seq<Block>, brk: nat, size: nat)
    requires NoTwoFree(bs)
    ensures NoTwoFree(Allocated(bs, brk, size))
    ensures bs != [] && bs[0].Used? ==> Allocated(bs, brk, size)[0].Used?
  {
    if bs == [] {
    } else if Takes(bs[0], bs[1..], size) {
      var carved := Carve(bs[0], bs[1..], size);
      CutNoTwoFree(carved, bs[1..]);
    } else {
      AllocatedNoTwoFree(bs[1..], brk, size);
    }
  }

  // First fit: what lies before the place is kept and would not have done.
  lemma {:induction false} AllocatedAtFirstFit(bs: seq<Block>, brk: nat, size: nat)
    returns (pre: seq<Block>, rest: seq<Block>)
    ensures bs == pre + rest
    ensures forall i :: 0 <= i < |pre| ==> pre[i].Used? || (i + 1 < |bs| && pre[i].size < size)
    ensures rest != [] ==> rest[0].Free? && (rest[1..] == [] || rest[0].size >= size)
    ensures Place(bs, brk, size) == First(rest, brk)
    ensures Allocated(bs, brk, size)
      == pre + (if rest == [] then [Used(brk, size)] else Carve(rest[0], rest[1..], size) + rest[1..])
    ensures Demand(bs, size)
      == if rest == [] then size + H
         else if rest[1..] == [] && rest[0].size < size then size - rest[0].size else 0
  {
    if bs == [] || Takes(bs[0], bs[1..], size) {
      pre, rest := [], bs;
    } else {
      pre, rest := AllocatedAtFirstFit(bs[1..], brk, size);
      pre := [bs[0]] + pre;
    }
  }

  // Everybody else's block is as it was, and there is exactly one new one.
  function UsedBlocks(bs: seq<Block>): set<Block> {
    set b | b in bs && b.Used?
  }

  lemma UsedConcat(a: seq<Block>, b: seq<Block>)
    ensures UsedBlocks(a + b) == UsedBlocks(a) + UsedBlocks(b)
  {
  }

  lemma {:induction false} AllocatedAddsOne(bs: seq<Block>, brk: nat, size: nat)
    ensures UsedBlocks(Allocated(bs, brk, size)) == UsedBlocks(bs) + {Used(Place(bs, brk, size), size)}
  {
    if bs == [] {
    } else if Takes(bs[0], bs[1..], size) {
      UsedConcat(Carve(bs[0], bs[1..], size), bs[1..]);
      UsedConcat([bs[0]], bs[1..]);
      assert bs == [bs[0]] + bs[1..];
    } else {
      AllocatedAddsOne(bs[1..], brk, size);
      UsedConcat([bs[0]], Allocated(bs[1..], brk, size));
      UsedConcat([bs[0]], bs[1..]);
      assert bs == [bs[0]] + bs[1..];
    }
  }

  // The bytes taken belong to no used block.
  lemma {:induction false} PlaceApart(bs: seq<Block>, brk: nat, size: nat, b: Block)
    requires WellFormed(bs, brk) && b in bs && b.Used?
    ensures First(bs, brk) <= Place(bs, brk, size) <= PlaceEnd(bs, brk, size)
    ensures Apart(Place(bs, brk, size), PlaceEnd(bs, brk, size) - Place(bs, brk, size), b.addr + H, b.extent)
  {
    PlaceBounds(bs, brk, size);
    if Takes(bs[0], bs[1..], size) {
      UsedWithin(bs[1..], brk, b);
    } else {
      PlaceBounds(bs[1..], brk, size);
      if b in bs[1..] {
        PlaceApart(bs[1..], brk, size, b);
      }
    }
  }

  lemma {:induction false} UsedWithin(bs: seq<Block>, end: nat, b: Block)
    requires WellFormed(bs, end) && b in bs
    ensures First(bs, end) <= b.addr && b.addr + H + Room(b) <= end
  {
    StartsBelow(bs, end);
    StartsBelow(bs[1..], end);
    if b in bs[1..] {
      UsedWithin(bs[1..], end, b);
    }
  }

  lemma {:induction false} BlocksApart(bs: seq<Block>, brk: nat, i: nat, j: nat)
    requires WellFormed(bs, brk) && i < j < |bs|
    ensures bs[i].addr + H + Room(bs[i]) <= bs[j].addr
  {
    if i == 0 {
      StartsBelow(bs[1..], brk);
      UsedWithin(bs[1..], brk, bs[j]);
    } else {
      BlocksApart(bs[1..], brk, i - 1, j - 1);
    }
  }

  // Bytes behind the header of a block that is not taken are not touched, free or used.
  lemma {:induction false} OtherPlaceApart(pre: seq<Block>, b: Block, post: seq<Block>, brk: nat, size: nat, lo: nat,
      n: nat)
    requires var bs := pre + ([b] + post); WellFormed(bs, brk) && Place(bs, brk, size) != b.addr
    requires b.addr <= lo && lo + n <= First(post, brk)
    ensures var bs := pre + ([b] + post);
      Place(bs, brk, size) <= PlaceEnd(bs, brk, size)
        && Apart(Place(bs, brk, size), PlaceEnd(bs, brk, size) - Place(bs, brk, size), lo, n)
    decreases |pre|
  {
    var bs := pre + ([b] + post);
    PlaceBounds(bs, brk, size);
    ThreeParts(pre, b, post, brk);
    if pre == [] {
      assert bs == [b] + post && bs[1..] == post;
      CutLayout([b], post, brk);
      PlaceBounds(post, brk, size);
    } else {
      assert bs[0] == pre[0] && bs[1..] == pre[1..] + ([b] + post);
      StartsBelow(bs[1..], brk);
      if Takes(bs[0], bs[1..], size) {
        ThreeParts(pre[1..], b, post, brk);
        FirstBelow(pre[1..], b, post, brk);
      } else {
        OtherPlaceApart(pre[1..], b, post, brk, size, lo, n);
      }
    }
  }

  lemma FirstBelow(pre: seq<Block>, b: Block, post: seq<Block>, end: nat)
    requires WellFormed(pre + ([b] + post), end)
    ensures First(pre + ([b] + post), end) <= b.addr
  {
    CutLayout(pre, [b] + post, end);
    StartsBelow(pre, b.addr);
  }

  lemma {:induction false} PlaceBounds(bs: seq<Block>, brk: nat, size: nat)
    requires WellFormed(bs, brk)
    ensures First(bs, brk) <= Place(bs, brk, size)
    ensures Place(bs, brk, size) + H + size <= PlaceEnd(bs, brk, size) <= brk + Demand(bs, size)
  {
    if bs != [] {
      StartsBelow(bs[1..], brk);
      if !Takes(bs[0], bs[1..], size) {
        PlaceBounds(bs[1..], brk, size);
      }
    }
  }

  // How far the walk has come: everything still depends on rest only.
  ghost predicate WalkedPast(bs: seq<Block>, brk: nat, size: nat, pre: seq<Block>, rest: seq<Block>) {
    && Allocated(bs, brk, size) == pre + Allocated(rest, brk, size)
    && Place(bs, brk, size) == Place(rest, brk, size)
    && PlaceEnd(bs, brk, size) == PlaceEnd(rest, brk, size)
    && Demand(bs, size) == Demand(rest, size)
  }

  lemma WalkOn(bs: seq<Block>, brk: nat, size: nat, pre: seq<Block>, rest: seq<Block>)
    requires WalkedPast(bs, brk, size, pre, rest) && rest != [] && !Takes(rest[0], rest[1..], size)
    ensures WalkedPast(bs, brk, size, pre + [rest[0]], rest[1..])
  {
    ConcatAssociates(pre, [rest[0]], Allocated(rest[1..], brk, size));
  }

  // ---------- mm_free ----------

  // The block being freed, after lines 153-157 joined it to a free neighbour before it ...
  function JoinedBefore(pre: seq<Block>, b: Block): (seq<Block>, Block) {
    if pre != [] && pre[|pre| - 1].Free? then
      var p := pre[|pre| - 1];
      (pre[..|pre| - 1], Free(p.addr, Low32(p.size + Stored(b) + H)))
    else (pre, Free(b.addr, Stored(b)))
  }

  // ... and after lines 158-166 joined it to one behind it.
  function JoinedBehind(b: Block, post: seq<Block>): (Block, seq<Block>) {
    if post != [] && post[0].Free? then (Free(b.addr, Low32(Stored(b) + post[0].size + H)), post[1..])
    else (b, post)
  }

  function Freed(pre: seq<Block>, b: Block, post: seq<Block>): seq<Block> {
    var (pre', b') := JoinedBefore(pre, b);
    var (b'', post') := JoinedBehind(b', post);
    pre' + ([b''] + post')
  }

  lemma FreeInPlace(pre: seq<Block>, b: Block, post: seq<Block>, brk: nat)
    requires b.Used? && WellFormed(pre + ([b] + post), brk)
    ensures WellFormed(pre + ([Free(b.addr, Stored(b))] + post), brk)
    ensures First(pre + ([Free(b.addr, Stored(b))] + post), 0) == First(pre + ([b] + post), 0)
  {
    var b0 := Free(b.addr, Stored(b));
    CutLayout(pre, [b] + post, brk);
    CutLayout([b], post, brk);
    CutLayout([b0], post, brk);
    CutLayout(pre, [b0] + post, brk);
  }

  lemma JoinedBeforeWellFormed(pre: seq<Block>, b: Block, post: seq<Block>, brk: nat)
    requires b.Used? && WellFormed(pre + ([b] + post), brk)
    ensures var (pre', b') := JoinedBefore(pre, b);
      WellFormed(pre' + ([b'] + post), brk) && First(pre' + ([b'] + post), 0) == First(pre + ([b] + post), 0)
  {
    FreeInPlace(pre, b, post, brk);
    if EndsFree(pre) {
      var init, p := pre[..|pre| - 1], pre[|pre| - 1];
      var joined := Free(p.addr, Low32(p.size + Stored(b) + H));
      assert pre == init + [p];
      CutLayout(pre, [b] + post, brk);
      CutLayout([b], post, brk);
      CutLayout(init, [p], b.addr);
      CutLayout([joined], post, brk);
      CutLayout(init, [joined] + post, brk);
    }
  }

  lemma JoinedBeforeMoves(pre: seq<Block>, b: Block, post: seq<Block>, brk: nat)
    requires WellFormed(pre + ([b] + post), brk)
    ensures JoinedBefore(pre, b).1.addr <= b.addr
    ensures JoinedBefore(pre, b).1.addr == b.addr <==> !EndsFree(pre)
  {
    if EndsFree(pre) {
      CutLayout(pre, [b] + post, brk);
      CutLayout(pre[..|pre| - 1], [pre[|pre| - 1]], b.addr);
      assert pre == pre[..|pre| - 1] + [pre[|pre| - 1]];
    }
  }

  lemma JoinedBehindWellFormed(pre: seq<Block>, b: Block, post: seq<Block>, brk: nat)
    requires b.Free? && WellFormed(pre + ([b] + post), brk)
    ensures var (b', post') := JoinedBehind(b, post);
      WellFormed(pre + ([b'] + post'), brk) && First(pre + ([b'] + post'), 0) == First(pre + ([b] + post), 0)
  {
    var (b', post') := JoinedBehind(b, post);
    CutLayout(pre, [b] + post, brk);
    CutLayout([b], post, brk);
    CutLayout([b'], post', brk);
    CutLayout(pre, [b'] + post', brk);
  }

  lemma FreedWellFormed(pre: seq<Block>, b: Block, post: seq<Block>, brk: nat)
    requires b.Used? && WellFormed(pre + ([b] + post), brk)
    ensures WellFormed(Freed(pre, b, post), brk)
    ensures First(Freed(pre, b, post), 0) == First(pre + ([b] + post), 0)
  {
    var (pre', b') := JoinedBefore(pre, b);
    JoinedBeforeWellFormed(pre, b, post, brk);
    JoinedBehindWellFormed(pre', b', post, brk);
  }

  lemma FreedNoTwoFree(pre: seq<Block>, b: Block, post: seq<Block>)
    requires b.Used? && NoTwoFree(pre + ([b] + post))
    ensures NoTwoFree(Freed(pre, b, post))
  {
    var (pre', b') := JoinedBefore(pre, b);
    var (b'', post') := JoinedBehind(b', post);
    CutNoTwoFree(pre, [b] + post);
    CutNoTwoFree([b], post);
    if pre' != pre {
      assert pre == pre' + [pre[|pre| - 1]];
      CutNoTwoFree(pre', [pre[|pre| - 1]]);
    }
    CutNoTwoFree(pre', [b''] + post');
    CutNoTwoFree([b''], post');
  }

  lemma FreedRemovesOne(pre: seq<Block>, b: Block, post: seq<Block>)
    requires b.Used?
    ensures UsedBlocks(Freed(pre, b, post)) == UsedBlocks(pre) + UsedBlocks(post)
  {
    var (pre', b') := JoinedBefore(pre, b);
    var (b'', post') := JoinedBehind(b', post);
    UsedConcat(pre', [b''] + post');
    UsedConcat([b''], post');
    if pre' != pre {
      assert pre == pre' + [pre[|pre| - 1]];
      UsedConcat(pre', [pre[|pre| - 1]]);
    }
    if post' != post {
      assert post == [post[0]] + post';
      UsedConcat([post[0]], post');
    }
  }

  // ---------- The headers of a row of blocks ----------

  function MetaOf(b: Block, prev: nat, next: nat): Meta {
    Meta(prev, next, if b.Free? then 1 else 0, Stored(b))
  }

  // The headers in metas describe bs and link it both ways, from prev on the left to next on
  // the right.
  ghost predicate Chained(metas: map<nat, Meta>, bs: seq<Block>, prev: nat, next: nat) {
    bs != [] ==>
      && bs[0].addr in metas && metas[bs[0].addr] == MetaOf(bs[0], prev, First(bs[1..], next))
      && Chained(metas, bs[1..], bs[0].addr, next)
  }

  lemma {:induction false} CutChain(metas: map<nat, Meta>, a: seq<Block>, b: seq<Block>, prev: nat, next: nat)
    ensures Chained(metas, a + b, prev, next) <==>
      && Chained(metas, a, prev, First(b, next))
      && Chained(metas, b, Last(a, prev), next)
  {
    if a == [] {
      assert a + b == b;
    } else {
      assert (a + b)[1..] == a[1..] + b;
      CutChain(metas, a[1..], b, a[0].addr, next);
    }
  }

  // Only the headers of its own blocks matter to a chain.
  lemma {:induction false} ChainKept(metas: map<nat, Meta>, metas': map<nat, Meta>, bs: seq<Block>, prev: nat,
                                     next: nat)
    requires Chained(metas, bs, prev, next)
    requires forall a :: a in Addrs(bs) && a in metas ==> a in metas' && metas'[a] == metas[a]
    ensures Chained(metas', bs, prev, next)
  {
    if bs != [] {
      ChainKept(metas, metas', bs[1..], bs[0].addr, next);
    }
  }

  // Blocks of different parts of a row have different addresses.
  lemma PartsDiffer(a: seq<Block>, b: seq<Block>, end: nat)
    requires WellFormed(a + b, end)
    ensures forall x, y :: x in Addrs(a) && y in Addrs(b) ==> x + H <= y
  {
    CutLayout(a, b, end);
    StartsBelow(a, First(b, end));
    StartsBelow(b, end);
  }

  // Part grp of a row gives way to mid, which starts at the same address: the rest of the
  // chain stands if the block behind it points back to the last block of mid.
  lemma Relink(metas: map<nat, Meta>, metas': map<nat, Meta>, pre: seq<Block>, grp: seq<Block>, mid: seq<Block>,
               post: seq<Block>)
    requires grp != [] && mid != [] && mid[0].addr == grp[0].addr
    requires Chained(metas, pre + (grp + post), 0, 0)
    requires Chained(metas', mid, Last(pre, 0), First(post, 0))
    requires forall a :: a in Addrs(pre) && a in metas ==> a in metas' && metas'[a] == metas[a]
    requires post != [] ==>
      && post[0].addr in metas && post[0].addr in metas'
      && metas'[post[0].addr] == metas[post[0].addr].(prev := Last(mid, 0))
      && forall a :: a in Addrs(post[1..]) && a in metas ==> a in metas' && metas'[a] == metas[a]
    ensures Chained(metas', pre + (mid + post), 0, 0)
  {
    CutChain(metas, pre, grp + post, 0, 0);
    CutChain(metas, grp, post, Last(pre, 0), 0);
    ChainKept(metas, metas', pre, 0, grp[0].addr);
    if post != [] {
      ChainKept(metas, metas', post[1..], post[0].addr, 0);
    }
    CutChain(metas', mid, post, Last(pre, 0), 0);
    CutChain(metas', pre, mid + post, 0, 0);
  }

  // The headers around a block in the middle of a row.
  lemma MetaInside(metas: map<nat, Meta>, pre: seq<Block>, b: Block, post: seq<Block>)
    requires Chained(metas, pre + ([b] + post), 0, 0)
    ensures b.addr in metas && metas[b.addr] == MetaOf(b, Last(pre, 0), First(post, 0))
    ensures Chained(metas, pre, 0, b.addr) && Chained(metas, post, b.addr, 0)
  {
    CutChain(metas, pre, [b] + post, 0, 0);
    CutChain(metas, [b], post, Last(pre, 0), 0);
  }

  lemma MetaBefore(metas: map<nat, Meta>, pre: seq<Block>, next: nat)
    requires Chained(metas, pre, 0, next) && pre != []
    ensures var init, l := pre[..|pre| - 1], pre[|pre| - 1];
      pre == init + [l] && l.addr in metas && metas[l.addr] == MetaOf(l, Last(init, 0), next)
  {
    var init, l := pre[..|pre| - 1], pre[|pre| - 1];
    assert pre == init + [l];
    CutChain(metas, init, [l], 0, next);
  }

  // The three parts of a row have different addresses.
  lemma ThreeParts(pre: seq<Block>, b: Block, post: seq<Block>, end: nat)
    requires WellFormed(pre + ([b] + post), end)
    ensures forall a :: a in Addrs(pre) ==> a + H <= b.addr
    ensures FitsBelow(b, First(post, end)) && First(post, end) <= end
    ensures forall a :: a in Addrs(post) ==> First(post, end) <= a
    ensures post != [] ==> forall a :: a in Addrs(post[1..]) ==> post[0].addr + H <= a
    ensures Addrs(pre + ([b] + post)) == Addrs(pre) + ({b.addr} + Addrs(post))
  {
    PartsDiffer(pre, [b] + post, end);
    CutLayout(pre, [b] + post, end);
    CutLayout([b], post, end);
    StartsBelow(post, end);
    AddrsConcat(pre, [b] + post);
    AddrsConcat([b], post);
    if post != [] {
      assert post == [post[0]] + post[1..];
      CutLayout([post[0]], post[1..], end);
      StartsBelow(post[1..], end);
    }
  }

  // Nothing but b's own header lies between the block before b and the block behind it.
  lemma BlockClear(keys: set<nat>, pre: seq<Block>, b: Block, post: seq<Block>, end: nat)
    requires WellFormed(pre + ([b] + post), end) && keys == Addrs(pre + ([b] + post))
    ensures forall a :: a in keys ==> a + H <= b.addr || a == b.addr || (post != [] && post[0].addr <= a)
  {
    ThreeParts(pre, b, post, end);
  }

  // How the headers change when block b, with post behind it, is carved.
  ghost predicate CarvedMetas(metas: map<nat, Meta>, metas': map<nat, Meta>, b: Block, post: seq<Block>, size: nat) {
    var added := b.addr + H + size;
    b.addr in metas && b.addr in metas' &&
    if Gap(b, post) >= size + H then
      && metas'.Keys == metas.Keys + {added} && added !in metas
      && metas'[b.addr] == metas[b.addr].(next := added, free := 0, size := Low32(size))
      && metas'[added] == Meta(b.addr, First(post, 0), 1, Low32(Gap(b, post) - size - H))
      && (post != [] ==>
            && post[0].addr in metas && post[0].addr in metas'
            && metas'[post[0].addr] == metas[post[0].addr].(prev := added))
      && forall a :: a in metas && a != b.addr && !(post != [] && a == post[0].addr) ==> metas'[a] == metas[a]
    else metas' == metas[b.addr := metas[b.addr].(free := 0, size := Low32(size))]
  }

  lemma CarvedMid(metas: map<nat, Meta>, metas': map<nat, Meta>, b: Block, post: seq<Block>, size: nat, prev: nat)
    requires CarvedMetas(metas, metas', b, post, size)
    requires metas[b.addr] == MetaOf(b, prev, First(post, 0))
    ensures Chained(metas', Carve(b, post, size), prev, First(post, 0))
  {
    var mid := Carve(b, post, size);
    if Gap(b, post) >= size + H {
      assert mid[1..] == [mid[1]];
      assert Chained(metas', mid[1..], b.addr, First(post, 0));
    } else {
      assert mid[1..] == [];
    }
  }

  lemma CarvedKeys(metas: map<nat, Meta>, metas': map<nat, Meta>, pre: seq<Block>, b: Block, post: seq<Block>,
                   size: nat)
    requires CarvedMetas(metas, metas', b, post, size) && metas.Keys == Addrs(pre + ([b] + post))
    ensures metas'.Keys == Addrs(pre + (Carve(b, post, size) + post))
  {
    var mid := Carve(b, post, size);
    AddrsConcat(pre, [b] + post);
    AddrsConcat([b], post);
    AddrsConcat(pre, mid + post);
    AddrsConcat(mid, post);
    if Gap(b, post) >= size + H {
      assert mid == [mid[0]] + [mid[1]];
      AddrsConcat([mid[0]], [mid[1]]);
    }
  }

  lemma CarvedChain(metas: map<nat, Meta>, metas': map<nat, Meta>, pre: seq<Block>, b: Block, post: seq<Block>,
                    size: nat, end: nat)
    requires WellFormed(pre + ([b] + post), end) && Chained(metas, pre + ([b] + post), 0, 0)
    requires CarvedMetas(metas, metas', b, post, size)
    ensures Chained(metas', pre + (Carve(b, post, size) + post), 0, 0)
  {
    ThreeParts(pre, b, post, end);
    MetaInside(metas, pre, b, post);
    CarvedMid(metas, metas', b, post, size, Last(pre, 0));
    Relink(metas, metas', pre, [b], Carve(b, post, size), post);
  }

  // A new block behind the last one.
  lemma AppendedChain(metas: map<nat, Meta>, metas': map<nat, Meta>, bs: seq<Block>, b: Block, end: nat)
    requires WellFormed(bs, end) && Chained(metas, bs, 0, 0) && bs != [] && end <= b.addr
    requires Last(bs, 0) in metas
    requires metas' == metas[Last(bs, 0) := metas[Last(bs, 0)].(next := b.addr)][b.addr := MetaOf(b, Last(bs, 0), 0)]
    ensures Chained(metas', bs + [b], 0, 0)
  {
    var init, l := bs[..|bs| - 1], bs[|bs| - 1];
    MetaBefore(metas, bs, 0);
    PartsDiffer(init, [l], end);
    CutLayout(init, [l], end);
    StartsBelow(init, l.addr);
    TwoChained(metas', l, b, Last(init, 0));
    assert init + ([l] + []) == bs && init + ([l, b] + []) == bs + [b];
    Relink(metas, metas', init, [l], [l, b], []);
  }

  lemma TwoChained(metas: map<nat, Meta>, l: Block, b: Block, prev: nat)
    requires l.addr in metas && metas[l.addr] == MetaOf(l, prev, b.addr)
    requires b.addr in metas && metas[b.addr] == MetaOf(b, l.addr, 0)
    ensures Chained(metas, [l, b], prev, 0)
  {
    assert [l, b][1..] == [b];
    assert Chained(metas, [b], l.addr, 0);
  }

  lemma CarvedRow(metas: map<nat, Meta>, metas': map<nat, Meta>, pre: seq<Block>, b: Block, post: seq<Block>,
                  size: nat, end: nat)
    requires WellFormed(pre + ([b] + post), end) && Chained(metas, pre + ([b] + post), 0, 0)
    requires CarvedMetas(metas, metas', b, post, size) && metas.Keys == Addrs(pre + ([b] + post))
    ensures Chained(metas', pre + (Carve(b, post, size) + post), 0, 0)
    ensures metas'.Keys == Addrs(pre + (Carve(b, post, size) + post))
  {
    CarvedChain(metas, metas', pre, b, post, size, end);
    CarvedKeys(metas, metas', pre, b, post, size);
  }

  lemma AppendedRow(metas: map<nat, Meta>, metas': map<nat, Meta>, bs: seq<Block>, b: Block, end: nat)
    requires WellFormed(bs, end) && Chained(metas, bs, 0, 0) && bs != [] && end <= b.addr && metas.Keys == Addrs(bs)
    requires Last(bs, 0) in metas
    requires metas' == metas[Last(bs, 0) := metas[Last(bs, 0)].(next := b.addr)][b.addr := MetaOf(b, Last(bs, 0), 0)]
    ensures Chained(metas', bs + [b], 0, 0) && metas'.Keys == Addrs(bs + [b])
  {
    AppendedChain(metas, metas', bs, b, end);
    AddrsConcat(bs, [b]);
  }

  // ---------- The headers while a block is being freed ----------

  // Free block b between pre and post, except that its `free` flag may still be down and that
  // the block behind it may still point back to an address `back`.
  ghost predicate Pieces(metas: map<nat, Meta>, pre: seq<Block>, b: Block, post: seq<Block>, back: nat) {
    && Chained(metas, pre, 0, b.addr)
    && b.addr in metas && metas[b.addr].(free := 1) == MetaOf(b, Last(pre, 0), First(post, 0))
    && Chained(metas, post, back, 0)
    && metas.Keys == Addrs(pre) + ({b.addr} + Addrs(post))
  }

  lemma PiecesStart(metas: map<nat, Meta>, pre: seq<Block>, b: Block, post: seq<Block>)
    requires Chained(metas, pre + ([b] + post), 0, 0) && metas.Keys == Addrs(pre + ([b] + post)) && b.Used?
    ensures Pieces(metas, pre, Free(b.addr, Stored(b)), post, b.addr)
  {
    MetaInside(metas, pre, b, post);
    AddrsConcat(pre, [b] + post);
    AddrsConcat([b], post);
  }

  // Lines 154-156.
  lemma PiecesBefore(metas: map<nat, Meta>, pre: seq<Block>, b: Block, post: seq<Block>, end: nat, size: nat)
    requires Pieces(metas, pre, b, post, b.addr) && pre != [] && pre[|pre| - 1].Free? && b.Free?
    requires WellFormed(pre + ([b] + post), end)
    ensures var p := pre[|pre| - 1];
      p.addr in metas && p.addr != b.addr &&
      var metas' := metas[p.addr := metas[p.addr].(size := size, next := metas[b.addr].next)] - {b.addr};
      Pieces(metas', pre[..|pre| - 1], Free(p.addr, size), post, b.addr)
  {
    var init, p := pre[..|pre| - 1], pre[|pre| - 1];
    MetaBefore(metas, pre, b.addr);
    ThreeParts(pre, b, post, end);
    CutChain(metas, init, [p], 0, b.addr);
    AddrsConcat(init, [p]);
    CutLayout(pre, [b] + post, end);
    PartsDiffer(init, [p], b.addr);
    var metas' := metas[p.addr := metas[p.addr].(size := size, next := metas[b.addr].next)] - {b.addr};
    ChainKept(metas, metas', init, 0, p.addr);
    ChainKept(metas, metas', post, b.addr, 0);
  }

  // Lines 159-165.
  lemma PiecesBehind(metas: map<nat, Meta>, pre: seq<Block>, b: Block, post: seq<Block>, back: nat, end: nat, size: nat)
    requires Pieces(metas, pre, b, post, back) && post != [] && post[0].Free? && b.Free?
    requires WellFormed(pre + ([b] + post), end)
    ensures var n := post[0];
      n.addr in metas && n.addr != b.addr &&
      var metas1 := metas[b.addr := metas[b.addr].(size := size, next := metas[n.addr].next)];
      if post[1..] == [] then Pieces(metas1 - {n.addr}, pre, Free(b.addr, size), [], b.addr)
      else
        var a := post[1].addr;
        && a in metas1 && a != n.addr
        && Pieces(metas1[a := metas1[a].(prev := b.addr)] - {n.addr}, pre, Free(b.addr, size), post[1..], b.addr)
  {
    var n, rest := post[0], post[1..];
    ThreeParts(pre, b, post, end);
    var metas1 := metas[b.addr := metas[b.addr].(size := size, next := metas[n.addr].next)];
    var metas' := if rest == [] then metas1 - {n.addr}
      else metas1[rest[0].addr := metas1[rest[0].addr].(prev := b.addr)] - {n.addr};
    ChainKept(metas, metas', pre, 0, b.addr);
    assert Chained(metas, rest, n.addr, 0);
    if rest != [] {
      CutLayout(pre, [b] + post, end);
      CutLayout([b], post, end);
      assert rest == [rest[0]] + rest[1..];
      StartsBelow(rest[1..], end);
      assert Chained(metas, rest[1..], rest[0].addr, 0);
      ChainKept(metas, metas', rest[1..], rest[0].addr, 0);
    }
  }

  // The repair: the block behind is made to point back to b.
  lemma PiecesBack(metas: map<nat, Meta>, pre: seq<Block>, b: Block, post: seq<Block>, back: nat, end: nat)
    requires Pieces(metas, pre, b, post, back) && WellFormed(pre + ([b] + post), end) && post != []
    ensures post[0].addr in metas
    ensures Pieces(metas[post[0].addr := metas[post[0].addr].(prev := b.addr)], pre, b, post, b.addr)
  {
    var metas' := metas[post[0].addr := metas[post[0].addr].(prev := b.addr)];
    ThreeParts(pre, b, post, end);
    ChainKept(metas, metas', pre, 0, b.addr);
    assert Chained(metas, post[1..], post[0].addr, 0);
    ChainKept(metas, metas', post[1..], post[0].addr, 0);
  }

  // With the flag raised (line 167), all is linked exactly if the back link is right.
  lemma PiecesEnd(metas: map<nat, Meta>, pre: seq<Block>, b: Block, post: seq<Block>, back: nat, end: nat)
    requires Pieces(metas, pre, b, post, back) && WellFormed(pre + ([b] + post), end)
    ensures var metas' := metas[b.addr := metas[b.addr].(free := 1)];
      && metas'.Keys == Addrs(pre + ([b] + post))
      && (Chained(metas', pre + ([b] + post), 0, 0) <==> post == [] || back == b.addr)
  {
    var metas' := metas[b.addr := metas[b.addr].(free := 1)];
    ThreeParts(pre, b, post, end);
    ChainKept(metas, metas', pre, 0, b.addr);
    ChainKept(metas, metas', post, back, 0);
    CutChain(metas', pre, [b] + post, 0, 0);
    CutChain(metas', [b], post, Last(pre, 0), 0);
  }
}
