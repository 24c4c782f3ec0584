/**
  The sizes of the blocks of `malloc-master/mm_alloc.c`, told case by case: what an allocation
  leaves of the block it takes, and what a freed block is joined to.
 */
module HeapSizes {
  import opened Prelude
  import opened HeapBlocks

  // ---------- mm_free ----------

  // The four cases of lines 153-166, each with the size of the block that is left.
  lemma FreedExactly(pre: seq<Block>, b: Block, post: seq<Block>)
    requires b.Used?
    ensures var n := b.extent % 0x1_0000_0000;
      Freed(pre, b, post) ==
        if pre == [] || pre[|pre| - 1].Used? then
          if post == [] || post[0].Used? then pre + ([Free(b.addr, n)] + post)
          else pre + ([Free(b.addr, (n + 24 + post[0].size) % 0x1_0000_0000)] + post[1..])
        else
          var p := pre[|pre| - 1];
          if post == [] || post[0].Used? then
            pre[..|pre| - 1] + ([Free(p.addr, (p.size + 24 + n) % 0x1_0000_0000)] + post)
          else
            pre[..|pre| - 1] + ([Free(p.addr, (p.size + 24 + n + 24 + post[0].size) % 0x1_0000_0000)] + post[1..])
  {
    if EndsFree(pre) && StartsFree(post) {
      var n, p, q := b.extent % 0x1_0000_0000, pre[|pre| - 1], post[0];
      CutTwice(p.size + n + 24, q.size + 24);
      assert (p.size + n + 24) + (q.size + 24) == p.size + 24 + n + 24 + q.size;
    }
  }

  lemma CutTwice(a: nat, b: nat)
    ensures (a % 0x1_0000_0000 + b) % 0x1_0000_0000 == (a + b) % 0x1_0000_0000
  {
  }

  // The bytes that the headers of a row account for.
  function Total(bs: seq<Block>): nat {
    if bs == [] then 0 else 24 + Stored(bs[0]) + Total(bs[1..])
  }

  lemma {:induction false} TotalConcat(a: seq<Block>, b: seq<Block>)
    ensures Total(a + b) == Total(a) + Total(b)
  {
    if a == [] {
      assert a + b == b;
    } else {
      assert (a + b)[1..] == a[1..] + b;
      TotalConcat(a[1..], b);
    }
  }

  lemma TotalOfThree(a: seq<Block>, b: Block, c: seq<Block>)
    ensures Total(a + ([b] + c)) == Total(a) + (24 + Stored(b)) + Total(c)
  {
    TotalConcat(a, [b] + c);
    assert ([b] + c)[1..] == c;
  }

  // Freeing loses no byte: the header that vanishes is part of the block that takes it in.
  lemma FreedKeepsTotal(pre: seq<Block>, b: Block, post: seq<Block>)
    requires b.Used? && Total(pre + ([b] + post)) < 0x1_0000_0000
    ensures Total(Freed(pre, b, post)) == Total(pre + ([b] + post))
  {
    var (pre', b') := JoinedBefore(pre, b);
    var (b'', post') := JoinedBehind(b', post);
    TotalOfThree(pre, b, post);
    TotalOfThree(pre', b', post);
    TotalOfThree(pre', b'', post');
    if EndsFree(pre) {
      assert pre == pre' + ([pre[|pre| - 1]] + []);
      TotalOfThree(pre', pre[|pre| - 1], []);
    }
  }

  // ---------- mm_malloc ----------

  // A block in the middle is taken: what is split off ends at the next header, and without a split
  // fewer than 24 bytes are left over in front of it.
  lemma TakenInTheMiddle(pre: seq<Block>, b: Block, post: seq<Block>, brk: nat, size: nat)
    requires forall i :: 0 <= i < |pre| ==> pre[i].Used? || pre[i].size < size
    requires b.Free? && size <= b.size && post != [] && b.addr + 24 + b.size <= post[0].addr
    ensures var (bs, end, next) := (pre + ([b] + post), b.addr + 24 + size, post[0].addr);
      && Place(bs, brk, size) == b.addr && Demand(bs, size) == 0
      && (next < end + 24 ==> Allocated(bs, brk, size) == pre + ([Used(b.addr, size)] + post))
      && (next >= end + 24 ==> exists rest: nat ::
            && Allocated(bs, brk, size) == pre + ([Used(b.addr, size), Free(end, rest)] + post)
            && rest == (next - end - 24) % 0x1_0000_0000
            && (next - end - 24 < 0x1_0000_0000 ==> end + 24 + rest == next))
  {
    WalksTo(pre, b, post, brk, size);
  }

  // The last block is taken: it is made as large as asked for, or what it has too much is split off.
  lemma TakenAtTheEnd(pre: seq<Block>, b: Block, brk: nat, size: nat)
    requires forall i :: 0 <= i < |pre| ==> pre[i].Used? || pre[i].size < size
    requires b.Free? && b.size < 0x1_0000_0000
    ensures var (bs, end) := (pre + [b], b.addr + 24 + size);
      && Place(bs, brk, size) == b.addr
      && Demand(bs, size) == (if b.size < size then size - b.size else 0)
      && (b.size < size + 24 ==> Allocated(bs, brk, size) == pre + [Used(b.addr, size)])
      && (b.size >= size + 24 ==>
            Allocated(bs, brk, size) == pre + [Used(b.addr, size), Free(end, b.size - size - 24)])
  {
    WalksTo(pre, b, [], brk, size);
    assert [b] + [] == [b];
  }

  // No block will do: a new one at the break.
  lemma {:induction false} TakenAtTheBreak(bs: seq<Block>, brk: nat, size: nat)
    requires forall i :: 0 <= i < |bs| ==> bs[i].Used? || (i + 1 < |bs| && bs[i].size < size)
    ensures Place(bs, brk, size) == brk && Demand(bs, size) == size + 24
    ensures Allocated(bs, brk, size) == bs + [Used(brk, size)]
  {
    if bs != [] {
      TakenAtTheBreak(bs[1..], brk, size);
      ConcatAssociates([bs[0]], bs[1..], [Used(brk, size)]);
    }
  }

  lemma {:induction false} WalksTo(pre: seq<Block>, b: Block, post: seq<Block>, brk: nat, size: nat)
    requires forall i :: 0 <= i < |pre| ==> pre[i].Used? || pre[i].size < size
    requires Takes(b, post, size)
    ensures var bs := pre + ([b] + post);
      && Place(bs, brk, size) == b.addr && Demand(bs, size) == Demand([b] + post, size)
      && Allocated(bs, brk, size) == pre + (Carve(b, post, size) + post)
    decreases |pre|
  {
    var bs := pre + ([b] + post);
    if pre == [] {
      assert bs == [b] + post && bs[1..] == post;
    } else {
      assert bs[0] == pre[0] && bs[1..] == pre[1..] + ([b] + post);
      WalksTo(pre[1..], b, post, brk, size);
      ConcatAssociates([pre[0]], pre[1..], Carve(b, post, size) + post);
    }
  }
}
