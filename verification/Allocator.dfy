/**
  `malloc-master/mm_alloc.c` on its memory: every header field is read from and written to
  the same array the payloads live in.  The ghost fields say what those bytes mean: metas
  decodes the headers, blocks is the list they form, data watches payload bytes.
 */
module Allocator {
  import opened Prelude
  import opened CBytes
  import opened HeapMemory
  import opened HeapBlocks
  import opened HeapPayloads
  import opened HeapOverrun

  const NULL: nat := 0

  // sbrk takes a signed number of bytes.
  const SIGNED: nat := 0x8000_0000_0000_0000

  // Would the demand on sbrk not be met, with memory up to limit?
  predicate Fails(bs: seq<Block>, brk: nat, limit: nat, size: nat, refuse: bool) {
    Demand(bs, size) > 0 && (refuse || brk + Demand(bs, size) > limit)
  }

  class Heap {
    const mem: array<char>
    var startOfMem: int
    var brk: nat
    ghost var metas: map<nat, Meta>
    ghost var data: map<nat, string>
    ghost var blocks: seq<Block>

    ghost predicate Memory()
      reads this, mem
    {
      brk > 0 && Holds(mem[..], brk, metas, data)
    }

    // All but the links: what does not depend on `prev` and `next` being right.
    ghost predicate Sound()
      reads this, mem
    {
      && Memory() && WellFormed(blocks, brk) && NoTwoFree(blocks)
      && metas.Keys == Addrs(blocks) && Served(blocks, data)
      && startOfMem == (if blocks == [] then -1 else blocks[0].addr)
    }

    ghost predicate Valid()
      reads this, mem
    {
      Sound() && Chained(metas, blocks, NULL, NULL)
    }

    // What is watched is what is in memory.
    lemma BytesAreWatched(p: nat)
      requires Memory() && p in data
      ensures p + |data[p]| <= brk <= mem.Length && mem[p..p + |data[p]|] == data[p]
    {
      assert Watched(mem[..], p, data[p]);
      assert mem[..][p..p + |data[p]|] == mem[p..p + |data[p]|];
    }

    // A process image: the break somewhere above address 0, nothing allocated yet.
    constructor (mem: array<char>, brk: nat)
      requires 0 < brk <= mem.Length < Pow256(8)
      ensures Valid() && this.mem == mem && this.brk == brk && blocks == []
    {
      this.mem, this.brk, startOfMem := mem, brk, -1;
      metas, data, blocks := map[], map[], [];
    }

    // ---------- Bytes ----------

    method StoreBytes(a: nat, s: string)
      requires a + |s| <= mem.Length
      modifies mem
      ensures mem[..] == Splice(old(mem[..]), a, s)
    {
      for i := 0 to |s|
        invariant forall k :: 0 <= k < mem.Length ==> mem[k] == if a <= k < a + i then s[k - a] else old(mem[k])
      {
        mem[a + i] := s[i];
      }
    }

    method LoadInt(a: nat, n: nat) returns (v: nat)
      requires a + n <= mem.Length
      ensures v == Unle(mem[..][a..a + n])
    {
      v := Unle(mem[a..a + n]);
      assert mem[..][a..a + n] == mem[a..a + n];
    }

    // ---------- Header fields ----------

    method GetPrev(a: nat) returns (v: nat)
      requires Memory() && a in metas
      ensures v == metas[a].prev && v < Pow256(8)
    {
      ReadsHeader(mem[..], a, metas[a]);
      v := LoadInt(a, 8);
    }

    method GetNext(a: nat) returns (v: nat)
      requires Memory() && a in metas
      ensures v == metas[a].next && v < Pow256(8)
    {
      ReadsHeader(mem[..], a, metas[a]);
      v := LoadInt(a + 8, 8);
    }

    method GetFree(a: nat) returns (v: nat)
      requires Memory() && a in metas
      ensures v == metas[a].free
    {
      ReadsHeader(mem[..], a, metas[a]);
      v := LoadInt(a + 16, 4);
    }

    method GetSize(a: nat) returns (v: nat)
      requires Memory() && a in metas
      ensures v == metas[a].size
    {
      ReadsHeader(mem[..], a, metas[a]);
      v := LoadInt(a + 20, 4);
    }

    method SetPrevField(a: nat, v: nat)
      requires Memory() && a in metas && v < Pow256(8)
      modifies mem, this`metas
      ensures Memory() && metas == old(metas)[a := old(metas)[a].(prev := v)]
    {
      SetPrev(mem[..], a, metas[a], v);
      WriteHeader(mem[..], brk, metas, data, a, a, Le(v, 8), metas[a].(prev := v));
      StoreBytes(a, Le(v, 8));
      metas := metas[a := metas[a].(prev := v)];
    }

    method SetNextField(a: nat, v: nat)
      requires Memory() && a in metas && v < Pow256(8)
      modifies mem, this`metas
      ensures Memory() && metas == old(metas)[a := old(metas)[a].(next := v)]
    {
      SetNext(mem[..], a, metas[a], v);
      WriteHeader(mem[..], brk, metas, data, a, a + 8, Le(v, 8), metas[a].(next := v));
      StoreBytes(a + 8, Le(v, 8));
      metas := metas[a := metas[a].(next := v)];
    }

    method SetFreeField(a: nat, v: nat)
      requires Memory() && a in metas && v <= 1
      modifies mem, this`metas
      ensures Memory() && metas == old(metas)[a := old(metas)[a].(free := v)]
    {
      Widths();
      SetFree(mem[..], a, metas[a], v);
      WriteHeader(mem[..], brk, metas, data, a, a + 16, Le(v, 4), metas[a].(free := v));
      StoreBytes(a + 16, Le(v, 4));
      metas := metas[a := metas[a].(free := v)];
    }

    // The field is an unsigned int: it keeps 32 bits.
    method SetSizeField(a: nat, v: nat)
      requires Memory() && a in metas
      modifies mem, this`metas
      ensures Memory() && metas == old(metas)[a := old(metas)[a].(size := Low32(v))]
    {
      Widths();
      SetSize(mem[..], a, metas[a], Low32(v));
      WriteHeader(mem[..], brk, metas, data, a, a + 20, Le(Low32(v), 4), metas[a].(size := Low32(v)));
      StoreBytes(a + 20, Le(Low32(v), 4));
      metas := metas[a := metas[a].(size := Low32(v))];
    }

    // All four fields of a block that had no header yet.
    method NewHeader(a: nat, prev: nat, next: nat, free: nat, size: nat)
      requires Memory() && 0 < a && a + H <= brk && prev <= mem.Length && next <= mem.Length && free <= 1
      requires forall b :: b in metas ==> Apart(a, H, b, H)
      requires forall p :: p in data ==> Apart(a, H, p, |data[p]|)
      modifies mem, this`metas
      ensures Memory() && metas == old(metas)[a := Meta(prev, next, free, Low32(size))]
    {
      Widths();
      ghost var x := Meta(prev, next, free, Low32(size));
      SetAll(mem[..], a, x);
      StoreField(a, prev, 8);
      StoreField(a + 8, next, 8);
      StoreField(a + 16, free, 4);
      StoreField(a + 20, Low32(size), 4);
      AddHeader(mem[..], brk, metas, data, a, x);
      metas := metas[a := x];
    }

    method StoreField(a: nat, v: nat, n: nat)
      requires Memory() && a + n <= brk
      requires forall b :: b in metas ==> Apart(a, n, b, H)
      requires forall p :: p in data ==> Apart(a, n, p, |data[p]|)
      modifies mem
      ensures Memory() && mem[..] == Splice(old(mem[..]), a, Le(v, n))
    {
      WriteElsewhere(mem[..], brk, metas, data, a, Le(v, n));
      StoreBytes(a, Le(v, n));
    }

    method Memset(p: nat, n: nat)
      requires Memory() && p + n <= brk
      requires forall a :: a in metas ==> Apart(a, H, p, n)
      requires forall q :: q in data && q != p ==> Apart(p, n, q, |data[q]|)
      modifies mem, this`data
      ensures Memory() && data == old(data)[p := Zeros(n)]
    {
      WritePayload(mem[..], brk, metas, data, p, Zeros(n));
      StoreBytes(p, Zeros(n));
      data := data[p := Zeros(n)];
    }

    // ---------- mm_malloc ----------

    // sbrk: refuses for reasons of its own, or because there is no memory left.
    method Sbrk(n: nat, refuse: bool) returns (addr: int)
      requires Memory()
      modifies this`brk
      ensures Memory()
      ensures addr == if refuse || old(brk) + n > mem.Length then -1 else old(brk)
      ensures brk == if addr == -1 then old(brk) else old(brk) + n
    {
      if refuse || brk + n > mem.Length {
        addr := -1;
      } else {
        addr := brk;
        ghost var m := mem[..];
        brk := brk + n;
        assert mem[..] == m;
        GrowHolds(m, addr, brk, metas, data);
      }
    }

    // Lines 57-59 and 63-65: the block at cur becomes a used one of zeros.
    method Claim(cur: nat, size: nat)
      requires Memory() && cur in metas && cur + H + size <= brk
      requires forall a :: a in metas ==> Apart(a, H, cur + H, size)
      requires forall q :: q in data ==> Apart(cur + H, size, q, |data[q]|)
      modifies mem, this`metas, this`data
      ensures Memory() && data == old(data)[cur + H := Zeros(size)]
      ensures metas == old(metas)[cur := old(metas)[cur].(free := 0, size := Low32(size))]
    {
      SetFreeField(cur, 0);
      SetSizeField(cur, size);
      Memset(cur + H, size);
    }

    // Lines 49-54 and 67-76: the bytes from added on get a header of their own, between the
    // block at cur and the one at next.
    method SplitOff(cur: nat, added: nat, next: nat, size: nat)
      requires Memory() && cur in metas && (next == NULL || next in metas) && cur + H <= added && added + H <= brk
      requires next != NULL ==> added + H <= next <= brk
      requires forall a :: a in metas ==> Apart(a, H, added, H)
      requires forall q :: q in data ==> Apart(added, H, q, |data[q]|)
      modifies mem, this`metas
      ensures Memory()
      ensures added !in old(metas)
      ensures metas.Keys == old(metas).Keys + {added}
      ensures metas[cur] == old(metas)[cur].(next := added)
      ensures metas[added] == Meta(cur, next, 1, Low32(size))
      ensures next != NULL ==> metas[next] == old(metas)[next].(prev := added)
      ensures forall a :: a in old(metas) && a != cur && !(next != NULL && a == next) ==> metas[a] == old(metas)[a]
    {
      assert added in metas ==> Apart(added, H, added, H);
      SetNextField(cur, added);
      NewHeader(added, cur, next, 1, size);
      if next != NULL {
        SetPrevField(next, added);
      }
    }

    // What a walk that ends at block b, with pre before it and post behind it, leaves: the
    // headers of the carved row, and zeros for the caller in place of whatever was watched in the
    // bytes written.
    ghost predicate Took(metas0: map<nat, Meta>, data0: map<nat, string>, b: Block, post: seq<Block>, size: nat)
      reads this, mem
    {
      && Memory() && CarvedMetas(metas0, metas, b, post, size)
      && data == Outside(data0, b.addr, CarveEnd(b, post, size))[b.addr + H := Zeros(size)]
    }

    // Lines 47-60: b is free and last, and large enough by now.
    method CarveLast(cur: nat, size: nat, have: nat, ghost b: Block) returns (ptr: nat)
      requires Memory() && b.Free? && have == b.size && cur == b.addr && cur in metas && 0 < size
      requires cur + H + size <= brk && cur + H + b.size <= brk && b.size < 0x1_0000_0000
      requires forall a :: a in metas ==> a + H <= cur || a == cur
      modifies mem, this`metas, this`data
      ensures ptr == cur + H && Took(old(metas), old(data), b, [], size)
    {
      ghost var end := CarveEnd(b, [], size);
      FewerHold(mem[..], brk, metas, data, metas, Outside(data, cur, end));
      data := Outside(data, cur, end);
      ghost var metas0 := metas;
      if have >= size + H {
        SplitOff(cur, cur + H + size, NULL, have - size - H);
      }
      Claim(cur, size);
      assert CarvedMetas(metas0, metas, b, [], size);
      ptr := cur + H;
    }

    // Lines 41-61: b is free and last.
    method TakeLast(cur: nat, size: nat, refuse: bool, ghost pre: seq<Block>, ghost b: Block) returns (ptr: nat)
      requires Valid() && blocks == pre + ([b] + []) && b.Free? && cur == b.addr && 0 < size && size + H < SIGNED
      modifies mem, this`metas, this`data, this`brk
      ensures var demand := if b.size < size then size - b.size else 0;
        if demand > 0 && (refuse || old(brk) + demand > mem.Length)
        then ptr == NULL && unchanged(this, mem)
        else ptr == cur + H && brk == old(brk) + demand && Took(old(metas), old(data), b, [], size)
    {
      ThreeParts(pre, b, [], brk);
      BlockClear(metas.Keys, pre, b, [], brk);
      MetaInside(metas, pre, b, []);
      var have := GetSize(cur);
      if have < size {
        var addedAddr := Sbrk(size - have, refuse);
        if addedAddr == -1 {
          return NULL;
        }
      }
      ptr := CarveLast(cur, size, have, b);
    }

    // Lines 62-79: b is free, large enough, and not last.
    method TakeFitting(cur: nat, size: nat, ghost pre: seq<Block>, ghost b: Block, ghost post: seq<Block>)
      returns (ptr: nat)
      requires Valid() && blocks == pre + ([b] + post) && post != [] && b.Free? && cur == b.addr && 0 < size <= b.size
      modifies mem, this`metas, this`data
      ensures ptr == cur + H && Took(old(metas), old(data), b, post, size)
    {
      ThreeParts(pre, b, post, brk);
      BlockClear(metas.Keys, pre, b, post, brk);
      MetaInside(metas, pre, b, post);
      ghost var end := CarveEnd(b, post, size);
      FewerHold(mem[..], brk, metas, data, metas, Outside(data, cur, end));
      data := Outside(data, cur, end);
      ptr := CarveFitting(cur, size, b, post);
    }

    method CarveFitting(cur: nat, size: nat, ghost b: Block, ghost post: seq<Block>) returns (ptr: nat)
      requires Memory() && b.Free? && post != [] && cur == b.addr && 0 < size <= b.size
        && cur + H + b.size <= post[0].addr <= brk
      requires cur in metas && metas[cur].next == post[0].addr && post[0].addr in metas
      requires forall a :: a in metas ==> a + H <= cur || a == cur || post[0].addr <= a
      requires forall q :: q in data ==> Apart(cur, CarveEnd(b, post, size) - cur, q, |data[q]|)
      modifies mem, this`metas, this`data
      ensures Memory() && ptr == cur + H && CarvedMetas(old(metas), metas, b, post, size)
      ensures data == old(data)[ptr := Zeros(size)]
    {
      Claim(cur, size);
      ghost var metas1 := metas;
      var next := GetNext(cur);
      if next - cur - H >= size + H {
        var added := cur + H + size;
        SplitOff(cur, added, next, next - added - H);
      }
      ptr := cur + H;
    }

    // Lines 83-96: a new block at the break.
    method Append(last: nat, size: nat, refuse: bool) returns (ptr: nat)
      requires Valid() && blocks != [] && last == Last(blocks, 0) && 0 < size && size + H < SIGNED
      modifies mem, this`metas, this`data, this`brk
      ensures if refuse || old(brk) + (size + H) > mem.Length
        then ptr == NULL && unchanged(this, mem)
        else ptr == old(brk) + H && brk == old(brk) + (size + H) && Memory()
      ensures ptr != NULL ==>
        && last in old(metas)
        && metas == old(metas)[last := old(metas)[last].(next := old(brk))]
                      [old(brk) := Meta(last, NULL, 0, Low32(size))]
        && data == Outside(old(data), old(brk), brk)[ptr := Zeros(size)]
    {
      MetaBefore(metas, blocks, NULL);
      StartsBelow(blocks, brk);
      var end := brk;
      var addedAddr := Sbrk(size + H, refuse);
      if addedAddr == -1 {
        return NULL;
      }
      FewerHold(mem[..], brk, metas, data, metas, Outside(data, end, brk));
      data := Outside(data, end, brk);
      SetNextField(last, addedAddr);
      NewHeader(addedAddr, last, NULL, 0, size);
      Memset(addedAddr + H, size);
      ptr := addedAddr + H;
    }

    // An allocation of size bytes has happened to blocks bs0.
    ghost predicate Done(bs0: seq<Block>, brk0: nat, data0: map<nat, string>, size: nat)
      reads this, mem
    {
      && Memory() && blocks == Allocated(bs0, brk0, size) && brk == brk0 + Demand(bs0, size)
      && metas.Keys == Addrs(blocks) && Chained(metas, blocks, NULL, NULL)
      && Place(bs0, brk0, size) <= PlaceEnd(bs0, brk0, size)
      && data == Outside(data0, Place(bs0, brk0, size), PlaceEnd(bs0, brk0, size))
                   [Place(bs0, brk0, size) + H := Zeros(size)]
    }

    // The headers, bytes and break are done; the row of blocks follows.
    ghost method FinishCarve(metas0: map<nat, Meta>, data0: map<nat, string>, brk0: nat,
                             pre: seq<Block>, b: Block, post: seq<Block>, size: nat)
      requires blocks == pre + ([b] + post) && Takes(b, post, size) && WalkedPast(blocks, brk0, size, pre, [b] + post)
      requires WellFormed(blocks, brk0) && Chained(metas0, blocks, NULL, NULL) && metas0.Keys == Addrs(blocks)
      requires brk == brk0 + Demand([b] + post, size) && Took(metas0, data0, b, post, size)
      modifies this`blocks
      ensures Done(old(blocks), brk0, data0, size)
    {
      CarvedRow(metas0, metas, pre, b, post, size, brk0);
      assert ([b] + post)[1..] == post;
      blocks := pre + (Carve(b, post, size) + post);
    }

    // The walk of lines 38-82, up to the block it stops at.
    method FindFit(size: nat) returns (lastMet: nat, curMet: nat, ghost pre: seq<Block>, ghost rest: seq<Block>)
      requires Valid() && blocks != []
      ensures blocks == pre + rest && WalkedPast(blocks, brk, size, pre, rest)
      ensures curMet == First(rest, NULL) && lastMet == Last(pre, NULL)
      ensures rest != [] ==> curMet != NULL && Takes(rest[0], rest[1..], size)
    {
      pre, rest := [], blocks;
      assert blocks == [] + blocks;
      lastMet, curMet := NULL, startOfMem as nat;
      while curMet != NULL
        invariant blocks == pre + rest && curMet == First(rest, NULL) && lastMet == Last(pre, NULL)
        invariant WalkedPast(blocks, brk, size, pre, rest)
        invariant rest != [] ==> curMet != NULL
        decreases |rest|
      {
        ghost var b, post := rest[0], rest[1..];
        assert rest == [b] + post;
        MetaInside(metas, pre, b, post);
        ThreeParts(pre, b, post, brk);
        var free := GetFree(curMet);
        var next := GetNext(curMet);
        var has := GetSize(curMet);
        if free != 0 && (next == NULL || has >= size) {
          return;
        }
        WalkOn(blocks, brk, size, pre, rest);
        ConcatAssociates(pre, [b], post);
        pre, rest := pre + [b], post;
        lastMet, curMet := curMet, next;
      }
    }

    ghost method FinishAppend(metas0: map<nat, Meta>, data0: map<nat, string>, brk0: nat, size: nat)
      requires blocks != [] && WellFormed(blocks, brk0) && Chained(metas0, blocks, NULL, NULL)
        && metas0.Keys == Addrs(blocks)
      requires WalkedPast(blocks, brk0, size, blocks, [])
      requires Memory() && brk == brk0 + (size + H) && Last(blocks, 0) in metas0
      requires metas == metas0[Last(blocks, 0) := metas0[Last(blocks, 0)].(next := brk0)]
                          [brk0 := Meta(Last(blocks, 0), NULL, 0, Low32(size))]
      requires data == Outside(data0, brk0, brk)[brk0 + H := Zeros(size)]
      modifies this`blocks
      ensures Done(old(blocks), brk0, data0, size)
    {
      AppendedRow(metas0, metas, blocks, Used(brk0, size), brk0);
      blocks := blocks + [Used(brk0, size)];
    }

    // The block the walk has stopped at, last or not.
    method TakeFound(cur: nat, size: nat, refuse: bool, ghost pre: seq<Block>, ghost b: Block, ghost post: seq<Block>)
      returns (ptr: nat)
      requires Valid() && blocks == pre + ([b] + post) && Takes(b, post, size) && cur == b.addr && 0 < size
        && size + H < SIGNED
      requires WalkedPast(blocks, brk, size, pre, [b] + post)
      modifies mem, this`metas, this`data, this`brk, this`blocks
      ensures if Fails(old(blocks), old(brk), mem.Length, size, refuse)
        then ptr == NULL && unchanged(this, mem)
        else ptr == cur + H && Done(old(blocks), old(brk), old(data), size)
    {
      ghost var metas0, data0, brk0 := metas, data, brk;
      MetaInside(metas, pre, b, post);
      ThreeParts(pre, b, post, brk);
      assert ([b] + post)[1..] == post;
      var next := GetNext(cur);
      if next == NULL {
        ptr := TakeLast(cur, size, refuse, pre, b);
        if ptr != NULL {
          FinishCarve(metas0, data0, brk0, pre, b, post, size);
        }
      } else {
        ptr := TakeFitting(cur, size, pre, b, post);
        FinishCarve(metas0, data0, brk0, pre, b, post, size);
      }
    }

    // Lines 83-96, with the walk at its end.
    method AllocateLast(last: nat, size: nat, refuse: bool) returns (ptr: nat)
      requires Valid() && blocks != [] && last == Last(blocks, 0) && 0 < size && size + H < SIGNED
      requires WalkedPast(blocks, brk, size, blocks, [])
      modifies mem, this`metas, this`data, this`brk, this`blocks
      ensures if Fails(old(blocks), old(brk), mem.Length, size, refuse)
        then ptr == NULL && unchanged(this, mem)
        else ptr == Place(old(blocks), old(brk), size) + H && Done(old(blocks), old(brk), old(data), size)
    {
      ghost var metas0, data0, brk0 := metas, data, brk;
      ptr := Append(last, size, refuse);
      if ptr != NULL {
        FinishAppend(metas0, data0, brk0, size);
      }
    }

    // Lines 38-96: walk, then take the block found or append one.
    method AllocateMore(size: nat, refuse: bool) returns (ptr: nat)
      requires Valid() && blocks != [] && 0 < size && size + H < SIGNED
      modifies mem, this`metas, this`data, this`brk, this`blocks
      ensures if Fails(old(blocks), old(brk), mem.Length, size, refuse)
        then ptr == NULL && unchanged(this, mem)
        else ptr == Place(old(blocks), old(brk), size) + H && Done(old(blocks), old(brk), old(data), size)
    {
      ghost var pre, rest;
      var lastMet, curMet;
      lastMet, curMet, pre, rest := FindFit(size);
      if curMet == NULL {
        assert pre + [] == pre;
        ptr := AllocateLast(lastMet, size, refuse);
      } else {
        assert rest == [rest[0]] + rest[1..];
        ptr := TakeFound(curMet, size, refuse, pre, rest[0], rest[1..]);
      }
    }

    lemma DoneIsValid(bs0: seq<Block>, brk0: nat, data0: map<nat, string>, size: nat)
      requires WellFormed(bs0, brk0) && NoTwoFree(bs0) && Served(bs0, data0) && size > 0 && brk0 > 0
      requires Done(bs0, brk0, data0, size) && startOfMem == First(bs0, brk0)
      ensures Valid()
    {
      hide Holds, WellFormed, NoTwoFree, Served, Chained, Addrs, Allocated, Place, PlaceEnd, Outside, Demand;
      AllocationKeeps(bs0, brk0, data0, size);
    }

    // Lines 24-37: the first block of all.
    method AllocateFirst(size: nat, refuse: bool) returns (ptr: nat)
      requires Valid() && blocks == [] && 0 < size && size + H < SIGNED
      modifies mem, this`metas, this`data, this`brk, this`startOfMem, this`blocks
      ensures if refuse || old(brk) + (size + H) > mem.Length
        then ptr == NULL && unchanged(this, mem)
        else ptr == old(brk) + H && startOfMem == old(brk) && Done([], old(brk), old(data), size)
    {
      var end := brk;
      var addr := Sbrk(size + H, refuse);
      if addr == -1 {
        return NULL;
      }
      FewerHold(mem[..], brk, metas, data, metas, Outside(data, end, brk));
      data := Outside(data, end, brk);
      startOfMem := addr;
      NewHeader(addr, NULL, NULL, 0, size);
      Memset(addr + H, size);
      ptr := addr + H;
      blocks := [Used(addr, size)];
    }

    // Lines 24-96: the first block, or one more.
    method AllocateSome(size: nat, refuse: bool) returns (ptr: nat)
      requires Valid() && 0 < size && size + H < SIGNED
      modifies mem, this`metas, this`data, this`brk, this`blocks, this`startOfMem
      ensures if Fails(old(blocks), old(brk), mem.Length, size, refuse)
        then ptr == NULL && unchanged(this, mem)
        else ptr == Place(old(blocks), old(brk), size) + H && Done(old(blocks), old(brk), old(data), size)
      ensures ptr != NULL ==> startOfMem == First(old(blocks), old(brk))
    {
      if startOfMem == -1 {
        ptr := AllocateFirst(size, refuse);
      } else {
        ptr := AllocateMore(size, refuse);
      }
    }

    // mm_malloc, lines 20-97.
    method MmMalloc(size: nat, refuse: bool) returns (ptr: nat)
      requires Valid() && size + H < SIGNED
      modifies mem, this`metas, this`data, this`brk, this`blocks, this`startOfMem
      ensures Valid()
      ensures if size == 0 || Fails(old(blocks), old(brk), mem.Length, size, refuse)
        then ptr == NULL && unchanged(this, mem)
        else ptr == Place(old(blocks), old(brk), size) + H && Done(old(blocks), old(brk), old(data), size)
      ensures ptr != NULL ==>
        && PayloadsKept(old(mem[..]), mem[..], old(blocks), blocks, -1)
        && Used(ptr - H, size) in blocks && ptr + size <= mem.Length
        && forall i :: ptr <= i < ptr + size ==> mem[i] == '\0'
    {
      hide Holds, WellFormed, NoTwoFree, Served, Chained, Addrs, Allocated, Place, PlaceEnd, Outside, PayloadsKept;
      if size == 0 {
        return NULL;
      }
      ptr := AllocateSome(size, refuse);
      if ptr != NULL {
        DoneIsValid(old(blocks), old(brk), old(data), size);
        AllocatedBytes(old(mem[..]), old(brk), old(metas), old(data), old(blocks), mem[..], brk, metas, data, size);
      }
    }

    // ---------- mm_free ----------

    // Lines 154-155 and 160-162: a block takes over its neighbour's bytes and successor.
    method Stretch(a: nat, size: nat, next: nat)
      requires Memory() && a in metas && next < Pow256(8)
      modifies mem, this`metas
      ensures Memory() && metas == old(metas)[a := old(metas)[a].(size := Low32(size), next := next)]
    {
      LastUpdateCounts(metas, a, metas[a].(size := Low32(size)), metas[a].(size := Low32(size), next := next));
      SetSizeField(a, size);
      SetNextField(a, next);
    }

    // Lines 154-156.
    method AbsorbIntoPrev(del: nat, prev: nat, ghost pre: seq<Block>, ghost b: Block, ghost post: seq<Block>)
      requires Memory() && b.Used? && del == b.addr && WellFormed(pre + ([b] + post), brk) && EndsFree(pre)
        && prev == Last(pre, 0)
      requires Pieces(metas, pre, Free(b.addr, Stored(b)), post, b.addr)
      modifies mem, this`metas
      ensures Memory() && Pieces(metas, JoinedBefore(pre, b).0, JoinedBefore(pre, b).1, post, b.addr)
    {
      FreeInPlace(pre, b, post, brk);
      MetaBefore(metas, pre, b.addr);
      var ps := GetSize(prev);
      var ds := GetSize(del);
      var next := GetNext(del);
      ghost var size := Low32(ps + (ds + H));
      PiecesBefore(metas, pre, Free(b.addr, Stored(b)), post, brk, size);
      Stretch(prev, ps + (ds + H), next);
      ForgetHeader(del);
    }

    // Lines 153-157.
    method JoinBefore(del: nat, ghost pre: seq<Block>, ghost b: Block, ghost post: seq<Block>) returns (del': nat)
      requires Memory() && b.Used? && del == b.addr && WellFormed(pre + ([b] + post), brk)
      requires Pieces(metas, pre, Free(b.addr, Stored(b)), post, b.addr)
      modifies mem, this`metas
      ensures Memory()
      ensures del' == JoinedBefore(pre, b).1.addr
        && Pieces(metas, JoinedBefore(pre, b).0, JoinedBefore(pre, b).1, post, b.addr)
    {
      if pre != [] {
        MetaBefore(metas, pre, b.addr);
        CutLayout(pre, [b] + post, brk);
        CutLayout(pre[..|pre| - 1], [pre[|pre| - 1]], b.addr);
      }
      del' := del;
      var prev := GetPrev(del);
      if prev != NULL {
        var free := GetFree(prev);
        if free != 0 {
          AbsorbIntoPrev(del, prev, pre, b, post);
          del' := prev;
        }
      }
    }

    // Lines 158-166.
    method JoinBehind(del: nat, ghost pre: seq<Block>, ghost b: Block, ghost post: seq<Block>, ghost back: nat)
      requires Memory() && b.Free? && del == b.addr && WellFormed(pre + ([b] + post), brk)
      requires Pieces(metas, pre, b, post, back)
      modifies mem, this`metas
      ensures Memory()
      ensures var (b', post') := JoinedBehind(b, post);
        Pieces(metas, pre, b', post', if StartsFree(post) then b.addr else back)
    {
      ThreeParts(pre, b, post, brk);
      var next := GetNext(del);
      if next != NULL {
        var free := GetFree(next);
        if free != 0 {
          AbsorbNext(del, next, pre, b, post, back);
        }
      }
    }

    // Lines 159-165.
    method AbsorbNext(del: nat, next: nat, ghost pre: seq<Block>, ghost b: Block, ghost post: seq<Block>,
                      ghost back: nat)
      requires Memory() && b.Free? && del == b.addr && WellFormed(pre + ([b] + post), brk)
      requires Pieces(metas, pre, b, post, back) && StartsFree(post) && next == post[0].addr && next > 0
      modifies mem, this`metas
      ensures Memory() && Pieces(metas, pre, JoinedBehind(b, post).0, post[1..], b.addr)
    {
      hide Holds;
      var ds := GetSize(del);
      var ns := GetSize(next);
      var nextOfNext := GetNext(next);
      ghost var size := Low32(ds + (ns + H));
      PiecesBehind(metas, pre, b, post, back, brk, size);
      if post[1..] != [] {
        CutLayout(pre, [b] + post, brk);
        CutLayout([b], post, brk);
      }
      Stretch(del, ds + (ns + H), nextOfNext);
      if nextOfNext != NULL {
        SetPrevField(nextOfNext, del);
      }
      ForgetHeader(next);
    }

    // The bytes of a header that no block has any more are not looked at.
    ghost method ForgetHeader(a: nat)
      requires Memory()
      modifies this`metas
      ensures Memory() && metas == old(metas) - {a}
    {
      FewerHold(mem[..], brk, metas, data, metas - {a}, data);
      metas := metas - {a};
    }

    // The assignment missing after line 156: deletingAddr->next->prev = deletingAddr.
    method FixBackLink(del: nat, ghost pre: seq<Block>, ghost b: Block, ghost post: seq<Block>, ghost back: nat)
      requires Memory() && b.Free? && del == b.addr && WellFormed(pre + ([b] + post), brk)
      requires Pieces(metas, pre, b, post, back)
      modifies mem, this`metas
      ensures Memory() && Pieces(metas, pre, b, post, b.addr)
    {
      ThreeParts(pre, b, post, brk);
      var next := GetNext(del);
      if next != NULL {
        PiecesBack(metas, pre, b, post, back, brk);
        SetPrevField(next, del);
      }
    }

    // Lines 158-167: the block is joined to a free one behind it and marked free.
    method FinishFree(del: nat, ghost pre: seq<Block>, ghost b: Block, ghost post: seq<Block>, ghost back: nat)
      requires Memory() && b.Free? && del == b.addr && WellFormed(pre + ([b] + post), brk)
        && Pieces(metas, pre, b, post, back)
      modifies mem, this`metas, this`blocks
      ensures Memory() && blocks == pre + ([JoinedBehind(b, post).0] + JoinedBehind(b, post).1)
        && metas.Keys == Addrs(blocks)
      ensures Chained(metas, blocks, NULL, NULL) <==> post == [] || post[0].Free? || back == b.addr
    {
      JoinBehind(del, pre, b, post, back);
      ghost var (b', post') := JoinedBehind(b, post);
      JoinedBehindWellFormed(pre, b, post, brk);
      PiecesEnd(metas, pre, b', post', if StartsFree(post) then b.addr else back, brk);
      SetFreeField(del, 1);
      blocks := pre + ([b'] + post');
    }

    // Lines 152-167, for the block b between pre and post; with the repair or without.
    method FreeBlock(del: nat, repair: bool, ghost pre: seq<Block>, ghost b: Block, ghost post: seq<Block>)
      requires Memory() && b.Used? && del == b.addr && blocks == pre + ([b] + post) && WellFormed(blocks, brk)
      requires Chained(metas, blocks, NULL, NULL) && metas.Keys == Addrs(blocks)
      modifies mem, this`metas, this`blocks
      ensures Memory() && blocks == Freed(pre, b, post) && metas.Keys == Addrs(blocks)
      ensures Chained(metas, blocks, NULL, NULL) <==> repair || !(EndsFree(pre) && post != [] && post[0].Used?)
    {
      PiecesStart(metas, pre, b, post);
      JoinedBeforeWellFormed(pre, b, post, brk);
      JoinedBeforeMoves(pre, b, post, brk);
      var deletingAddr := JoinBefore(del, pre, b, post);
      ghost var (pre', b') := JoinedBefore(pre, b);
      if repair {
        FixBackLink(deletingAddr, pre', b', post, b.addr);
      }
      FinishFree(deletingAddr, pre', b', post, if repair then b'.addr else b.addr);
    }

    // mm_free as written, lines 149-168.  The block behind the freed one keeps pointing back to
    // the freed header when that header is gone and the block itself is in use.
    method MmFree(ptr: nat, ghost k: nat)
      requires Valid() && (ptr != NULL ==> k < |blocks| && blocks[k].Used? && ptr == blocks[k].addr + H)
      modifies mem, this`metas, this`blocks
      ensures ptr == NULL ==> unchanged(this, mem)
      ensures ptr != NULL ==>
        && Sound() && blocks == Freed(old(blocks)[..k], old(blocks)[k], old(blocks)[k + 1..])
        && (Valid() <==> !LosesBackLink(old(blocks), k))
        && PayloadsKept(old(mem[..]), mem[..], old(blocks), blocks, ptr - H) && old(blocks)[k] !in blocks
    {
      if ptr != NULL {
        ghost var blocks0, pre, b, post := blocks, blocks[..k], blocks[k], blocks[k + 1..];
        assert blocks == pre + ([b] + post);
        FreedKeeps(pre, b, post, brk, data);
        FreeBlock(ptr - H, false, pre, b, post);
        FreedBytes(old(mem[..]), old(metas), blocks0, k, mem[..], metas, brk, data);
      }
    }

    // mm_free with the back link repaired.
    method MmFreeRepaired(ptr: nat, ghost k: nat)
      requires Valid() && (ptr != NULL ==> k < |blocks| && blocks[k].Used? && ptr == blocks[k].addr + H)
      modifies mem, this`metas, this`blocks
      ensures Valid()
      ensures ptr == NULL ==> unchanged(this, mem)
      ensures ptr != NULL ==>
        && blocks == Freed(old(blocks)[..k], old(blocks)[k], old(blocks)[k + 1..])
        && PayloadsKept(old(mem[..]), mem[..], old(blocks), blocks, ptr - H) && old(blocks)[k] !in blocks
    {
      if ptr != NULL {
        ghost var blocks0, pre, b, post := blocks, blocks[..k], blocks[k], blocks[k + 1..];
        assert blocks == pre + ([b] + post);
        FreedKeeps(pre, b, post, brk, data);
        FreeBlock(ptr - H, true, pre, b, post);
        FreedBytes(old(mem[..]), old(metas), blocks0, k, mem[..], metas, brk, data);
      }
    }

    // ---------- Writing to a block, and mm_realloc ----------

    // memcpy into a watched block; the source bytes are read before any is written.
    method Memcpy(dest: nat, src: nat, n: nat)
      requires Valid() && dest in data && n <= |data[dest]| && src + n <= brk
      modifies mem, this`data
      ensures Valid() && data == old(data)[dest := old(mem[..])[src..src + n] + old(data)[dest][n..]]
    {
      ghost var m := mem[..];
      var bytes := mem[src..src + n];
      assert bytes == m[src..src + n];
      ghost var whole := bytes + data[dest][n..];
      PartialWrite(m, brk, metas, data, dest, bytes);
      ServedSameLength(blocks, data, dest, whole);
      StoreBytes(dest, bytes);
      data := data[dest := whole];
    }

    // A client fills part of its block.
    method ClientWrite(ptr: nat, offset: nat, s: string, ghost k: nat)
      requires Valid() && k < |blocks| && blocks[k].Used? && ptr == blocks[k].addr + H
        && offset + |s| <= blocks[k].extent
      modifies mem, this`data
      ensures Valid() && data == old(data)[ptr := Splice(old(data)[ptr], offset, s)]
    {
      assert blocks[k] in blocks;
      SpliceWrite(mem[..], brk, metas, data, ptr, offset, s);
      StoreBytes(ptr + offset, s);
      data := data[ptr := Splice(data[ptr], offset, s)];
    }

    // Lines 108-109.  What of the old payload lies behind the bytes mm_malloc writes is watched on
    // its own.
    method FreeThenMalloc(ptr: nat, size: nat, refuse: bool, ghost k: nat) returns (dest: nat)
      requires Valid() && 0 < size && size + H < SIGNED
      requires k < |blocks| && blocks[k].Used? && ptr == blocks[k].addr + H
      modifies mem, this`metas, this`data, this`brk, this`blocks, this`startOfMem
      ensures Valid()
      ensures var freed := FreedAt(old(blocks), k);
        if Fails(freed, old(brk), mem.Length, size, refuse)
        then dest == NULL && blocks == freed && data == old(data) && brk == old(brk)
        else Relocated(blocks, data, brk, freed, old(brk), old(data), size, ptr, dest)
    {
      ghost var data0, blocks0, brk0 := data, blocks, brk;
      MmFreeRepaired(ptr, k);
      WatchInParts(ptr, size, refuse, blocks0, k);
      dest := MmMalloc(size, refuse);
      if dest != NULL {
        DoneRelocates(FreedAt(blocks0, k), brk0, data0, size, ptr);
      }
    }

    ghost method WatchInParts(ptr: nat, size: nat, refuse: bool, blocks0: seq<Block>, k: nat)
      requires Valid() && k < |blocks0| && blocks0[k].Used? && WellFormed(blocks0, brk)
      requires blocks == FreedAt(blocks0, k) && ptr == blocks0[k].addr + H
      modifies this`data
      ensures Valid() && Served(blocks, old(data))
      ensures var (lo, hi) := (Place(blocks, brk, size), PlaceEnd(blocks, brk, size));
        if Fails(blocks, brk, mem.Length, size, refuse) then data == old(data)
        else data == InParts(old(data), ptr, lo, hi) && (EndsInside(old(data), ptr, lo, hi) ==> hi !in old(data))
    {
      ghost var lo, hi := Place(blocks, brk, size), PlaceEnd(blocks, brk, size);
      if !Fails(blocks, brk, mem.Length, size, refuse) {
        InPartsHold(mem[..], brk, metas, data, ptr, lo, hi);
        forall b | b in blocks && b.Used?
          ensures b.addr + H != ptr
        {
          FreedElsewhere(blocks0, k, brk, b);
        }
        InPartsServed(blocks, data, ptr, lo, hi);
        data := InParts(data, ptr, lo, hi);
      }
    }

    lemma DoneRelocates(freed: seq<Block>, brk0: nat, data0: map<nat, string>, size: nat, ptr: nat)
      requires Served(freed, data0)
      requires var (lo, hi) := (Place(freed, brk0, size), PlaceEnd(freed, brk0, size));
        Done(freed, brk0, InParts(data0, ptr, lo, hi), size) && (EndsInside(data0, ptr, lo, hi) ==> hi !in data0)
      ensures Relocated(blocks, data, brk, freed, brk0, data0, size, ptr, Place(freed, brk0, size) + H)
    {
    }

    // A part of an old payload is no longer looked at.
    ghost method ForgetPart(p: nat)
      requires Valid() && forall b :: b in blocks && b.Used? ==> b.addr + H != p
      modifies this`data
      ensures Valid() && data == old(data) - {p}
    {
      FewerHold(mem[..], brk, metas, data, metas, data - {p});
      data := data - {p};
    }

    // Line 111; then the second part of the old payload, if watched on its own, is forgotten.
    method CopyBack(dest: nat, ptr: nat, oldSize: nat, ghost data0: map<nat, string>, ghost hi: nat, ghost size: nat)
      requires Valid() && MayCopy(blocks, metas, brk, data0, data, ptr, oldSize, dest, hi, size) && oldSize <= size
      modifies mem, this`data
      ensures Valid() && CopyDone(metas, data0, old(data), data, ptr, oldSize, dest, hi, size)
    {
      BytesFound(mem[..], brk, metas, data0, data, ptr, oldSize, dest - H, hi, size);
      Memcpy(dest, ptr, oldSize);
      if EndsInside(data0, ptr, dest - H, hi) {
        ForgetPart(hi);
      }
    }

    method CopyMoved(dest: nat, ptr: nat, oldSize: nat, ghost k: nat, ghost blocks0: seq<Block>, ghost brk0: nat,
                     ghost data0: map<nat, string>, ghost size: nat)
      requires Valid() && k < |blocks0| && blocks0[k].Used? && ptr == blocks0[k].addr + H
        && oldSize == Stored(blocks0[k])
      requires WellFormed(blocks0, brk0) && 0 < size
      requires Relocated(blocks, data, brk, FreedAt(blocks0, k), brk0, data0, size, ptr, dest)
      requires ptr in data0 && |data0[ptr]| == blocks0[k].extent && ptr + |data0[ptr]| <= brk0 && oldSize <= size
      modifies mem, this`data
      ensures Valid() && Regrown(data0, blocks0, k, brk0, size, metas, data)
    {
      ghost var data1, hi := data, PlaceEnd(FreedAt(blocks0, k), brk0, size);
      MovesMayCopy(blocks, metas, brk, data, blocks0, k, brk0, data0, size, ptr, oldSize, dest, hi);
      CopyBack(dest, ptr, oldSize, data0, hi, size);
      RegrownAtLast(metas, data1, data, blocks0, k, brk0, data0, size, ptr, oldSize, dest, hi);
    }

    // What memcpy is going to find; the second part of the old payload, if watched on its own, is
    // forgotten.
    ghost method FindBytes(dest: nat, ptr: nat, oldSize: nat, data0: map<nat, string>, hi: nat, size: nat)
      requires Valid() && MayCopy(blocks, metas, brk, data0, data, ptr, oldSize, dest, hi, size) && dest < hi
      modifies this`data
      ensures Valid() && data == Outside(data0, dest - H, hi)[dest := Zeros(size)]
      ensures |WrittenAt(metas, dest, size, hi)| == hi - dest && ptr + oldSize <= mem.Length
      ensures hi <= mem.Length && mem[..][dest..hi] == WrittenAt(metas, dest, size, hi)
      ensures mem[ptr..ptr + oldSize] == Copied(data0[ptr][..oldSize], ptr, dest, WrittenAt(metas, dest, size, hi))
    {
      assert brk <= mem.Length;
      hide Holds, WellFormed, NoTwoFree, Served, Chained, Addrs, WrittenAt, EndsInside, Outside, Copied, Reserved;
      BytesFound(mem[..], brk, metas, data0, data, ptr, oldSize, dest - H, hi, size);
      assert mem[..][ptr..ptr + oldSize] == mem[ptr..ptr + oldSize];
      assert data[dest] == Zeros(size);
      WrittenFound(mem[..], brk, metas, data, dest, size, hi);
      PartForgotten(data0, data, ptr, dest, hi, size, Zeros(size));
      if EndsInside(data0, ptr, dest - H, hi) {
        ForgetPart(hi);
      }
    }

    // Line 111 for a request smaller than the block: more is copied than was asked for.
    method CopyOver(dest: nat, ptr: nat, oldSize: nat, ghost others: map<nat, string>, ghost size: nat)
      requires Memory() && data == others[dest := Zeros(size)]
      requires size < oldSize && dest + oldSize <= mem.Length && ptr + oldSize <= mem.Length
      modifies mem, this`metas, this`data
      ensures Memory() && mem[..] == Splice(old(mem[..]), dest, old(mem[ptr..ptr + oldSize]))
      ensures CopiedFrom(old(mem[..]), mem[..], ptr, oldSize, dest)
      ensures Overrun(old(metas), others, metas, data, dest, size, old(mem[ptr..ptr + oldSize]), dest == ptr)
    {
      ghost var m := mem[..];
      var bytes := mem[ptr..ptr + oldSize];
      WrittenOver(m, brk, metas, others, dest, size, bytes, dest == ptr);
      hide Holds, KeptMetas, KeptData;
      StoreBytes(dest, bytes);
      metas, data := KeptMetas(metas, dest, size, bytes, dest == ptr), KeptData(others, dest, size, bytes, dest == ptr);
    }

    ghost method FindMoved(dest: nat, ptr: nat, oldSize: nat, k: nat, blocks0: seq<Block>, brk0: nat,
                           data0: map<nat, string>, size: nat, hi: nat)
      requires Valid() && k < |blocks0| && blocks0[k].Used? && ptr == blocks0[k].addr + H
        && oldSize == Stored(blocks0[k])
      requires WellFormed(blocks0, brk0) && 0 < size && hi == PlaceEnd(FreedAt(blocks0, k), brk0, size)
      requires Relocated(blocks, data, brk, FreedAt(blocks0, k), brk0, data0, size, ptr, dest)
      requires ptr in data0 && |data0[ptr]| == blocks0[k].extent && ptr + |data0[ptr]| <= brk0
      modifies this`data
      ensures Valid() && H <= dest < hi && data == Outside(data0, dest - H, hi)[dest := Zeros(size)]
      ensures |WrittenAt(metas, dest, size, hi)| == hi - dest && ptr + oldSize <= mem.Length && oldSize <= |data0[ptr]|
      ensures hi <= mem.Length && mem[..][dest..hi] == WrittenAt(metas, dest, size, hi)
      ensures mem[ptr..ptr + oldSize] == Copied(data0[ptr][..oldSize], ptr, dest, WrittenAt(metas, dest, size, hi))
      ensures Moves(blocks0, k, brk0, size, ptr, oldSize, dest - H, hi)
    {
      hide Holds, WellFormed, NoTwoFree, Served, Chained, Addrs, Allocated, Place, PlaceEnd, FreedAt, Outside;
      hide WrittenAt, Reserved, EndsInside, Copied;
      MovesMayCopy(blocks, metas, brk, data, blocks0, k, brk0, data0, size, ptr, oldSize, dest, hi);
      MovesBounds(blocks0, k, brk0, size, ptr, oldSize, dest - H, hi);
      FindBytes(dest, ptr, oldSize, data0, hi, size);
    }

    method CopyShrunk(dest: nat, ptr: nat, oldSize: nat, ghost k: nat, ghost blocks0: seq<Block>, ghost brk0: nat,
                      ghost data0: map<nat, string>, ghost size: nat)
      requires Valid() && k < |blocks0| && blocks0[k].Used? && ptr == blocks0[k].addr + H
        && oldSize == Stored(blocks0[k])
      requires WellFormed(blocks0, brk0) && 0 < size < oldSize && dest + oldSize <= mem.Length
      requires Relocated(blocks, data, brk, FreedAt(blocks0, k), brk0, data0, size, ptr, dest)
      requires ptr in data0 && |data0[ptr]| == blocks0[k].extent && ptr + |data0[ptr]| <= brk0
      modifies mem, this`metas, this`data
      ensures Memory()
      ensures Shrunk(old(mem[..]), old(metas), mem[..], brk, data0, blocks0, k, brk0, size, metas, data)
      ensures CopiedFrom(old(mem[..]), mem[..], ptr, oldSize, dest)
      ensures ShrinksSafely(blocks0, k, brk0, size) ==> Valid()
    {
      ghost var full, before, hi := metas, mem[..], PlaceEnd(FreedAt(blocks0, k), brk0, size);
      assert HeadersHold(before, brk, full);
      hide Holds, HeadersHold, WellFormed, NoTwoFree, Served, Chained, Addrs, Allocated, Place, PlaceEnd, FreedAt;
      hide Outside, WrittenAt, HeadersClear, Overrun, Reserved, EndsInside, Shrunk, Copied, NoHeaderIn, Splice;
      hide CopiedFrom;
      FindMoved(dest, ptr, oldSize, k, blocks0, brk0, data0, size, hi);
      ghost var found, others := mem[ptr..ptr + oldSize], Outside(data0, dest - H, hi);
      assert before[ptr..ptr + oldSize] == found;
      CopyOver(dest, ptr, oldSize, others, size);
      ShrunkNow(before, full, mem[..], brk, data0, blocks0, k, brk0, size, metas, data, ptr, oldSize, dest, hi, found);
      AllocatedThere(FreedAt(blocks0, k), brk0, size);
      OverrunLeaves(full, blocks, brk, others, metas, data, dest, size, found, dest == ptr);
    }

    // Would a shrinking copy end in memory?
    ghost predicate CopyFits(size: nat, refuse: bool, k: nat)
      requires k < |blocks|
      reads this
    {
      var freed := FreedAt(blocks, k);
      || Fails(freed, brk, mem.Length, size, refuse)
      || Place(freed, brk, size) + H + Stored(blocks[k]) <= mem.Length
    }

    // What the caller finds after lines 107-112 have got a new block for block k.
    twostate predicate Resized(dest: nat, size: nat, k: nat, full: map<nat, Meta>, before: string)
      requires k < old(|blocks|)
      reads this, mem
    {
      var freed := FreedAt(old(blocks), k);
      && dest == Place(freed, old(brk), size) + H && blocks == Allocated(freed, old(brk), size)
      && (Stored(old(blocks)[k]) <= size ==>
            Valid() && Regrown(old(data), old(blocks), k, old(brk), size, metas, data))
      && (Stored(old(blocks)[k]) > size ==>
            && Memory()
            && Shrunk(before, full, mem[..], brk, old(data), old(blocks), k, old(brk), size, metas, data)
            && (ShrinksSafely(old(blocks), k, old(brk), size) ==> Valid()))
    }

    // Lines 107-112: the block is freed first, then allocated again, then copied.  The copy is the
    // same whether it fits the new block or not.
    method Resize(ptr: nat, size: nat, refuse: bool, ghost k: nat)
      returns (dest: nat, ghost full: map<nat, Meta>, ghost before: string)
      requires Valid() && 0 < size && size + H < SIGNED
      requires k < |blocks| && blocks[k].Used? && ptr == blocks[k].addr + H
      requires size < Stored(blocks[k]) ==> CopyFits(size, refuse, k)
      modifies mem, this`metas, this`data, this`brk, this`blocks, this`startOfMem
      ensures if Fails(FreedAt(old(blocks), k), old(brk), mem.Length, size, refuse)
        then dest == NULL && Valid() && blocks == FreedAt(old(blocks), k) && data == old(data) && brk == old(brk)
        else Resized(dest, size, k, full, before)
      ensures dest != NULL && KeepsPayload(old(blocks), k, old(brk), size) ==>
        PayloadMoved(old(mem[..]), mem[..], ptr, old(blocks)[k].extent, dest, size)
      ensures dest != NULL && (Stored(old(blocks)[k]) <= size || ShrinksSafely(old(blocks), k, old(brk), size)) ==>
        PayloadsKept(old(mem[..]), mem[..], old(blocks), blocks, ptr - H) && dest >= H && Used(dest - H, size) in blocks
      ensures dest != NULL && size < Stored(old(blocks)[k])
        ==> CopiedFrom(before, mem[..], ptr, Stored(old(blocks)[k]), dest)
    {
      hide Holds, WellFormed, NoTwoFree, Chained, Addrs, Allocated, Place, PlaceEnd, FreedAt, Outside, Fails;
      hide Regrown, Shrunk, ShrinksSafely, Reserved, KeepsPayload, PayloadsKept, PayloadMoved, CopiedFrom;
      ghost var data0, blocks0, brk0 := data, blocks, brk;
      BlockAt(metas, blocks, k, brk);
      var oldSize := GetSize(ptr - H);
      assert blocks0[k] in blocks0 && ptr + |data0[ptr]| <= brk0;
      dest := FreeThenMalloc(ptr, size, refuse, k);
      full, before := metas, mem[..];
      if dest != NULL {
        if oldSize <= size {
          CopyMoved(dest, ptr, oldSize, k, blocks0, brk0, data0, size);
        } else {
          CopyShrunk(dest, ptr, oldSize, k, blocks0, brk0, data0, size);
        }
        NewBytes(old(mem[..]), old(metas), before, full, mem[..], brk, data0, blocks0, k, brk0, size, metas, data);
      }
    }

    // mm_realloc, lines 99-147; mm_free is the repaired one.  `full` and `before` are the headers and
    // memory before anything was copied.
    method MmRealloc(ptr: nat, size: nat, refuse: bool, ghost k: nat)
      returns (dest: nat, ghost full: map<nat, Meta>, ghost before: string)
      requires Valid() && size + H < SIGNED
      requires ptr != NULL ==>
        && k < |blocks| && blocks[k].Used? && ptr == blocks[k].addr + H
        && (0 < size < Stored(blocks[k]) ==> CopyFits(size, refuse, k))
      modifies mem, this`metas, this`data, this`brk, this`blocks, this`startOfMem
      ensures ptr == NULL ==>
        && Valid()
        && if size == 0 || Fails(old(blocks), old(brk), mem.Length, size, refuse)
           then dest == NULL && unchanged(this, mem)
           else dest == Place(old(blocks), old(brk), size) + H && Done(old(blocks), old(brk), old(data), size)
      ensures ptr != NULL ==>
        if size == 0 || Fails(FreedAt(old(blocks), k), old(brk), mem.Length, size, refuse)
        then dest == NULL && Valid() && blocks == FreedAt(old(blocks), k) && data == old(data) && brk == old(brk)
        else Resized(dest, size, k, full, before)
      ensures ptr != NULL && dest != NULL && KeepsPayload(old(blocks), k, old(brk), size) ==>
        PayloadMoved(old(mem[..]), mem[..], ptr, old(blocks)[k].extent, dest, size)
      ensures ptr != NULL && dest != NULL ==>
        (Stored(old(blocks)[k]) <= size || ShrinksSafely(old(blocks), k, old(brk), size) ==>
          PayloadsKept(old(mem[..]), mem[..], old(blocks), blocks, ptr - H) && dest >= H
            && Used(dest - H, size) in blocks)
      ensures ptr != NULL && dest != NULL && size < Stored(old(blocks)[k]) ==>
        CopiedFrom(before, mem[..], ptr, Stored(old(blocks)[k]), dest)
    {
      hide Holds, WellFormed, NoTwoFree, Served, Chained, Addrs, Allocated, Place, PlaceEnd, Outside, Fails;
      hide Regrown, Shrunk, ShrinksSafely, KeepsPayload, PayloadsKept, PayloadMoved, CopiedFrom;
      full, before := metas, mem[..];
      if size == 0 {
        MmFreeRepaired(ptr, k);
        dest := NULL;
      } else if ptr == NULL {
        dest := MmMalloc(size, refuse);
      } else {
        dest, full, before := Resize(ptr, size, refuse, k);
      }
    }
  }
}
