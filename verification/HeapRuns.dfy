/**
  Whole runs of the allocator of `malloc-master/mm_alloc.c` (mm_free repaired, or as written up to the
  first link it would lose): any requests,
  in any order, some of them refused by sbrk, and clients writing to their blocks in between.
  What each request does is said on the row of blocks and the bytes somebody relies on; Drive
  shows that the heap itself goes through just these states.
 */
module HeapRuns {
  import opened CBytes
  import opened HeapMemory
  import opened HeapBlocks
  import opened HeapPayloads
  import opened HeapOverrun
  import opened Allocator

  // AsWritten is mm_free as it stands, Release the repaired one.
  datatype Request =
    | Alloc(size: nat, refuse: bool)
    | AsWritten(ptr: nat)
    | Release(ptr: nat)
    | Fill(ptr: nat, offset: nat, s: string)

  // limit is where memory ends.
  datatype Row = Row(blocks: seq<Block>, brk: nat, limit: nat)

  // The block whose payload starts at ptr, or |bs|.
  function Find(bs: seq<Block>, ptr: nat): (k: nat)
    ensures k <= |bs| && (k < |bs| ==> bs[k].addr + H == ptr)
    ensures forall i :: 0 <= i < k ==> bs[i].addr + H != ptr
  {
    if bs == [] || bs[0].addr + H == ptr then 0 else 1 + Find(bs[1..], ptr)
  }

  predicate Owned(bs: seq<Block>, ptr: nat) {
    Find(bs, ptr) < |bs| && bs[Find(bs, ptr)].Used?
  }

  predicate Allowed(row: Row, r: Request) {
    match r
    case Alloc(size, _) => size + H < SIGNED
    case AsWritten(ptr) =>
      ptr == NULL || (Owned(row.blocks, ptr) && !LosesBackLink(row.blocks, Find(row.blocks, ptr)))
    case Release(ptr) => ptr == NULL || Owned(row.blocks, ptr)
    case Fill(ptr, offset, s) =>
      Owned(row.blocks, ptr) && offset + |s| <= row.blocks[Find(row.blocks, ptr)].extent
  }

  function ReleaseAt(row: Row, ptr: nat): Row
    requires ptr == NULL || Owned(row.blocks, ptr)
  {
    if ptr == NULL then row else row.(blocks := FreedAt(row.blocks, Find(row.blocks, ptr)))
  }

  function Move(row: Row, r: Request): Row
    requires Allowed(row, r)
  {
    match r
    case Alloc(size, refuse) =>
      if size == 0 || Fails(row.blocks, row.brk, row.limit, size, refuse) then row
      else row.(blocks := Allocated(row.blocks, row.brk, size), brk := row.brk + Demand(row.blocks, size))
    case AsWritten(ptr) => ReleaseAt(row, ptr)
    case Release(ptr) => ReleaseAt(row, ptr)
    case Fill(_, _, _) => row
  }

  ghost predicate Run(row: Row, rs: seq<Request>)
    decreases |rs|
  {
    rs != [] ==> Allowed(row, rs[0]) && Run(Move(row, rs[0]), rs[1..])
  }

  ghost function After(row: Row, rs: seq<Request>): Row
    requires Run(row, rs)
    decreases |rs|
  {
    if rs == [] then row else After(Move(row, rs[0]), rs[1..])
  }

  ghost predicate Good(row: Row) {
    row.brk > 0 && WellFormed(row.blocks, row.brk) && NoTwoFree(row.blocks)
  }

  lemma MoveKeepsGood(row: Row, r: Request)
    requires Good(row) && Allowed(row, r)
    ensures Good(Move(row, r))
  {
    match r
    case Alloc(size, refuse) =>
      AllocatedWellFormed(row.blocks, row.brk, size);
      AllocatedNoTwoFree(row.blocks, row.brk, size);
    case AsWritten(ptr) => ReleaseKeepsGood(row, ptr);
    case Release(ptr) => ReleaseKeepsGood(row, ptr);
    case Fill(_, _, _) =>
  }

  lemma ReleaseKeepsGood(row: Row, ptr: nat)
    requires Good(row) && (ptr == NULL || Owned(row.blocks, ptr))
    ensures Good(ReleaseAt(row, ptr))
  {
    if ptr != NULL {
      var k := Find(row.blocks, ptr);
      var pre, b, post := row.blocks[..k], row.blocks[k], row.blocks[k + 1..];
      assert row.blocks == pre + ([b] + post);
      FreedWellFormed(pre, b, post, row.brk);
      FreedNoTwoFree(pre, b, post);
    }
  }

  // Who owns a block after a request: one more after an allocation that is met, one fewer after a free.
  lemma OwnersAfter(row: Row, r: Request)
    requires Good(row) && Allowed(row, r)
    ensures var (was, now) := (UsedBlocks(row.blocks), UsedBlocks(Move(row, r).blocks));
      match r
      case Alloc(size, refuse) =>
        if size == 0 || (Demand(row.blocks, size) > 0 && (refuse || row.brk + Demand(row.blocks, size) > row.limit))
        then now == was
        else now == was + {Used(Place(row.blocks, row.brk, size), size)}
      case AsWritten(ptr) => now == set b | b in was && b.addr + H != ptr
      case Release(ptr) => now == set b | b in was && b.addr + H != ptr
      case Fill(_, _, _) => now == was
  {
    match r
    case Alloc(size, refuse) => AllocatedAddsOne(row.blocks, row.brk, size);
    case AsWritten(ptr) => OwnersReleased(row, ptr);
    case Release(ptr) => OwnersReleased(row, ptr);
    case Fill(_, _, _) =>
  }

  lemma OwnersReleased(row: Row, ptr: nat)
    requires Good(row) && (ptr == NULL || Owned(row.blocks, ptr))
    ensures UsedBlocks(ReleaseAt(row, ptr).blocks) == set b | b in UsedBlocks(row.blocks) && b.addr + H != ptr
  {
    if ptr != NULL {
      var bs, k := row.blocks, Find(row.blocks, ptr);
      forall b | b in UsedBlocks(FreedAt(bs, k))
        ensures b in bs && b.addr + H != ptr
      {
        FreedElsewhere(bs, k, row.brk, b);
      }
      forall b | b in UsedBlocks(bs) && b.addr + H != ptr
        ensures b in FreedAt(bs, k)
      {
        ReleaseSparesOthers(bs, k, b);
      }
    }
  }

  // From an untouched heap, after any run: live payloads overlap neither each other nor any
  // header, stay below the break, and no two neighbouring blocks are both free.
  lemma {:induction false} RunsStayGood(row: Row, rs: seq<Request>)
    requires Good(row) && Run(row, rs)
    ensures Good(After(row, rs))
    decreases |rs|
  {
    if rs != [] {
      MoveKeepsGood(row, rs[0]);
      RunsStayGood(Move(row, rs[0]), rs[1..]);
    }
  }

  lemma LivePayloadsApart(brk: nat, limit: nat, rs: seq<Request>, i: nat, j: nat)
    requires brk > 0 && Run(Row([], brk, limit), rs)
    requires i < |After(Row([], brk, limit), rs).blocks| && j < |After(Row([], brk, limit), rs).blocks|
    ensures var row := After(Row([], brk, limit), rs);
            var (a, b) := (row.blocks[i], row.blocks[j]);
      && a.addr + H + Room(a) <= row.brk
      && (i != j ==> Apart(a.addr + H, Room(a), b.addr + H, Room(b)))
      && Apart(a.addr + H, Room(a), b.addr, H)
      && (j == i + 1 ==> a.Used? || b.Used?)
  {
    RunsStayGood(Row([], brk, limit), rs);
    var row := After(Row([], brk, limit), rs);
    UsedWithin(row.blocks, row.brk, row.blocks[i]);
    if i < j {
      BlocksApart(row.blocks, row.brk, i, j);
    } else if j < i {
      BlocksApart(row.blocks, row.brk, j, i);
    }
    if j == i + 1 {
      NeighboursNotFree(row.blocks, i);
    }
  }

  lemma {:induction false} NeighboursNotFree(bs: seq<Block>, i: nat)
    requires NoTwoFree(bs) && i + 1 < |bs|
    ensures bs[i].Used? || bs[i + 1].Used?
  {
    if i > 0 {
      NeighboursNotFree(bs[1..], i - 1);
    }
  }

  // ---------- Payload bytes over a run ----------

  ghost function MoveData(row: Row, data: map<nat, string>, r: Request): map<nat, string>
    requires Good(row) && Allowed(row, r) && Served(row.blocks, data)
  {
    match r
    case Alloc(size, refuse) =>
      if size == 0 || Fails(row.blocks, row.brk, row.limit, size, refuse) then data
      else
        PlaceBounds(row.blocks, row.brk, size);
        var lo := Place(row.blocks, row.brk, size);
        Outside(data, lo, PlaceEnd(row.blocks, row.brk, size))[lo + H := Zeros(size)]
    case AsWritten(_) => data
    case Release(_) => data
    case Fill(ptr, offset, s) =>
      assert row.blocks[Find(row.blocks, ptr)] in row.blocks;
      data[ptr := Splice(data[ptr], offset, s)]
  }

  lemma MoveServes(row: Row, data: map<nat, string>, r: Request)
    requires Good(row) && Allowed(row, r) && Served(row.blocks, data)
    ensures Served(Move(row, r).blocks, MoveData(row, data, r))
  {
    hide Allocated, Place, PlaceEnd, Demand, Freed, Outside, WellFormed, NoTwoFree;
    match r
    case Alloc(size, refuse) =>
      if size != 0 && !Fails(row.blocks, row.brk, row.limit, size, refuse) {
        AllocationKeeps(row.blocks, row.brk, data, size);
      }
    case AsWritten(ptr) => ReleaseServes(row, data, ptr);
    case Release(ptr) => ReleaseServes(row, data, ptr);
    case Fill(ptr, offset, s) =>
      assert row.blocks[Find(row.blocks, ptr)] in row.blocks;
      ServedSameLength(row.blocks, data, ptr, Splice(data[ptr], offset, s));
  }

  lemma ReleaseServes(row: Row, data: map<nat, string>, ptr: nat)
    requires Good(row) && (ptr == NULL || Owned(row.blocks, ptr)) && Served(row.blocks, data)
    ensures Served(ReleaseAt(row, ptr).blocks, data)
  {
    hide WellFormed, NoTwoFree, Served, Freed;
    if ptr != NULL {
      var k := Find(row.blocks, ptr);
      assert row.blocks == row.blocks[..k] + ([row.blocks[k]] + row.blocks[k + 1..]);
      FreedKeeps(row.blocks[..k], row.blocks[k], row.blocks[k + 1..], row.brk, data);
    }
  }

  ghost function DataAfter(row: Row, data: map<nat, string>, rs: seq<Request>): map<nat, string>
    requires Good(row) && Run(row, rs) && Served(row.blocks, data)
    decreases |rs|
  {
    if rs == [] then data
    else
      MoveKeepsGood(row, rs[0]);
      MoveServes(row, data, rs[0]);
      DataAfter(Move(row, rs[0]), MoveData(row, data, rs[0]), rs[1..])
  }

  // Nobody frees block b or writes to it.
  predicate LeavesAlone(r: Request, b: Block) {
    !r.Alloc? ==> r.ptr != b.addr + H
  }

  lemma MoveSparesOthers(row: Row, data: map<nat, string>, r: Request, b: Block)
    requires Good(row) && Allowed(row, r) && Served(row.blocks, data)
    requires b in row.blocks && b.Used? && LeavesAlone(r, b)
    ensures b in Move(row, r).blocks && b.addr + H in MoveData(row, data, r)
    ensures MoveData(row, data, r)[b.addr + H] == data[b.addr + H]
  {
    match r
    case Alloc(size, refuse) =>
      if size > 0 && !Fails(row.blocks, row.brk, row.limit, size, refuse) {
        AllocationSparesOthers(row.blocks, row.brk, size, data, b);
      }
    case AsWritten(ptr) =>
      if ptr != NULL {
        ReleaseSparesOthers(row.blocks, Find(row.blocks, ptr), b);
      }
    case Release(ptr) =>
      if ptr != NULL {
        ReleaseSparesOthers(row.blocks, Find(row.blocks, ptr), b);
      }
    case Fill(_, _, _) =>
  }

  lemma ReleaseSparesOthers(bs: seq<Block>, k: nat, b: Block)
    requires k < |bs| && bs[k].Used? && b in bs && b.Used? && b != bs[k]
    ensures b in FreedAt(bs, k)
  {
    var pre, post := bs[..k], bs[k + 1..];
    FreedRemovesOne(pre, bs[k], post);
    assert bs == pre + ([bs[k]] + post);
    assert b in UsedBlocks(pre) + UsedBlocks(post);
    assert b in UsedBlocks(FreedAt(bs, k));
  }

  // Whatever is allocated, freed and written elsewhere, a block nobody frees or writes to is
  // still there after the run, with every byte as it was.
  lemma {:induction false} PayloadSurvives(row: Row, data: map<nat, string>, rs: seq<Request>, b: Block)
    requires Good(row) && Run(row, rs) && Served(row.blocks, data)
    requires b in row.blocks && b.Used? && forall r :: r in rs ==> LeavesAlone(r, b)
    ensures b in After(row, rs).blocks
    ensures b.addr + H in DataAfter(row, data, rs) && DataAfter(row, data, rs)[b.addr + H] == data[b.addr + H]
    decreases |rs|
  {
    if rs != [] {
      MoveKeepsGood(row, rs[0]);
      MoveServes(row, data, rs[0]);
      MoveSparesOthers(row, data, rs[0], b);
      PayloadSurvives(Move(row, rs[0]), MoveData(row, data, rs[0]), rs[1..], b);
    }
  }

  // What a client writes into its block is what it finds there later.
  lemma FilledSurvives(row: Row, data: map<nat, string>, ptr: nat, offset: nat, s: string, rs: seq<Request>)
    requires Good(row) && Served(row.blocks, data) && Run(row, [Fill(ptr, offset, s)] + rs)
    requires forall r :: r in rs ==> r.Alloc? || r.ptr != ptr
    ensures var after := DataAfter(row, data, [Fill(ptr, offset, s)] + rs);
      ptr in after && offset + |s| <= |after[ptr]| && after[ptr][offset..offset + |s|] == s
  {
    hide WellFormed, NoTwoFree, Allocated, Place, PlaceEnd, Demand, Freed, Outside, Fails, LosesBackLink;
    var r := Fill(ptr, offset, s);
    assert ([r] + rs)[1..] == rs;
    MoveServes(row, data, r);
    var b := row.blocks[Find(row.blocks, ptr)];
    assert b in row.blocks;
    PayloadSurvives(row, MoveData(row, data, r), rs, b);
  }

  // ---------- The heap goes through these states ----------

  ghost function RowOf(h: Heap): Row
    reads h
  {
    Row(h.blocks, h.brk, h.mem.Length)
  }

  method Perform(h: Heap, r: Request)
    requires h.Valid() && Allowed(RowOf(h), r)
    modifies h, h.mem
    ensures h.Valid() && RowOf(h) == Move(old(RowOf(h)), r)
    ensures h.data == MoveData(old(RowOf(h)), old(h.data), r)
  {
    hide Place, PlaceEnd, Allocated, Demand, Served, WellFormed, NoTwoFree, Holds, Chained, Outside, Splice, Freed;
    match r
    case Alloc(size, refuse) =>
      var ptr := h.MmMalloc(size, refuse);
    case AsWritten(ptr) =>
      h.MmFree(ptr, Find(h.blocks, ptr));
    case Release(ptr) =>
      h.MmFreeRepaired(ptr, Find(h.blocks, ptr));
    case Fill(ptr, offset, s) =>
      h.ClientWrite(ptr, offset, s, Find(h.blocks, ptr));
  }

  method Drive(h: Heap, rs: seq<Request>)
    requires h.Valid() && Run(RowOf(h), rs)
    modifies h, h.mem
    ensures h.Valid() && RowOf(h) == After(old(RowOf(h)), rs)
    ensures h.data == DataAfter(old(RowOf(h)), old(h.data), rs)
    decreases |rs|
  {
    if rs != [] {
      MoveServes(RowOf(h), h.data, rs[0]);
      Perform(h, rs[0]);
      Drive(h, rs[1..]);
    }
  }

  // ---------- Where the source fails ----------

  // mm_free as written does lose a back link: of three blocks the first is freed, then the second.
  lemma BackLinkIsLost(rs: seq<Request>)
    requires rs == [Alloc(8, false), Alloc(8, false), Alloc(8, false), Release(32)]
    ensures Run(Row([], 8, 1000), rs)
    ensures After(Row([], 8, 1000), rs) == Row([Free(8, 8), Used(40, 8), Used(72, 8)], 104, 1000)
    ensures LosesBackLink([Free(8, 8), Used(40, 8), Used(72, 8)], 1)
  {
    var r0, r1 := Row([], 8, 1000), Row([Used(8, 8)], 40, 1000);
    var r2 := Row([Used(8, 8), Used(40, 8)], 72, 1000);
    var r3 := Row([Used(8, 8), Used(40, 8), Used(72, 8)], 104, 1000);
    ThreeAllocated(r0, r1, r2, r3);
    hide Move, Allowed;
    assert rs[1..][1..] == rs[2..] && rs[2..][1..] == rs[3..] == [Release(32)];
    OneMore(r0, r1, rs);
    OneMore(r1, r2, rs[1..]);
    OneMore(r2, r3, rs[2..]);
    LastReleased(r3);
  }

  lemma ThreeAllocated(r0: Row, r1: Row, r2: Row, r3: Row)
    requires r0 == Row([], 8, 1000) && r1 == Row([Used(8, 8)], 40, 1000)
    requires r2 == Row([Used(8, 8), Used(40, 8)], 72, 1000)
    requires r3 == Row([Used(8, 8), Used(40, 8), Used(72, 8)], 104, 1000)
    ensures Allowed(r0, Alloc(8, false)) && Move(r0, Alloc(8, false)) == r1
    ensures Allowed(r1, Alloc(8, false)) && Move(r1, Alloc(8, false)) == r2
    ensures Allowed(r2, Alloc(8, false)) && Move(r2, Alloc(8, false)) == r3
  {
    AllUsedAppends(r0.blocks, 8, 8);
    AllUsedAppends(r1.blocks, 40, 8);
    AllUsedAppends(r2.blocks, 72, 8);
    hide Allocated, Demand;
  }

  // While no block is free, blocks are allocated at the break.
  lemma {:induction false} AllUsedAppends(bs: seq<Block>, brk: nat, size: nat)
    requires forall b :: b in bs ==> b.Used?
    ensures Allocated(bs, brk, size) == bs + [Used(brk, size)] && Demand(bs, size) == size + H
  {
    if bs != [] {
      AllUsedAppends(bs[1..], brk, size);
    }
  }

  lemma LastReleased(row: Row)
    requires row == Row([Used(8, 8), Used(40, 8), Used(72, 8)], 104, 1000)
    ensures Run(row, [Release(32)])
    ensures After(row, [Release(32)]) == Row([Free(8, 8), Used(40, 8), Used(72, 8)], 104, 1000)
  {
    assert [Release(32)][1..] == [];
    assert After(row, [Release(32)]) == Move(row, Release(32));
  }

  lemma OneMore(row: Row, next: Row, rs: seq<Request>)
    requires rs != [] && Allowed(row, rs[0]) && next == Move(row, rs[0])
    ensures Run(row, rs) <==> Run(next, rs[1..])
    ensures Run(row, rs) ==> After(row, rs) == After(next, rs[1..])
  {
  }

  // mm_realloc does lose a payload: the last block, asked to grow, is freed and taken again, and
  // whatever was in it is zeros when it is copied.
  lemma PayloadIsLost(payload: string, written: string)
    requires |payload| == 8 && |written| == 16 && written == Zeros(16)
    ensures var (row, rs) := (Row([], 8, 1000), [Alloc(8, false)]);
      && Run(row, rs) && Find(After(row, rs).blocks, 32) == 0
      && !KeepsPayload(After(row, rs).blocks, 0, After(row, rs).brk, 16)
      && Place(FreedAt(After(row, rs).blocks, 0), After(row, rs).brk, 16) + H == 32
      && Copied(payload, 32, 32, written) == Zeros(8)
  {
    var r1 := Row([Used(8, 8)], 40, 1000);
    assert Move(Row([], 8, 1000), Alloc(8, false)) == r1;
    assert FreedAt(r1.blocks, 0) == [Free(8, 8)];
    SameBytesTaken(payload, 32, 16, "");
    assert Zeros(16) + "" == written;
  }

  // A block of 2^32 bytes has 0 in its size field: nothing of it is copied, wherever it goes.
  lemma LongPayloadIsLost(rs: seq<Request>, payload: string, written: string)
    requires rs == [Alloc(0x1_0000_0000, false)] && |payload| == 0x1_0000_0000
    ensures Run(Row([], 8, 0x8_0000_0000), rs)
    ensures After(Row([], 8, 0x8_0000_0000), rs) == Row([Used(8, 0x1_0000_0000)], 0x1_0000_0020, 0x8_0000_0000)
    ensures var bs, size := [Used(8, 0x1_0000_0000)], 0x1_0000_0064;
      && Stored(bs[0]) == 0 && Place(FreedAt(bs, 0), 0x1_0000_0020, size) == 8
      && !KeepsPayload(bs, 0, 0x1_0000_0020, size)
      && BroughtBack(payload, 0, 32, 32, size, written) == Zeros(0x1_0000_0000)
  {
    var bs := [Used(8, 0x1_0000_0000)];
    AllUsedAppends([], 8, 0x1_0000_0000);
    OneMore(Row([], 8, 0x8_0000_0000), Row(bs, 0x1_0000_0020, 0x8_0000_0000), rs);
    assert FreedAt(bs, 0) == [Free(8, 0)];
  }

  // mm_realloc asked to shrink does overwrite a header: a block behind a free one moves down into
  // it, and the copy of all its bytes goes over the header split off there.
  lemma HeaderIsOverrun(rs: seq<Request>, before: string, payload: string, written: string)
    requires rs == [Alloc(40, false), Alloc(100, false), Release(32)]
    requires |before| >= 196 && |written| == 32 && payload == seq(100, i => 'x')
    ensures Run(Row([], 8, 1000), rs)
    ensures After(Row([], 8, 1000), rs) == Row([Free(8, 40), Used(72, 100)], 196, 1000)
    ensures var bs := [Free(8, 40), Used(72, 100)];
      && Place(FreedAt(bs, 1), 196, 8) == 8 && Free(40, 132) in Allocated(FreedAt(bs, 1), 196, 8)
      && !ShrinksSafely(bs, 1, 196, 8) && MetaOf(Free(40, 132), 8, 0) == Meta(8, 0, 1, 132)
    ensures !HeaderAt(AfterCopy(before, payload, 96, 32, written), 40, Meta(8, 0, 1, 132))
  {
    HeaderIsGone(before, payload, written);
    hide AfterCopy, HeaderAt;
    var r0, r1 := Row([], 8, 1000), Row([Used(8, 40)], 72, 1000);
    var r2 := Row([Used(8, 40), Used(72, 100)], 196, 1000);
    AllUsedAppends(r0.blocks, 8, 40);
    AllUsedAppends(r1.blocks, 72, 100);
    OneMore(r0, r1, rs);
    OneMore(r1, r2, rs[1..]);
    assert rs[1..][1..] == rs[2..] == [Release(32)];
    assert After(r2, [Release(32)]) == Move(r2, Release(32)) by {
      assert [Release(32)][1..] == [];
    }
    MovedDown();
    hide FreedAt, Allocated, Place, Move;
    assert !Apart(40, H, 40, 92);
  }

  // The second block is joined to the free one before it, and the new block starts there.
  lemma MovedDown()
    ensures var freed := FreedAt([Free(8, 40), Used(72, 100)], 1);
      Place(freed, 196, 8) == 8 && Allocated(freed, 196, 8) == [Used(8, 8), Free(40, 132)]
  {
    var bs := [Free(8, 40), Used(72, 100)];
    assert FreedAt(bs, 1) == [Free(8, 164)] by {
      assert bs[..1] == [Free(8, 40)] && bs[2..] == [] && bs[..1][..0] == [];
    }
    assert [Free(8, 164)][1..] == [];
  }

  lemma HeaderIsGone(before: string, payload: string, written: string)
    requires |before| >= 196 && |written| == 32 && payload == seq(100, i => 'x')
    ensures !HeaderAt(AfterCopy(before, payload, 96, 32, written), 40, Meta(8, 0, 1, 132))
  {
    hide AfterCopy, HeaderAt, Copied;
    ByteCopied(before, payload, 96, 32, written, 40);
    NoSuchHeader(AfterCopy(before, payload, 96, 32, written), 40, Meta(8, 0, 1, 132));
  }

  lemma NoSuchHeader(m: string, a: nat, x: Meta)
    requires a < |m| && m[a] != (x.prev % 256) as char
    ensures !HeaderAt(m, a, x)
  {
    assert Le(x.prev, 8)[0] == (x.prev % 256) as char;
    assert a + 8 <= |m| ==> m[a..a + 8][0] == m[a];
  }
}
