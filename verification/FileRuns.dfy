/**
  Whole runs of the file system of `cachedfs/main.c`: a FileSystem driven through any list of
  calls is, at the end, the store of the tree that the calls make of the first one.
 */
module FileRuns {
  import opened StoreKeys
  import opened StoreValues
  import opened FileTree
  import opened FileOps
  import opened Buckets
  import opened BucketFiles
  import opened CachedFs

  // A call, and what hello_write does not choose itself: whether the header is read again, and
  // what its buffers hold.
  datatype Step = Step(op: Op, reload: bool, junk: string, inner: string)

  // The kernel allows the call, its numbers fit the int fields, and a write is one that comes out
  // right.
  ghost predicate Fits(t: Tree, s: Step, counted: bool)
    requires WellFormed(t)
  {
    && Enabled(t, s.op) && |s.junk| == 1024 == |s.inner| && (s.reload ==> !counted)
    && match s.op
       case Mkdir(p, pad) => IsInt(pad) && IsInt(4 + |p|) && IsInt(|t[Parent(p)].kids| + 1)
       case Create(p) => IsInt(4 + |p|) && IsInt(|t[Parent(p)].kids| + 1)
       case Write(p, offset, buf) =>
         && CallIsRight(t[p].data, buf, offset, s.reload, s.junk, counted)
         && IsInt(DataLen(WriteAt(t[p].data, offset, buf), counted))
       case SetXattr(p, a) => ValueOk(AttrV(|t[p].attrs| + 1, a))
       case _ => true
  }

  function Ops(steps: seq<Step>): (ops: seq<Op>)
    ensures |ops| == |steps|
  {
    if steps == [] then [] else [steps[0].op] + Ops(steps[1..])
  }

  ghost predicate FitAll(t: Tree, steps: seq<Step>, counted: bool)
    requires WellFormed(t)
    decreases |steps|
  {
    steps != [] ==>
      && Fits(t, steps[0], counted)
      && (ApplyKeepsWellFormed(t, steps[0].op); FitAll(Apply(t, steps[0].op), steps[1..], counted))
  }

  lemma {:induction false} FitAllRun(t: Tree, steps: seq<Step>, counted: bool)
    requires WellFormed(t) && FitAll(t, steps, counted)
    ensures Run(t, Ops(steps))
    decreases |steps|
  {
    if steps != [] {
      ApplyKeepsWellFormed(t, steps[0].op);
      FitAllRun(Apply(t, steps[0].op), steps[1..], counted);
      assert Ops(steps)[1..] == Ops(steps[1..]);
    }
  }

  method Perform(fs: FileSystem, s: Step)
    requires fs.Valid() && Fits(fs.tree, s, fs.counted)
    modifies fs
    ensures fs.Valid() && fs.tree == Apply(old(fs.tree), s.op)
  {
    assert PathOk(s.op.path);
    match s.op
    case Mkdir(p, pad) =>
      var res := fs.Mkdir(p, pad);
    case Create(p) =>
      var res := fs.Create(p, 0);
    case Rmdir(p) =>
      var res := fs.Rmdir(p);
    case Unlink(p) =>
      var res := fs.Unlink(p);
    case Write(p, offset, buf) =>
      var n := fs.Write(p, buf, offset, s.reload, s.junk, s.inner);
    case SetXattr(p, a) =>
      var res := fs.SetXattr(p, a.name, a.value, a.numBuckets, a.xattrNum);
    case RemoveXattr(p, name) =>
      var res := fs.RemoveXattr(p, name);
  }

  method Drive(fs: FileSystem, steps: seq<Step>)
    requires fs.Valid() && FitAll(fs.tree, steps, fs.counted)
    modifies fs
    ensures fs.Valid() && Run(old(fs.tree), Ops(steps)) && fs.tree == After(old(fs.tree), Ops(steps))
    decreases |steps|
  {
    FitAllRun(fs.tree, steps, fs.counted);
    if steps != [] {
      ghost var t0 := fs.tree;
      Perform(fs, steps[0]);
      Drive(fs, steps[1..]);
      assert Ops(steps)[1..] == Ops(steps[1..]);
    }
  }

  // Whatever is called in between, a read returns what a plain byte array would, written to as
  // often as the file was.
  method DriveAndRead(fs: FileSystem, steps: seq<Step>, p: Path, size: nat, offset: int)
    returns (toReturn: nat, buf: string)
    requires fs.Valid() && FitAll(fs.tree, steps, fs.counted) && p in fs.tree && fs.tree[p].File?
    requires forall op :: op in Ops(steps) ==> !(op.Unlink? && op.path == p)
    requires ReadInRange(Overlay(fs.tree[p].data, WritesTo(p, Ops(steps))), fs.counted, size, offset)
    modifies fs
    ensures var data := Overlay(old(fs.tree)[p].data, WritesTo(p, Ops(steps)));
      && toReturn == |buf| == ReadCount(|data|, size, offset)
      && (toReturn > 0 ==> buf == data[offset..offset + toReturn])
  {
    ghost var t0 := fs.tree;
    Drive(fs, steps);
    ContentsAreTheWrites(t0, Ops(steps), p);
    toReturn, buf := fs.Read(p, size, offset);
  }
}
