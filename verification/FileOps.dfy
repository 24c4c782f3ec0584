/**
  What the calls of `cachedfs/main.c` mean on the tree, and what every run of them keeps.
 */
module FileOps {
  import opened Prelude
  import opened CBytes
  import opened StoreKeys
  import opened StoreValues
  import opened FileTree

  // ---------- Contents ----------

  // Writing s over data from offset on; a gap is filled with zeros.
  function WriteAt(data: string, offset: nat, s: string): (r: string)
    ensures |r| == if s == "" && offset <= |data| then |data|
                   else if offset + |s| > |data| then offset + |s| else |data|
  {
    var whole := if offset <= |data| then data else data + Zeros(offset - |data|);
    whole[..offset] + s + (if offset + |s| < |whole| then whole[offset + |s|..] else "")
  }

  // A byte array's view of it.
  lemma WriteAtBytes(data: string, offset: nat, s: string, i: nat)
    requires i < |WriteAt(data, offset, s)|
    ensures WriteAt(data, offset, s)[i]
      == if offset <= i < offset + |s| then s[i - offset] else if i < |data| then data[i] else '\0'
  {
  }

  lemma WriteInTwo(data: string, offset: nat, s1: string, s2: string)
    requires offset <= |data|
    ensures WriteAt(WriteAt(data, offset, s1), offset + |s1|, s2) == WriteAt(data, offset, s1 + s2)
  {
    var a, b := WriteAt(WriteAt(data, offset, s1), offset + |s1|, s2), WriteAt(data, offset, s1 + s2);
    assert |a| == |b|;
    forall i | 0 <= i < |a|
      ensures a[i] == b[i]
    {
      WriteAtBytes(WriteAt(data, offset, s1), offset + |s1|, s2, i);
      WriteAtBytes(data, offset, s1 + s2, i);
      if i < |WriteAt(data, offset, s1)| {
        WriteAtBytes(data, offset, s1, i);
      }
    }
  }

  lemma WriteNothing(data: string, offset: nat)
    requires offset <= |data|
    ensures WriteAt(data, offset, "") == data
  {
  }

  // A write behind the end is a write of zeros at the end, followed by the write itself.
  lemma WriteBehindEnd(data: string, offset: nat, s: string)
    requires offset > |data|
    ensures WriteAt(data, offset, s) == WriteAt(WriteAt(data, |data|, Zeros(offset - |data|)), offset, s)
  {
    assert WriteAt(data, |data|, Zeros(offset - |data|)) == data + Zeros(offset - |data|);
  }

  // ---------- Attributes ----------

  // The lowest record of that name, or |attrs|.
  function FindAttr(attrs: seq<Attr>, name: string): (i: nat)
    ensures i <= |attrs|
    ensures i < |attrs| ==> attrs[i].name == name
    ensures forall j :: 0 <= j < i ==> attrs[j].name != name
  {
    if attrs == [] || attrs[0].name == name then 0 else 1 + FindAttr(attrs[1..], name)
  }

  // What getxattr finds.
  function Lookup(attrs: seq<Attr>, name: string): Option<string> {
    var i := FindAttr(attrs, name);
    if i < |attrs| then Some(attrs[i].value) else None
  }

  ghost predicate DistinctNames(attrs: seq<Attr>) {
    forall i, j :: 0 <= i < j < |attrs| ==> attrs[i].name != attrs[j].name
  }

  // The records stand for a finite map.
  ghost predicate StandFor(attrs: seq<Attr>, m: map<string, string>) {
    && DistinctNames(attrs)
    && forall x {:trigger Lookup(attrs, x)} :: Lookup(attrs, x) == if x in m then Some(m[x]) else None
  }

  lemma FoundAt(attrs: seq<Attr>, i: nat)
    requires DistinctNames(attrs) && i < |attrs|
    ensures FindAttr(attrs, attrs[i].name) == i
  {
    var j := FindAttr(attrs, attrs[i].name);
  }

  // setxattr appends; on a name that is absent this is insertion into the map.
  lemma SetAttrIsInsert(attrs: seq<Attr>, a: Attr, m: map<string, string>)
    requires StandFor(attrs, m) && a.name !in m
    ensures StandFor(attrs + [a], m[a.name := a.value])
  {
    var attrs' := attrs + [a];
    assert Lookup(attrs, a.name) == None;
    assert DistinctNames(attrs') by {
      assert forall i :: 0 <= i < |attrs| ==> attrs[i].name != a.name;
    }
    forall x
      ensures Lookup(attrs', x) == if x == a.name then Some(a.value) else Lookup(attrs, x)
    {
      AppendedLookup(attrs, a, x);
    }
  }

  lemma AppendedLookup(attrs: seq<Attr>, a: Attr, x: string)
    requires DistinctNames(attrs + [a])
    ensures Lookup(attrs + [a], x) == if x == a.name then Some(a.value) else Lookup(attrs, x)
  {
    var attrs' := attrs + [a];
    var i := FindAttr(attrs, x);
    if x == a.name {
      FoundAt(attrs', |attrs|);
    } else if i < |attrs| {
      FoundAt(attrs', i);
    } else {
      assert FindAttr(attrs', x) >= |attrs|;
    }
  }

  // removexattr moves the last record into the hole; the map just loses the name.
  lemma RemoveAttrIsDelete(attrs: seq<Attr>, name: string, m: map<string, string>)
    requires StandFor(attrs, m) && FindAttr(attrs, name) < |attrs|
    ensures StandFor(DropAt(attrs, FindAttr(attrs, name)), m - {name})
  {
    var attrs' := DropAt(attrs, FindAttr(attrs, name));
    forall x
      ensures Lookup(attrs', x) == if x == name then None else Lookup(attrs, x)
    {
      DroppedLookup(attrs, name, x);
    }
  }

  lemma DroppedLookup(attrs: seq<Attr>, name: string, x: string)
    requires DistinctNames(attrs) && FindAttr(attrs, name) < |attrs|
    ensures var attrs' := DropAt(attrs, FindAttr(attrs, name));
      Lookup(attrs', x) == if x == name then None else Lookup(attrs, x)
  {
    hide FindAttr, DropAt, DistinctNames;
    var i, j := FindAttr(attrs, name), FindAttr(attrs, x);
    DroppedNames(attrs, i);
    if j < |attrs| && j != i {
      FoundAt(DropAt(attrs, i), if j == |attrs| - 1 then i else j);
    } else {
      DroppedAbsent(attrs, i, x);
    }
  }

  lemma DroppedNames(attrs: seq<Attr>, i: nat)
    requires DistinctNames(attrs) && i < |attrs|
    ensures DistinctNames(DropAt(attrs, i))
  {
  }

  lemma DroppedAbsent(attrs: seq<Attr>, i: nat, x: string)
    requires DistinctNames(attrs) && i < |attrs| && FindAttr(attrs, x) in {i, |attrs|}
    ensures Lookup(DropAt(attrs, i), x) == None
  {
    var attrs' := DropAt(attrs, i);
    forall j | 0 <= j < |attrs'|
      ensures attrs'[j].name != x
    {
      FoundAt(attrs, if j == i then |attrs| - 1 else j);
    }
  }

  // ---------- The calls, and runs of them ----------

  datatype Op =
    | Mkdir(path: Path, pad: int)
    | Create(path: Path)
    | Rmdir(path: Path)
    | Unlink(path: Path)
    | Write(path: Path, offset: nat, buf: string)
    | SetXattr(path: Path, attr: Attr)
    | RemoveXattr(path: Path, name: string)

  // What the kernel makes sure of before it makes the call.
  ghost predicate Enabled(t: Tree, op: Op) {
    match op
    case Mkdir(p, _) => CanAdd(t, p)
    case Create(p) => CanAdd(t, p)
    case Rmdir(p) => p in t && t[p].Dir?
    case Unlink(p) => p in t && t[p].File?
    case Write(p, _, _) => p in t && t[p].File?
    case SetXattr(p, _) => p in t && t[p].File?
    case RemoveXattr(p, _) => p in t && t[p].File?
  }

  ghost function Apply(t: Tree, op: Op): Tree
    requires WellFormed(t) && Enabled(t, op)
  {
    match op
    case Mkdir(p, pad) => AddChild(t, p, Dir(|t[Parent(p)].kids| + 1, [], pad))
    case Create(p) => AddChild(t, p, File(|t[Parent(p)].kids| + 1, "", []))
    case Rmdir(p) => if CanRemove(t, p) then Around(t, p); RemoveChild(t, p) else t
    case Unlink(p) => Around(t, p); RemoveChild(t, p)
    case Write(p, offset, buf) => t[p := t[p].(data := WriteAt(t[p].data, offset, buf))]
    case SetXattr(p, a) => t[p := t[p].(attrs := t[p].attrs + [a])]
    case RemoveXattr(p, name) =>
      var i := FindAttr(t[p].attrs, name);
      if i < |t[p].attrs| then t[p := t[p].(attrs := DropAt(t[p].attrs, i))] else t
  }

  // A file's contents and attributes do not matter to the shape of the tree.
  lemma FileChangeKeepsWellFormed(t: Tree, p: Path, node: Node)
    requires WellFormed(t) && p in t && t[p].File? && node.File? && node.index == t[p].index
    ensures WellFormed(t[p := node])
  {
    var t' := t[p := node];
    forall q | q in t' && q != ROOT
      ensures UpOk(t', q)
    {
      assert UpOk(t, q);
    }
    forall d, i | d in t' && t'[d].Dir? && 0 <= i < |t'[d].kids|
      ensures DownOk(t', d, i)
    {
      assert DownOk(t, d, i);
    }
  }

  lemma ApplyKeepsWellFormed(t: Tree, op: Op)
    requires WellFormed(t) && Enabled(t, op)
    ensures WellFormed(Apply(t, op))
  {
    var p := op.path;
    var t' := Apply(t, op);
    match op
    case Mkdir(_, _) => AddKeepsWellFormed(t, p, t'[p]);
    case Create(_) => AddKeepsWellFormed(t, p, t'[p]);
    case Rmdir(_) =>
      if CanRemove(t, p) {
        RemoveKeepsWellFormed(t, p);
      }
    case Unlink(_) => RemoveKeepsWellFormed(t, p);
    case Write(_, _, _) => FileChangeKeepsWellFormed(t, p, t'[p]);
    case SetXattr(_, _) => FileChangeKeepsWellFormed(t, p, t'[p]);
    case RemoveXattr(_, _) => FileChangeKeepsWellFormed(t, p, t'[p]);
  }

  // The tree hello_init makes.
  ghost function Fresh(pad: int): (t: Tree)
    ensures WellFormed(t)
  {
    map[ROOT := Dir(0, [], pad)]
  }

  ghost predicate Run(t: Tree, ops: seq<Op>)
    requires WellFormed(t)
    decreases |ops|
  {
    ops != [] ==> Enabled(t, ops[0]) && (ApplyKeepsWellFormed(t, ops[0]); Run(Apply(t, ops[0]), ops[1..]))
  }

  ghost function After(t: Tree, ops: seq<Op>): (r: Tree)
    requires WellFormed(t) && Run(t, ops)
    ensures WellFormed(r)
    decreases |ops|
  {
    if ops == [] then t else ApplyKeepsWellFormed(t, ops[0]); After(Apply(t, ops[0]), ops[1..])
  }

  // In every reachable tree: everything but the root has an existing directory as its parent,
  // and a directory's slot i holds p exactly if p is its child and says its index is i.
  lemma ReachableIndexBijection(pad: int, ops: seq<Op>, d: Path, i: nat, p: Path)
    requires Run(Fresh(pad), ops)
    ensures var t := After(Fresh(pad), ops);
      && (p in t && p != ROOT ==> PathOk(p) && Parent(p) in t && t[Parent(p)].Dir?)
      && (d in t && t[d].Dir? ==>
            (1 <= i <= |t[d].kids| && t[d].kids[i - 1] == p
             <==> p in t && p != ROOT && Parent(p) == d && t[p].index == i))
  {
    var t := After(Fresh(pad), ops);
    assert p in t && p != ROOT ==> UpOk(t, p);
    if d in t && t[d].Dir? {
      IndexBijection(t, d, i, p);
    }
  }

  // A call on one path leaves the contents and attributes of every other file alone, and does
  // not make it come or go.
  lemma OthersFramed(t: Tree, op: Op, q: Path)
    requires WellFormed(t) && Enabled(t, op) && q != op.path
    ensures q in Apply(t, op) <==> q in t
    ensures q in t && t[q].File? ==>
      Apply(t, op)[q].File? && Apply(t, op)[q].data == t[q].data && Apply(t, op)[q].attrs == t[q].attrs
  {
    if (op.Rmdir? || op.Unlink?) && CanRemove(t, op.path) {
      Around(t, op.path);
    }
  }

  // The plain byte array a sequence of writes makes of data.
  function Overlay(data: string, writes: seq<(nat, string)>): string
    decreases |writes|
  {
    if writes == [] then data else Overlay(WriteAt(data, writes[0].0, writes[0].1), writes[1..])
  }

  // The writes to p among ops, in order.
  function WritesTo(p: Path, ops: seq<Op>): seq<(nat, string)> {
    if ops == [] then []
    else if ops[0].Write? && ops[0].path == p then [(ops[0].offset, ops[0].buf)] + WritesTo(p, ops[1..])
    else WritesTo(p, ops[1..])
  }

  // Whatever else happens in between, a file that nobody removes holds what its writes make of it.
  lemma {:induction false} ContentsAreTheWrites(t: Tree, ops: seq<Op>, p: Path)
    requires WellFormed(t) && Run(t, ops) && p in t && t[p].File?
    requires forall op :: op in ops ==> !(op.Unlink? && op.path == p)
    ensures var r := After(t, ops); p in r && r[p].File? && r[p].data == Overlay(t[p].data, WritesTo(p, ops))
    decreases |ops|
  {
    if ops != [] {
      var op := ops[0];
      ApplyKeepsWellFormed(t, op);
      if op.path != p {
        OthersFramed(t, op, p);
      }
      ContentsAreTheWrites(Apply(t, op), ops[1..], p);
    }
  }
}
