/**
  The file system `cachedfs/main.c` is meant to be: a tree of directories and files, files
  with contents and extended attributes.  Directories remember the order of their children,
  and every node its place in its parent, because that is what readdir shows and what removal
  moves around.
 */
module FileTree {
  import opened StoreKeys
  import opened StoreValues

  // pad is the header field hello_mkdir never assigns.
  datatype Node =
    | Dir(index: nat, kids: seq<Path>, pad: int)
    | File(index: nat, data: string, attrs: seq<Attr>)

  type Tree = map<Path, Node>

  const ROOT: Path := "/"

  // p's parent lists p where p says.
  ghost predicate UpOk(t: Tree, p: Path) {
    PathOk(p) && p in t &&
    var d := Parent(p);
    d in t && t[d].Dir? && 1 <= t[p].index <= |t[d].kids| && t[d].kids[t[p].index - 1] == p
  }

  // The i-th child of d exists, belongs there, and says so.
  ghost predicate DownOk(t: Tree, d: Path, i: nat) {
    d in t && t[d].Dir? && i < |t[d].kids| &&
    var k := t[d].kids[i];
    PathOk(k) && k in t && k != ROOT && Parent(k) == d && t[k].index == i + 1
  }

  ghost predicate WellFormed(t: Tree) {
    && ROOT in t && t[ROOT].Dir?
    && (forall p :: p in t ==> PathOk(p))
    && (forall p {:trigger UpOk(t, p)} :: p in t && p != ROOT ==> UpOk(t, p))
    && (forall d, i {:trigger DownOk(t, d, i)} :: d in t && t[d].Dir? && 0 <= i < |t[d].kids| ==> DownOk(t, d, i))
  }

  // Slot i of directory d holds p exactly if p exists, d is its parent and i is its index.
  lemma IndexBijection(t: Tree, d: Path, i: nat, p: Path)
    requires WellFormed(t) && d in t && t[d].Dir?
    ensures 1 <= i <= |t[d].kids| && t[d].kids[i - 1] == p
      <==> p in t && p != ROOT && Parent(p) == d && t[p].index == i
  {
    assert p in t && p != ROOT ==> UpOk(t, p);
    if 1 <= i <= |t[d].kids| {
      assert DownOk(t, d, i - 1);
    }
  }

  // ---------- Adding and removing a child ----------

  ghost predicate CanAdd(t: Tree, p: Path) {
    PathOk(p) && p != ROOT && p !in t && Parent(p) in t && t[Parent(p)].Dir?
  }

  function AddChild(t: Tree, p: Path, node: Node): Tree
    requires PathOk(p) && Parent(p) in t && t[Parent(p)].Dir?
  {
    var d := Parent(p);
    t[d := t[d].(kids := t[d].kids + [p])][p := node]
  }

  lemma AddKeepsWellFormed(t: Tree, p: Path, node: Node)
    requires WellFormed(t) && CanAdd(t, p) && node.index == |t[Parent(p)].kids| + 1 && (node.Dir? ==> node.kids == [])
    ensures WellFormed(AddChild(t, p, node))
  {
    var t' := AddChild(t, p, node);
    forall q | q in t' && q != ROOT
      ensures UpOk(t', q)
    {
      if q != p {
        assert UpOk(t, q);
      }
    }
    forall d, i | d in t' && t'[d].Dir? && 0 <= i < |t'[d].kids|
      ensures DownOk(t', d, i)
    {
      if d == Parent(p) && i == |t[d].kids| {
      } else {
        assert DownOk(t, d, i);
      }
    }
  }

  ghost predicate CanRemove(t: Tree, p: Path) {
    p != ROOT && p in t && (t[p].Dir? ==> t[p].kids == [])
  }

  // Swap-with-last: the last child moves into the hole.
  function DropAt<X>(s: seq<X>, i: nat): (r: seq<X>)
    requires i < |s|
    ensures |r| == |s| - 1
    ensures forall j :: 0 <= j < |r| ==> r[j] == if j == i then s[|s| - 1] else s[j]
  {
    s[i := s[|s| - 1]][..|s| - 1]
  }

  ghost function RemoveChild(t: Tree, p: Path): Tree
    requires UpOk(t, p)
  {
    var d, i := Parent(p), t[p].index;
    var last := t[d].kids[|t[d].kids| - 1];
    var moved := if last in t then t[last := t[last].(index := i)] else t;
    moved[d := t[d].(kids := DropAt(t[d].kids, i - 1))] - {p}
  }

  // What WellFormed says around the child being removed.
  lemma Around(t: Tree, p: Path)
    requires WellFormed(t) && CanRemove(t, p)
    ensures UpOk(t, p)
    ensures var (d, n) := (Parent(p), |t[Parent(p)].kids|);
      && n > 0 && d != p && DownOk(t, d, n - 1)
      && t[d].kids[n - 1] != d && t[t[d].kids[n - 1]].index == n
      && (t[d].kids[n - 1] == p <==> t[p].index == n)
  {
    assert UpOk(t, p);
    assert DownOk(t, Parent(p), |t[Parent(p)].kids| - 1);
  }

  lemma RemoveUp(t: Tree, p: Path, q: Path)
    requires WellFormed(t) && CanRemove(t, p) && q in t && q != p && q != ROOT
    ensures UpOk(t, p) && UpOk(RemoveChild(t, p), q)
  {
    Around(t, p);
    assert UpOk(t, q);
    assert Parent(q) != p;
  }

  lemma RemoveDown(t: Tree, p: Path, e: Path, j: nat)
    requires WellFormed(t) && CanRemove(t, p) && UpOk(t, p)
    requires var t' := RemoveChild(t, p); e in t' && t'[e].Dir? && j < |t'[e].kids|
    ensures DownOk(RemoveChild(t, p), e, j)
  {
    Around(t, p);
    assert DownOk(t, e, j);
    if e == Parent(p) {
      assert DownOk(t, e, t[p].index - 1);
    } else {
      assert t[e].kids[j] != p;
    }
  }

  lemma RemoveKeepsWellFormed(t: Tree, p: Path)
    requires WellFormed(t) && CanRemove(t, p)
    ensures UpOk(t, p) && WellFormed(RemoveChild(t, p))
  {
    Around(t, p);
    var t' := RemoveChild(t, p);
    forall q | q in t' && q != ROOT
      ensures UpOk(t', q)
    {
      RemoveUp(t, p, q);
    }
    forall e, j | e in t' && t'[e].Dir? && 0 <= j < |t'[e].kids|
      ensures DownOk(t', e, j)
    {
      RemoveDown(t, p, e, j);
    }
  }
}
