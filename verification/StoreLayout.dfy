/**
  How the tree lies in the key-value store of `cachedfs/main.c`: which key holds what, and
  how each change of the tree is a handful of stores and deletes.
 */
module StoreLayout {
  import opened Prelude
  import opened Protocol
  import opened StoreKeys
  import opened StoreValues
  import opened FileTree
  import opened Buckets
  import opened BucketFiles

  function HeaderOf(node: Node, counted: bool): Header {
    match node
    case Dir(index, kids, pad) => Header(1, 0, |kids|, index, pad)
    case File(index, data, attrs) => Header(0, DataLen(data, counted), NumBuckets(|data|), index, |attrs|)
  }

  // What the store holds under key k if the tree is t.
  ghost function Expect(t: Tree, k: Key, counted: bool): Option<Value> {
    match k
    case Stats => Some(StatsV(0, 1024))
    case Head(p) => if p in t then Some(HeaderV(HeaderOf(t[p], counted))) else None
    case Slot(n, p) => if p in t && t[p].Dir? && 1 <= n <= |t[p].kids| then Some(TextV(t[p].kids[n - 1])) else None
    case Bucket(n, p) =>
      if p in t && t[p].File? && 1 <= n <= NumBuckets(|t[p].data|) then Some(TextV(Chunk(t[p].data, n))) else None
    case Attrib(n, p) =>
      if p in t && t[p].File? && 1 <= n <= |t[p].attrs| then Some(AttrV(n, t[p].attrs[n - 1])) else None
    case Stray(_) => None
  }

  type Layout = map<Key, Value>

  ghost predicate Agrees(l: Layout, t: Tree, k: Key, counted: bool) {
    match Expect(t, k, counted)
    case Some(v) => k in l && l[k] == v
    case None => k !in l
  }

  // The store holds exactly the tree: no key is missing, none is left over.
  ghost predicate Refines(l: Layout, t: Tree, counted: bool) {
    forall k {:trigger Agrees(l, t, k, counted)} :: Agrees(l, t, k, counted)
  }

  // A file: its header, its data 1024 bytes a bucket, its attributes, and no more of either.
  lemma FileInStore(l: Layout, t: Tree, counted: bool, p: Path, n: nat)
    requires Refines(l, t, counted) && p in t && t[p].File?
    ensures Head(p) in l && l[Head(p)].HeaderV?
    ensures var (h, buckets) := (l[Head(p)].header, (|t[p].data| + 1023) / 1024);
      && h.isDir == 0 && h.numBuckets == buckets && h.parentIndex == t[p].index && h.xattrNum == |t[p].attrs|
      && h.dataLen == |t[p].data| + if counted then 4 * buckets else 0
    ensures Bucket(n, p) in l <==> 1 <= n && (n - 1) * 1024 < |t[p].data|
    ensures Bucket(n, p) in l ==>
      l[Bucket(n, p)] == TextV(t[p].data[(n - 1) * 1024..Min(n * 1024, |t[p].data|)])
    ensures Attrib(n, p) in l <==> 1 <= n <= |t[p].attrs|
    ensures Attrib(n, p) in l ==> l[Attrib(n, p)] == AttrV(n, t[p].attrs[n - 1])
    ensures Slot(n, p) !in l
  {
    assert Agrees(l, t, Head(p), counted) && Agrees(l, t, Bucket(n, p), counted);
    assert Agrees(l, t, Attrib(n, p), counted) && Agrees(l, t, Slot(n, p), counted);
  }

  // A directory: its header, and the path of every child under the child's number.
  lemma DirInStore(l: Layout, t: Tree, counted: bool, p: Path, n: nat)
    requires Refines(l, t, counted) && p in t && t[p].Dir?
    ensures Head(p) in l && l[Head(p)] == HeaderV(Header(1, 0, |t[p].kids|, t[p].index, t[p].pad))
    ensures Slot(n, p) in l <==> 1 <= n <= |t[p].kids|
    ensures Slot(n, p) in l ==> l[Slot(n, p)] == TextV(t[p].kids[n - 1])
    ensures Bucket(n, p) !in l && Attrib(n, p) !in l
  {
    assert Agrees(l, t, Head(p), counted) && Agrees(l, t, Bucket(n, p), counted);
    assert Agrees(l, t, Attrib(n, p), counted) && Agrees(l, t, Slot(n, p), counted);
  }

  lemma RefinesSameNode(l: Layout, t: Tree, u: Tree, counted: bool, p: Path)
    requires Refines(l, t, counted) && Refines(l, u, counted)
    ensures p in t <==> p in u
    ensures p in t ==> t[p] == u[p]
  {
    assert Agrees(l, t, Head(p), counted) && Agrees(l, u, Head(p), counted);
    if p in t {
      if t[p].Dir? {
        forall i | 0 <= i < |t[p].kids|
          ensures t[p].kids[i] == u[p].kids[i]
        {
          assert Agrees(l, t, Slot(i + 1, p), counted) && Agrees(l, u, Slot(i + 1, p), counted);
        }
      } else {
        forall i | 0 <= i < |t[p].attrs|
          ensures t[p].attrs[i] == u[p].attrs[i]
        {
          assert Agrees(l, t, Attrib(i + 1, p), counted) && Agrees(l, u, Attrib(i + 1, p), counted);
        }
        forall n | 1 <= n <= NumBuckets(|t[p].data|)
          ensures Chunk(t[p].data, n) == Chunk(u[p].data, n)
        {
          assert Agrees(l, t, Bucket(n, p), counted) && Agrees(l, u, Bucket(n, p), counted);
        }
        SameChunksSameData(t[p].data, u[p].data);
      }
    }
  }

  // A store holds at most one tree: nothing about the tree is lost.
  lemma RefinesOneTree(l: Layout, t: Tree, u: Tree, counted: bool)
    requires Refines(l, t, counted) && Refines(l, u, counted)
    ensures t == u
  {
    forall p: Path
      ensures p in t <==> p in u
      ensures p in t ==> t[p] == u[p]
    {
      RefinesSameNode(l, t, u, counted, p);
    }
  }

  // ---------- Adding a child: three stores ----------

  ghost function AddLayout(l: Layout, t: Tree, p: Path, node: Node, counted: bool): Layout
    requires PathOk(p) && Parent(p) in t && t[Parent(p)].Dir?
  {
    var d := Parent(p);
    var n := |t[d].kids| + 1;
    l[Head(d) := HeaderV(HeaderOf(t[d], counted).(numBuckets := n))]
     [Slot(n, d) := TextV(p)]
     [Head(p) := HeaderV(HeaderOf(node, counted))]
  }

  lemma AddRefines(l: Layout, t: Tree, p: Path, node: Node, counted: bool)
    requires Refines(l, t, counted) && CanAdd(t, p)
    requires if node.Dir? then node.kids == [] else node.data == "" && node.attrs == []
    ensures Refines(AddLayout(l, t, p, node, counted), AddChild(t, p, node), counted)
  {
    var l', t' := AddLayout(l, t, p, node, counted), AddChild(t, p, node);
    forall k: Key
      ensures Agrees(l', t', k, counted)
    {
      assert Agrees(l, t, k, counted);
    }
  }

  // ---------- Removing a child: three stores, two deletes, and the file's own keys ----------

  // The last child of d moves to slot i; the headers of both say so.
  ghost function Moved(l: Layout, d: Path, i: nat, last: Path): Layout
    requires Head(d) in l && l[Head(d)].HeaderV? && Head(last) in l && l[Head(last)].HeaderV?
  {
    var h, g := l[Head(d)].header, l[Head(last)].header;
    l[Head(d) := HeaderV(h.(numBuckets := h.numBuckets - 1))]
     [Slot(i, d) := TextV(last)]
     [Head(last) := HeaderV(g.(parentIndex := i))]
  }

  ghost function UnlistLayout(l: Layout, t: Tree, p: Path, counted: bool): Layout
    requires Refines(l, t, counted) && WellFormed(t) && CanRemove(t, p)
  {
    UnlistNeeds(l, t, p, counted);
    var d, n := Parent(p), |t[Parent(p)].kids|;
    Moved(l, d, t[p].index, t[d].kids[n - 1]) - {Slot(n, d)} - {Head(p)}
  }

  // What the removal of p finds in the store.
  lemma UnlistNeeds(l: Layout, t: Tree, p: Path, counted: bool)
    requires Refines(l, t, counted) && WellFormed(t) && CanRemove(t, p)
    ensures UpOk(t, p) && PathOk(p) && PathOk(Parent(p))
    ensures Head(p) in l && l[Head(p)] == HeaderV(HeaderOf(t[p], counted))
      && l[Head(p)].header.parentIndex == t[p].index
    ensures var (d, n) := (Parent(p), |t[Parent(p)].kids|);
      n > 0 && Head(d) in l && l[Head(d)] == HeaderV(HeaderOf(t[d], counted)) && l[Head(d)].header.numBuckets == n &&
      var last := t[d].kids[n - 1];
      && Slot(n, d) in l && l[Slot(n, d)] == TextV(last)
      && PathOk(last) && last != d && last in t && Head(last) in l
        && l[Head(last)] == HeaderV(HeaderOf(t[last], counted))
  {
    Around(t, p);
    var d, n := Parent(p), |t[Parent(p)].kids|;
    assert Agrees(l, t, Head(p), counted) && Agrees(l, t, Head(d), counted) && Agrees(l, t, Slot(n, d), counted);
    assert Agrees(l, t, Head(t[d].kids[n - 1]), counted);
  }

  lemma UnlistIs(l: Layout, t: Tree, p: Path, counted: bool)
    requires Refines(l, t, counted) && WellFormed(t) && CanRemove(t, p)
    ensures UpOk(t, p)
    ensures var (d, n) := (Parent(p), |t[Parent(p)].kids|);
      && n > 0 && Head(d) in l && l[Head(d)].HeaderV?
      && Head(t[d].kids[n - 1]) in l && l[Head(t[d].kids[n - 1])].HeaderV?
      && UnlistLayout(l, t, p, counted)
        == Moved(l, d, t[p].index, t[d].kids[n - 1]) - {Slot(n, d)} - {Head(p)}
  {
    UnlistNeeds(l, t, p, counted);
  }

  ghost predicate OwnKey(k: Key, p: Path) {
    (k.Bucket? || k.Attrib?) && k.path == p
  }

  // After that only the removed file's buckets and attributes are still there.
  ghost predicate Unlisted(l: Layout, t: Tree, p: Path, counted: bool, k: Key)
    requires Refines(l, t, counted) && WellFormed(t) && CanRemove(t, p) && UpOk(t, p)
  {
    Agrees(UnlistLayout(l, t, p, counted), if OwnKey(k, p) then t else RemoveChild(t, p), k, counted)
  }

  lemma UnlistAgrees(l: Layout, t: Tree, p: Path, counted: bool, k: Key)
    requires Refines(l, t, counted) && WellFormed(t) && CanRemove(t, p) && UpOk(t, p)
    ensures Unlisted(l, t, p, counted, k)
  {
    if k.Head? {
      UnlistHeads(l, t, p, counted, k);
    } else if k.Slot? {
      UnlistSlots(l, t, p, counted, k);
    } else {
      UnlistOthers(l, t, p, counted, k);
    }
  }

  lemma UnlistOthers(l: Layout, t: Tree, p: Path, counted: bool, k: Key)
    requires Refines(l, t, counted) && WellFormed(t) && CanRemove(t, p) && UpOk(t, p) && !k.Head? && !k.Slot?
    ensures Unlisted(l, t, p, counted, k)
  {
    Around(t, p);
    UnlistNeeds(l, t, p, counted);
    var l' := UnlistLayout(l, t, p, counted);
    assert (k in l' <==> k in l) && (k in l ==> l'[k] == l[k]);
    assert Agrees(l, t, k, counted);
  }

  lemma UnlistHeads(l: Layout, t: Tree, p: Path, counted: bool, k: Key)
    requires Refines(l, t, counted) && WellFormed(t) && CanRemove(t, p) && UpOk(t, p) && k.Head?
    ensures Unlisted(l, t, p, counted, k)
  {
    Around(t, p);
    UnlistNeeds(l, t, p, counted);
    assert Agrees(l, t, k, counted);
  }

  lemma UnlistSlots(l: Layout, t: Tree, p: Path, counted: bool, k: Key)
    requires Refines(l, t, counted) && WellFormed(t) && CanRemove(t, p) && UpOk(t, p) && k.Slot?
    ensures Unlisted(l, t, p, counted, k)
  {
    Around(t, p);
    UnlistNeeds(l, t, p, counted);
    assert Agrees(l, t, k, counted);
  }

  ghost function AttribKeys(p: Path, n: nat): set<Key> {
    set i | 1 <= i <= n :: Attrib(i, p)
  }

  ghost function BucketKeys(p: Path, n: nat): set<Key> {
    set i | 1 <= i <= n :: Bucket(i, p)
  }

  lemma RemoveRefines(l: Layout, t: Tree, p: Path, counted: bool)
    requires Refines(l, t, counted) && WellFormed(t) && CanRemove(t, p)
    ensures UpOk(t, p)
    ensures t[p].Dir? ==> Refines(UnlistLayout(l, t, p, counted), RemoveChild(t, p), counted)
    ensures t[p].File? ==>
      Refines(UnlistLayout(l, t, p, counted) - AttribKeys(p, |t[p].attrs|) - BucketKeys(p, NumBuckets(|t[p].data|)),
        RemoveChild(t, p), counted)
  {
    Around(t, p);
    var l1, t' := UnlistLayout(l, t, p, counted), RemoveChild(t, p);
    var l2 := if t[p].Dir? then l1 else l1 - AttribKeys(p, |t[p].attrs|) - BucketKeys(p, NumBuckets(|t[p].data|));
    forall k: Key
      ensures Agrees(l2, t', k, counted)
    {
      UnlistAgrees(l, t, p, counted, k);
    }
  }

  // ---------- Writing a file ----------

  lemma BucketThere(l: Layout, t: Tree, p: Path, n: nat, counted: bool)
    requires Refines(l, t, counted) && p in t && t[p].File? && 1 <= n <= NumBuckets(|t[p].data|)
    ensures Bucket(n, p) in l && l[Bucket(n, p)] == TextV(Chunk(t[p].data, n))
  {
    assert Agrees(l, t, Bucket(n, p), counted);
  }

  ghost predicate BucketIs(l: Layout, p: Path, buckets: map<nat, string>, n: nat) {
    if n in buckets then Bucket(n, p) in l && l[Bucket(n, p)] == TextV(buckets[n]) else Bucket(n, p) !in l
  }

  ghost predicate BucketsAre(l: Layout, p: Path, buckets: map<nat, string>) {
    forall n: nat {:trigger BucketIs(l, p, buckets, n)} :: BucketIs(l, p, buckets, n)
  }

  function WithCounts(h: Header, f: Raw): Header {
    h.(numBuckets := f.numBuckets, dataLen := f.dataLen)
  }

  // p's header and buckets are those of f, the header's other fields those of h.
  ghost predicate HasFile(l: Layout, p: Path, h: Header, f: Raw) {
    Head(p) in l && l[Head(p)] == HeaderV(WithCounts(h, f)) && BucketsAre(l, p, f.buckets)
  }

  predicate FileKey(k: Key, p: Path) {
    k == Head(p) || (k.Bucket? && k.path == p)
  }

  ghost predicate SameAt(l: Layout, l': Layout, k: Key) {
    if k in l then k in l' && l'[k] == l[k] else k !in l'
  }

  // Nothing but p's header and buckets differs.
  ghost predicate SameBut(l: Layout, l': Layout, p: Path) {
    forall k {:trigger SameAt(l, l', k)} :: !FileKey(k, p) ==> SameAt(l, l', k)
  }

  lemma SameButTransitive(l: Layout, l': Layout, l'': Layout, p: Path)
    requires SameBut(l, l', p) && SameBut(l', l'', p)
    ensures SameBut(l, l'', p)
  {
    forall k | !FileKey(k, p)
      ensures SameAt(l, l'', k)
    {
      assert SameAt(l, l', k) && SameAt(l', l'', k);
    }
  }

  lemma BucketStored(l: Layout, p: Path, buckets: map<nat, string>, n: nat, text: string)
    requires BucketsAre(l, p, buckets)
    ensures var l' := l[Bucket(n, p) := TextV(text)]; BucketsAre(l', p, buckets[n := text]) && SameBut(l, l', p)
  {
    var l', buckets' := l[Bucket(n, p) := TextV(text)], buckets[n := text];
    forall m: nat
      ensures BucketIs(l', p, buckets', m)
    {
      assert BucketIs(l, p, buckets, m);
    }
  }

  lemma HeadStored(l: Layout, p: Path, h: Header, f: Raw)
    requires BucketsAre(l, p, f.buckets)
    ensures var l' := l[Head(p) := HeaderV(WithCounts(h, f))]; HasFile(l', p, h, f) && SameBut(l, l', p)
  {
    var l' := l[Head(p) := HeaderV(WithCounts(h, f))];
    forall m: nat
      ensures BucketIs(l', p, f.buckets, m)
    {
      assert BucketIs(l, p, f.buckets, m);
    }
  }

  lemma HasImage(l: Layout, t: Tree, p: Path, counted: bool)
    requires Refines(l, t, counted) && p in t && t[p].File?
    ensures HasFile(l, p, HeaderOf(t[p], counted), Image(t[p].data, counted))
  {
    assert Agrees(l, t, Head(p), counted);
    forall n: nat
      ensures BucketIs(l, p, Image(t[p].data, counted).buckets, n)
    {
      assert Agrees(l, t, Bucket(n, p), counted);
    }
  }

  function Rewritten(t: Tree, p: Path, data: string): Tree
    requires p in t && t[p].File?
  {
    t[p := t[p].(data := data)]
  }

  // A store in which only p's header and buckets have changed is that of the tree with p's
  // contents changed exactly if they are the image of the new contents.
  lemma FileRefines(l: Layout, l': Layout, t: Tree, p: Path, f: Raw, data: string, counted: bool)
    requires Refines(l, t, counted) && p in t && t[p].File? && SameBut(l, l', p)
    requires HasFile(l', p, HeaderOf(t[p], counted), f)
    ensures Refines(l', Rewritten(t, p, data), counted) <==> f == Image(data, counted)
  {
    var t', g := Rewritten(t, p, data), Image(data, counted);
    if f == g {
      forall k: Key
        ensures Agrees(l', t', k, counted)
      {
        ImageAgrees(l, l', t, p, data, counted, k);
      }
    }
    if Refines(l', t', counted) {
      assert Agrees(l', t', Head(p), counted);
      forall n: nat
        ensures n in f.buckets <==> n in g.buckets
        ensures n in f.buckets ==> f.buckets[n] == g.buckets[n]
      {
        assert Agrees(l', t', Bucket(n, p), counted) && BucketIs(l', p, f.buckets, n);
      }
      assert f.buckets == g.buckets;
    }
  }

  lemma ImageAgrees(l: Layout, l': Layout, t: Tree, p: Path, data: string, counted: bool, k: Key)
    requires Refines(l, t, counted) && p in t && t[p].File? && SameBut(l, l', p)
    requires HasFile(l', p, HeaderOf(t[p], counted), Image(data, counted))
    ensures Agrees(l', Rewritten(t, p, data), k, counted)
  {
    if k.Bucket? && k.path == p {
      assert BucketIs(l', p, Image(data, counted).buckets, k.n);
    } else if k != Head(p) {
      assert Agrees(l, t, k, counted) && SameAt(l, l', k);
    }
  }

  // ---------- Attributes ----------

  lemma AttribThere(l: Layout, t: Tree, p: Path, i: nat, counted: bool)
    requires Refines(l, t, counted) && p in t && t[p].File? && 1 <= i <= |t[p].attrs|
    ensures Attrib(i, p) in l && l[Attrib(i, p)] == AttrV(i, t[p].attrs[i - 1])
  {
    assert Agrees(l, t, Attrib(i, p), counted);
  }

  function WithAttrs(t: Tree, p: Path, attrs: seq<Attr>): Tree
    requires p in t && t[p].File?
  {
    t[p := t[p].(attrs := attrs)]
  }

  lemma SetAttrRefines(l: Layout, t: Tree, p: Path, a: Attr, counted: bool)
    requires Refines(l, t, counted) && p in t && t[p].File?
    ensures var t' := WithAttrs(t, p, t[p].attrs + [a]);
            var n := |t[p].attrs| + 1;
      Refines(l[Head(p) := HeaderV(HeaderOf(t'[p], counted))][Attrib(n, p) := AttrV(n, a)], t', counted)
  {
    var t' := WithAttrs(t, p, t[p].attrs + [a]);
    var n := |t[p].attrs| + 1;
    var l' := l[Head(p) := HeaderV(HeaderOf(t'[p], counted))][Attrib(n, p) := AttrV(n, a)];
    forall k: Key
      ensures Agrees(l', t', k, counted)
    {
      assert Agrees(l, t, k, counted);
    }
  }

  lemma RemoveAttrRefines(l: Layout, t: Tree, p: Path, i: nat, counted: bool)
    requires Refines(l, t, counted) && p in t && t[p].File? && i < |t[p].attrs|
    ensures var t' := WithAttrs(t, p, DropAt(t[p].attrs, i));
            var n := |t[p].attrs|;
      Refines(l[Head(p) := HeaderV(HeaderOf(t'[p], counted))][Attrib(i + 1, p) := AttrV(i + 1, t[p].attrs[n - 1])]
              - {Attrib(n, p)}, t', counted)
  {
    var t' := WithAttrs(t, p, DropAt(t[p].attrs, i));
    var n := |t[p].attrs|;
    var l' := l[Head(p) := HeaderV(HeaderOf(t'[p], counted))][Attrib(i + 1, p) := AttrV(i + 1, t[p].attrs[n - 1])]
              - {Attrib(n, p)};
    forall k: Key
      ensures Agrees(l', t', k, counted)
    {
      assert Agrees(l, t, k, counted);
    }
  }

  // ---------- The store itself ----------

  // Under k's name are the bytes of v.
  ghost predicate Kept(store: Store, k: Key, v: Value) {
    KeyValid(k) && ValueOk(v) && Name(k) in store && store[Name(k)] == Bytes(v)
  }

  ghost predicate IsName(s: string, k: Key) {
    Name(k) == s
  }

  // The store holds the bytes of exactly these values, under their names.
  ghost predicate Stored(store: Store, l: Layout) {
    && (forall k {:trigger Kept(store, k, l[k])} :: k in l ==> Kept(store, k, l[k]))
    && (forall s {:trigger s in store} :: s in store ==> exists k {:trigger IsName(s, k)} :: k in l && IsName(s, k))
  }

  lemma KeptElsewhere(store: Store, k: Key, bytes: string, x: Key, v: Value)
    requires Kept(store, x, v) && x != k && KeyValid(k)
    ensures Kept(store[Name(k) := bytes], x, v) && Kept(store - {Name(k)}, x, v)
  {
    if Name(x) == Name(k) {
      NamesDiffer(x, k);
    }
  }

  lemma StoredSet(store: Store, l: Layout, k: Key, v: Value)
    requires Stored(store, l) && KeyValid(k) && ValueOk(v)
    ensures Stored(store[Name(k) := Bytes(v)], l[k := v])
  {
    var name, bytes := Name(k), Bytes(v);
    var store', l' := store[name := bytes], l[k := v];
    forall x | x in l'
      ensures Kept(store', x, l'[x])
    {
      if x != k {
        assert Kept(store, x, l[x]);
        KeptElsewhere(store, k, bytes, x, l[x]);
      }
    }
    forall s | s in store'
      ensures exists x :: x in l' && IsName(s, x)
    {
      if s == name {
        assert k in l' && IsName(s, k);
      } else {
        var x :| x in l && IsName(s, x);
        assert x in l';
      }
    }
  }

  lemma StoredDelete(store: Store, l: Layout, k: Key)
    requires Stored(store, l) && KeyValid(k)
    ensures Stored(store - {Name(k)}, l - {k})
  {
    var name := Name(k);
    var store', l' := store - {name}, l - {k};
    forall x | x in l'
      ensures Kept(store', x, l'[x])
    {
      assert Kept(store, x, l[x]);
      KeptElsewhere(store, k, "", x, l[x]);
    }
    forall s | s in store'
      ensures exists x :: x in l' && IsName(s, x)
    {
      var x :| x in l && IsName(s, x);
      assert x != k;
      assert x in l';
    }
  }

  lemma StoredGet(store: Store, l: Layout, k: Key)
    requires Stored(store, l) && KeyValid(k)
    ensures Name(k) in store <==> k in l
    ensures k in l ==> ValueOk(l[k]) && store[Name(k)] == Bytes(l[k])
  {
    if k in l {
      assert Kept(store, k, l[k]);
    }
    if Name(k) in store {
      var x :| x in l && IsName(Name(k), x);
      assert Kept(store, x, l[x]);
      NamesDiffer(x, k);
    }
  }

  // Every value in the store carries its own length, so that every cache_get returns it whole.
  lemma StoredIsFramed(store: Store, l: Layout, key: string)
    requires Stored(store, l) && key in store
    ensures Framed(store[key]) && KeyOk(key)
  {
    var k :| k in l && IsName(key, k);
    assert Kept(store, k, l[k]);
    BytesFramed(l[k]);
    NameOk(k);
  }

  // The store's keys are those of the tree's headers, slots, buckets and attributes and the
  // marker, and under each are the bytes the tree calls for.
  lemma StoreIsTheTree(store: Store, l: Layout, t: Tree, counted: bool, s: string)
    requires Stored(store, l) && Refines(l, t, counted)
    ensures s in store <==> exists k: Key {:trigger IsName(s, k)} :: IsName(s, k) && Expect(t, k, counted).Some?
    ensures forall k: Key :: IsName(s, k) && Expect(t, k, counted).Some? ==>
      s in store && ValueOk(Expect(t, k, counted).value) && store[s] == Bytes(Expect(t, k, counted).value)
  {
    forall k: Key | IsName(s, k) && Expect(t, k, counted).Some?
      ensures s in store && ValueOk(Expect(t, k, counted).value) && store[s] == Bytes(Expect(t, k, counted).value)
    {
      assert Agrees(l, t, k, counted) && Kept(store, k, l[k]);
    }
    if s in store {
      var k :| k in l && IsName(s, k);
      assert Agrees(l, t, k, counted);
    }
  }
}
