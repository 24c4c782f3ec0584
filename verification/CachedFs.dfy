/**
  The calls of `cachedfs/main.c` on a memcached store.  Every call works on the store as the
  source does, through commands and replies of the text protocol; `l` says what the stored
  bytes mean and `tree` which file system they are.
 */
module CachedFs {
  import opened Prelude
  import opened CBytes
  import opened Text
  import opened Protocol
  import opened StoreKeys
  import opened StoreValues
  import opened FileTree
  import opened FileOps
  import opened Buckets
  import opened BucketFiles
  import opened StoreLayout

  const EPERM: int := 1
  const ENOENT: int := 2
  const EFAULT: int := 14
  const ENOTDIR: int := 20
  const ENOTEMPTY: int := 39

  // Lines 194-204: the path is cut from the right up to its last slash.
  method ParentOf(path: Path) returns (parent: Path)
    requires path != "" && path[0] == '/'
    ensures parent == Parent(path)
  {
    var len := |path| - 1;
    while path[len] != '/'
      invariant 0 <= len < |path| && LastSlash(path) <= len
      invariant forall j :: len < j < |path| ==> path[j] != '/'
      decreases len
    {
      len := len - 1;
    }
    if len != 0 {
      parent := path[..len];
    } else {
      parent := path[..1];
    }
  }

  // Does the store a server holds carry the marker of this file system (lines 240-252)?  The buffer
  // of line 241 held `junk` before.
  predicate UsesOld(existing: Store, junk: string)
    requires |junk| == 128
  {
    "stats" in existing && |existing["stats"]| <= 128 &&
    var curBuf := existing["stats"] + junk[|existing["stats"]|..];
    TakeInt(curBuf[4..][4..]) == 1024
  }

  method InitCheck(existing: Store, junk: string) returns (ok: bool)
    requires |junk| == 128 && ("stats" in existing ==> Framed(existing["stats"]) && |existing["stats"]| <= 128)
    ensures ok == UsesOld(existing, junk)
  {
    var reply := GetReply(existing, "stats");
    var got := TakeApart(reply, existing, "stats");
    if got == None {
      return false;
    }
    var curBuf := got.value + junk[|got.value|..];
    ok := TakeInt(curBuf[4..][4..]) == 1024;
  }

  class FileSystem {
    // Whether the length of a file counts the cur_size of its buckets (line 574 as written).
    const counted: bool
    var store: Store
    ghost var l: Layout
    ghost var tree: Tree

    ghost predicate Consistent()
      reads this
    {
      Stored(store, l)
    }

    ghost predicate Valid()
      reads this
    {
      Stored(store, l) && WellFormed(tree) && Refines(l, tree, counted)
    }

    // hello_init, lines 254-283: a store with the right block size is taken over as it is; any
    // other is flushed and gets the marker and an empty root.
    constructor (existing: Store, counted: bool, pad: int, junk: string, ghost l0: Layout, ghost tree0: Tree)
      requires IsInt(pad)
      requires |junk| == 128 && ("stats" in existing ==> Framed(existing["stats"]) && |existing["stats"]| <= 128)
      requires UsesOld(existing, junk) ==> Stored(existing, l0) && WellFormed(tree0) && Refines(l0, tree0, counted)
      ensures Valid() && this.counted == counted
      ensures tree == if UsesOld(existing, junk) then tree0 else Fresh(pad)
      ensures UsesOld(existing, junk) ==> store == existing
    {
      this.counted := counted;
      var usable := InitCheck(existing, junk);
      if usable {
        store, l, tree := existing, l0, tree0;
      } else {
        store, l, tree := map[], map[], map[];
      }
      new;
      if !usable {
        CacheSet("stats", StatsV(0, 1024), Stats);
        MakeRoot(pad);
      }
    }

    // hello_mkdir("/"): the root has no parent to be listed in.
    method MakeRoot(pad: int)
      requires Consistent() && l == map[Stats := StatsV(0, 1024)] && IsInt(pad)
      modifies this`store, this`l, this`tree
      ensures Valid() && tree == Fresh(pad)
    {
      var parentIndex := AddToParent(ROOT);
      CacheSet(ROOT, HeaderV(Header(1, 0, 0, parentIndex, pad)), Head(ROOT));
      tree := Fresh(pad);
      forall k: Key
        ensures Agrees(l, tree, k, counted)
      {
      }
    }

    // What the next hello_init finds of this file system makes it take the store over.
    lemma TakenOver(junk: string)
      requires Valid() && |junk| == 128
      ensures "stats" in store && Framed(store["stats"]) && |store["stats"]| == 12 && UsesOld(store, junk)
    {
      assert Agrees(l, tree, Stats, counted);
      StoredGet(store, l, Stats);
      BytesFramed(l[Stats]);
      StatsReadBack(0, 1024);
      var s := store["stats"];
      assert (s + junk[|s|..])[4..][4..][..4] == s[4..][4..][..4];
    }

    // ---------- The store ----------

    method CacheSet(key: string, v: Value, ghost k: Key)
      requires Consistent() && KeyValid(k) && key == Name(k) && ValueOk(v)
      modifies this`store, this`l
      ensures Consistent() && l == old(l)[k := v]
    {
      NameOk(k);
      StoredSet(store, l, k, v);
      SetIsUnderstood(key, Bytes(v));
      var understood := ServerReadsSet(SetCommand(key, Bytes(v)));
      store := store[understood.value.0 := understood.value.1];
      l := l[k := v];
    }

    method CacheDelete(key: string, ghost k: Key)
      requires Consistent() && KeyValid(k) && key == Name(k)
      modifies this`store, this`l
      ensures Consistent() && l == old(l) - {k}
    {
      NameOk(k);
      StoredDelete(store, l, k);
      KeyIsUnderstood(key);
      var understood := ServerReadsKey(DeleteCommand(key), "delete");
      store := store - {understood.value};
      l := l - {k};
    }

    // cache_get: None for -1, else the whole value.
    method CacheGet(key: string, ghost k: Key) returns (r: Option<string>)
      requires Consistent() && KeyValid(k) && key == Name(k)
      ensures k !in l ==> r == None
      ensures k in l ==> ValueOk(l[k]) && r == Some(Bytes(l[k]))
    {
      NameOk(k);
      StoredGet(store, l, k);
      KeyIsUnderstood(key);
      var understood := ServerReadsKey(GetCommand(key), "get");
      var reply := GetReply(store, understood.value);
      if k in l {
        BytesFramed(l[k]);
      }
      r := TakeApart(reply, store, key);
    }

    method GetHeader(key: string, ghost k: Key) returns (r: Option<Header>)
      requires Consistent() && KeyValid(k) && key == Name(k) && (k in l ==> l[k].HeaderV?)
      ensures k !in l ==> r == None
      ensures k in l ==> r == Some(l[k].header) && HeaderOk(l[k].header)
    {
      var got := CacheGet(key, k);
      if got == None {
        r := None;
      } else {
        HeaderReadsBack(l[k].header);
        r := Some(DecodeHeader(got.value[4..]));
      }
    }

    method GetText(key: string, ghost k: Key) returns (text: string)
      requires Consistent() && KeyValid(k) && key == Name(k) && k in l && l[k].TextV?
      ensures text == l[k].text && ValueOk(l[k])
    {
      var got := CacheGet(key, k);
      BytesFramed(l[k]);
      text := got.value[4..];
    }

    // ---------- Children ----------

    // increaseChildrensNum and decreaseChildrensNum (lines 159-172 and 290-303)
    method ChangeChildrensNum(path: Path, delta: int, ghost k: Key) returns (cur: int)
      requires Consistent() && PathOk(path) && k == Head(path)
      requires k in l ==> l[k].HeaderV? && IsInt(l[k].header.numBuckets + delta)
      modifies this`store, this`l
      ensures Consistent()
      ensures k !in old(l) ==> cur == -1 && l == old(l)
      ensures k in old(l) ==>
        && cur == old(l)[k].header.numBuckets + delta
        && l == old(l)[k := HeaderV(old(l)[k].header.(numBuckets := cur))]
    {
      var got := GetHeader(path, k);
      if got != None {
        var h := got.value;
        cur := h.numBuckets + delta;
        CacheSet(path, HeaderV(h.(numBuckets := cur)), k);
      } else {
        cur := -1;
      }
    }

    // addToParent, lines 188-218.  When the parent is missing, its number is -1 and so is the
    // child's key: the path is left under "-1" and the parent's name.
    method AddToParent(path: Path) returns (curNum: int)
      requires Consistent() && PathOk(path) && IsInt(4 + |path|)
      requires var k := Head(Parent(path)); k in l ==>
        && l[k].HeaderV? && IsInt(l[k].header.numBuckets + 1)
        && l[k].header.numBuckets >= 0
      modifies this`store, this`l
      ensures Consistent()
      ensures path == ROOT ==> curNum == 0 && l == old(l)
      ensures path != ROOT ==>
        var d := Parent(path);
        if Head(d) in old(l) then
          && curNum == old(l)[Head(d)].header.numBuckets + 1
          && l == old(l)[Head(d) := HeaderV(old(l)[Head(d)].header.(numBuckets := curNum))]
                     [Slot(curNum, d) := TextV(path)]
        else curNum == -1 && l == old(l)[Stray(d) := TextV(path)]
    {
      if path == "/" {
        return 0;
      }
      var parent := ParentOf(path);
      curNum := ChangeChildrensNum(parent, 1, Head(parent));
      if curNum >= 0 {
        CacheSet(Dec(curNum) + parent, TextV(path), Slot(curNum, parent));
      } else {
        CacheSet("-1" + parent, TextV(path), Stray(parent));
      }
    }

    // What the kernel guarantees before mkdir and create, except that the parent may be missing;
    // and that the counter and the path's length fit the int fields.
    ghost predicate MayAdd(path: Path)
      reads this
    {
      && PathOk(path) && path != ROOT && path !in tree && IsInt(4 + |path|)
      && (Parent(path) in tree ==> tree[Parent(path)].Dir? && IsInt(|tree[Parent(path)].kids| + 1))
    }

    // hello_mkdir, lines 220-238; pad is what the unassigned xattr_num happens to be.
    method Mkdir(path: Path, pad: int) returns (res: int)
      requires Valid() && MayAdd(path) && IsInt(pad)
      modifies this
      ensures Parent(path) in old(tree) ==> res == 0 && Valid() && tree == Apply(old(tree), Op.Mkdir(path, pad))
      ensures Parent(path) !in old(tree) ==> res == -EFAULT && Consistent() && tree == old(tree)
      ensures Parent(path) !in old(tree) ==> forall t :: !Refines(l, t, counted)
    {
      var parentIndex := Enlist(path);
      if parentIndex >= 0 {
        CacheSet(path, HeaderV(Header(1, 0, 0, parentIndex, pad)), Head(path));
        FinishAdd(old(l), path, Dir(parentIndex, [], pad));
        res := 0;
      } else {
        res := -EFAULT;
      }
    }

    // hello_create, lines 480-497.  Without a parent the function ends without a return value:
    // `indefinite` stands for whatever the caller then sees.
    method Create(path: Path, indefinite: int) returns (res: int)
      requires Valid() && MayAdd(path)
      modifies this
      ensures Parent(path) in old(tree) ==> res == 0 && Valid() && tree == Apply(old(tree), Op.Create(path))
      ensures Parent(path) !in old(tree) ==> res == indefinite && Consistent() && tree == old(tree)
      ensures Parent(path) !in old(tree) ==> forall t :: !Refines(l, t, counted)
    {
      var parentIndex := Enlist(path);
      if parentIndex >= 0 {
        CacheSet(path, HeaderV(Header(0, 0, 0, parentIndex, 0)), Head(path));
        FinishAdd(old(l), path, File(parentIndex, "", []));
        res := 0;
      } else {
        res := indefinite;
      }
    }

    // addToParent in a store that holds a tree.
    method Enlist(path: Path) returns (curNum: int)
      requires Valid() && MayAdd(path)
      modifies this`store, this`l
      ensures Consistent()
      ensures Parent(path) in tree ==>
        var d := Parent(path);
        var n := |tree[d].kids| + 1;
        && curNum == n && IsInt(n)
        && l == old(l)[Head(d) := HeaderV(HeaderOf(tree[d], counted).(numBuckets := n))][Slot(n, d) := TextV(path)]
      ensures Parent(path) !in tree ==> curNum == -1 && forall t :: !Refines(l, t, counted)
    {
      ghost var d := Parent(path);
      assert Agrees(l, tree, Head(d), counted);
      curNum := AddToParent(path);
      if d !in tree {
        forall t
          ensures !Refines(l, t, counted)
        {
          assert !Agrees(l, t, Stray(d), counted);
        }
      }
    }

    ghost method FinishAdd(l0: Layout, path: Path, node: Node)
      requires WellFormed(tree) && Refines(l0, tree, counted) && Consistent() && CanAdd(tree, path)
      requires node.index == |tree[Parent(path)].kids| + 1
      requires if node.Dir? then node.kids == [] else node.data == "" && node.attrs == []
      requires l == AddLayout(l0, tree, path, node, counted)
      modifies this`tree
      ensures Valid() && tree == AddChild(old(tree), path, node)
    {
      AddRefines(l0, tree, path, node, counted);
      AddKeepsWellFormed(tree, path, node);
      tree := AddChild(tree, path, node);
    }

    // ---------- Removal ----------

    // Lines 353-360 and 420-427: the parent counts one child less; its last slot is read.
    method ReadLastSlot(parent: Path, ghost n: nat, ghost last: Path) returns (lastKey: string, keyBuf: Path)
      requires Consistent() && PathOk(parent) && n > 0
      requires Head(parent) in l && l[Head(parent)].HeaderV? && l[Head(parent)].header.numBuckets == n
      requires Slot(n, parent) in l && l[Slot(n, parent)] == TextV(last)
      modifies this`store, this`l
      ensures Consistent() && lastKey == Name(Slot(n, parent)) && keyBuf == last && IsInt(4 + |last|)
      ensures l == old(l)[Head(parent) := HeaderV(old(l)[Head(parent)].header.(numBuckets := n - 1))]
    {
      StoredGet(store, l, Head(parent));
      var parentMaxIndex := ChangeChildrensNum(parent, -1, Head(parent));
      parentMaxIndex := parentMaxIndex + 1;
      lastKey := Dec(parentMaxIndex) + parent;
      keyBuf := GetText(lastKey, Slot(n, parent));
    }

    // Lines 353-370 and 420-437: the parent's last child moves into the slot parentCurNum and
    // its header learns its new index.
    method MoveLast(parent: Path, parentCurNum: nat, ghost n: nat, ghost last: Path) returns (lastKey: string)
      requires Consistent() && PathOk(parent) && PathOk(last) && last != parent && n > 0 && IsInt(parentCurNum)
      requires Head(parent) in l && l[Head(parent)].HeaderV? && l[Head(parent)].header.numBuckets == n
      requires Slot(n, parent) in l && l[Slot(n, parent)] == TextV(last)
      requires Head(last) in l && l[Head(last)].HeaderV?
      modifies this`store, this`l
      ensures Consistent() && lastKey == Name(Slot(n, parent))
      ensures l == Moved(old(l), parent, parentCurNum, last)
    {
      var keyBuf;
      lastKey, keyBuf := ReadLastSlot(parent, n, last);
      CacheSet(Dec(parentCurNum) + parent, TextV(keyBuf), Slot(parentCurNum, parent));
      SetParentIndex(keyBuf, parentCurNum);
    }

    // Lines 366-370 and 433-437.
    method SetParentIndex(path: Path, index: nat)
      requires Consistent() && PathOk(path) && Head(path) in l && l[Head(path)].HeaderV? && IsInt(index)
      modifies this`store, this`l
      ensures Consistent() && l == old(l)[Head(path) := HeaderV(old(l)[Head(path)].header.(parentIndex := index))]
    {
      var temp := GetHeader(path, Head(path));
      CacheSet(path, HeaderV(temp.value.(parentIndex := index)), Head(path));
    }

    // Lines 346-382 and 413-450: then the last slot and the header of the child go.
    method Unlist(path: Path, parent: Path, parentCurNum: int)
      requires Valid() && CanRemove(tree, path) && parent == Parent(path) && parentCurNum == tree[path].index
      modifies this`store, this`l
      ensures Consistent() && l == UnlistLayout(old(l), tree, path, counted)
    {
      UnlistIs(l, tree, path, counted);
      hide Stored, WellFormed, Refines, CanRemove, UnlistLayout, Moved;
      UnlistNeeds(l, tree, path, counted);
      StoredGet(store, l, Head(path));
      Unslot(path, parent, parentCurNum, |tree[parent].kids|, tree[parent].kids[|tree[parent].kids| - 1]);
    }

    method Unslot(path: Path, parent: Path, parentCurNum: nat, ghost n: nat, ghost last: Path)
      requires Consistent() && PathOk(path) && PathOk(parent) && PathOk(last) && last != parent && n > 0
        && IsInt(parentCurNum)
      requires Head(parent) in l && l[Head(parent)].HeaderV? && l[Head(parent)].header.numBuckets == n
      requires Slot(n, parent) in l && l[Slot(n, parent)] == TextV(last)
      requires Head(last) in l && l[Head(last)].HeaderV?
      modifies this`store, this`l
      ensures Consistent() && l == Moved(old(l), parent, parentCurNum, last) - {Slot(n, parent)} - {Head(path)}
    {
      var lastKey := MoveLast(parent, parentCurNum, n, last);
      CacheDelete(lastKey, Slot(n, parent));
      CacheDelete(path, Head(path));
    }

    // Lines 452-463: the attributes of a removed file.
    method DeleteAttribs(path: Path, xattrsNum: nat)
      requires Consistent() && PathOk(path)
      modifies this`store, this`l
      ensures Consistent() && l == old(l) - AttribKeys(path, xattrsNum)
    {
      assert old(l) - AttribKeys(path, 0) == old(l);
      for i := 1 to xattrsNum + 1
        invariant Consistent() && l == old(l) - AttribKeys(path, i - 1)
      {
        CacheDelete("$" + (Dec(i) + path), Attrib(i, path));
        assert l == old(l) - AttribKeys(path, i);
      }
    }

    // Lines 465-476: its buckets.
    method DeleteBuckets(path: Path, bucksNum: nat)
      requires Consistent() && PathOk(path)
      modifies this`store, this`l
      ensures Consistent() && l == old(l) - BucketKeys(path, bucksNum)
    {
      assert old(l) - BucketKeys(path, 0) == old(l);
      for i := 1 to bucksNum + 1
        invariant Consistent() && l == old(l) - BucketKeys(path, i - 1)
      {
        CacheDelete("&" + (Dec(i) + path), Bucket(i, path));
        assert l == old(l) - BucketKeys(path, i);
      }
    }

    // hello_rmdir, lines 319-385.
    method Rmdir(path: Path) returns (res: int)
      requires Valid() && PathOk(path) && (path in tree ==> tree[path].Dir?)
      modifies this
      ensures Valid()
      ensures path in old(tree) ==> tree == Apply(old(tree), Op.Rmdir(path))
      ensures path !in old(tree) ==> tree == old(tree)
      ensures res == if path == ROOT then -EPERM else if path !in old(tree) then -ENOTDIR
                     else if old(tree)[path].kids != [] then -ENOTEMPTY else 0
    {
      if path == "/" {
        return -EPERM;
      }
      var parent := ParentOf(path);
      assert Agrees(l, tree, Head(path), counted);
      var current := GetHeader(path, Head(path));
      if current == None {
        return -ENOTDIR;
      }
      if current.value.numBuckets > 0 {
        return -ENOTEMPTY;
      }
      ghost var l0 := l;
      Unlist(path, parent, current.value.parentIndex);
      RemoveRefines(l0, tree, path, counted);
      RemoveKeepsWellFormed(tree, path);
      tree := RemoveChild(tree, path);
      res := 0;
    }

    // hello_unlink, lines 389-478.
    method Unlink(path: Path) returns (res: int)
      requires Valid() && PathOk(path) && (path in tree && path != ROOT ==> tree[path].File?)
      modifies this
      ensures Valid()
      ensures path in old(tree) && path != ROOT ==> res == 0 && tree == Apply(old(tree), Op.Unlink(path))
      ensures path !in old(tree) || path == ROOT ==>
        && res == (if path == ROOT then -EPERM else -ENOENT)
        && tree == old(tree)
    {
      if path == "/" {
        return -EPERM;
      }
      var parent := ParentOf(path);
      assert Agrees(l, tree, Head(path), counted);
      var current := GetHeader(path, Head(path));
      if current == None {
        return -ENOENT;
      }
      ghost var l0 := l;
      Unlist(path, parent, current.value.parentIndex);
      DeleteAttribs(path, current.value.xattrNum);
      DeleteBuckets(path, current.value.numBuckets);
      RemoveRefines(l0, tree, path, counted);
      RemoveKeepsWellFormed(tree, path);
      tree := RemoveChild(tree, path);
      res := 0;
    }

    // Lines 122-141: the last component of the path in slot i.
    method ChildName(path: Path, i: nat) returns (name: string)
      requires Valid() && PathOk(path) && path in tree && tree[path].Dir? && 1 <= i <= |tree[path].kids|
      ensures DownOk(tree, path, i - 1) && name == Base(tree[path].kids[i - 1])
    {
      assert DownOk(tree, path, i - 1) && Agrees(l, tree, Slot(i, path), counted);
      var child := GetText(Dec(i) + path, Slot(i, path));
      var startIndex := |child| - 1;
      while child[startIndex] != '/'
        invariant 0 <= startIndex < |child| && LastSlash(child) <= startIndex
        decreases startIndex
      {
        startIndex := startIndex - 1;
      }
      name := child[startIndex + 1..];
    }

    // The children's names in slot order.
    ghost predicate Lists(names: seq<string>, path: Path, n: nat)
      requires path in tree && tree[path].Dir? && n <= |tree[path].kids|
      reads this
    {
      |names| == n + 2 && names[0] == "." && names[1] == ".." &&
      forall j {:trigger tree[path].kids[j]} :: 0 <= j < n ==>
        && DownOk(tree, path, j)
        && names[j + 2] == Base(tree[path].kids[j])
    }

    // hello_readdir, lines 102-150: the names filler is called with.
    method Readdir(path: Path) returns (names: Option<seq<string>>)
      requires Valid() && PathOk(path) && (path in tree ==> tree[path].Dir?)
      ensures path !in tree ==> names == None
      ensures path in tree ==> names.Some?
      ensures path in tree ==>
        var (k, ns) := (tree[path].kids, names.value);
        && |ns| == |k| + 2 && ns[0] == "." && ns[1] == ".."
        && forall j :: 0 <= j < |k| ==> k[j] != "" && k[j][0] == '/' && ns[j + 2] == Base(k[j])
    {
      assert Agrees(l, tree, Head(path), counted);
      var got := GetHeader(path, Head(path));
      if got == None {
        return None;
      }
      var cur := got.value.numBuckets;
      var list := [".", ".."];
      for i := 1 to cur + 1
        invariant Lists(list, path, i - 1)
      {
        var name := ChildName(path, i);
        list := list + [name];
      }
      names := Some(list);
    }

    // ---------- Contents ----------

    // Lines 500-517: how many bytes hello_read is going to say it read, whatever is asked for.
    method ReadLength(path: Path, size: nat, offset: int) returns (toReturn: nat)
      requires Valid() && PathOk(path) && path in tree && tree[path].File?
      ensures toReturn == ReadCount(DataLen(tree[path].data, counted), size, offset)
    {
      if offset < 0 {
        return 0;
      }
      assert Agrees(l, tree, Head(path), counted);
      var got := GetHeader(path, Head(path));
      var curLength := got.value.dataLen;
      if offset >= curLength {
        return 0;
      }
      toReturn := size;
      if offset + size > curLength {
        toReturn := curLength - offset;
      }
    }

    // hello_read, lines 499-541.  Outside of ReadInRange the number returned is wrong already.
    method Read(path: Path, size: nat, offset: int) returns (toReturn: nat, buf: string)
      requires Valid() && PathOk(path) && path in tree && tree[path].File?
      requires ReadInRange(tree[path].data, counted, size, offset)
      ensures var len := |tree[path].data|;
        toReturn == |buf| == if offset < 0 || offset >= len then 0
                             else if offset + size > len then len - offset
                             else size
      ensures toReturn > 0 ==> buf == tree[path].data[offset..offset + toReturn]
    {
      ghost var data := tree[path].data;
      toReturn := ReadLength(path, size, offset);
      ReadCountIsRight(data, counted, size, offset);
      buf := "";
      if toReturn == 0 {
        return;
      }
      var rest, at, n := toReturn, offset, offset / 1024 + 1;
      while rest > 0
        invariant 0 <= offset <= at && 0 <= rest && at + rest == offset + toReturn <= |data|
        invariant buf == data[offset..at]
        invariant rest > 0 ==> n == at / 1024 + 1
        decreases rest
      {
        var piece := ReadPiece(path, at, rest, n);
        buf := buf + piece;
        at, rest, n := at + |piece|, rest - |piece|, n + 1;
      }
    }

    // Lines 521-532: as much of one bucket as is wanted and there.
    method ReadPiece(path: Path, offset: nat, size: nat, n: nat) returns (piece: string)
      requires Valid() && PathOk(path) && path in tree && tree[path].File?
      requires size > 0 && offset + size <= |tree[path].data| && n == offset / 1024 + 1
      ensures 0 < |piece| <= size && piece == tree[path].data[offset..offset + |piece|]
      ensures |piece| < size ==> (offset + |piece|) / 1024 == n
    {
      ghost var data := tree[path].data;
      PieceThere(data, offset, size, n);
      BucketThere(l, tree, path, n, counted);
      var text := GetText("&" + (Dec(n) + path), Bucket(n, path));
      var bucketDataLen := |text|;
      var start := offset % 1024;
      var maxAvailableSpace := 1024 - start;
      var toRead := if size < maxAvailableSpace then size else maxAvailableSpace;
      toRead := if toRead < bucketDataLen then toRead else bucketDataLen;
      piece := text[start..start + toRead];
    }

    // Lines 562-571 and 578-596: the bucket of a pass is stored.
    method StoreBucket(path: Path, text: string, n: nat, ghost buckets: map<nat, string>)
      requires Consistent() && PathOk(path) && BucketsAre(l, path, buckets) && |text| <= 1024
      modifies this`store, this`l
      ensures Consistent() && BucketsAre(l, path, buckets[n := text]) && SameBut(old(l), l, path)
    {
      BucketStored(l, path, buckets, n, text);
      CacheSet("&" + (Dec(n) + path), TextV(text), Bucket(n, path));
    }

    // Lines 561-597: as much as goes into one bucket.
    method WritePiece(path: Path, piece: string, offset: nat, n: nat, h: Header, junk: string, ghost f: Raw)
      returns (h': Header)
      requires Consistent() && PathOk(path) && BucketsAre(l, path, f.buckets) && h == WithCounts(h, f)
      requires Ready(f, Index(offset)) && n == Index(offset) && |junk| == 1024 && |piece| <= Space(f, offset)
      modifies this`store, this`l
      ensures Consistent() && SameBut(old(l), l, path)
      ensures var f' := Pass(f, piece, offset, junk, counted);
        && h' == WithCounts(h, f')
        && BucketsAre(l, path, f'.buckets)
    {
      if h.numBuckets < n {
        StoreBucket(path, piece, n, f.buckets);
        h' := h.(numBuckets := h.numBuckets + 1, dataLen := h.dataLen + |piece| + if counted then 4 else 0);
      } else {
        assert BucketIs(l, path, f.buckets, n);
        var was := GetText("&" + (Dec(n) + path), Bucket(n, path));
        var text := Patched(was, offset % 1024, piece, junk);
        StoreBucket(path, text, n, f.buckets);
        h' := h.(dataLen := h.dataLen + (|text| - |was|));
      }
    }

    // Lines 558-600: the loop over the buckets.
    method WriteBuckets(path: Path, buf: string, offset: nat, h: Header, junk: string, ghost f: Raw)
      returns (h': Header, ghost f': Raw)
      requires Consistent() && PathOk(path) && BucketsAre(l, path, f.buckets) && h == WithCounts(h, f)
      requires Ready(f, Index(offset)) && |junk| == 1024
      modifies this`store, this`l
      ensures Consistent() && SameBut(old(l), l, path)
      ensures f' == Loop(f, buf, offset, junk, counted) && h' == WithCounts(h, f') && BucketsAre(l, path, f'.buckets)
    {
      h', f' := h, f;
      var firstBucketIndex, at: nat, rest := 1 + offset / 1024, offset, buf;
      ghost var l0 := l;
      while rest != ""
        invariant Consistent() && SameBut(l0, l, path) && BucketsAre(l, path, f'.buckets) && h' == WithCounts(h, f')
        invariant Ready(f', Index(at)) && (rest != "" ==> firstBucketIndex == Index(at))
        invariant Loop(f', rest, at, junk, counted) == Loop(f, buf, offset, junk, counted)
        decreases |rest|
      {
        var space := if h'.numBuckets < firstBucketIndex then 1024 else 1024 - at % 1024;
        var w := if |rest| < space then |rest| else space;
        assert w == Share(f', rest, at);
        LoopStep(f', rest, at, junk, counted);
        ghost var l1 := l;
        h' := WritePiece(path, rest[..w], at, firstBucketIndex, h', junk, f');
        SameButTransitive(l0, l1, l, path);
        f' := Pass(f', rest[..w], at, junk, counted);
        firstBucketIndex, at, rest := firstBucketIndex + 1, at + w, rest[w..];
      }
    }

    // hello_write, lines 543-606, on whatever the header and the buckets of the file are.  A write
    // behind data_len first fills the gap with zeros by calling itself; then the source goes on
    // with the header it had before (`reload` false), or, repaired, reads it again.  `junk` is what
    // the buffers of lines 567 and 582 hold before they are filled, `inner` what those of the call
    // for the gap do.
    method WriteFile(path: Path, buf: string, offset: nat, reload: bool, junk: string, inner: string,
                     ghost h: Header, ghost f: Raw) returns (toReturn: nat)
      requires Consistent() && PathOk(path) && HasFile(l, path, h, f) && Ready(f, 1) && |junk| == 1024 == |inner|
      requires HeaderOk(WithCounts(h, Filled(f, offset, inner, counted)))
      requires HeaderOk(WithCounts(h, Call(f, buf, offset, reload, junk, inner, counted)))
      modifies this`store, this`l
      ensures Consistent() && toReturn == |buf| && SameBut(old(l), l, path)
      ensures HasFile(l, path, h, Call(f, buf, offset, reload, junk, inner, counted))
      decreases if offset > f.dataLen then 1 else 0
    {
      toReturn := |buf|;
      ghost var l0, g := l, f;
      var curFile := ReadCounts(path, h, f);
      var curLength := curFile.dataLen;
      if offset > curLength {
        var zeros := Zeros(offset - curLength);
        GapCall(f, offset, reload, inner, counted);
        var filled := WriteFile(path, zeros, curLength, reload, inner, inner, h, f);
        g := Filled(f, offset, inner, counted);
        if reload {
          curFile := ReadCounts(path, h, g);
        } else {
          curFile := curFile.(dataLen := offset);
        }
      }
      WriteOn(path, buf, offset, curFile, junk, h, Resumed(f, offset, reload, inner, counted), l0);
    }

    // Lines 546-549.
    method ReadCounts(path: Path, ghost h: Header, ghost f: Raw) returns (curFile: Header)
      requires Consistent() && PathOk(path) && HasFile(l, path, h, f)
      ensures curFile == WithCounts(h, f) && HeaderOk(curFile)
    {
      var got := GetHeader(path, Head(path));
      curFile := got.value;
    }

    // Lines 558-604: the buckets, then the header.
    method WriteOn(path: Path, buf: string, offset: nat, curFile: Header, junk: string,
                   ghost h: Header, ghost f: Raw, ghost l0: Layout)
      requires Consistent() && PathOk(path) && BucketsAre(l, path, f.buckets) && curFile == WithCounts(h, f)
      requires Ready(f, Index(offset)) && |junk| == 1024 && SameBut(l0, l, path)
      requires HeaderOk(WithCounts(h, Loop(f, buf, offset, junk, counted)))
      modifies this`store, this`l
      ensures Consistent() && SameBut(l0, l, path) && HasFile(l, path, h, Loop(f, buf, offset, junk, counted))
    {
      ghost var l1, f' := l, f;
      var h';
      h', f' := WriteBuckets(path, buf, offset, curFile, junk, f);
      SameButTransitive(l0, l1, l, path);
      HeadStored(l, path, h, f');
      ghost var l2 := l;
      CacheSet(path, HeaderV(h'), Head(path));
      SameButTransitive(l0, l2, l, path);
    }

    // hello_write on a store that holds a tree.  Exactly if CallIsRight, which the caller can tell
    // from the arguments and the file's length but for the bytes of an uninitialised buffer, the
    // store is afterwards that of the tree with the buffer laid over the file.
    method Write(path: Path, buf: string, offset: nat, reload: bool, junk: string, inner: string)
      returns (toReturn: nat)
      requires Valid() && PathOk(path) && path in tree && tree[path].File?
      requires |junk| == 1024 == |inner| && (reload ==> !counted)
      requires IsInt(DataLen(WriteAt(tree[path].data, offset, buf), counted))
      modifies this`store, this`l, this`tree
      ensures Consistent() && toReturn == |buf|
      ensures if CallIsRight(old(tree)[path].data, buf, offset, reload, junk, counted)
        then Valid() && tree == Apply(old(tree), Op.Write(path, offset, buf))
        else tree == old(tree) && !Refines(l, Apply(tree, Op.Write(path, offset, buf)), counted)
      ensures SameBut(old(l), l, path)
      ensures Ready(Image(old(tree)[path].data, counted), 1)
      ensures HasFile(l, path, HeaderOf(old(tree)[path], counted),
                Call(Image(old(tree)[path].data, counted), buf, offset, reload, junk, inner, counted))
    {
      ghost var data, h, l0, t0 := tree[path].data, HeaderOf(tree[path], counted), l, tree;
      ghost var f := Image(data, counted);
      ImageReady(data, counted);
      HasImage(l, tree, path, counted);
      assert Agrees(l, tree, Head(path), counted);
      StoredGet(store, l, Head(path));
      CountsFit(data, buf, offset, reload, junk, inner, h);
      toReturn := WriteFile(path, buf, offset, reload, junk, inner, h, f);
      FinishWrite(l0, path, buf, offset, reload, junk, inner);
    }

    // What the call has left is compared with what it should have.
    ghost method FinishWrite(l0: Layout, path: Path, buf: string, offset: nat, reload: bool, junk: string,
                             inner: string)
      requires Refines(l0, tree, counted) && WellFormed(tree) && path in tree && tree[path].File?
      requires Consistent() && SameBut(l0, l, path) && |junk| == 1024 == |inner| && (reload ==> !counted)
      requires Ready(Image(tree[path].data, counted), 1)
      requires HasFile(l, path, HeaderOf(tree[path], counted),
                 Call(Image(tree[path].data, counted), buf, offset, reload, junk, inner, counted))
      modifies this`tree
      ensures if CallIsRight(old(tree)[path].data, buf, offset, reload, junk, counted)
        then Valid() && tree == Apply(old(tree), Op.Write(path, offset, buf))
        else tree == old(tree) && !Refines(l, Apply(tree, Op.Write(path, offset, buf)), counted)
    {
      ghost var data := tree[path].data;
      ghost var data' := WriteAt(data, offset, buf);
      ghost var r := Call(Image(data, counted), buf, offset, reload, junk, inner, counted);
      FileRefines(l0, l, tree, path, r, data', counted);
      CallRightIff(data, buf, offset, reload, junk, inner, counted);
      if CallIsRight(data, buf, offset, reload, junk, counted) {
        FileChangeKeepsWellFormed(tree, path, tree[path].(data := data'));
        tree := Rewritten(tree, path, data');
      }
    }

    lemma CountsFit(data: string, buf: string, offset: nat, reload: bool, junk: string, inner: string, h: Header)
      requires |junk| == 1024 == |inner| && (reload ==> !counted) && Ready(Image(data, counted), 1)
      requires HeaderOk(h) && IsInt(DataLen(WriteAt(data, offset, buf), counted))
      ensures HeaderOk(WithCounts(h, Filled(Image(data, counted), offset, inner, counted)))
      ensures HeaderOk(WithCounts(h, Call(Image(data, counted), buf, offset, reload, junk, inner, counted)))
    {
      FilledWithin(data, buf, offset, inner, counted);
      CallWithin(data, buf, offset, reload, junk, inner, counted);
    }

    // ---------- Extended attributes ----------

    // A record, with everything that is in it.
    method GetRecord(path: Path, i: nat) returns (index: int, a: Attr)
      requires Consistent() && PathOk(path) && Attrib(i, path) in l && l[Attrib(i, path)].AttrV?
      ensures AttrV(index, a) == l[Attrib(i, path)] && ValueOk(AttrV(index, a))
    {
      ghost var k := Attrib(i, path);
      var got := CacheGet("$" + (Dec(i) + path), k);
      AttrReadsBack(l[k].index, l[k].attr);
      var parts := DecodeAttr(got.value).value;
      var h := DecodeHeader(got.value[4..]);
      index, a := h.parentIndex, Attr(parts.0, parts.1, h.numBuckets, h.xattrNum);
    }

    // hello_setxattr, lines 628-651; numBuckets and xattrNum are the two fields of the record's
    // header that are never assigned.
    method SetXattr(path: Path, name: string, value: string, numBuckets: int, xattrNum: int) returns (res: int)
      requires Valid() && PathOk(path) && path in tree && tree[path].File?
      requires ValueOk(AttrV(|tree[path].attrs| + 1, Attr(name, value, numBuckets, xattrNum)))
      modifies this`store, this`l, this`tree
      ensures Valid() && res == 0
      ensures tree == Apply(old(tree), Op.SetXattr(path, Attr(name, value, numBuckets, xattrNum)))
    {
      assert Agrees(l, tree, Head(path), counted);
      var got := GetHeader(path, Head(path));
      var newI := got.value.xattrNum + 1;
      var a := Attr(name, value, numBuckets, xattrNum);
      SetAttrRefines(l, tree, path, a, counted);
      CacheSet(path, HeaderV(got.value.(xattrNum := newI)), Head(path));
      CacheSet("$" + (Dec(newI) + path), AttrV(newI, a), Attrib(newI, path));
      ghost var t0 := tree;
      tree := WithAttrs(tree, path, tree[path].attrs + [a]);
      FileChangeKeepsWellFormed(t0, path, tree[path]);
      res := 0;
    }

    // The loops of lines 658-685 and 732-751: the number of the first record of that name, or
    // one past the last.
    method FindRecord(path: Path, name: string, newI: nat) returns (i: nat, value: string)
      requires Valid() && PathOk(path) && path in tree && tree[path].File? && newI == |tree[path].attrs|
      ensures i == FindAttr(tree[path].attrs, name) + 1
      ensures i <= newI ==> value == tree[path].attrs[i - 1].value
    {
      i, value := 1, "";
      while i <= newI
        invariant 1 <= i <= newI + 1
        invariant forall j :: 0 <= j < i - 1 ==> tree[path].attrs[j].name != name
      {
        AttribThere(l, tree, path, i, counted);
        var index, a := GetRecord(path, i);
        if name == a.name {
          value := a.value;
          break;
        }
        i := i + 1;
      }
    }

    // hello_getxattr, lines 653-688: the length of the value and as much of it as fits.
    method GetXattr(path: Path, name: string, size: nat) returns (res: int, value: string)
      requires Valid() && PathOk(path) && path in tree && tree[path].File?
      ensures match Lookup(tree[path].attrs, name)
        case Some(v) => res == |v| && value == v[..if size < |v| then size else |v|]
        case None => res == -1 && value == ""
      ensures var attrs := tree[path].attrs;
        && (forall i :: 0 <= i < |attrs| && attrs[i].name == name && (forall j :: 0 <= j < i ==> attrs[j].name != name)
              ==> res == |attrs[i].value| && value == attrs[i].value[..if size < res then size else res])
        && ((forall a :: a in attrs ==> a.name != name) ==> res == -1)
    {
      assert Agrees(l, tree, Head(path), counted);
      var got := GetHeader(path, Head(path));
      var newI := got.value.xattrNum;
      var i, v := FindRecord(path, name, newI);
      if i <= newI {
        res, value := |v|, v[..if size < |v| then size else |v|];
      } else {
        res, value := -1, "";
      }
    }

    // Lines 745 and 758-773: the count goes down, the last record moves to removingI.
    method MoveLastRecord(path: Path, h: Header, removingI: nat, newI: nat)
      requires Consistent() && PathOk(path) && HeaderOk(h) && IsInt(removingI) && 1 <= newI && IsInt(newI)
        && h.xattrNum == newI
      requires Attrib(newI, path) in l && l[Attrib(newI, path)].AttrV?
      modifies this`store, this`l
      ensures Consistent()
      ensures l == old(l)[Head(path) := HeaderV(h.(xattrNum := newI - 1))]
                         [Attrib(removingI, path) := AttrV(removingI, old(l)[Attrib(newI, path)].attr)]
                       - {Attrib(newI, path)}
    {
      CacheSet(path, HeaderV(h.(xattrNum := newI - 1)), Head(path));
      var index, lastData := GetRecord(path, newI);
      CacheSet("$" + (Dec(removingI) + path), AttrV(removingI, lastData), Attrib(removingI, path));
      CacheDelete("$" + (Dec(newI) + path), Attrib(newI, path));
    }

    // hello_removexattr, lines 726-778.
    method RemoveXattr(path: Path, name: string) returns (res: int)
      requires Valid() && PathOk(path) && path in tree && tree[path].File?
      modifies this`store, this`l, this`tree
      ensures Valid() && tree == Apply(old(tree), Op.RemoveXattr(path, name))
      ensures res == if FindAttr(old(tree)[path].attrs, name) < |old(tree)[path].attrs| then 0 else -1
    {
      assert Agrees(l, tree, Head(path), counted);
      var got := GetHeader(path, Head(path));
      var newI := got.value.xattrNum;
      var removingI, value := FindRecord(path, name, newI);
      if removingI > newI {
        return -1;
      }
      AttribThere(l, tree, path, newI, counted);
      RemoveAttrRefines(l, tree, path, removingI - 1, counted);
      MoveLastRecord(path, got.value, removingI, newI);
      ghost var t0 := tree;
      tree := WithAttrs(tree, path, DropAt(tree[path].attrs, removingI - 1));
      FileChangeKeepsWellFormed(t0, path, tree[path]);
      res := 0;
    }
  }
}
