/**
  What each call of `cachedfs/main.c` does to the tree, node by node.
 */
module FileEffects {
  import opened Prelude
  import opened StoreKeys
  import opened FileTree
  import opened FileOps

  // hello_init: nothing but an empty root.
  lemma FreshIsEmpty(pad: int)
    ensures Fresh(pad).Keys == {"/"} && Fresh(pad)["/"].Dir? && Fresh(pad)["/"].kids == []
  {
  }

  // mkdir and create: one path more, an empty directory or an empty file; its parent lists it last.
  lemma AddEffect(t: Tree, op: Op)
    requires WellFormed(t) && Enabled(t, op) && (op.Mkdir? || op.Create?)
    ensures var (t', p, d) := (Apply(t, op), op.path, Parent(op.path));
      && t'.Keys == t.Keys + {p} && p !in t
      && (op.Mkdir? ==> t'[p].Dir? && t'[p].kids == [])
      && (op.Create? ==> t'[p].File? && t'[p].data == "" && t'[p].attrs == [])
      && t'[p].index == |t[d].kids| + 1
      && t'[d].Dir? && t'[d].kids == t[d].kids + [p] && t'[d].index == t[d].index
      && forall q :: q in t && q != d ==> t'[q] == t[q]
  {
  }

  predicate Removes(t: Tree, op: Op)
    requires op.path in t
  {
    op.Unlink? || (op.Rmdir? && op.path != "/" && t[op.path].Dir? && t[op.path].kids == [])
  }

  // unlink, and rmdir of an empty directory other than the root: the path is gone; the parent's last
  // child stands in its place and knows it; nothing else changes.
  lemma RemoveEffect(t: Tree, op: Op)
    requires WellFormed(t) && Enabled(t, op) && (op.Unlink? || op.Rmdir?) && Removes(t, op)
    ensures UpOk(t, op.path) && Parent(op.path) in t && t[Parent(op.path)].Dir?
    ensures var (t', p, d) := (Apply(t, op), op.path, Parent(op.path));
            var (n, i) := (|t[d].kids|, t[p].index);
      && t'.Keys == t.Keys - {p} && 1 <= i <= n && d in t'
      && t'[d].Dir? && |t'[d].kids| == n - 1 && t'[d].index == t[d].index
      && (forall j :: 0 <= j < n - 1 ==> t'[d].kids[j] == if j == i - 1 then t[d].kids[n - 1] else t[d].kids[j])
      && forall q :: q in t' && q != d ==> t'[q] == if q == t[d].kids[n - 1] then t[q].(index := i) else t[q]
  {
    Around(t, op.path);
  }

  // rmdir of the root or of a directory that is not empty.
  lemma RefusedEffect(t: Tree, op: Op)
    requires WellFormed(t) && Enabled(t, op) && op.Rmdir? && !Removes(t, op)
    ensures Apply(t, op) == t
  {
  }

  // write: the file's bytes, one by one.
  lemma WriteEffect(t: Tree, op: Op)
    requires WellFormed(t) && Enabled(t, op) && op.Write?
    ensures var (t', p, was, end) := (Apply(t, op), op.path, t[op.path].data, op.offset + |op.buf|);
      && t'.Keys == t.Keys && t'[p].File? && t'[p].index == t[p].index && t'[p].attrs == t[p].attrs
      && |t'[p].data| == (if end > |was| then end else |was|)
      && (forall i :: 0 <= i < |t'[p].data| ==>
            t'[p].data[i] == if op.offset <= i < end then op.buf[i - op.offset]
                             else if i < |was| then was[i] else '\0')
      && forall q :: q in t && q != p ==> t'[q] == t[q]
  {
    var p := op.path;
    forall i | 0 <= i < |Apply(t, op)[p].data|
      ensures Apply(t, op)[p].data[i] == if op.offset <= i < op.offset + |op.buf| then op.buf[i - op.offset]
                                         else if i < |t[p].data| then t[p].data[i] else '\0'
    {
      WriteAtBytes(t[p].data, op.offset, op.buf, i);
    }
  }

  // setxattr: one record more, at the end; of an absent name, one entry more in the map.
  lemma SetXattrEffect(t: Tree, op: Op, m: map<string, string>)
    requires WellFormed(t) && Enabled(t, op) && op.SetXattr?
    ensures var (t', p) := (Apply(t, op), op.path);
      && t'.Keys == t.Keys && t'[p].File? && t'[p].index == t[p].index && t'[p].data == t[p].data
      && t'[p].attrs == t[p].attrs + [op.attr]
      && (StandFor(t[p].attrs, m) && op.attr.name !in m ==>
            StandFor(t'[p].attrs, m[op.attr.name := op.attr.value]))
      && forall q :: q in t && q != p ==> t'[q] == t[q]
  {
    if StandFor(t[op.path].attrs, m) && op.attr.name !in m {
      SetAttrIsInsert(t[op.path].attrs, op.attr, m);
    }
  }

  // removexattr: the entry is gone from the map; of an absent name, nothing changes.
  lemma RemoveXattrEffect(t: Tree, op: Op, m: map<string, string>)
    requires WellFormed(t) && Enabled(t, op) && op.RemoveXattr?
    ensures var (t', p) := (Apply(t, op), op.path);
      && t'.Keys == t.Keys && t'[p].File? && t'[p].index == t[p].index && t'[p].data == t[p].data
      && ((forall a :: a in t[p].attrs ==> a.name != op.name) ==> t' == t)
      && (StandFor(t[p].attrs, m) ==> StandFor(t'[p].attrs, m - {op.name}))
      && ((exists a :: a in t[p].attrs && a.name == op.name) ==> |t'[p].attrs| == |t[p].attrs| - 1)
      && forall q :: q in t && q != p ==> t'[q] == t[q]
  {
    var attrs := t[op.path].attrs;
    var i := FindAttr(attrs, op.name);
    if StandFor(attrs, m) {
      if i < |attrs| {
        RemoveAttrIsDelete(attrs, op.name, m);
      } else {
        assert Lookup(attrs, op.name) == None;
        assert m - {op.name} == m;
      }
    }
  }
}
