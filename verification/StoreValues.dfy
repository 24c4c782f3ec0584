/**
  The values `cachedfs/main.c` stores, and their bytes: the length of the whole value
  (struct bucket_struct), then a header, a path, file data or an attribute record.
 */
module StoreValues {
  import opened Prelude
  import opened CBytes
  import opened Protocol

  // struct header_struct
  datatype Header = Header(isDir: int, dataLen: int, numBuckets: int, parentIndex: int, xattrNum: int)

  // An extended attribute.  Its record contains a whole header_struct of which two fields are
  // never assigned; they keep what malloc returned.
  datatype Attr = Attr(name: string, value: string, numBuckets: int, xattrNum: int)

  datatype Value =
    | StatsV(totalBytes: int, blockSize: int)
    | HeaderV(header: Header)
    | TextV(text: string)                 // a child's path, or a piece of file data
    | AttrV(index: int, attr: Attr)

  predicate IsInt(v: int) {
    -0x8000_0000 <= v < 0x8000_0000
  }

  function I32(v: int): (s: string)
    requires IsInt(v)
    ensures |s| == 4
  {
    Le(if v < 0 then v + 0x1_0000_0000 else v, 4)
  }

  function FromI32(s: string): int {
    var u := Unle(s);
    if u >= 0x8000_0000 then u - 0x1_0000_0000 else u
  }

  lemma FromI32I32(v: int)
    requires IsInt(v)
    ensures FromI32(I32(v)) == v
    ensures v >= 0 ==> Unle(I32(v)) == v
  {
    Widths();
    UnleLe(if v < 0 then v + 0x1_0000_0000 else v, 4);
  }

  predicate HeaderOk(h: Header) {
    IsInt(h.isDir) && IsInt(h.dataLen) && IsInt(h.numBuckets) && IsInt(h.parentIndex) && IsInt(h.xattrNum)
  }

  function AttrHeader(index: int, a: Attr): Header {
    Header(2, |a.value|, a.numBuckets, index, a.xattrNum)
  }

  predicate ValueOk(v: Value) {
    match v
    case StatsV(t, b) => IsInt(t) && IsInt(b)
    case HeaderV(h) => HeaderOk(h)
    case TextV(s) => IsInt(4 + |s|)
    case AttrV(i, a) => HeaderOk(AttrHeader(i, a)) && IsInt(32 + |a.name| + |a.value|)
  }

  function HeaderBytes(h: Header): (s: string)
    requires HeaderOk(h)
    ensures |s| == 20
  {
    I32(h.isDir) + (I32(h.dataLen) + (I32(h.numBuckets) + (I32(h.parentIndex) + I32(h.xattrNum))))
  }

  function Body(v: Value): string
    requires ValueOk(v)
  {
    match v
    case StatsV(t, b) => I32(t) + I32(b)
    case HeaderV(h) => HeaderBytes(h)
    case TextV(s) => s
    case AttrV(i, a) => HeaderBytes(AttrHeader(i, a)) + (I32(|a.name|) + (a.name + (I32(|a.value|) + a.value)))
  }

  function Bytes(v: Value): (s: string)
    requires ValueOk(v)
  {
    I32(4 + |Body(v)|) + Body(v)
  }

  lemma Cut<X>(a: seq<X>, b: seq<X>)
    ensures (a + b)[..|a|] == a && (a + b)[|a|..] == b
  {
  }

  // cur_size is the length of the value, whatever is stored.
  lemma BytesFramed(v: Value)
    requires ValueOk(v)
    ensures Framed(Bytes(v)) && Bytes(v)[4..] == Body(v)
  {
    Cut(I32(4 + |Body(v)|), Body(v));
    FromI32I32(4 + |Body(v)|);
  }

  // ---------- Reading values back ----------

  function TakeInt(s: string): int
    requires |s| >= 4
  {
    FromI32(s[..4])
  }

  lemma IntFirst(v: int, rest: string)
    requires IsInt(v)
    ensures |I32(v) + rest| >= 4 && TakeInt(I32(v) + rest) == v && (I32(v) + rest)[4..] == rest
  {
    Cut(I32(v), rest);
    FromI32I32(v);
  }

  // The five fields, wherever the header starts.
  function DecodeHeader(s: string): Header
    requires |s| >= 20
  {
    var s1 := s[4..];
    var s2 := s1[4..];
    var s3 := s2[4..];
    var s4 := s3[4..];
    Header(TakeInt(s), TakeInt(s1), TakeInt(s2), TakeInt(s3), TakeInt(s4))
  }

  lemma DecodeHeaderBytes(h: Header, rest: string)
    requires HeaderOk(h)
    ensures DecodeHeader(HeaderBytes(h) + rest) == h && (HeaderBytes(h) + rest)[20..] == rest
  {
    var r4 := I32(h.xattrNum) + rest;
    var r3 := I32(h.parentIndex) + r4;
    var r2 := I32(h.numBuckets) + r3;
    var r1 := I32(h.dataLen) + r2;
    assert HeaderBytes(h) + rest == I32(h.isDir) + r1;
    IntFirst(h.isDir, r1);
    IntFirst(h.dataLen, r2);
    IntFirst(h.numBuckets, r3);
    IntFirst(h.parentIndex, r4);
    IntFirst(h.xattrNum, rest);
    Cut(HeaderBytes(h), rest);
  }

  lemma HeaderReadsBack(h: Header)
    requires ValueOk(HeaderV(h))
    ensures |Bytes(HeaderV(h))| == 24 && DecodeHeader(Bytes(HeaderV(h))[4..]) == h
  {
    BytesFramed(HeaderV(h));
    DecodeHeaderBytes(h, "");
    assert HeaderBytes(h) + "" == HeaderBytes(h);
  }

  lemma StatsReadBack(t: int, b: int)
    requires ValueOk(StatsV(t, b))
    ensures var s := Bytes(StatsV(t, b)); |s| == 12 && TakeInt(s[4..][4..]) == b
  {
    BytesFramed(StatsV(t, b));
    IntFirst(t, I32(b));
    assert I32(b) + "" == I32(b);
    IntFirst(b, "");
  }

  // Lines 665-672: name length, name, value length, value, behind the header.
  function DecodeAttr(s: string): Option<(string, string)> {
    if |s| < 28 then None
    else
      var r := s[24..];
      var n := TakeInt(r);
      if n < 0 || |r| < 8 + n then None
      else
        var v := r[4..][n..];
        var m := TakeInt(v);
        if m < 0 || |v| < 4 + m then None
        else Some((r[4..][..n], v[4..][..m]))
  }

  lemma AttrReadsBack(i: int, a: Attr)
    requires ValueOk(AttrV(i, a))
    ensures DecodeAttr(Bytes(AttrV(i, a))) == Some((a.name, a.value))
    ensures |Bytes(AttrV(i, a))| >= 24 && DecodeHeader(Bytes(AttrV(i, a))[4..]) == AttrHeader(i, a)
  {
    var s := Bytes(AttrV(i, a));
    var tail := I32(|a.value|) + a.value;
    var r := I32(|a.name|) + (a.name + tail);
    BytesFramed(AttrV(i, a));
    DecodeHeaderBytes(AttrHeader(i, a), r);
    assert s[24..] == s[4..][20..] == r;
    IntFirst(|a.name|, a.name + tail);
    Cut(a.name, tail);
    IntFirst(|a.value|, a.value);
    assert a.value[..|a.value|] == a.value;
  }

  // ---------- Where the fields are ----------

  // The header of a file or directory: its own length, then the fields in the structure's order.
  lemma HeaderLayout(h: Header)
    requires HeaderOk(h)
    ensures var s := Bytes(HeaderV(h));
      && |s| == 24 && s[..4] == I32(24)
      && s[4..8] == I32(h.isDir) && s[8..12] == I32(h.dataLen) && s[12..16] == I32(h.numBuckets)
      && s[16..20] == I32(h.parentIndex) && s[20..24] == I32(h.xattrNum)
  {
    var s := Bytes(HeaderV(h));
    BytesFramed(HeaderV(h));
    assert HeaderBytes(h) + "" == HeaderBytes(h);
    HeaderFields(s, h, "");
  }

  // What begins with a goes on with what is left.
  lemma Peel(s: string, k: nat, a: string, rest: string)
    requires k <= |s| && s[k..] == a + rest
    ensures k + |a| <= |s| && s[k..k + |a|] == a && s[k + |a|..] == rest
  {
    assert |s[k..]| == |a| + |rest|;
    assert s[k..k + |a|] == s[k..][..|a|];
    assert s[k + |a|..] == s[k..][|a|..];
  }

  lemma HeaderFields(s: string, h: Header, rest: string)
    requires HeaderOk(h) && |s| >= 4 && s[4..] == HeaderBytes(h) + rest
    ensures |s| >= 24 && s[24..] == rest
    ensures s[4..8] == I32(h.isDir) && s[8..12] == I32(h.dataLen) && s[12..16] == I32(h.numBuckets)
    ensures s[16..20] == I32(h.parentIndex) && s[20..24] == I32(h.xattrNum)
  {
    var r4 := I32(h.xattrNum) + rest;
    var r3 := I32(h.parentIndex) + r4;
    var r2 := I32(h.numBuckets) + r3;
    var r1 := I32(h.dataLen) + r2;
    assert HeaderBytes(h) + rest == I32(h.isDir) + r1;
    Peel(s, 4, I32(h.isDir), r1);
    Peel(s, 8, I32(h.dataLen), r2);
    Peel(s, 12, I32(h.numBuckets), r3);
    Peel(s, 16, I32(h.parentIndex), r4);
    Peel(s, 20, I32(h.xattrNum), rest);
  }

  // Behind the header, a name and a value, each behind its length.
  lemma NameAndValue(s: string, name: string, value: string)
    requires IsInt(|name|) && IsInt(|value|)
    requires 24 <= |s| && s[24..] == I32(|name|) + (name + (I32(|value|) + value))
    ensures var n := |name|;
      && |s| == 32 + n + |value| && s[24..28] == I32(n) && s[28..28 + n] == name
      && s[28 + n..32 + n] == I32(|value|) && s[32 + n..] == value
  {
    hide I32;
    var tail := I32(|value|) + value;
    Peel(s, 24, I32(|name|), name + tail);
    Peel(s, 28, name, tail);
    Peel(s, 28 + |name|, I32(|value|), value);
  }

  // The record of an attribute: in its header is_dir is 2, data_len the value's length and
  // parent_index the record's number; the name and the value follow, each behind its length.
  lemma AttrLayout(i: int, a: Attr)
    requires ValueOk(AttrV(i, a))
    ensures var (s, n) := (Bytes(AttrV(i, a)), |a.name|);
      && |s| == 32 + n + |a.value| && s[..4] == I32(32 + n + |a.value|)
      && s[4..8] == I32(2) && s[8..12] == I32(|a.value|) && s[16..20] == I32(i)
      && s[24..28] == I32(n) && s[28..28 + n] == a.name
      && s[28 + n..32 + n] == I32(|a.value|) && s[32 + n..] == a.value
  {
    var s := Bytes(AttrV(i, a));
    BytesFramed(AttrV(i, a));
    AttrBody(i, a);
    hide Bytes, Body, HeaderBytes, I32;
    HeaderFields(s, AttrHeader(i, a), I32(|a.name|) + (a.name + (I32(|a.value|) + a.value)));
    NameAndValue(s, a.name, a.value);
  }

  lemma AttrBody(i: int, a: Attr)
    requires ValueOk(AttrV(i, a))
    ensures Body(AttrV(i, a))
      == HeaderBytes(AttrHeader(i, a)) + (I32(|a.name|) + (a.name + (I32(|a.value|) + a.value)))
    ensures Bytes(AttrV(i, a))[..4] == I32(32 + |a.name| + |a.value|)
  {
    Cut(I32(4 + |Body(AttrV(i, a))|), Body(AttrV(i, a)));
  }

  // The other two: total and block size, and text as it is.
  lemma PlainLayout(t: int, b: int, text: string)
    requires IsInt(t) && IsInt(b) && IsInt(4 + |text|)
    ensures Bytes(StatsV(t, b)) == I32(12) + I32(t) + I32(b)
    ensures Bytes(TextV(text)) == I32(4 + |text|) + text
  {
  }
}
