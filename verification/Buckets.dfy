/**
  File contents in `cachedfs/main.c`: cut into buckets of 1024 bytes, and what reading and
  writing inside one bucket does to the whole.
 */
module Buckets {
  import opened FileOps

  // MAX_BUCKET_SIZE is 1024; buckets are numbered from 1.
  function NumBuckets(len: nat): nat {
    (len + 1023) / 1024
  }

  function Chunk(data: string, n: nat): string
    requires 1 <= n <= NumBuckets(|data|)
  {
    if n * 1024 <= |data| then data[(n - 1) * 1024..n * 1024] else data[(n - 1) * 1024..]
  }

  // The data_len field.  Line 574 counts the four bytes of every bucket's cur_size as data;
  // `counted` says whether it is there.
  function DataLen(data: string, counted: bool): nat {
    |data| + if counted then 4 * NumBuckets(|data|) else 0
  }

  // Byte i of a file lies in its bucket i / 1024 + 1.
  lemma ChunkByte(data: string, i: nat)
    requires i < |data|
    ensures 1 <= i / 1024 + 1 <= NumBuckets(|data|)
    ensures i % 1024 < |Chunk(data, i / 1024 + 1)| && Chunk(data, i / 1024 + 1)[i % 1024] == data[i]
  {
  }

  // How much of a read one bucket serves, and that lines 530-531 compute just that.
  lemma PieceThere(data: string, offset: nat, size: nat, n: nat)
    requires 0 < size && offset + size <= |data| && n == offset / 1024 + 1
    ensures 1 <= n <= NumBuckets(|data|)
    ensures var (c, start) := (Chunk(data, n), offset % 1024);
            var m := if size < 1024 - start then size else 1024 - start;
      && 0 < m <= |c| && start + m <= |c| && c[start..start + m] == data[offset..offset + m]
      && (m < size ==> (offset + m) / 1024 == n)
  {
    var start, first := offset % 1024, (n - 1) * 1024;
    var m := if size < 1024 - start then size else 1024 - start;
    assert offset == first + start;
    SliceOfSlice(data, first, if n * 1024 <= |data| then n * 1024 else |data|, start, start + m);
  }

  lemma SliceOfSlice(s: string, lo: nat, hi: nat, i: nat, j: nat)
    requires lo <= hi <= |s| && i <= j <= hi - lo
    ensures s[lo..hi][i..j] == s[lo + i..lo + j]
  {
    var a, b := s[lo..hi][i..j], s[lo + i..lo + j];
    assert |a| == |b|;
    assert forall k :: 0 <= k < |a| ==> a[k] == b[k];
  }

  lemma SameChunksSameData(a: string, b: string)
    requires |a| == |b| && forall n :: 1 <= n <= NumBuckets(|a|) ==> Chunk(a, n) == Chunk(b, n)
    ensures a == b
  {
    forall i | 0 <= i < |a|
      ensures a[i] == b[i]
    {
      ChunkByte(a, i);
      ChunkByte(b, i);
    }
  }

  // The reported file size is the length of the data only if nothing but data is counted, or
  // there is no data.
  lemma DataLenIsLength(data: string, counted: bool)
    ensures DataLen(data, counted) == |data| <==> !counted || data == ""
  {
  }

  // How many bytes hello_read says it read (lines 500-516).
  function ReadCount(dataLen: nat, size: nat, offset: int): nat {
    if offset < 0 || offset >= dataLen then 0
    else if offset + size > dataLen then dataLen - offset
    else size
  }

  // Where that is what there is to read.
  predicate ReadInRange(data: string, counted: bool, size: nat, offset: int) {
    || !counted || data == "" || size == 0
    || offset < 0 || offset >= DataLen(data, counted) || offset + size <= |data|
  }

  lemma ReadCountIsRight(data: string, counted: bool, size: nat, offset: int)
    ensures ReadCount(DataLen(data, counted), size, offset) == ReadCount(|data|, size, offset)
      <==> ReadInRange(data, counted, size, offset)
  {
  }

  // With line 574, ten bytes are fourteen to a reader.
  lemma ReadCountWrong(data: string)
    requires |data| == 10
    ensures ReadCount(DataLen(data, true), 14, 0) == 14 && !ReadInRange(data, true, 14, 0)
  {
  }

  // ---------- Writing one bucket ----------

  // What bucket n holds after `piece` was written at `start` inside it.
  function NewChunk(data: string, n: nat, start: nat, piece: string): string
    requires 1 <= n
  {
    if n <= NumBuckets(|data|) then WriteAt(Chunk(data, n), start, piece) else piece
  }

  // A write inside one bucket, at or before the end of the file, changes that bucket only.
  lemma ChunkWritten(data: string, offset: nat, piece: string, m: nat)
    requires offset <= |data| && piece != "" && offset % 1024 + |piece| <= 1024
    ensures var (data', n) := (WriteAt(data, offset, piece), offset / 1024 + 1);
      && NumBuckets(|data'|) == (if n > NumBuckets(|data|) then n else NumBuckets(|data|))
      && n <= NumBuckets(|data|) + 1
      && (n > NumBuckets(|data|) ==> offset % 1024 == 0 && offset == |data|)
      && (n <= NumBuckets(|data|) ==> offset % 1024 <= |Chunk(data, n)|)
      && (1 <= m <= NumBuckets(|data'|) ==>
            Chunk(data', m) == if m == n then NewChunk(data, n, offset % 1024, piece) else Chunk(data, m))
  {
    BucketsWritten(data, offset, piece);
    var data', n := WriteAt(data, offset, piece), offset / 1024 + 1;
    if 1 <= m <= NumBuckets(|data'|) {
      if m == n {
        WrittenChunk(data, offset, piece);
      } else {
        OtherChunk(data, offset, piece, m);
      }
    }
  }

  lemma BucketsWritten(data: string, offset: nat, piece: string)
    requires offset <= |data| && piece != "" && offset % 1024 + |piece| <= 1024
    ensures var (data', n) := (WriteAt(data, offset, piece), offset / 1024 + 1);
      && NumBuckets(|data'|) == (if n > NumBuckets(|data|) then n else NumBuckets(|data|))
      && n <= NumBuckets(|data|) + 1
      && (n > NumBuckets(|data|) ==> offset % 1024 == 0 && offset == |data|)
      && (n <= NumBuckets(|data|) ==> offset % 1024 <= |Chunk(data, n)|)
  {
    var len := |WriteAt(data, offset, piece)|;
    assert len == if offset + |piece| > |data| then offset + |piece| else |data|;
  }

  lemma OtherChunk(data: string, offset: nat, piece: string, m: nat)
    requires offset <= |data| && piece != "" && offset % 1024 + |piece| <= 1024 && m != offset / 1024 + 1
    requires 1 <= m <= NumBuckets(|WriteAt(data, offset, piece)|)
    ensures m <= NumBuckets(|data|) && Chunk(WriteAt(data, offset, piece), m) == Chunk(data, m)
  {
    var c, e := Chunk(WriteAt(data, offset, piece), m), Chunk(data, m);
    assert |c| == |e|;
    forall i | 0 <= i < |c|
      ensures c[i] == e[i]
    {
      WriteAtBytes(data, offset, piece, (m - 1) * 1024 + i);
    }
  }

  lemma WrittenChunk(data: string, offset: nat, piece: string)
    requires offset <= |data| && piece != "" && offset % 1024 + |piece| <= 1024
    ensures var n := offset / 1024 + 1;
      n <= NumBuckets(|WriteAt(data, offset, piece)|)
        && Chunk(WriteAt(data, offset, piece), n) == NewChunk(data, n, offset % 1024, piece)
  {
    var n := offset / 1024 + 1;
    assert offset == (n - 1) * 1024 + offset % 1024;
    BucketsWritten(data, offset, piece);
    if n <= NumBuckets(|data|) {
      OldChunkWritten(data, (n - 1) * 1024, offset % 1024, piece, n);
    } else {
      NewChunkWritten(data, piece, n);
    }
  }

  lemma NewChunkWritten(data: string, piece: string, n: nat)
    requires 1 <= n && |data| == (n - 1) * 1024 && 0 < |piece| <= 1024
    ensures n <= NumBuckets(|WriteAt(data, |data|, piece)|) && Chunk(WriteAt(data, |data|, piece), n) == piece
  {
    assert WriteAt(data, |data|, piece) == data + piece;
  }

  lemma OldChunkWritten(data: string, base: nat, start: nat, piece: string, n: nat)
    requires 1 <= n <= NumBuckets(|data|) && base == (n - 1) * 1024
    requires base + start <= |data| && start + |piece| <= 1024
    ensures n <= NumBuckets(|WriteAt(data, base + start, piece)|)
    ensures Chunk(WriteAt(data, base + start, piece), n) == WriteAt(Chunk(data, n), start, piece)
  {
    WindowWritten(data, base, start, piece);
    assert Chunk(data, n) == Window(data, base);
    assert Chunk(WriteAt(data, base + start, piece), n) == Window(WriteAt(data, base + start, piece), base);
  }

  // The bucket that begins at base.
  function Window(data: string, base: nat): (r: string)
    requires base <= |data|
    ensures |r| == if base + 1024 <= |data| then 1024 else |data| - base
    ensures forall i :: 0 <= i < |r| ==> r[i] == data[base + i]
  {
    data[base..if base + 1024 <= |data| then base + 1024 else |data|]
  }

  lemma WindowWritten(data: string, base: nat, start: nat, piece: string)
    requires base + start <= |data| && start + |piece| <= 1024
    ensures Window(WriteAt(data, base + start, piece), base) == WriteAt(Window(data, base), start, piece)
  {
    var data', chunk := WriteAt(data, base + start, piece), Window(data, base);
    var c, e := Window(data', base), WriteAt(chunk, start, piece);
    assert |c| == |e|;
    forall i | 0 <= i < |c|
      ensures c[i] == e[i]
    {
      WriteAtBytes(data, base + start, piece, base + i);
      WriteAtBytes(chunk, start, piece, i);
    }
  }

  // How lines 572-574 and 590-592 keep the header in step.
  lemma LengthsWritten(data: string, offset: nat, piece: string, counted: bool)
    requires offset <= |data| && piece != "" && offset % 1024 + |piece| <= 1024
    ensures var (data', n, start) := (WriteAt(data, offset, piece), offset / 1024 + 1, offset % 1024);
      if NumBuckets(|data|) < n then
        && NumBuckets(|data'|) == NumBuckets(|data|) + 1 && start == 0
        && DataLen(data', counted) == DataLen(data, counted) + |piece| + (if counted then 4 else 0)
      else
        var (oldLen, newLen) := (|Chunk(data, n)|, |NewChunk(data, n, start, piece)|);
        && NumBuckets(|data'|) == NumBuckets(|data|) && start <= oldLen <= 1024
        && newLen == (if oldLen > start + |piece| then oldLen else start + |piece|)
        && DataLen(data', counted) == DataLen(data, counted) + (newLen - oldLen)
  {
    ChunkWritten(data, offset, piece, 0);
  }
}
