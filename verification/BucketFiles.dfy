/**
  hello_write of `cachedfs/main.c` on one file, as it stands: the two counters of its header
  and the buckets there are, whether or not they fit together.  What the calls should leave is
  the image of the contents; here is exactly when they do.
 */
module BucketFiles {
  import opened Prelude
  import opened CBytes
  import opened FileOps
  import opened Buckets

  datatype Raw = Raw(numBuckets: nat, dataLen: nat, buckets: map<nat, string>)

  // What a file with these contents should look like.
  function Image(data: string, counted: bool): Raw {
    Raw(NumBuckets(|data|), DataLen(data, counted), map m | 1 <= m <= NumBuckets(|data|) :: Chunk(data, m))
  }

  function Index(offset: nat): nat {
    offset / 1024 + 1
  }

  // The buckets the header counts are there, from n on.
  predicate Ready(f: Raw, n: nat) {
    && (forall m :: n <= m <= f.numBuckets ==> m in f.buckets)
    && (forall m :: m in f.buckets ==> |f.buckets[m]| <= 1024)
  }

  // ---------- One pass of the loop, lines 561-597 ----------

  // The most a pass takes (lines 566 and 586).
  function Space(f: Raw, offset: nat): (n: nat)
    ensures 0 < n <= 1024
  {
    if f.numBuckets < Index(offset) then 1024 else 1024 - offset % 1024
  }

  // Lines 583-596: the bucket is read into a buffer that held `junk`, and the piece is copied in.
  function Patched(was: string, start: nat, piece: string, junk: string): (text: string)
    requires |was| <= 1024 == |junk| && start + |piece| <= 1024
    ensures |text| == if |was| > start + |piece| then |was| else start + |piece|
  {
    var newLen := if |was| > start + |piece| then |was| else start + |piece|;
    Splice(was + junk[|was|..], start, piece)[..newLen]
  }

  // counted says whether line 574 is there.
  function Pass(f: Raw, piece: string, offset: nat, junk: string, counted: bool): (r: Raw)
    requires Ready(f, Index(offset)) && |junk| == 1024 && |piece| <= Space(f, offset)
  {
    var n := Index(offset);
    if f.numBuckets < n then
      Raw(f.numBuckets + 1, f.dataLen + |piece| + (if counted then 4 else 0), f.buckets[n := piece])
    else
      var text := Patched(f.buckets[n], offset % 1024, piece, junk);
      Raw(f.numBuckets, f.dataLen + |text| - |f.buckets[n]|, f.buckets[n := text])
  }

  // How much of the rest a pass takes.
  function Share(f: Raw, rest: string, offset: nat): (w: nat)
    ensures w <= |rest| && w <= Space(f, offset) && (rest != "" ==> w > 0)
    ensures w < |rest| ==> w == Space(f, offset) && Index(offset + w) == Index(offset) + 1
  {
    Min(|rest|, Space(f, offset))
  }

  lemma PassReady(f: Raw, piece: string, offset: nat, junk: string, counted: bool)
    requires Ready(f, Index(offset)) && |junk| == 1024 && |piece| <= Space(f, offset)
    ensures var r := Pass(f, piece, offset, junk, counted);
      && Ready(r, Index(offset)) && Ready(r, Index(offset + |piece|))
      && f.buckets.Keys <= r.buckets.Keys
  {
  }

  // ---------- The loop, lines 558-600, and the whole call ----------

  function Loop(f: Raw, rest: string, offset: nat, junk: string, counted: bool): (r: Raw)
    requires Ready(f, Index(offset)) && |junk| == 1024
    decreases |rest|
  {
    if rest == "" then f
    else
      var w := Share(f, rest, offset);
      PassReady(f, rest[..w], offset, junk, counted);
      Loop(Pass(f, rest[..w], offset, junk, counted), rest[w..], offset + w, junk, counted)
  }

  lemma {:induction false} LoopReady(f: Raw, rest: string, offset: nat, junk: string, counted: bool)
    requires Ready(f, Index(offset)) && |junk| == 1024
    ensures var r := Loop(f, rest, offset, junk, counted);
      Ready(r, Index(offset + |rest|)) && f.buckets.Keys <= r.buckets.Keys
    decreases |rest|
  {
    if rest != "" {
      var w := Share(f, rest, offset);
      PassReady(f, rest[..w], offset, junk, counted);
      LoopStep(f, rest, offset, junk, counted);
      LoopReady(Pass(f, rest[..w], offset, junk, counted), rest[w..], offset + w, junk, counted);
    }
  }

  lemma LoopStep(f: Raw, rest: string, offset: nat, junk: string, counted: bool)
    requires Ready(f, Index(offset)) && |junk| == 1024 && rest != ""
    ensures var w := Share(f, rest, offset);
      && Ready(Pass(f, rest[..w], offset, junk, counted), Index(offset + w))
      && Loop(f, rest, offset, junk, counted)
        == Loop(Pass(f, rest[..w], offset, junk, counted), rest[w..], offset + w, junk, counted)
  {
    PassReady(f, rest[..Share(f, rest, offset)], offset, junk, counted);
  }

  lemma LoopStops(f: Raw, rest: string, offset: nat, junk: string, counted: bool)
    requires Ready(f, Index(offset)) && |junk| == 1024 && rest == ""
    ensures Loop(f, rest, offset, junk, counted) == f
  {
  }

  // Lines 550-554: the call for the zeros of the gap; it starts at data_len.
  function Filled(f: Raw, offset: nat, junk: string, counted: bool): (r: Raw)
    requires Ready(f, 1) && |junk| == 1024
    ensures Ready(r, Index(offset)) && f.buckets.Keys <= r.buckets.Keys
  {
    if offset > f.dataLen then
      LoopReady(f, Zeros(offset - f.dataLen), f.dataLen, junk, counted);
      Loop(f, Zeros(offset - f.dataLen), f.dataLen, junk, counted)
    else f
  }

  // Lines 547-557: the header the loop goes on with.
  function Resumed(f: Raw, offset: nat, reload: bool, junk: string, counted: bool): (r: Raw)
    requires Ready(f, 1) && |junk| == 1024
    ensures Ready(r, Index(offset))
  {
    var filled := Filled(f, offset, junk, counted);
    if offset > f.dataLen && !reload then filled.(numBuckets := f.numBuckets, dataLen := offset) else filled
  }

  // The whole call: junk is what its buffers held, inner what those of the call for the gap did.
  function Call(f: Raw, buf: string, offset: nat, reload: bool, junk: string, inner: string, counted: bool): Raw
    requires Ready(f, 1) && |junk| == 1024 && |inner| == 1024
  {
    Loop(Resumed(f, offset, reload, inner, counted), buf, offset, junk, counted)
  }

  // ---------- At or before the end it is right ----------

  lemma PatchedInside(was: string, start: nat, piece: string, junk: string)
    requires |was| <= 1024 == |junk| && start <= |was| && start + |piece| <= 1024
    ensures Patched(was, start, piece, junk) == WriteAt(was, start, piece)
  {
  }

  lemma ImageReady(data: string, counted: bool)
    ensures Ready(Image(data, counted), 1)
  {
  }

  lemma PassRight(data: string, piece: string, offset: nat, junk: string, counted: bool)
    requires offset <= |data| && piece != "" && |junk| == 1024
    requires Ready(Image(data, counted), Index(offset)) && |piece| <= Space(Image(data, counted), offset)
    ensures Pass(Image(data, counted), piece, offset, junk, counted) == Image(WriteAt(data, offset, piece), counted)
  {
    var n, data' := Index(offset), WriteAt(data, offset, piece);
    var f, r := Image(data, counted), Pass(Image(data, counted), piece, offset, junk, counted);
    ChunkWritten(data, offset, piece[..1], 0);
    LengthsWritten(data, offset, piece, counted);
    if n <= f.numBuckets {
      PatchedInside(Chunk(data, n), offset % 1024, piece, junk);
    }
    forall m: nat
      ensures m in r.buckets <==> 1 <= m <= NumBuckets(|data'|)
      ensures 1 <= m <= NumBuckets(|data'|) ==> r.buckets[m] == Chunk(data', m)
    {
      ChunkWritten(data, offset, piece, m);
    }
    assert r.buckets == Image(data', counted).buckets;
  }

  lemma {:induction false} LoopRight(f: Raw, data: string, rest: string, offset: nat, junk: string, counted: bool)
    requires f == Image(data, counted)
    requires offset <= |data| && |junk| == 1024 && Ready(f, Index(offset))
    ensures Loop(f, rest, offset, junk, counted) == Image(WriteAt(data, offset, rest), counted)
    decreases |rest|
  {
    hide Loop, Pass, Image, WriteAt, Ready;
    if rest == "" {
      LoopStops(f, rest, offset, junk, counted);
      ImageNothing(f, data, offset, rest, counted);
    } else {
      var w := Share(f, rest, offset);
      LoopStep(f, rest, offset, junk, counted);
      PassRight(data, rest[..w], offset, junk, counted);
      var g := Pass(f, rest[..w], offset, junk, counted);
      LoopRight(g, WriteAt(data, offset, rest[..w]), rest[w..], offset + w, junk, counted);
      var r := Loop(g, rest[w..], offset + w, junk, counted);
      ImagePiecewise(r, data, offset, rest, w, counted);
      assert Loop(f, rest, offset, junk, counted) == r;
    }
  }

  lemma ImageNothing(r: Raw, data: string, offset: nat, rest: string, counted: bool)
    requires offset <= |data| && rest == "" && r == Image(data, counted)
    ensures r == Image(WriteAt(data, offset, rest), counted)
  {
    WriteNothing(data, offset);
  }

  lemma ImagePiecewise(r: Raw, data: string, offset: nat, rest: string, w: nat, counted: bool)
    requires offset <= |data| && w <= |rest|
    requires r == Image(WriteAt(WriteAt(data, offset, rest[..w]), offset + w, rest[w..]), counted)
    ensures r == Image(WriteAt(data, offset, rest), counted)
  {
    WriteInTwo(data, offset, rest[..w], rest[w..]);
    assert rest[..w] + rest[w..] == rest;
  }

  // ---------- What the loop does to a file it finds in disorder ----------

  // Once the header counts fewer buckets than the one to write, every pass makes a new one: it
  // starts at that bucket's first byte whatever the offset is.
  predicate NewBucket(f: Raw, r: Raw, rest: string, n: nat, m: nat) {
    if n <= m < n + NumBuckets(|rest|) then m in r.buckets && r.buckets[m] == Chunk(rest, m - n + 1)
    else if m in f.buckets then m in r.buckets && r.buckets[m] == f.buckets[m]
    else m !in r.buckets
  }

  ghost predicate NewBuckets(f: Raw, r: Raw, rest: string, n: nat, counted: bool) {
    && r.numBuckets == f.numBuckets + NumBuckets(|rest|)
    && r.dataLen == f.dataLen + |rest| + (if counted then 4 * NumBuckets(|rest|) else 0)
    && forall m: nat {:trigger NewBucket(f, r, rest, n, m)} :: NewBucket(f, r, rest, n, m)
  }

  lemma {:induction false} NewLoop(f: Raw, rest: string, offset: nat, junk: string, counted: bool)
    requires Ready(f, Index(offset)) && |junk| == 1024 && f.numBuckets < Index(offset)
    ensures NewBuckets(f, Loop(f, rest, offset, junk, counted), rest, Index(offset), counted)
    decreases |rest|
  {
    if rest != "" {
      var w := Share(f, rest, offset);
      var g := Pass(f, rest[..w], offset, junk, counted);
      LoopStep(f, rest, offset, junk, counted);
      NewPass(f, rest[..w], offset, junk, counted);
      if w == |rest| {
        OnlyBucket(f, g, rest, w, Index(offset), counted);
      } else {
        NewLoop(g, rest[w..], offset + w, junk, counted);
        var r := Loop(g, rest[w..], offset + w, junk, counted);
        OneNewBucket(f, g, r, rest, w, Index(offset), Index(offset + w), counted);
      }
    }
  }

  lemma NewPass(f: Raw, piece: string, offset: nat, junk: string, counted: bool)
    requires Ready(f, Index(offset)) && |junk| == 1024 && f.numBuckets < Index(offset) && |piece| <= 1024
    ensures Pass(f, piece, offset, junk, counted)
      == Raw(f.numBuckets + 1, f.dataLen + |piece| + (if counted then 4 else 0), f.buckets[Index(offset) := piece])
  {
  }

  lemma OnlyBucket(f: Raw, g: Raw, rest: string, w: nat, n: nat, counted: bool)
    requires 0 < |rest| == w <= 1024
    requires g == Raw(f.numBuckets + 1, f.dataLen + w + (if counted then 4 else 0), f.buckets[n := rest[..w]])
    ensures NewBuckets(f, g, rest, n, counted)
  {
    assert rest[..w] == rest && NumBuckets(|rest|) == 1 && Chunk(rest, 1) == rest;
    assert forall m: nat :: NewBucket(f, g, rest, n, m);
  }

  lemma OneNewBucket(f: Raw, g: Raw, r: Raw, rest: string, w: nat, n: nat, next: nat, counted: bool)
    requires |rest| > 1024 == w && next == n + 1 && NewBuckets(g, r, rest[w..], next, counted)
    requires g == Raw(f.numBuckets + 1, f.dataLen + w + (if counted then 4 else 0), f.buckets[n := rest[..w]])
    ensures NewBuckets(f, r, rest, n, counted)
  {
    assert NumBuckets(|rest|) == NumBuckets(|rest[w..]|) + 1;
    forall m: nat
      ensures NewBucket(f, r, rest, n, m)
    {
      assert NewBucket(g, r, rest[w..], next, m);
      if next <= m < next + NumBuckets(|rest[w..]|) {
        ChunkOfRest(rest, m - n);
      }
    }
  }

  lemma ChunkOfRest(rest: string, m: nat)
    requires |rest| > 1024 && 1 <= m <= NumBuckets(|rest| - 1024)
    ensures m + 1 <= NumBuckets(|rest|) && Chunk(rest, m + 1) == Chunk(rest[1024..], m)
  {
  }

  // The header counts just up to the bucket to write, and that one ends at or before the place to
  // write at: one pass fills it up, the others make new buckets.
  lemma OldThenNew(f: Raw, rest: string, offset: nat, junk: string, counted: bool)
    requires Ready(f, Index(offset)) && |junk| == 1024 && f.numBuckets == Index(offset) && rest != ""
    requires |f.buckets[Index(offset)]| <= offset % 1024
    ensures var (n, w) := (Index(offset), Share(f, rest, offset));
            var (g, p) := (Loop(f, rest, offset, junk, counted), NumBuckets(|rest| - w));
      && g.numBuckets == n + p
      && g.dataLen == f.dataLen + (offset % 1024 - |f.buckets[n]|) + |rest| + (if counted then 4 * p else 0)
      && n in g.buckets && g.buckets[n] == Patched(f.buckets[n], offset % 1024, rest[..w], junk)
  {
    var w := Share(f, rest, offset);
    var g := Pass(f, rest[..w], offset, junk, counted);
    LoopStep(f, rest, offset, junk, counted);
    if w < |rest| {
      NewLoop(g, rest[w..], offset + w, junk, counted);
      assert NewBucket(g, Loop(f, rest, offset, junk, counted), rest[w..], Index(offset + w), Index(offset));
    }
  }

  // ---------- Behind the end ----------

  lemma ImageBehind(data: string, offset: nat, buf: string, counted: bool)
    requires offset > |data|
    ensures var f := Image(WriteAt(data, offset, buf), counted);
      && f.numBuckets == NumBuckets(offset + |buf|) > 0
      && f.dataLen == offset + |buf| + (if counted then 4 * f.numBuckets else 0)
  {
  }

  // The same buckets, and as many counted; data_len may differ.
  predicate SameContents(f: Raw, g: Raw) {
    f.numBuckets == g.numBuckets && f.buckets == g.buckets
  }

  lemma LengthShows(a: string, b: string, counted: bool)
    requires |a| != |b|
    ensures !SameContents(Image(a, counted), Image(b, counted))
  {
    var n := NumBuckets(|a|);
    if n == NumBuckets(|b|) {
      LastChunkLength(a);
      LastChunkLength(b);
      assert Image(a, counted).buckets[n] != Image(b, counted).buckets[n];
    }
  }

  // Where a write that starts with a new bucket would have to start, to come out right.
  lemma NewLoopWrong(f: Raw, data: string, buf: string, offset: nat, junk: string, counted: bool)
    requires Ready(f, Index(offset)) && |junk| == 1024 && f.numBuckets < Index(offset) && offset > |data| && buf != ""
    requires SameContents(Loop(f, buf, offset, junk, counted), Image(WriteAt(data, offset, buf), counted))
    ensures f.numBuckets * 1024 == offset
  {
    NewLoop(f, buf, offset, junk, counted);
    NewBucketsWrong(f, Loop(f, buf, offset, junk, counted), WriteAt(data, offset, buf), buf, Index(offset), counted);
  }

  lemma NewBucketsWrong(f: Raw, g: Raw, whole: string, buf: string, n: nat, counted: bool)
    requires f.numBuckets < n && buf != "" && NewBuckets(f, g, buf, n, counted)
    requires SameContents(g, Image(whole, counted)) && |buf| <= |whole|
    ensures f.numBuckets * 1024 == |whole| - |buf|
  {
    var last := n + NumBuckets(|buf|) - 1;
    assert NewBucket(f, g, buf, n, last);
    assert last == NumBuckets(|whole|);
    LastChunkLength(buf);
    LastChunkLength(whole);
  }

  lemma LastChunkLength(data: string)
    requires data != ""
    ensures var k := NumBuckets(|data|); |Chunk(data, k)| == |data| - 1024 * (k - 1)
  {
  }

  // ---------- Exactly when the call is right ----------

  // The bytes of the buffer that come to lie in the gap are zeros.
  predicate GapZero(data: string, offset: nat, junk: string)
    requires |junk| == 1024 && data != ""
  {
    forall i :: |Chunk(data, NumBuckets(|data|))| <= i < offset % 1024 ==> junk[i] == '\0'
  }

  // Do the buckets and their number come out right?  At or before the end they do.  Behind it, with
  // line 574 as it is: no farther than the bytes wrongly counted, when something is written, into
  // the last bucket, and what the buffer held in the gap happens to be zeros; farther, when the
  // write starts in the last bucket or just behind it, and what the buffer of the call for the gap
  // held between the end and data_len happens to be zeros.  Without line 574: when the gap adds no
  // bucket or the header is read again.
  predicate ContentsAreRight(data: string, buf: string, offset: nat, reload: bool, junk: string, inner: string,
                             counted: bool)
    requires |junk| == 1024 == |inner|
  {
    var n := NumBuckets(|data|);
    || offset <= |data|
    || (if !counted then reload || n == NumBuckets(offset)
        else if offset <= DataLen(data, true) then buf != "" && offset < 1024 * n && GapZero(data, offset, junk)
        else data != "" && offset <= 1024 * n && GapZero(data, DataLen(data, true), inner))
  }

  // Does data_len come out right as well?  With line 574 not behind data_len, which then loses the
  // bytes counted too much before.
  predicate CallIsRight(data: string, buf: string, offset: nat, reload: bool, junk: string, counted: bool)
    requires |junk| == 1024
  {
    || offset <= |data|
    || (if counted then
         buf != "" && offset <= DataLen(data, true) && offset < 1024 * NumBuckets(|data|) && GapZero(data, offset, junk)
       else
         reload || NumBuckets(|data|) == NumBuckets(offset))
  }

  // Exactly when the file holds the buffer laid over its contents, whatever data_len says.
  lemma ContentsRightIff(data: string, buf: string, offset: nat, reload: bool, junk: string, inner: string,
                         counted: bool)
    requires |junk| == 1024 == |inner| && (reload ==> !counted) && Ready(Image(data, counted), 1)
    ensures SameContents(Call(Image(data, counted), buf, offset, reload, junk, inner, counted),
                         Image(WriteAt(data, offset, buf), counted))
      <==> ContentsAreRight(data, buf, offset, reload, junk, inner, counted)
  {
    if offset <= |data| {
      LoopRight(Image(data, counted), data, buf, offset, junk, counted);
    } else if !counted {
      UncountedIff(data, buf, offset, reload, junk, inner);
    } else if offset <= DataLen(data, true) {
      CountedIff(data, buf, offset, junk);
    } else {
      PastDataLenIff(data, buf, offset, junk, inner);
    }
  }

  // Exactly when header and buckets are those the new contents should have.
  lemma CallRightIff(data: string, buf: string, offset: nat, reload: bool, junk: string, inner: string, counted: bool)
    requires |junk| == 1024 == |inner| && (reload ==> !counted) && Ready(Image(data, counted), 1)
    ensures Call(Image(data, counted), buf, offset, reload, junk, inner, counted)
      == Image(WriteAt(data, offset, buf), counted)
      <==> CallIsRight(data, buf, offset, reload, junk, counted)
  {
    if offset <= |data| {
      LoopRight(Image(data, counted), data, buf, offset, junk, counted);
    } else if !counted {
      UncountedIff(data, buf, offset, reload, junk, inner);
    } else if offset <= DataLen(data, true) {
      CountedIff(data, buf, offset, junk);
    } else {
      PastDataLenWrong(data, buf, offset, junk, inner);
    }
  }

  // Without line 574: right exactly if the header in hand counts the buckets of the filled file.
  lemma UncountedIff(data: string, buf: string, offset: nat, reload: bool, junk: string, inner: string)
    requires |junk| == 1024 == |inner| && offset > |data| && Ready(Image(data, false), 1)
    ensures var (r, want) := (Call(Image(data, false), buf, offset, reload, junk, inner, false),
                              Image(WriteAt(data, offset, buf), false));
      if reload || NumBuckets(|data|) == NumBuckets(offset) then r == want else !SameContents(r, want)
  {
    var f := Image(data, false);
    var filled := WriteAt(data, |data|, Zeros(offset - |data|));
    var h := Resumed(f, offset, reload, inner, false);
    LoopRight(Image(data, false), data, Zeros(offset - |data|), |data|, inner, false);
    assert Filled(f, offset, inner, false) == Image(filled, false);
    if reload || f.numBuckets == NumBuckets(offset) {
      assert h == Image(filled, false);
      LoopRight(Image(filled, false), filled, buf, offset, junk, false);
      WriteBehindEnd(data, offset, buf);
    } else {
      ImageBehind(data, offset, buf, false);
      if buf != "" && SameContents(Loop(h, buf, offset, junk, false), Image(WriteAt(data, offset, buf), false)) {
        NewLoopWrong(h, data, buf, offset, junk, false);
      }
    }
  }

  // With line 574, no farther than data_len: nothing is filled in.
  lemma CountedIff(data: string, buf: string, offset: nat, junk: string)
    requires |junk| == 1024 && |data| < offset <= DataLen(data, true) && Ready(Image(data, true), Index(offset))
    ensures var (r, want) := (Loop(Image(data, true), buf, offset, junk, true),
                              Image(WriteAt(data, offset, buf), true));
      if buf != "" && offset < 1024 * NumBuckets(|data|) && GapZero(data, offset, junk)
      then r == want else !SameContents(r, want)
  {
    if buf == "" {
      LengthShows(data, WriteAt(data, offset, buf), true);
    } else if offset >= 1024 * NumBuckets(|data|) {
      NextBucketWrong(data, buf, offset, junk);
    } else if GapZero(data, offset, junk) {
      GapInsideRight(data, buf, offset, junk);
    } else {
      GapInsideWrong(data, buf, offset, junk);
    }
  }

  // The write begins in the bucket behind the last one, which was not filled up before.
  lemma NextBucketWrong(data: string, buf: string, offset: nat, junk: string)
    requires |junk| == 1024 && offset > |data| && buf != "" && offset >= 1024 * NumBuckets(|data|)
    requires Ready(Image(data, true), Index(offset))
    ensures !SameContents(Loop(Image(data, true), buf, offset, junk, true), Image(WriteAt(data, offset, buf), true))
  {
    var f, r, n := Image(data, true), Loop(Image(data, true), buf, offset, junk, true), NumBuckets(|data|);
    var want := WriteAt(data, offset, buf);
    if n * 1024 != offset {
      if SameContents(r, Image(want, true)) {
        NewLoopWrong(f, data, buf, offset, junk, true);
      }
    } else {
      NewLoop(f, buf, offset, junk, true);
      assert NewBucket(f, r, buf, Index(offset), n);
      LastChunkLength(data);
      FullBucket(want, n);
    }
  }

  lemma FullBucket(data: string, n: nat)
    requires 1 <= n && 1024 * n <= |data|
    ensures n <= NumBuckets(|data|) && |Chunk(data, n)| == 1024
  {
  }

  lemma GapInsideRight(data: string, buf: string, offset: nat, junk: string)
    requires |junk| == 1024 && |data| < offset < 1024 * NumBuckets(|data|) && buf != "" && GapZero(data, offset, junk)
    requires Ready(Image(data, true), Index(offset))
    ensures Loop(Image(data, true), buf, offset, junk, true) == Image(WriteAt(data, offset, buf), true)
  {
    var f, filled := Image(data, true), WriteAt(data, |data|, Zeros(offset - |data|));
    var g := Image(filled, true);
    FilledInside(data, offset);
    SamePass(data, buf[..Share(f, buf, offset)], offset, junk);
    SameLoop(f, g, buf, offset, junk, true);
    LoopRight(g, filled, buf, offset, junk, true);
    WriteBehindEnd(data, offset, buf);
  }

  lemma SameLoop(f: Raw, g: Raw, rest: string, offset: nat, junk: string, counted: bool)
    requires Ready(f, Index(offset)) && Ready(g, Index(offset)) && |junk| == 1024 && rest != ""
    requires f.numBuckets == g.numBuckets
    requires var piece := rest[..Share(f, rest, offset)];
      Pass(f, piece, offset, junk, counted) == Pass(g, piece, offset, junk, counted)
    ensures Loop(f, rest, offset, junk, counted) == Loop(g, rest, offset, junk, counted)
  {
    hide Loop, Pass, Ready;
    LoopStep(f, rest, offset, junk, counted);
    LoopStep(g, rest, offset, junk, counted);
  }

  // With zeros in the buffer, the pass makes of the short bucket what it makes of the filled one.
  lemma SamePass(data: string, piece: string, offset: nat, junk: string)
    requires |junk| == 1024 && |data| < offset < 1024 * NumBuckets(|data|) && piece != "" && GapZero(data, offset, junk)
    requires Ready(Image(data, true), Index(offset)) && |piece| <= Space(Image(data, true), offset)
    ensures var (f, g) := (Image(data, true), Image(WriteAt(data, |data|, Zeros(offset - |data|)), true));
      && f.numBuckets == g.numBuckets && Ready(g, Index(offset))
      && Pass(f, piece, offset, junk, true) == Pass(g, piece, offset, junk, true)
  {
    var filled, n := WriteAt(data, |data|, Zeros(offset - |data|)), Index(offset);
    FilledInside(data, offset);
    var f, g := Image(data, true), Image(filled, true);
    PatchedGap(Chunk(data, n), Chunk(filled, n), offset % 1024, piece, junk);
    assert Chunk(data, n) == f.buckets[n] && Chunk(filled, n) == g.buckets[n];
    assert forall m :: 1 <= m < n ==> f.buckets[m] == g.buckets[m];
    SamePatch(f, g, piece, offset, junk);
  }

  lemma SamePatch(f: Raw, g: Raw, piece: string, offset: nat, junk: string)
    requires Ready(f, Index(offset)) && Ready(g, Index(offset)) && |junk| == 1024 && |piece| <= Space(f, offset)
    requires f.numBuckets == g.numBuckets == Index(offset) && f.buckets.Keys == g.buckets.Keys
    requires forall m :: m in f.buckets && m != Index(offset) ==> f.buckets[m] == g.buckets[m]
    requires f.dataLen - |f.buckets[Index(offset)]| == g.dataLen - |g.buckets[Index(offset)]|
    requires Patched(f.buckets[Index(offset)], offset % 1024, piece, junk)
      == Patched(g.buckets[Index(offset)], offset % 1024, piece, junk)
    ensures Pass(f, piece, offset, junk, true) == Pass(g, piece, offset, junk, true)
  {
    var n, text := Index(offset), Patched(f.buckets[Index(offset)], offset % 1024, piece, junk);
    assert f.buckets[n := text] == g.buckets[n := text];
  }

  // Filling a gap inside the last bucket: that bucket grows, the others stay.
  lemma FilledInside(data: string, offset: nat)
    requires |data| < offset < 1024 * NumBuckets(|data|)
    ensures var (filled, n) := (WriteAt(data, |data|, Zeros(offset - |data|)), NumBuckets(|data|));
      && |filled| == offset && NumBuckets(offset) == n == Index(offset)
      && (forall m :: 1 <= m < n ==> Chunk(filled, m) == Chunk(data, m))
      && |Chunk(data, n)| < |Chunk(filled, n)| == offset % 1024
      && Chunk(filled, n) == Chunk(data, n) + Zeros(offset - |data|)
      && offset % 1024 - |Chunk(data, n)| == offset - |data|
  {
    var filled, n := WriteAt(data, |data|, Zeros(offset - |data|)), NumBuckets(|data|);
    assert filled == data + Zeros(offset - |data|);
    LastChunkLength(data);
    LastChunkLength(filled);
  }

  lemma PatchedGap(was: string, filled: string, start: nat, piece: string, junk: string)
    requires |was| <= |filled| == start && start + |piece| <= 1024 == |junk| && filled == was + Zeros(start - |was|)
    requires forall i :: |was| <= i < start ==> junk[i] == '\0'
    ensures Patched(was, start, piece, junk) == Patched(filled, start, piece, junk)
  {
  }

  lemma GapInsideWrong(data: string, buf: string, offset: nat, junk: string)
    requires |junk| == 1024 && |data| < offset < 1024 * NumBuckets(|data|) && buf != "" && !GapZero(data, offset, junk)
    requires Ready(Image(data, true), Index(offset))
    ensures !SameContents(Loop(Image(data, true), buf, offset, junk, true), Image(WriteAt(data, offset, buf), true))
  {
    var f, n, piece := Image(data, true), Index(offset), buf[..Share(Image(data, true), buf, offset)];
    var was := Chunk(data, NumBuckets(|data|));
    FilledInside(data, offset);
    var i :| |was| <= i < offset % 1024 && junk[i] != '\0';
    OldThenNew(f, buf, offset, junk, true);
    JunkStays(was, offset % 1024, piece, junk, i);
    ZeroWanted(data, offset, buf, i);
  }

  lemma JunkStays(was: string, start: nat, piece: string, junk: string, i: nat)
    requires |was| <= i < start && start + |piece| <= 1024 == |junk|
    ensures Patched(was, start, piece, junk)[i] == junk[i]
  {
  }

  lemma ZeroWanted(data: string, offset: nat, buf: string, i: nat)
    requires data != "" && |Chunk(data, NumBuckets(|data|))| <= i < 1024
    requires 1024 * (NumBuckets(|data|) - 1) + i < offset
    ensures var (want, n) := (WriteAt(data, offset, buf), NumBuckets(|data|));
      n <= NumBuckets(|want|) && i < |Chunk(want, n)| && Chunk(want, n)[i] == '\0'
  {
    LastChunkLength(data);
    WriteAtBytes(data, offset, buf, 1024 * (NumBuckets(|data|) - 1) + i);
  }

  // With line 574, behind data_len: the counts never come out right.
  lemma PastDataLenWrong(data: string, buf: string, offset: nat, junk: string, inner: string)
    requires |junk| == 1024 && |inner| == 1024 && offset > DataLen(data, true) && Ready(Image(data, true), 1)
    ensures Call(Image(data, true), buf, offset, false, junk, inner, true) != Image(WriteAt(data, offset, buf), true)
  {
    var f, h := Image(data, true), Resumed(Image(data, true), offset, false, inner, true);
    ImageBehind(data, offset, buf, true);
    if buf != "" {
      if offset < 1024 * NumBuckets(|data|) {
        ResumedInside(data, offset, inner);
        OldThenNew(h, buf, offset, junk, true);
      } else {
        NewLoop(h, buf, offset, junk, true);
        if Loop(h, buf, offset, junk, true) == Image(WriteAt(data, offset, buf), true) {
          NewLoopWrong(h, data, buf, offset, junk, true);
          assert false;
        }
      }
    }
  }

  // The gap ends in the last bucket: afterwards that bucket ends where the write begins.
  lemma ResumedInside(data: string, offset: nat, inner: string)
    requires |inner| == 1024 && DataLen(data, true) < offset < 1024 * NumBuckets(|data|) && Ready(Image(data, true), 1)
    ensures var h := Resumed(Image(data, true), offset, false, inner, true);
      && h.numBuckets == NumBuckets(|data|) == Index(offset) && h.dataLen == offset
      && Index(offset) in h.buckets && |h.buckets[Index(offset)]| == offset % 1024
  {
    var f, from := Image(data, true), DataLen(data, true);
    FilledInside(data, offset);
    FilledInside(data, from);
    OldThenNew(f, Zeros(offset - from), from, inner, true);
  }

  // With line 574, behind data_len, the buckets alone.
  lemma PastDataLenIff(data: string, buf: string, offset: nat, junk: string, inner: string)
    requires |junk| == 1024 == |inner| && offset > DataLen(data, true) && Ready(Image(data, true), 1)
    ensures SameContents(Call(Image(data, true), buf, offset, false, junk, inner, true),
                         Image(WriteAt(data, offset, buf), true))
      <==> data != "" && offset <= 1024 * NumBuckets(|data|) && GapZero(data, DataLen(data, true), inner)
  {
    if data == "" || offset > 1024 * NumBuckets(|data|) {
      FarBehindWrong(data, buf, offset, junk, inner);
    } else if GapZero(data, DataLen(data, true), inner) {
      FilledRight(data, buf, offset, junk, inner);
    } else {
      FilledWrong(data, buf, offset, junk, inner);
    }
  }

  // The header from before the gap was filled counts too few buckets.
  lemma FarBehindWrong(data: string, buf: string, offset: nat, junk: string, inner: string)
    requires |junk| == 1024 == |inner| && offset > DataLen(data, true) && Ready(Image(data, true), 1)
    requires offset > 1024 * NumBuckets(|data|)
    ensures !SameContents(Call(Image(data, true), buf, offset, false, junk, inner, true),
                          Image(WriteAt(data, offset, buf), true))
  {
    var h, want := Resumed(Image(data, true), offset, false, inner, true), WriteAt(data, offset, buf);
    ImageBehind(data, offset, buf, true);
    if buf != "" && SameContents(Loop(h, buf, offset, junk, true), Image(want, true)) {
      NewLoopWrong(h, data, buf, offset, junk, true);
    }
  }

  lemma {:induction false} LoopIgnoresDataLen(f: Raw, g: Raw, rest: string, offset: nat, junk: string, counted: bool)
    requires Ready(f, Index(offset)) && Ready(g, Index(offset)) && |junk| == 1024 && SameContents(f, g)
    ensures SameContents(Loop(f, rest, offset, junk, counted), Loop(g, rest, offset, junk, counted))
    decreases |rest|
  {
    hide Loop, Pass, Ready;
    if rest == "" {
      LoopStops(f, rest, offset, junk, counted);
      LoopStops(g, rest, offset, junk, counted);
    } else {
      var w := Share(f, rest, offset);
      LoopStep(f, rest, offset, junk, counted);
      LoopStep(g, rest, offset, junk, counted);
      PassIgnoresDataLen(f, g, rest[..w], offset, junk, counted);
      LoopIgnoresDataLen(Pass(f, rest[..w], offset, junk, counted), Pass(g, rest[..w], offset, junk, counted),
                         rest[w..], offset + w, junk, counted);
    }
  }

  lemma PassIgnoresDataLen(f: Raw, g: Raw, piece: string, offset: nat, junk: string, counted: bool)
    requires Ready(f, Index(offset)) && Ready(g, Index(offset)) && |junk| == 1024 && SameContents(f, g)
    requires |piece| <= Space(f, offset)
    ensures SameContents(Pass(f, piece, offset, junk, counted), Pass(g, piece, offset, junk, counted))
  {
  }

  // The gap was filled as it should be, and the old header counts as many buckets as the new one.
  lemma FilledRight(data: string, buf: string, offset: nat, junk: string, inner: string)
    requires |junk| == 1024 == |inner| && DataLen(data, true) < offset <= 1024 * NumBuckets(|data|)
    requires Ready(Image(data, true), 1) && GapZero(data, DataLen(data, true), inner)
    ensures SameContents(Call(Image(data, true), buf, offset, false, junk, inner, true),
                         Image(WriteAt(data, offset, buf), true))
  {
    var filled := data + Zeros(offset - |data|);
    ResumedFilled(data, offset, inner);
    assert WriteAt(data, offset, buf) == WriteAt(filled, offset, buf);
    hide Loop, Pass, Image, WriteAt, Resumed, Filled, GapZero;
    var h := Resumed(Image(data, true), offset, false, inner, true);
    LoopIgnoresDataLen(h, Image(filled, true), buf, offset, junk, true);
    LoopRight(Image(filled, true), filled, buf, offset, junk, true);
  }

  lemma ResumedFilled(data: string, offset: nat, inner: string)
    requires |inner| == 1024 && DataLen(data, true) < offset <= 1024 * NumBuckets(|data|)
    requires Ready(Image(data, true), 1) && GapZero(data, DataLen(data, true), inner)
    ensures var (h, g) := (Resumed(Image(data, true), offset, false, inner, true),
                           Image(data + Zeros(offset - |data|), true));
      SameContents(h, g) && Ready(g, Index(offset))
  {
    var f, from := Image(data, true), DataLen(data, true);
    var filled := data + Zeros(offset - |data|);
    assert WriteAt(data, from, Zeros(offset - from)) == filled;
    assert NumBuckets(offset) == NumBuckets(|data|);
    LastInImage(data, true);
    LastInImage(filled, true);
    hide Loop, Pass, Image, WriteAt, Resumed, Filled, GapZero, Ready;
    ResumedStale(f, offset, inner, true);
    GapInsideRight(data, Zeros(offset - from), from, inner);
  }

  // A byte that was not zero stays in the last bucket, before the place of the write.
  lemma FilledWrong(data: string, buf: string, offset: nat, junk: string, inner: string)
    requires |junk| == 1024 == |inner| && data != "" && DataLen(data, true) < offset <= 1024 * NumBuckets(|data|)
    requires Ready(Image(data, true), 1) && !GapZero(data, DataLen(data, true), inner)
    ensures !SameContents(Call(Image(data, true), buf, offset, false, junk, inner, true),
                          Image(WriteAt(data, offset, buf), true))
  {
    var n, from := NumBuckets(|data|), DataLen(data, true);
    var h := Resumed(Image(data, true), offset, false, inner, true);
    var i :| |Chunk(data, n)| <= i < from % 1024 && inner[i] != '\0';
    FilledKeepsJunk(data, offset, inner, i);
    if offset < 1024 * n {
      ResumedInside(data, offset, inner);
    }
    LastKept(h, buf, offset, junk, n, i);
    ZeroWanted(data, offset, buf, i);
  }

  lemma ResumedStale(f: Raw, offset: nat, inner: string, counted: bool)
    requires Ready(f, 1) && |inner| == 1024 && offset > f.dataLen
    ensures var (h, r) := (Resumed(f, offset, false, inner, counted),
                           Loop(f, Zeros(offset - f.dataLen), f.dataLen, inner, counted));
      && h.numBuckets == f.numBuckets && h.dataLen == offset && h.buckets == r.buckets
      && Ready(r, Index(offset))
  {
    LoopReady(f, Zeros(offset - f.dataLen), f.dataLen, inner, counted);
  }

  lemma LastInImage(data: string, counted: bool)
    ensures var (f, n) := (Image(data, counted), NumBuckets(|data|));
      && f.numBuckets == n && f.dataLen == DataLen(data, counted)
      && (data != "" ==> n in f.buckets && f.buckets[n] == Chunk(data, n))
  {
  }

  lemma FilledKeepsJunk(data: string, offset: nat, inner: string, i: nat)
    requires |inner| == 1024 && data != "" && DataLen(data, true) < offset <= 1024 * NumBuckets(|data|)
    requires Ready(Image(data, true), 1) && |Chunk(data, NumBuckets(|data|))| <= i < DataLen(data, true) % 1024
    ensures var (n, h) := (NumBuckets(|data|), Resumed(Image(data, true), offset, false, inner, true));
      && h.numBuckets == n && n in h.buckets && i < |h.buckets[n]| && h.buckets[n][i] == inner[i]
      && 1024 * (n - 1) + i < offset && |h.buckets[n]| <= 1024
  {
    var f, n, from := Image(data, true), NumBuckets(|data|), DataLen(data, true);
    var zeros := Zeros(offset - from);
    FilledInside(data, from);
    LastInImage(data, true);
    ResumedStale(f, offset, inner, true);
    LastChunkLength(data);
    hide Loop, Pass, Patched, Filled, Resumed, Ready, Image, WriteAt, Chunk;
    OldThenNew(f, zeros, from, inner, true);
    JunkStays(Chunk(data, n), from % 1024, zeros[..Share(f, zeros, from)], inner, i);
  }

  // Bytes of the last bucket before the place of the write are not touched.
  lemma LastKept(f: Raw, buf: string, offset: nat, junk: string, n: nat, i: nat)
    requires |junk| == 1024 && n >= 1 && f.numBuckets == n && n in f.buckets && i < |f.buckets[n]|
    requires Ready(f, Index(offset)) && 1024 * (n - 1) + i < offset <= 1024 * n
    requires offset < 1024 * n ==> |f.buckets[n]| <= offset % 1024
    ensures var r := Loop(f, buf, offset, junk, true);
      n in r.buckets && i < |r.buckets[n]| && r.buckets[n][i] == f.buckets[n][i]
  {
    if buf != "" {
      if offset < 1024 * n {
        OldThenNew(f, buf, offset, junk, true);
      } else {
        NewLoop(f, buf, offset, junk, true);
        assert NewBucket(f, Loop(f, buf, offset, junk, true), buf, Index(offset), n);
      }
    }
  }

  // ---------- A write for each way of going wrong ----------

  lemma OnePass(f: Raw, buf: string, offset: nat, junk: string, counted: bool)
    requires Ready(f, Index(offset)) && |junk| == 1024 && 0 < |buf| <= Space(f, offset)
    ensures Loop(f, buf, offset, junk, counted) == Pass(f, buf, offset, junk, counted)
  {
    LoopStep(f, buf, offset, junk, counted);
    assert buf[..|buf|] == buf && buf[|buf|..] == "";
  }

  // As written: with 1024 bytes stored, "x" at 1026 comes to lie at 1024.
  lemma WrongPlace(data: string, junk: string, inner: string)
    requires |data| == 1024 == |junk| == |inner|
    ensures Ready(Image(data, true), 1) && !CallIsRight(data, "x", 1026, false, junk, true)
    ensures var r := Call(Image(data, true), "x", 1026, false, junk, inner, true);
      r.numBuckets == 2 && 2 in r.buckets && r.buckets[2] == "x"
  {
    OnePass(Image(data, true), "x", 1026, junk, true);
  }

  // As written: with 3 bytes stored, "x" at 5 leaves two bytes of the buffer before it.
  lemma WrongBytes(junk: string, inner: string)
    requires |junk| == 1024 == |inner|
    ensures Ready(Image("abc", true), 1)
    ensures var r := Call(Image("abc", true), "x", 5, false, junk, inner, true);
      1 in r.buckets && r.buckets[1] == "abc" + junk[3..5] + "x"
  {
    var f := Image("abc", true);
    assert f.buckets[1] == "abc";
    OnePass(f, "x", 5, junk, true);
  }

  // As written: with 3 bytes stored, "x" at 10 lies where it should if the four bytes wrongly counted
  // happened to be zeros in the buffer; then data_len is that of the true length.
  lemma RightByAccident(junk: string, inner: string)
    requires |junk| == 1024 == |inner| && inner[3..7] == Zeros(4)
    ensures Ready(Image("abc", true), 1)
    ensures ContentsAreRight("abc", "x", 10, false, junk, inner, true)
      && !CallIsRight("abc", "x", 10, false, junk, true)
    ensures Call(Image("abc", true), "x", 10, false, junk, inner, true) == Image(WriteAt("abc", 10, "x"), false)
  {
    ContentsRightIff("abc", "x", 10, false, junk, inner, true);
    ResumedInside("abc", 10, inner);
    OldThenNew(Resumed(Image("abc", true), 10, false, inner, true), "x", 10, junk, true);
    assert forall i :: 3 <= i < 7 ==> inner[i] == inner[3..7][i - 3];
  }

  // As written: "x" at 1 of an empty file replaces the zero that was filled in.
  lemma WrongCounts(junk: string, inner: string)
    requires |junk| == 1024 == |inner|
    ensures Ready(Image("", true), 1) && !CallIsRight("", "x", 1, false, junk, true)
    ensures Call(Image("", true), "x", 1, false, junk, inner, true) == Raw(1, 6, map[1 := "x"])
  {
    GapOfOne(junk, inner, true);
  }

  // So it does without line 574.
  lemma WrongHeader(junk: string, inner: string)
    requires |junk| == 1024 == |inner|
    ensures Ready(Image("", false), 1) && !CallIsRight("", "x", 1, false, junk, false)
    ensures Call(Image("", false), "x", 1, false, junk, inner, false) == Raw(1, 2, map[1 := "x"])
  {
    GapOfOne(junk, inner, false);
  }

  lemma GapOfOne(junk: string, inner: string, counted: bool)
    requires |junk| == 1024 == |inner|
    ensures Ready(Image("", counted), 1)
    ensures Call(Image("", counted), "x", 1, false, junk, inner, counted)
      == Raw(1, if counted then 6 else 2, map[1 := "x"])
  {
    var f, zero := Image("", counted), Zeros(1);
    OnePass(f, zero, 0, inner, counted);
    var h := Raw(0, 1, map[1 := zero]);
    assert Resumed(f, 1, false, inner, counted) == h;
    OnePass(h, "x", 1, junk, counted);
  }

  // ---------- The counts fit as long as those of the right outcome do ----------

  // Neither counter outgrows those of a file with contents of length len.
  predicate Within(f: Raw, len: nat, counted: bool) {
    f.numBuckets <= NumBuckets(len) && f.dataLen <= len + if counted then 4 * NumBuckets(len) else 0
  }

  lemma NoGapCall(f: Raw, buf: string, offset: nat, reload: bool, junk: string, inner: string, counted: bool)
    requires Ready(f, 1) && |junk| == 1024 && |inner| == 1024 && offset <= f.dataLen
    ensures Filled(f, offset, inner, counted) == f
    ensures Ready(f, Index(offset))
    ensures Call(f, buf, offset, reload, junk, inner, counted) == Loop(f, buf, offset, junk, counted)
  {
  }

  // The call for the gap starts at data_len, so it fills no gap itself.
  lemma GapCall(f: Raw, offset: nat, reload: bool, inner: string, counted: bool)
    requires Ready(f, 1) && |inner| == 1024 && offset > f.dataLen
    ensures Call(f, Zeros(offset - f.dataLen), f.dataLen, reload, inner, inner, counted)
      == Filled(f, offset, inner, counted)
    ensures Filled(f, f.dataLen, inner, counted) == f
  {
  }

  lemma FilledWithin(data: string, buf: string, offset: nat, inner: string, counted: bool)
    requires |inner| == 1024 && Ready(Image(data, counted), 1)
    ensures Within(Filled(Image(data, counted), offset, inner, counted), |WriteAt(data, offset, buf)|, counted)
  {
    var f, from := Image(data, counted), DataLen(data, counted);
    if offset > from {
      LoopWithin(data, Zeros(offset - from), from, inner, counted);
      MoreWithin(Filled(f, offset, inner, counted), offset, |WriteAt(data, offset, buf)|, counted);
    } else {
      MoreWithin(f, |data|, |WriteAt(data, offset, buf)|, counted);
    }
  }

  lemma MoreWithin(f: Raw, len: nat, more: nat, counted: bool)
    requires Within(f, len, counted) && len <= more
    ensures Within(f, more, counted)
  {
  }

  lemma CallWithin(data: string, buf: string, offset: nat, reload: bool, junk: string, inner: string, counted: bool)
    requires |junk| == 1024 && |inner| == 1024 && (reload ==> !counted) && Ready(Image(data, counted), 1)
    ensures Within(Call(Image(data, counted), buf, offset, reload, junk, inner, counted),
      |WriteAt(data, offset, buf)|, counted)
  {
    var f := Image(data, counted);
    if offset <= f.dataLen {
      NoGapCall(f, buf, offset, reload, junk, inner, counted);
      LoopWithin(data, buf, offset, junk, counted);
    } else {
      GapWithin(data, buf, offset, reload, junk, inner, counted);
    }
  }

  lemma GapWithin(data: string, buf: string, offset: nat, reload: bool, junk: string, inner: string, counted: bool)
    requires |junk| == 1024 && |inner| == 1024 && (reload ==> !counted) && Ready(Image(data, counted), 1)
    requires offset > DataLen(data, counted)
    ensures Within(Call(Image(data, counted), buf, offset, reload, junk, inner, counted), offset + |buf|, counted)
  {
    if CallIsRight(data, buf, offset, reload, junk, counted) {
      CallRightIff(data, buf, offset, reload, junk, inner, counted);
      ImageBehind(data, offset, buf, counted);
    } else {
      StaleWithin(data, buf, offset, junk, inner, counted);
    }
  }

  // The loop with the header from before the gap was filled.
  lemma StaleWithin(data: string, buf: string, offset: nat, junk: string, inner: string, counted: bool)
    requires |junk| == 1024 && |inner| == 1024 && offset > DataLen(data, counted) && Ready(Image(data, counted), 1)
    requires !CallIsRight(data, buf, offset, false, junk, counted)
    ensures Within(Call(Image(data, counted), buf, offset, false, junk, inner, counted), offset + |buf|, counted)
  {
    var h := Resumed(Image(data, counted), offset, false, inner, counted);
    if buf != "" {
      if offset < 1024 * NumBuckets(|data|) {
        ResumedInside(data, offset, inner);
        OldThenNew(h, buf, offset, junk, true);
      } else {
        NewLoop(h, buf, offset, junk, counted);
      }
    }
  }

  lemma LoopWithin(data: string, buf: string, offset: nat, junk: string, counted: bool)
    requires |junk| == 1024 && Ready(Image(data, counted), Index(offset)) && offset <= DataLen(data, counted)
    ensures Within(Loop(Image(data, counted), buf, offset, junk, counted), |WriteAt(data, offset, buf)|, counted)
  {
    var f := Image(data, counted);
    if offset <= |data| {
      LoopRight(Image(data, counted), data, buf, offset, junk, counted);
    } else if buf != "" {
      if offset < 1024 * NumBuckets(|data|) {
        FilledInside(data, offset);
        OldThenNew(f, buf, offset, junk, counted);
      } else {
        NewLoop(f, buf, offset, junk, counted);
      }
    }
  }
}
