/** The frame splitter of `PngParser.cs`: a scan over the bytes the video
    transcoder pipes out (`-f image2pipe -c:v png`) that cuts them into the
    PNG files they hold.

    The byte layout is that of the PNG format (RFC 2083): an 8-byte
    signature (section 3.1), then chunks made of a 4-byte big-endian data
    length, a 4-byte type, the data and a 4-byte CRC (section 3.2), the
    last of them an empty `IEND` chunk (section 4.1.4). The scan never looks
    at the CRC.

    The scan is modelled twice over by one set of definitions, told apart
    by `guarded`:
    - `guarded == false` is the code as written, where reading a length
      field, a chunk type or a signature that runs past the end of the
      buffer throws; the model returns `Failure(IndexOutOfRange(|rb|))`;
    - `guarded == true` is the corrected reading, where such a truncated
      read means the buffer ended inside a frame, which is dropped like any
      other frame that never reaches its `IEND` chunk.
    Cursors and chunk sizes are unbounded naturals here; the 32-bit
    wrap-around of the C# `uint`s is taken up by `ChunkSize32` in
    `PngFacts`. */
module PngParser {
  import opened Common
  import opened Bytes

  /** The PNG signature (line 13). */
  const Signature: seq<byte> := [0x89, 0x50, 0x4E, 0x47, 0x0D, 0x0A, 0x1A, 0x0A]
  /** The chunk type "IEND" (line 14). */
  const IendType: seq<byte> := [73, 69, 78, 68]
  /** Length field, type and CRC: what a chunk occupies besides its data (line 15). */
  const MinChunkSize: nat := 12

  /** The byte range `[start, end)` of the buffer handed to the decoder for
      one frame: from its signature up to, but not including, its IEND
      chunk. */
  datatype FrameRange = FrameRange(start: nat, end: nat)

  // ---------------------------------------------------------------------
  // ArrayCompare (lines 94-101)

  /** The loop of `ArrayCompare` from index `k` on: it compares `a[k]` with
      `b[k - start]` and stops at the first difference or at `end`; reading
      `a` past its end throws. */
  function CompareFrom<T(==)>(a: seq<T>, start: nat, k: nat, end: nat, b: seq<T>): (r: Result<bool>)
    requires start <= k && end <= start + |b|
    ensures k >= end ==> r == Success(true)
    ensures end <= |a| ==> r.Success?
    ensures r.Failure? ==> r.error == IndexOutOfRange(if k > |a| then k else |a|)
    decreases end - k
  {
    if k >= end then Success(true)
    else if k >= |a| then Failure(IndexOutOfRange(k))
    else if a[k] != b[k - start] then Success(false)
    else CompareFrom(a, start, k + 1, end, b)
  }

  /** What the loop from `k` answers: it fails exactly when every element
      it could read matched and the range runs past the end of `a`, and
      otherwise says whether all of `a[k..end]` matches `b`. */
  lemma {:induction false} CompareFromMeaning<T>(a: seq<T>, start: nat, k: nat, end: nat, b: seq<T>)
    requires start <= k && end <= start + |b|
    ensures CompareFrom(a, start, k, end, b).Success? <==>
              k >= end || end <= |a| || exists j :: k <= j < |a| && j < end && a[j] != b[j - start]
    ensures CompareFrom(a, start, k, end, b).Success? ==>
              (CompareFrom(a, start, k, end, b).value <==> forall j :: k <= j < end ==> j < |a| && a[j] == b[j - start])
    decreases end - k
  {
    if k < end && k < |a| && a[k] == b[k - start] {
      CompareFromMeaning(a, start, k + 1, end, b);
    }
  }

  /** `ArrayCompare(a, start, end, b)`: whether `a[start..end]` equals the
      first `end - start` elements of `b`. */
  function ArrayCompare<T(==)>(a: seq<T>, start: nat, end: nat, b: seq<T>): (r: Result<bool>)
    requires end <= start + |b|
    ensures end <= start ==> r == Success(true)
    ensures end <= |a| ==> r.Success?
    ensures r.Failure? ==> r.error == IndexOutOfRange(if start > |a| then start else |a|)
  {
    CompareFrom(a, start, start, end, b)
  }

  /** `ArrayCompare` answers true exactly when every position in
      `[start, end)` lies in `a` and matches `b` at the same offset, and
      fails only when every element it could read matched and the range
      runs past the end of `a`. */
  lemma ArrayCompareSpec<T>(a: seq<T>, start: nat, end: nat, b: seq<T>)
    requires end <= start + |b|
    ensures ArrayCompare(a, start, end, b).Success? <==>
              start >= end || end <= |a| || exists j :: start <= j < |a| && j < end && a[j] != b[j - start]
    ensures ArrayCompare(a, start, end, b).Success? ==>
              (ArrayCompare(a, start, end, b).value <==> forall j :: start <= j < end ==> j < |a| && a[j] == b[j - start])
  {
    CompareFromMeaning(a, start, start, end, b);
  }

  // ---------------------------------------------------------------------
  // What the buffer holds

  /** A PNG signature starts at `p`. */
  predicate SignatureAt(rb: seq<byte>, p: nat)
  {
    p + |Signature| <= |rb| && rb[p..p + |Signature|] == Signature
  }

  /** The data length declared by the chunk at `p`: four big-endian bytes. */
  function ChunkLength(rb: seq<byte>, p: nat): nat
    requires p + 4 <= |rb|
  {
    BigEndian(rb[p..p + 4])
  }

  /** How far the chunk at `p` moves the cursor: its data plus 12 bytes.
      Always at least 12, so the walk always advances. */
  function ChunkSize(rb: seq<byte>, p: nat): (n: nat)
    requires p + 4 <= |rb|
    ensures n >= MinChunkSize
    ensures n == MinChunkSize <==> ChunkLength(rb, p) == 0
  {
    MinChunkSize + ChunkLength(rb, p)
  }

  /** An empty IEND chunk starts at `p` (its CRC is not looked at). */
  predicate IendAt(rb: seq<byte>, p: nat)
  {
    p + 8 <= |rb| && ChunkLength(rb, p) == 0 && rb[p + 4..p + 8] == IendType
  }

  /** Stepping over chunks from `j`, none of them an empty IEND chunk, lands
      on `e`. */
  predicate ChunkChain(rb: seq<byte>, j: nat, e: nat)
    decreases e - j
  {
    || j == e
    || (j < e && j + 4 <= |rb| && !IendAt(rb, j) && ChunkChain(rb, j + ChunkSize(rb, j), e))
  }

  /** The chunk walk from `j` reaches an empty IEND chunk. */
  ghost predicate Closes(rb: seq<byte>, j: nat)
  {
    exists e :: ChunkChain(rb, j, e) && IendAt(rb, e)
  }

  /** `r` is a complete frame: a signature at its start, chunks from there
      to its end, and an empty IEND chunk at its end. */
  predicate IsFrame(rb: seq<byte>, r: FrameRange)
  {
    SignatureAt(rb, r.start) && ChunkChain(rb, r.start + |Signature|, r.end) && IendAt(rb, r.end)
  }

  /** No signature starts in `[from, to)`. */
  ghost predicate NoSignatureIn(rb: seq<byte>, from: nat, to: nat)
  {
    forall p :: from <= p < to ==> !SignatureAt(rb, p)
  }

  /** The first signature at or after `from`, if any, opens a frame that is
      never closed. */
  ghost predicate NoFrameFrom(rb: seq<byte>, from: nat)
  {
    forall p :: from <= p && SignatureAt(rb, p) && NoSignatureIn(rb, from, p) ==> !Closes(rb, p + |Signature|)
  }

  /** The specification of the scan from `from`: `rs` lists the frames in
      order; each starts at the first signature at or after the point the
      previous one left off (12 bytes past its IEND offset, just beyond the
      IEND chunk), and after the last of them no complete frame follows. */
  ghost predicate WellSplit(rb: seq<byte>, from: nat, rs: seq<FrameRange>)
    decreases |rs|
  {
    if |rs| == 0 then NoFrameFrom(rb, from)
    else
      && from <= rs[0].start
      && NoSignatureIn(rb, from, rs[0].start)
      && IsFrame(rb, rs[0])
      && WellSplit(rb, rs[0].end + MinChunkSize, rs[1..])
  }

  // ---------------------------------------------------------------------
  // The scan

  /** Line 30: does a signature start at `i`? */
  function SignatureTest(rb: seq<byte>, i: nat, guarded: bool): Result<bool>
  {
    if guarded && i + |Signature| > |rb| then Success(false)
    else ArrayCompare(rb, i, i + |Signature|, Signature)
  }

  /** Line 44, second half: is the type of the chunk at `i` "IEND"? */
  function IendTypeTest(rb: seq<byte>, i: nat, guarded: bool): Result<bool>
  {
    if guarded && i + 8 > |rb| then Success(false)
    else ArrayCompare(rb, i + 4, i + 8, IendType)
  }

  /** The inner loop (lines 38-53) from cursor `j`: the offset of the first
      empty IEND chunk it reaches, or `None` when the cursor runs off the
      buffer first. */
  function Walk(rb: seq<byte>, j: nat, guarded: bool): (r: Result<Option<nat>>)
    ensures r.Success? && r.value.Some? ==>
              j <= r.value.value && ChunkChain(rb, j, r.value.value) && IendAt(rb, r.value.value)
    ensures guarded ==> r.Success?
    ensures r.Failure? ==> r.error == IndexOutOfRange(|rb|)
    decreases |rb| - j
  {
    if j >= |rb| then Success(None)
    else if j + 4 > |rb| then
      if guarded then Success(None) else Failure(IndexOutOfRange(|rb|))
    else
      var size := ChunkSize(rb, j);
      if size == MinChunkSize then
        var t := IendTypeTest(rb, j, guarded);
        IendTypeTestMeaning(rb, j, guarded);
        match t
        case Failure(e) => Failure(e)
        case Success(isEnd) =>
          if isEnd then Success(Some(j)) else Walk(rb, j + size, guarded)
      else Walk(rb, j + size, guarded)
  }

  /** The outer loop (lines 28-54) from cursor `i`: the frames it finds, in
      order. A signature test at a non-signature offset moves on by one; a
      signature opens a frame whose chunk walk either closes it, and the
      scan resumes just past its IEND chunk, or runs off the buffer, which
      ends the scan. */
  function Scan(rb: seq<byte>, i: nat, guarded: bool): (r: Result<seq<FrameRange>>)
    ensures guarded ==> r.Success?
    ensures r.Failure? ==> r.error == IndexOutOfRange(|rb|)
    decreases |rb| - i
  {
    if i >= |rb| then Success([])
    else
      SignatureTestMeaning(rb, i, guarded);
      match SignatureTest(rb, i, guarded)
      case Failure(e) => Failure(e)
      case Success(found) =>
        if !found then Scan(rb, i + 1, guarded)
        else
          match Walk(rb, i + |Signature|, guarded)
          case Failure(e) => Failure(e)
          case Success(None) => Success([])
          case Success(Some(e)) => Prepend([FrameRange(i, e)], Scan(rb, e + MinChunkSize, guarded))
  }

  /** Whatever the scan returns meets the specification: it lists exactly
      the frames `WellSplit` describes. */
  lemma {:induction false} ScanSound(rb: seq<byte>, i: nat, guarded: bool)
    ensures Scan(rb, i, guarded).Success? ==> WellSplit(rb, i, Scan(rb, i, guarded).value)
    decreases |rb| - i, 1
  {
    if i < |rb| {
      var test := SignatureTest(rb, i, guarded);
      var walk := Walk(rb, i + |Signature|, guarded);
      if test == Success(false) {
        SkipSound(rb, i, guarded);
      } else if test == Success(true) && walk.Success? && walk.value.Some? {
        FrameSound(rb, i, guarded, walk.value.value);
      } else {
        StopSound(rb, i, guarded);
      }
    }
  }

  /** The scan step past a non-signature offset keeps the specification. */
  lemma {:induction false} SkipSound(rb: seq<byte>, i: nat, guarded: bool)
    requires i < |rb| && SignatureTest(rb, i, guarded) == Success(false)
    ensures Scan(rb, i, guarded).Success? ==> WellSplit(rb, i, Scan(rb, i, guarded).value)
    decreases |rb| - i, 0
  {
    ScanSound(rb, i + 1, guarded);
    SignatureTestMeaning(rb, i, guarded);
    ScanSkip(rb, i, guarded);
    WellSplitSkip(rb, i, Scan(rb, i + 1, guarded));
  }

  /** The scan step over a frame keeps the specification. */
  lemma {:induction false} FrameSound(rb: seq<byte>, i: nat, guarded: bool, e: nat)
    requires i < |rb| && SignatureTest(rb, i, guarded) == Success(true)
    requires Walk(rb, i + |Signature|, guarded) == Success(Some(e))
    ensures Scan(rb, i, guarded).Success? ==> WellSplit(rb, i, Scan(rb, i, guarded).value)
    decreases |rb| - i, 0
  {
    ScanFrame(rb, i, guarded, e);
    ScanSound(rb, e + MinChunkSize, guarded);
    SignatureTestMeaning(rb, i, guarded);
    WellSplitFrame(rb, FrameRange(i, e), Scan(rb, e + MinChunkSize, guarded));
  }

  /** A scan that throws, or that stops at a frame which never closes,
      meets the specification. */
  lemma StopSound(rb: seq<byte>, i: nat, guarded: bool)
    requires i < |rb| && SignatureTest(rb, i, guarded) != Success(false)
    requires SignatureTest(rb, i, guarded) == Success(true) ==>
               Walk(rb, i + |Signature|, guarded).Failure? || Walk(rb, i + |Signature|, guarded).value.None?
    ensures Scan(rb, i, guarded).Success? ==> WellSplit(rb, i, Scan(rb, i, guarded).value)
  {
    SignatureTestMeaning(rb, i, guarded);
    var test := SignatureTest(rb, i, guarded);
    if test.Failure? {
      ScanFault(rb, i, guarded, test.error);
    } else {
      var walk := Walk(rb, i + |Signature|, guarded);
      if walk.Failure? {
        ScanFault(rb, i, guarded, walk.error);
      } else {
        ScanOpenFrame(rb, i, guarded);
        NotClosedWhenWalkEnds(rb, i + |Signature|, guarded);
        WellSplitUnclosed(rb, i);
      }
    }
  }

  /** A signature at `i` whose frame never closes: nothing is found from
      `i`. */
  lemma WellSplitUnclosed(rb: seq<byte>, i: nat)
    requires SignatureAt(rb, i) && !Closes(rb, i + |Signature|)
    ensures WellSplit(rb, i, [])
  {
    forall p | i <= p && SignatureAt(rb, p) && NoSignatureIn(rb, i, p)
      ensures !Closes(rb, p + |Signature|)
    {
      assert p == i;
    }
  }

  /** A frame at the cursor, followed by whatever the scan finds after it. */
  lemma WellSplitFrame(rb: seq<byte>, r: FrameRange, rest: Result<seq<FrameRange>>)
    requires IsFrame(rb, r)
    requires rest.Success? ==> WellSplit(rb, r.end + MinChunkSize, rest.value)
    ensures Prepend([r], rest).Success? ==> WellSplit(rb, r.start, Prepend([r], rest).value)
  {
    if rest.Success? {
      var rs := [r] + rest.value;
      assert rs[0] == r && rs[1..] == rest.value;
      assert NoSignatureIn(rb, r.start, r.start);
    }
  }

  lemma SignatureTestMeaning(rb: seq<byte>, i: nat, guarded: bool)
    ensures SignatureTest(rb, i, guarded).Success? ==> SignatureTest(rb, i, guarded).value == SignatureAt(rb, i)
    ensures SignatureTest(rb, i, guarded).Failure? ==> !guarded && SignatureTest(rb, i, guarded).error == IndexOutOfRange(if i > |rb| then i else |rb|)
  {
    ArrayCompareSpec(rb, i, i + |Signature|, Signature);
    if i + |Signature| <= |rb| {
      assert SignatureAt(rb, i) <==> forall k :: 0 <= k < |Signature| ==> rb[i + k] == Signature[k] by {
        if forall k :: 0 <= k < |Signature| ==> rb[i + k] == Signature[k] {
          assert rb[i..i + |Signature|] == Signature;
        }
      }
    }
  }

  lemma IendTypeTestMeaning(rb: seq<byte>, i: nat, guarded: bool)
    requires i + 4 <= |rb|
    ensures IendTypeTest(rb, i, guarded).Success? ==>
              IendTypeTest(rb, i, guarded).value == (i + 8 <= |rb| && rb[i + 4..i + 8] == IendType)
    ensures IendTypeTest(rb, i, guarded).Failure? ==> !guarded && IendTypeTest(rb, i, guarded).error == IndexOutOfRange(|rb|)
    ensures i + 8 <= |rb| ==> IendTypeTest(rb, i, guarded).Success?
  {
    ArrayCompareSpec(rb, i + 4, i + 8, IendType);
    if i + 8 <= |rb| {
      assert rb[i + 4..i + 8] == IendType <==> forall k :: 0 <= k < 4 ==> rb[i + 4 + k] == IendType[k] by {
        if forall k :: 0 <= k < 4 ==> rb[i + 4 + k] == IendType[k] {
          assert rb[i + 4..i + 8] == IendType;
        }
      }
    }
  }

  /** A non-signature offset is skipped: the specification from `i + 1`
      holds from `i`. */
  lemma WellSplitSkip(rb: seq<byte>, i: nat, r: Result<seq<FrameRange>>)
    requires !SignatureAt(rb, i)
    requires r.Success? ==> WellSplit(rb, i + 1, r.value)
    ensures r.Success? ==> WellSplit(rb, i, r.value)
  {
    if r.Success? && |r.value| == 0 {
      forall p | i <= p && SignatureAt(rb, p) && NoSignatureIn(rb, i, p)
        ensures !Closes(rb, p + |Signature|)
      {
        assert NoSignatureIn(rb, i + 1, p);
      }
    }
  }

  /** The walk finds the IEND chunk at the end of any chain that has one. */
  lemma {:induction false} WalkComplete(rb: seq<byte>, j: nat, e: nat, guarded: bool)
    requires ChunkChain(rb, j, e) && IendAt(rb, e)
    ensures Walk(rb, j, guarded) == Success(Some(e))
    decreases e - j
  {
    IendTypeTestMeaning(rb, j, guarded);
    if j != e {
      var next := j + ChunkSize(rb, j);
      WalkComplete(rb, next, e, guarded);
    }
  }

  /** A walk that runs off the buffer means the frame never closes. */
  lemma NotClosedWhenWalkEnds(rb: seq<byte>, j: nat, guarded: bool)
    requires Walk(rb, j, guarded) == Success(None)
    ensures !Closes(rb, j)
  {
    if Closes(rb, j) {
      var e :| ChunkChain(rb, j, e) && IendAt(rb, e);
      WalkComplete(rb, j, e, guarded);
    }
  }

  // ---------------------------------------------------------------------
  // ParseFrames and ImageFromBytes

  /** `ImageFromBytes` before the decoder runs: the `end - start` bytes from
      `start` (lines 67-68). */
  function ImageFromBytes(rb: seq<byte>, start: nat, end: nat): (data: seq<byte>)
    requires start <= end <= |rb|
    ensures |data| == end - start
    ensures forall k :: 0 <= k < |data| ==> data[k] == rb[start + k]
  {
    rb[start..end]
  }

  /** Line 69: the slice of frame `r` handed to the PNG decoder, the
      parameter `decode`. A failure, `InvalidImage` for instance, stands
      for the exception `Image.Load` throws on bytes it cannot read, which
      leaves `ParseFrames` at once. */
  function DecodeFrame(rb: seq<byte>, r: FrameRange, decode: seq<byte> -> Result<Image>): Result<Image>
    requires r.start <= r.end <= |rb|
  {
    decode(ImageFromBytes(rb, r.start, r.end))
  }

  /** Every range lies inside the buffer. */
  predicate InBuffer(rb: seq<byte>, rs: seq<FrameRange>)
  {
    forall k :: 0 <= k < |rs| ==> rs[k].start <= rs[k].end <= |rb|
  }

  /** `r` with `xs` put in front of what it holds. */
  function Prepend<T>(xs: seq<T>, r: Result<seq<T>>): Result<seq<T>>
  {
    match r
    case Success(ys) => Success(xs + ys)
    case Failure(e) => Failure(e)
  }

  /** A decoded image in front of the images after it, or the first of
      the two failures. */
  function Then(image: Result<Image>, rest: Result<seq<Image>>): Result<seq<Image>>
  {
    match image
    case Failure(e) => Failure(e)
    case Success(im) => Prepend([im], rest)
  }

  lemma PrependTwice<T>(a: seq<T>, b: seq<T>, r: Result<seq<T>>)
    ensures Prepend(a, Prepend(b, r)) == Prepend(a + b, r)
  {
    if r.Success? {
      assert a + (b + r.value) == (a + b) + r.value;
    }
  }

  /** The ranges decoded one after the other, up to the first one the
      decoder rejects. */
  function DecodeAll(rb: seq<byte>, rs: seq<FrameRange>, decode: seq<byte> -> Result<Image>): (r: Result<seq<Image>>)
    requires InBuffer(rb, rs)
    ensures r.Success? ==> |r.value| == |rs|
    decreases |rs|
  {
    if |rs| == 0 then Success([])
    else Then(DecodeFrame(rb, rs[0], decode), DecodeAll(rb, rs[1..], decode))
  }

  /** The decoder accepts every range. */
  predicate AllDecode(rb: seq<byte>, rs: seq<FrameRange>, decode: seq<byte> -> Result<Image>)
    requires InBuffer(rb, rs)
  {
    forall k :: 0 <= k < |rs| ==> DecodeFrame(rb, rs[k], decode).Success?
  }

  /** Range `k` is the first one the decoder rejects. */
  predicate FirstRejected(rb: seq<byte>, rs: seq<FrameRange>, decode: seq<byte> -> Result<Image>, k: int)
    requires InBuffer(rb, rs)
  {
    && 0 <= k < |rs|
    && DecodeFrame(rb, rs[k], decode).Failure?
    && forall j :: 0 <= j < k ==> DecodeFrame(rb, rs[j], decode).Success?
  }

  /** `DecodeAll` succeeds iff the decoder accepts every range, and then
      holds their images in order; otherwise it fails as the first range
      rejected does. */
  lemma {:induction false} DecodeAllSpec(rb: seq<byte>, rs: seq<FrameRange>, decode: seq<byte> -> Result<Image>)
    requires InBuffer(rb, rs)
    ensures DecodeAll(rb, rs, decode).Success? <==> AllDecode(rb, rs, decode)
    ensures DecodeAll(rb, rs, decode).Success? ==>
              forall k :: 0 <= k < |rs| ==> DecodeAll(rb, rs, decode).value[k] == DecodeFrame(rb, rs[k], decode).value
    ensures DecodeAll(rb, rs, decode).Failure? ==>
              exists k :: FirstRejected(rb, rs, decode, k) && DecodeAll(rb, rs, decode).error == DecodeFrame(rb, rs[k], decode).error
    decreases |rs|
  {
    if |rs| > 0 {
      var tail := rs[1..];
      DecodeAllSpec(rb, tail, decode);
      forall k | 1 <= k < |rs| ensures rs[k] == tail[k - 1] {
      }
      if DecodeFrame(rb, rs[0], decode).Failure? {
        assert FirstRejected(rb, rs, decode, 0);
      } else if DecodeAll(rb, tail, decode).Failure? {
        var k :| FirstRejected(rb, tail, decode, k) && DecodeAll(rb, tail, decode).error == DecodeFrame(rb, tail[k], decode).error;
        assert FirstRejected(rb, rs, decode, k + 1);
      }
    }
  }

  /** Decoding one more range: the images so far followed by its image,
      unless an earlier range or the new one is rejected. */
  lemma {:induction false} DecodeAllAppend(rb: seq<byte>, rs: seq<FrameRange>, r: FrameRange, decode: seq<byte> -> Result<Image>)
    requires InBuffer(rb, rs) && r.start <= r.end <= |rb|
    ensures InBuffer(rb, rs + [r])
    ensures DecodeAll(rb, rs + [r], decode) ==
              match DecodeAll(rb, rs, decode)
              case Failure(e) => Failure(e)
              case Success(images) =>
                match DecodeFrame(rb, r, decode)
                case Failure(e) => Failure(e)
                case Success(image) => Success(images + [image])
    decreases |rs|
  {
    if |rs| == 0 {
      assert rs + [r] == [r] && [r][1..] == [];
      var last := DecodeFrame(rb, r, decode);
      assert DecodeAll(rb, [r], decode) == Then(last, Success([]));
      if last.Success? {
        assert [last.value] + [] == [] + [last.value];
      }
    } else {
      assert (rs + [r])[1..] == rs[1..] + [r];
      DecodeAllAppend(rb, rs[1..], r, decode);
      var d0 := DecodeFrame(rb, rs[0], decode);
      var rest := DecodeAll(rb, rs[1..], decode);
      var last := DecodeFrame(rb, r, decode);
      if d0.Success? && rest.Success? && last.Success? {
        assert [d0.value] + (rest.value + [last.value]) == ([d0.value] + rest.value) + [last.value];
      }
    }
  }

  /** The frames `WellSplit` lists lie inside the buffer, in order, at or
      after `from`, each at least a signature long and followed by its
      8-byte IEND head, and at least one IEND chunk apart. */
  lemma {:induction false} WellSplitShape(rb: seq<byte>, from: nat, rs: seq<FrameRange>)
    requires WellSplit(rb, from, rs)
    ensures forall k :: 0 <= k < |rs| ==>
              && from <= rs[k].start
              && rs[k].start + |Signature| <= rs[k].end
              && rs[k].end + 8 <= |rb|
    ensures forall k :: 0 <= k < |rs| - 1 ==> rs[k].end + MinChunkSize <= rs[k + 1].start
    ensures InBuffer(rb, rs)
    decreases |rs|
  {
    if |rs| > 0 {
      var r := rs[0];
      WellSplitShape(rb, r.end + MinChunkSize, rs[1..]);
      ChainForward(rb, r.start + |Signature|, r.end);
      forall k | 1 <= k < |rs| ensures rs[k] == rs[1..][k - 1] && r.end + MinChunkSize <= rs[k].start {
        assert rs[k] == rs[1..][k - 1];
      }
    }
  }

  /** A chunk chain only moves forward. */
  lemma {:induction false} ChainForward(rb: seq<byte>, j: nat, e: nat)
    requires ChunkChain(rb, j, e)
    ensures j <= e
    decreases e - j
  {
    if j != e {
      ChainForward(rb, j + ChunkSize(rb, j), e);
    }
  }

  /** The outer loop of `ParseFrames` from cursor `i` as the source runs
      it: each frame goes to the decoder as soon as its IEND chunk is found
      (line 46), before the scan moves on, so a rejected frame ends the run
      even where the scan would have failed further on. */
  function Decoded(rb: seq<byte>, i: nat, decode: seq<byte> -> Result<Image>, guarded: bool): Result<seq<Image>>
    decreases |rb| - i
  {
    if i >= |rb| then Success([])
    else
      match SignatureTest(rb, i, guarded)
      case Failure(e) => Failure(e)
      case Success(found) =>
        if !found then Decoded(rb, i + 1, decode, guarded)
        else
          match Walk(rb, i + |Signature|, guarded)
          case Failure(e) => Failure(e)
          case Success(None) => Success([])
          case Success(Some(e)) =>
            ScanFrame(rb, i, guarded, e);
            Then(DecodeFrame(rb, FrameRange(i, e), decode), Decoded(rb, e + MinChunkSize, decode, guarded))
  }

  /** Decoding each frame as it is found agrees with scanning first and
      decoding the frames afterwards when the scan succeeds, and fails when
      the scan fails. */
  lemma {:induction false} DecodedScan(rb: seq<byte>, i: nat, decode: seq<byte> -> Result<Image>, guarded: bool)
    ensures Scan(rb, i, guarded).Success? ==>
              && InBuffer(rb, Scan(rb, i, guarded).value)
              && Decoded(rb, i, decode, guarded) == DecodeAll(rb, Scan(rb, i, guarded).value, decode)
    ensures Scan(rb, i, guarded).Failure? ==> Decoded(rb, i, decode, guarded).Failure?
    decreases |rb| - i
  {
    if i < |rb| {
      var test := SignatureTest(rb, i, guarded);
      if test.Failure? {
        ScanFault(rb, i, guarded, test.error);
        DecodedFault(rb, i, decode, guarded, test.error);
      } else if !test.value {
        ScanSkip(rb, i, guarded);
        DecodedSkip(rb, i, decode, guarded);
        DecodedScan(rb, i + 1, decode, guarded);
      } else {
        var walk := Walk(rb, i + |Signature|, guarded);
        if walk.Failure? {
          ScanFault(rb, i, guarded, walk.error);
          DecodedFault(rb, i, decode, guarded, walk.error);
        } else if walk.value.None? {
          ScanOpenFrame(rb, i, guarded);
          DecodedOpenFrame(rb, i, decode, guarded);
        } else {
          var e := walk.value.value;
          var f := FrameRange(i, e);
          ScanFrame(rb, i, guarded, e);
          DecodedFrame(rb, i, decode, guarded, e);
          DecodedScan(rb, e + MinChunkSize, decode, guarded);
          var rest := Scan(rb, e + MinChunkSize, guarded);
          if rest.Success? {
            DecodeAllCons(rb, f, rest.value, decode);
          }
        }
      }
    }
  }

  lemma DecodeAllCons(rb: seq<byte>, f: FrameRange, rs: seq<FrameRange>, decode: seq<byte> -> Result<Image>)
    requires f.start <= f.end <= |rb| && InBuffer(rb, rs)
    ensures InBuffer(rb, [f] + rs)
    ensures DecodeAll(rb, [f] + rs, decode) == Then(DecodeFrame(rb, f, decode), DecodeAll(rb, rs, decode))
  {
    var all := [f] + rs;
    assert all[0] == f && all[1..] == rs;
    forall k | 1 <= k < |all| ensures all[k] == rs[k - 1] {
    }
  }

  /** What `ParseFrames` promises: when the scan from offset 0 succeeds,
      its frames decoded in order up to the first one rejected; when the
      scan fails, a failure. */
  function Frames(rb: seq<byte>, decode: seq<byte> -> Result<Image>, guarded: bool): (r: Result<seq<Image>>)
    ensures Scan(rb, 0, guarded).Success? ==>
              && InBuffer(rb, Scan(rb, 0, guarded).value)
              && r == DecodeAll(rb, Scan(rb, 0, guarded).value, decode)
    ensures Scan(rb, 0, guarded).Failure? ==> r.Failure?
  {
    DecodedScan(rb, 0, decode, guarded);
    Decoded(rb, 0, decode, guarded)
  }

  /** `ParseFrames` succeeds iff the scan does and the decoder accepts every
      frame it finds; the images are then those frames' images in order.
      When the scan succeeds but the run fails, the failure is that of the
      first frame the decoder rejects. */
  lemma FramesMeaning(rb: seq<byte>, decode: seq<byte> -> Result<Image>, guarded: bool)
    ensures Scan(rb, 0, guarded).Success? ==> InBuffer(rb, Scan(rb, 0, guarded).value)
    ensures Frames(rb, decode, guarded).Success? <==>
              Scan(rb, 0, guarded).Success? && AllDecode(rb, Scan(rb, 0, guarded).value, decode)
    ensures Frames(rb, decode, guarded).Success? ==>
              var rs := Scan(rb, 0, guarded).value;
              && |Frames(rb, decode, guarded).value| == |rs|
              && forall k :: 0 <= k < |rs| ==> Frames(rb, decode, guarded).value[k] == DecodeFrame(rb, rs[k], decode).value
    ensures Scan(rb, 0, guarded).Success? && Frames(rb, decode, guarded).Failure? ==>
              var rs := Scan(rb, 0, guarded).value;
              exists k :: FirstRejected(rb, rs, decode, k) && Frames(rb, decode, guarded).error == DecodeFrame(rb, rs[k], decode).error
  {
    DecodedScan(rb, 0, decode, guarded);
    if Scan(rb, 0, guarded).Success? {
      DecodeAllSpec(rb, Scan(rb, 0, guarded).value, decode);
    }
  }

  // One step of the scan and of the walk, unfolded once.

  lemma ScanSkip(rb: seq<byte>, i: nat, guarded: bool)
    requires i < |rb| && SignatureTest(rb, i, guarded) == Success(false)
    ensures Scan(rb, i, guarded) == Scan(rb, i + 1, guarded)
  {
  }

  lemma ScanFault(rb: seq<byte>, i: nat, guarded: bool, e: Fault)
    requires i < |rb|
    requires SignatureTest(rb, i, guarded) == Failure(e)
          || (SignatureTest(rb, i, guarded) == Success(true) && Walk(rb, i + |Signature|, guarded) == Failure(e))
    ensures Scan(rb, i, guarded) == Failure(e)
  {
  }

  lemma ScanOpenFrame(rb: seq<byte>, i: nat, guarded: bool)
    requires i < |rb| && SignatureTest(rb, i, guarded) == Success(true)
    requires Walk(rb, i + |Signature|, guarded) == Success(None)
    ensures Scan(rb, i, guarded) == Success([])
  {
  }

  lemma ScanFrame(rb: seq<byte>, i: nat, guarded: bool, e: nat)
    requires i < |rb| && SignatureTest(rb, i, guarded) == Success(true)
    requires Walk(rb, i + |Signature|, guarded) == Success(Some(e))
    ensures Scan(rb, i, guarded) == Prepend([FrameRange(i, e)], Scan(rb, e + MinChunkSize, guarded))
    ensures i + |Signature| <= e && e + 8 <= |rb|
  {
  }

  lemma DecodedSkip(rb: seq<byte>, i: nat, decode: seq<byte> -> Result<Image>, guarded: bool)
    requires i < |rb| && SignatureTest(rb, i, guarded) == Success(false)
    ensures Decoded(rb, i, decode, guarded) == Decoded(rb, i + 1, decode, guarded)
  {
  }

  lemma DecodedFault(rb: seq<byte>, i: nat, decode: seq<byte> -> Result<Image>, guarded: bool, e: Fault)
    requires i < |rb|
    requires SignatureTest(rb, i, guarded) == Failure(e)
          || (SignatureTest(rb, i, guarded) == Success(true) && Walk(rb, i + |Signature|, guarded) == Failure(e))
    ensures Decoded(rb, i, decode, guarded) == Failure(e)
  {
  }

  lemma DecodedOpenFrame(rb: seq<byte>, i: nat, decode: seq<byte> -> Result<Image>, guarded: bool)
    requires i < |rb| && SignatureTest(rb, i, guarded) == Success(true)
    requires Walk(rb, i + |Signature|, guarded) == Success(None)
    ensures Decoded(rb, i, decode, guarded) == Success([])
  {
  }

  lemma DecodedFrame(rb: seq<byte>, i: nat, decode: seq<byte> -> Result<Image>, guarded: bool, e: nat)
    requires i < |rb| && SignatureTest(rb, i, guarded) == Success(true)
    requires Walk(rb, i + |Signature|, guarded) == Success(Some(e))
    ensures i + |Signature| <= e && e + 8 <= |rb|
    ensures Decoded(rb, i, decode, guarded) ==
              Then(DecodeFrame(rb, FrameRange(i, e), decode), Decoded(rb, e + MinChunkSize, decode, guarded))
  {
    ScanFrame(rb, i, guarded, e);
  }

  lemma WalkStep(rb: seq<byte>, j: nat, guarded: bool)
    requires j + 4 <= |rb|
    ensures ChunkSize(rb, j) != MinChunkSize ==> Walk(rb, j, guarded) == Walk(rb, j + ChunkSize(rb, j), guarded)
    ensures ChunkSize(rb, j) == MinChunkSize ==>
              match IendTypeTest(rb, j, guarded)
              case Failure(e) => Walk(rb, j, guarded) == Failure(e)
              case Success(true) => Walk(rb, j, guarded) == Success(Some(j))
              case Success(false) => Walk(rb, j, guarded) == Walk(rb, j + MinChunkSize, guarded)
  {
  }

  /** The inner loop of `ParseFrames` (lines 38-53) from cursor `j`, just
      past a signature: it hops from chunk to chunk, reading each length
      with line 42's shift-and-or expression, until an empty IEND chunk. */
  method FindEnd(rb: seq<byte>, j: nat, guarded: bool) returns (r: Result<Option<nat>>)
    ensures r == Walk(rb, j, guarded)
  {
    var i := j;
    while i < |rb|
      invariant j <= i
      invariant Walk(rb, j, guarded) == Walk(rb, i, guarded)
      decreases |rb| - i
    {
      if i + 4 > |rb| {
        // line 42 reads rb[i + 1 .. i + 3]: past the end as written;
        // the corrected reading drops the unfinished frame
        if guarded {
          return Success(None);
        }
        return Failure(IndexOutOfRange(|rb|));
      }
      WalkStep(rb, i, guarded);
      var length := InlineBigEndian(rb[i], rb[i + 1], rb[i + 2], rb[i + 3]);
      InlineIsBigEndian(rb[i], rb[i + 1], rb[i + 2], rb[i + 3]);
      assert rb[i..i + 4] == [rb[i], rb[i + 1], rb[i + 2], rb[i + 3]];
      var chunkSize := MinChunkSize + length;
      if chunkSize == MinChunkSize {
        var isEnd := IendTypeTest(rb, i, guarded);
        if isEnd.Failure? {
          return Failure(isEnd.error);
        }
        if isEnd.value {
          return Success(Some(i));
        }
      }
      i := i + chunkSize;
    }
    return Success(None);
  }

  /** One round of the outer loop of `ParseFrames` at cursor `i`: the
      signature test of line 30 and, at a signature, the chunk walk. It
      yields the frame found, if any, and where the next round starts: one
      further on after a non-signature offset, just past the IEND chunk
      after a frame (line 48 and the loop's `i++`), or the end of the
      buffer when the walk ran off it. The frame-by-frame run `Decoded`
      takes the same step as the scan. */
  method Round(rb: seq<byte>, i: nat, decode: seq<byte> -> Result<Image>, guarded: bool) returns (r: Result<Option<FrameRange>>, next: nat)
    requires i < |rb|
    ensures r.Failure? ==> Scan(rb, i, guarded) == Failure(r.error) && Decoded(rb, i, decode, guarded) == Failure(r.error)
    ensures r == Success(None) ==>
              && i < next
              && Scan(rb, i, guarded) == Scan(rb, next, guarded)
              && Decoded(rb, i, decode, guarded) == Decoded(rb, next, decode, guarded)
    ensures r.Success? && r.value.Some? ==>
              && i < next
              && r.value.value.start <= r.value.value.end <= |rb|
              && Scan(rb, i, guarded) == Prepend([r.value.value], Scan(rb, next, guarded))
              && Decoded(rb, i, decode, guarded) == Then(DecodeFrame(rb, r.value.value, decode), Decoded(rb, next, decode, guarded))
  {
    var isSignature := SignatureTest(rb, i, guarded);
    if isSignature.Failure? {
      ScanFault(rb, i, guarded, isSignature.error);
      DecodedFault(rb, i, decode, guarded, isSignature.error);
      return Failure(isSignature.error), i;
    }
    if !isSignature.value {
      ScanSkip(rb, i, guarded);
      DecodedSkip(rb, i, decode, guarded);
      return Success(None), i + 1;
    }
    var found := FindEnd(rb, i + |Signature|, guarded);
    if found.Failure? {
      ScanFault(rb, i, guarded, found.error);
      DecodedFault(rb, i, decode, guarded, found.error);
      return Failure(found.error), i;
    }
    if found.value.None? {
      // the frame never closes and the cursor has run off the buffer
      ScanOpenFrame(rb, i, guarded);
      DecodedOpenFrame(rb, i, decode, guarded);
      return Success(None), |rb|;
    }
    var e := found.value.value;
    ScanFrame(rb, i, guarded, e);
    DecodedFrame(rb, i, decode, guarded, e);
    return Success(Some(FrameRange(i, e))), e + MinChunkSize;
  }

  /** `ParseFrames` (lines 21-57): rounds of the outer loop from offset 0
      until the cursor leaves the buffer, each frame found handed at once
      to the PNG decoder, the parameter `decode`, whose failure ends the
      run. */
  method ParseFrames(rb: seq<byte>, decode: seq<byte> -> Result<Image>, guarded: bool) returns (r: Result<seq<Image>>)
    ensures r == Frames(rb, decode, guarded)
  {
    var images: seq<Image> := [];
    var i: nat := 0;
    assert Prepend([], Decoded(rb, 0, decode, guarded)) == Decoded(rb, 0, decode, guarded) by {
      if Decoded(rb, 0, decode, guarded).Success? {
        assert [] + Decoded(rb, 0, decode, guarded).value == Decoded(rb, 0, decode, guarded).value;
      }
    }
    while i < |rb|
      invariant Frames(rb, decode, guarded) == Prepend(images, Decoded(rb, i, decode, guarded))
      decreases |rb| - i
    {
      var found, next := Round(rb, i, decode, guarded);
      if found.Failure? {
        return Failure(found.error);
      }
      if found.value.Some? {
        var f := found.value.value;
        var image := decode(ImageFromBytes(rb, f.start, f.end));
        if image.Failure? {
          return Failure(image.error);
        }
        PrependTwice(images, [image.value], Decoded(rb, next, decode, guarded));
        images := images + [image.value];
      }
      i := next;
    }
    assert images + [] == images;
    r := Success(images);
  }
}
