/** What the frame splitter `PngParser.ParseFrames` (`PngParser.cs`)
    promises, stated over the whole buffer: the guarded scan finds exactly
    the frames `WellSplit` describes, the code as written agrees with it
    whenever it does not throw, and the places where it throws or never
    ends. Line numbers in this module are those of `PngParser.cs`. */
module PngFacts {
  import opened Common
  import opened Bytes
  import opened PngParser

  // ---------------------------------------------------------------------
  // ArrayCompare, in the offsets of its second array

  /** `ArrayCompare(a, start, end, b)` answers true exactly when
      `a[start + k] == b[k]` for every `k < end - start`; an empty range
      compares equal. */
  lemma ArrayCompareMeaning<T>(a: seq<T>, start: nat, end: nat, b: seq<T>)
    requires end <= start + |b|
    ensures end <= start ==> ArrayCompare(a, start, end, b) == Success(true)
    ensures ArrayCompare(a, start, end, b).Success? ==>
              (ArrayCompare(a, start, end, b).value <==>
                 forall k :: 0 <= k < end - start ==> start + k < |a| && a[start + k] == b[k])
  {
    var r := ArrayCompare(a, start, end, b);
    ArrayCompareSpec(a, start, end, b);
    if r.Success? && r.value {
      forall k | 0 <= k < end - start ensures start + k < |a| && a[start + k] == b[k] {
        var j := start + k;
        assert start <= j < end;
        assert j - start == k;
      }
    }
    if r.Success? && forall k :: 0 <= k < end - start ==> start + k < |a| && a[start + k] == b[k] {
      forall j | start <= j < end ensures j < |a| && a[j] == b[j - start] {
        var k := j - start;
        assert 0 <= k < end - start;
        assert start + k == j;
      }
    }
  }

  // ---------------------------------------------------------------------
  // The scan against its specification

  /** Every range of a `WellSplit` list is a complete frame. */
  lemma {:induction false} WellSplitFrames(rb: seq<byte>, from: nat, rs: seq<FrameRange>)
    requires WellSplit(rb, from, rs)
    ensures forall k :: 0 <= k < |rs| ==> IsFrame(rb, rs[k])
    decreases |rs|
  {
    if |rs| > 0 {
      WellSplitFrames(rb, rs[0].end + MinChunkSize, rs[1..]);
      forall k | 1 <= k < |rs| ensures IsFrame(rb, rs[k]) {
        assert rs[k] == rs[1..][k - 1];
      }
    }
  }

  /** An offset with no signature does not change what is found from it. */
  lemma WellSplitPast(rb: seq<byte>, i: nat, rs: seq<FrameRange>)
    requires !SignatureAt(rb, i) && WellSplit(rb, i, rs)
    ensures WellSplit(rb, i + 1, rs)
  {
    if |rs| == 0 {
      forall p | i + 1 <= p && SignatureAt(rb, p) && NoSignatureIn(rb, i + 1, p)
        ensures !Closes(rb, p + |Signature|)
      {
        assert NoSignatureIn(rb, i, p);
      }
    } else {
      assert rs[0].start != i;
    }
  }

  /** The walk from a closing chain finds its IEND chunk, so a walk that
      reaches an IEND chunk means the frame closes. */
  lemma WalkCloses(rb: seq<byte>, j: nat, guarded: bool)
    requires Walk(rb, j, guarded).Success? && Walk(rb, j, guarded).value.Some?
    ensures Closes(rb, j)
  {
    var e := Walk(rb, j, guarded).value.value;
    assert ChunkChain(rb, j, e) && IendAt(rb, e);
  }

  /** At a signature, no frame to come means the walk runs off the buffer. */
  lemma OpenAtSignature(rb: seq<byte>, i: nat)
    requires i < |rb| && SignatureAt(rb, i) && NoFrameFrom(rb, i)
    ensures Scan(rb, i, true) == Success([])
  {
    SignatureTestMeaning(rb, i, true);
    assert NoSignatureIn(rb, i, i);
    assert !Closes(rb, i + |Signature|);
    ScanOpenFrame(rb, i, true);
  }

  /** At a signature, the first frame the specification lists is the one
      that starts there, and the walk finds its IEND chunk. */
  lemma FrameAtSignature(rb: seq<byte>, i: nat, rs: seq<FrameRange>)
    requires i < |rb| && SignatureAt(rb, i) && |rs| > 0 && WellSplit(rb, i, rs)
    ensures Scan(rb, i, true) == Prepend([rs[0]], Scan(rb, rs[0].end + MinChunkSize, true))
  {
    var f := rs[0];
    var e := f.end;
    assert f == FrameRange(i, e);
    SignatureTestMeaning(rb, i, true);
    WalkComplete(rb, i + |Signature|, e, true);
    ScanFrame(rb, i, true, e);
    assert Scan(rb, i, true) == Prepend([f], Scan(rb, e + MinChunkSize, true));
  }

  /** The converse of `ScanSound`: the guarded scan returns every list that
      meets the specification. With `ScanSound` this makes `WellSplit` and
      the guarded scan the same thing. */
  lemma {:induction false} ScanComplete(rb: seq<byte>, i: nat, rs: seq<FrameRange>)
    requires WellSplit(rb, i, rs)
    ensures Scan(rb, i, true) == Success(rs)
    decreases |rb| - i
  {
    if i >= |rb| {
      WellSplitPastEnd(rb, i, rs);
    } else if !SignatureAt(rb, i) {
      WellSplitPast(rb, i, rs);
      ScanComplete(rb, i + 1, rs);
      SignatureTestMeaning(rb, i, true);
      ScanSkip(rb, i, true);
    } else if |rs| == 0 {
      OpenAtSignature(rb, i);
    } else {
      var next := rs[0].end + MinChunkSize;
      assert WellSplit(rb, next, rs[1..]);
      ScanComplete(rb, next, rs[1..]);
      FrameThenRest(rb, i, rs);
    }
  }

  /** Past the end of the buffer the specification lists no frame. */
  lemma WellSplitPastEnd(rb: seq<byte>, i: nat, rs: seq<FrameRange>)
    requires i >= |rb| && WellSplit(rb, i, rs)
    ensures rs == [] && Scan(rb, i, true) == Success([])
  {
    assert |rs| > 0 ==> SignatureAt(rb, rs[0].start);
  }

  /** At a signature, the frame found there followed by the frames found
      after it. */
  lemma FrameThenRest(rb: seq<byte>, i: nat, rs: seq<FrameRange>)
    requires i < |rb| && SignatureAt(rb, i) && |rs| > 0 && WellSplit(rb, i, rs)
    requires Scan(rb, rs[0].end + MinChunkSize, true) == Success(rs[1..])
    ensures Scan(rb, i, true) == Success(rs)
  {
    FrameAtSignature(rb, i, rs);
    assert [rs[0]] + rs[1..] == rs;
  }

  /** The guarded scan lists exactly the frames the specification
      describes. */
  lemma ScanIsWellSplit(rb: seq<byte>, i: nat, rs: seq<FrameRange>)
    ensures Scan(rb, i, true) == Success(rs) <==> WellSplit(rb, i, rs)
  {
    ScanSound(rb, i, true);
    if WellSplit(rb, i, rs) {
      ScanComplete(rb, i, rs);
    }
  }

  /** The specification pins down a single list of frames. */
  lemma WellSplitUnique(rb: seq<byte>, i: nat, rs: seq<FrameRange>, qs: seq<FrameRange>)
    requires WellSplit(rb, i, rs) && WellSplit(rb, i, qs)
    ensures rs == qs
  {
    ScanComplete(rb, i, rs);
    ScanComplete(rb, i, qs);
  }

  /** When the code as written does not throw, it finds what the guarded
      scan finds: the two differ only in throwing. */
  lemma AsWrittenAgrees(rb: seq<byte>, i: nat)
    requires Scan(rb, i, false).Success?
    ensures Scan(rb, i, false) == Scan(rb, i, true)
  {
    ScanSound(rb, i, false);
    ScanComplete(rb, i, Scan(rb, i, false).value);
  }

  /** A buffer without a signature holds no frame. */
  lemma NoSignatureNoFrames(rb: seq<byte>, guarded: bool)
    requires forall p :: 0 <= p < |rb| ==> !SignatureAt(rb, p)
    ensures Scan(rb, 0, guarded).Success? ==> Scan(rb, 0, guarded).value == []
    ensures Scan(rb, 0, true) == Success([])
  {
    assert WellSplit(rb, 0, []);
    ScanComplete(rb, 0, []);
    if Scan(rb, 0, guarded).Success? && !guarded {
      AsWrittenAgrees(rb, 0);
    }
  }

  /** What the decoder is handed for frame `f`: a slice of `end - start`
      bytes inside the buffer that starts with the signature and is
      followed by an empty IEND chunk, which it excludes. */
  predicate GoodSlice(rb: seq<byte>, f: FrameRange)
  {
    && f.start + |Signature| <= f.end <= |rb|
    && var data := ImageFromBytes(rb, f.start, f.end);
       && |data| == f.end - f.start
       && data[..|Signature|] == Signature
       && IendAt(rb, f.start + |data|)
  }

  /** The frames come out in order without overlapping, and each one is
      a `GoodSlice`. */
  lemma FramesShape(rb: seq<byte>, guarded: bool, rs: seq<FrameRange>)
    requires Scan(rb, 0, guarded) == Success(rs)
    ensures forall k :: 0 <= k < |rs| - 1 ==> rs[k].end + MinChunkSize <= rs[k + 1].start
    ensures forall k :: 0 <= k < |rs| ==> GoodSlice(rb, rs[k])
  {
    ScanSound(rb, 0, guarded);
    SlicesShape(rb, 0, rs);
  }

  /** The shape of the frames of a `WellSplit` list. */
  lemma SlicesShape(rb: seq<byte>, from: nat, rs: seq<FrameRange>)
    requires WellSplit(rb, from, rs)
    ensures forall k :: 0 <= k < |rs| - 1 ==> rs[k].end + MinChunkSize <= rs[k + 1].start
    ensures forall k :: 0 <= k < |rs| ==> GoodSlice(rb, rs[k])
  {
    WellSplitShape(rb, from, rs);
    WellSplitFrames(rb, from, rs);
    forall k | 0 <= k < |rs| ensures GoodSlice(rb, rs[k]) {
      FrameSlice(rb, rs[k]);
    }
  }

  /** A frame's slice opens with the signature. */
  lemma FrameSlice(rb: seq<byte>, f: FrameRange)
    requires IsFrame(rb, f) && f.start + |Signature| <= f.end <= |rb|
    ensures GoodSlice(rb, f)
  {
    assert rb[f.start..f.end][..|Signature|] == rb[f.start..f.start + |Signature|];
  }

  // ---------------------------------------------------------------------
  // Where the code as written throws (findings 1 and 2)

  /** Finding 1, as written: a buffer whose last byte is the first byte of
      the signature makes the signature test at line 30 read past the end.
      The guarded scan finds no frame. */
  lemma SignaturePrefixThrows()
    ensures Scan([0x89], 0, false) == Failure(IndexOutOfRange(1))
    ensures Scan([0x89], 0, true) == Success([])
  {
    var rb: seq<byte> := [0x89];
    assert CompareFrom(rb, 0, 1, 8, Signature) == Failure(IndexOutOfRange(1));
    assert SignatureTest(rb, 0, false) == Failure(IndexOutOfRange(1));
  }

  /** The complete frame `Signature + IendChunk` that the next example puts
      in front of a truncated one. */
  const IendChunk: seq<byte> := [0, 0, 0, 0, 73, 69, 78, 68, 0xAE, 0x42, 0x60, 0x82]

  /** Finding 2, as written: a complete frame followed by a frame cut off
      inside its first length field. Line 42 reads past the end of the
      buffer, and the throw loses the complete frame as well; the guarded
      scan keeps it. */
  lemma TruncatedFrameThrows()
    ensures var rb := Signature + IendChunk + Signature + [0];
            && Scan(rb, 0, false) == Failure(IndexOutOfRange(29))
            && Scan(rb, 0, true) == Success([FrameRange(0, 8)])
  {
    var rb := Signature + IendChunk + Signature + [0];
    assert |rb| == 29;
    assert rb[..8] == Signature;
    assert rb[8..12] == [0, 0, 0, 0];
    assert rb[12..16] == IendType;
    BigEndianFour(rb[8..12]);
    assert IendAt(rb, 8);
    assert ChunkChain(rb, 8, 8);
    assert rb[20..28] == Signature;
    forall guarded: bool ensures Scan(rb, 0, guarded) == Prepend([FrameRange(0, 8)], Scan(rb, 20, guarded)) {
      SignatureTestMeaning(rb, 0, guarded);
      WalkComplete(rb, 8, 8, guarded);
      ScanFrame(rb, 0, guarded, 8);
    }
    SignatureTestMeaning(rb, 20, false);
    SignatureTestMeaning(rb, 20, true);
    assert Walk(rb, 28, false) == Failure(IndexOutOfRange(29));
    ScanFault(rb, 20, false, IndexOutOfRange(29));
    assert Walk(rb, 28, true) == Success(None);
    ScanOpenFrame(rb, 20, true);
    assert [FrameRange(0, 8)] + [] == [FrameRange(0, 8)];
  }

  // ---------------------------------------------------------------------
  // uint wrap-around of the chunk size (finding 3)

  /** Line 42 as written: `chunkSize` is a `uint`, so `12 + length` is taken
      modulo 2^32. */
  function ChunkSize32(rb: seq<byte>, p: nat): (n: nat)
    requires p + 4 <= |rb|
    ensures n < Two32
    ensures ChunkLength(rb, p) < Two32 - MinChunkSize ==> n == ChunkSize(rb, p)
  {
    BigEndianFour(rb[p..p + 4]);
    (MinChunkSize + ChunkLength(rb, p)) % Two32
  }

  /** Line 52 as written: the cursor after a chunk, in `uint` arithmetic. */
  function NextCursor32(rb: seq<byte>, p: nat): (q: nat)
    requires p + 4 <= |rb|
    ensures q < Two32
  {
    (p + ChunkSize32(rb, p)) % Two32
  }

  /** Finding 3, as written: a chunk declaring length `0xFFFFFFF4` has a
      `chunkSize` of 0, so the cursor of the inner loop stays where it is
      and the loop never ends. */
  lemma ChunkSizeWraps(rb: seq<byte>, p: nat)
    requires p + 4 <= |rb| && p < Two32
    requires rb[p..p + 4] == [0xFF, 0xFF, 0xFF, 0xF4]
    ensures ChunkSize32(rb, p) == 0
    ensures NextCursor32(rb, p) == p
  {
    BigEndianFour(rb[p..p + 4]);
  }

  /** The corrected walk moves past every chunk it steps over. */
  lemma {:induction false} ChainAdvances(rb: seq<byte>, j: nat, e: nat)
    requires ChunkChain(rb, j, e) && j != e
    ensures j + MinChunkSize <= e
    decreases e - j
  {
    var next := j + ChunkSize(rb, j);
    if next != e {
      ChainAdvances(rb, next, e);
    }
  }
}
