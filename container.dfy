/** The container as a whole: what building a magic image and taking it apart
    again give back, and the worked scenarios of the format, including the
    limits of its minimum-gap heuristic. */
module Container {
  import opened Wrappers
  import opened Signatures
  import opened Scanner
  import opened Analyzer
  import opened Extractor

  /** Bytes that are zero begin no signature: every prefix starts with a
      nonzero byte. */
  lemma ZerosHoldNoSignature(data: seq<byte>, lo: nat, hi: nat)
    requires hi <= |data|
    requires forall p :: lo <= p < hi ==> data[p] == 0
    ensures NoSignatureIn(data, lo, hi)
  {
    forall p: nat | lo <= p < hi
      ensures !SignatureAt(data, p)
    {
      if SignatureAt(data, p) {
        SignatureStartByte(data, p);
      }
    }
  }

  /** No signature beginning in b from offset lo on implies that none begins
      in a + b from |a| + lo on. */
  lemma NoSignatureShift(a: seq<byte>, b: seq<byte>, lo: nat)
    requires NoSignatureIn(b, lo, |b|)
    ensures NoSignatureIn(a + b, |a| + lo, |a + b|)
  {
    forall p: nat | |a| + lo <= p < |a + b|
      ensures !SignatureAt(a + b, p)
    {
      var q := p - |a|;
      assert !SignatureAt(b, q);
      EntryAtShift(a, b, q);
    }
  }

  /** When a begins with a signature, is at least the minimum gap long, has no
      signature-like bytes from the gap on, and b begins with a signature, the
      region at the start of a + b is exactly a, and the next begins at |a|. */
  lemma FirstRegionOfConcatenation(a: seq<byte>, b: seq<byte>)
    requires SignatureAt(a, 0) && |a| >= MIN_GAP && SignatureAt(b, 0)
    requires NoSignatureIn(a + b, MIN_GAP, |a|)
    ensures Scan(a + b, 0) == ImageInfo(0, DetectedFormat(a), KNOWN_SIGNATURES[EntryAt(a, 0).value].extension, true)
    ensures RegionEnd(a + b, 0) == |a|
    ensures FindNextImageStart(a + b, 0, MIN_GAP) == Scan(a + b, |a|)
    ensures Scan(a + b, |a|) == ImageInfo(|a|, DetectedFormat(b), KNOWN_SIGNATURES[EntryAt(b, 0).value].extension, true)
  {
    var data := a + b;
    EntryAtExtend(a, b, 0);
    EntryAtShift(a, b, 0);
    assert |a| + 0 == |a|;
    ScanFindsLeftmost(data, 0, 0);
    ScanIsLeftmost(data, 0);
    ScanFindsLeftmost(data, MIN_GAP, |a|);
    ScanIsLeftmost(data, MIN_GAP);
    ScanFindsLeftmost(data, |a|, |a|);
    ScanIsLeftmost(data, |a|);
  }

  /** Why the hypothesis is stated on a + b and not on a alone: a may end in
      FF D8, which is no signature inside a but completes one with the first
      byte FF of a JPEG b. Here a (1010 bytes) holds no signature from the gap
      on, yet the first region of a + b ends at 1008, inside a. */
  lemma SeamSignatureExample()
    ensures var a := PNG_PREFIX + seq(1000, _ => 0) + [0xFF, 0xD8];
      SignatureAt(a, 0) && |a| >= MIN_GAP && SignatureAt(JPEG_PREFIX, 0) &&
      NoSignatureIn(a, MIN_GAP, |a|) && RegionEnd(a + JPEG_PREFIX, 0) == 1008
  {
    var a := PNG_PREFIX + seq(1000, _ => 0) + [0xFF, 0xD8];
    var b := JPEG_PREFIX;
    var data := a + b;
    assert PrefixAt(a, 0, PNG_PREFIX);
    assert PrefixAt(b, 0, JPEG_PREFIX);
    ZerosHoldNoSignature(a, MIN_GAP, 1008);
    assert a[1008] == 0xFF != BMP_PREFIX[0];
    assert !SignatureAt(a, 1008) && !SignatureAt(a, 1009);
    ZerosHoldNoSignature(data, MIN_GAP, 1008);
    assert PrefixAt(data, 1008, JPEG_PREFIX);
    EntryAtExtend(a, b, 0);
    ScanFindsLeftmost(data, 0, 0);
    ScanFindsLeftmost(data, MIN_GAP, 1008);
  }

  /** Round trip, normal mode: under the hypotheses above the first image
      extracted from a + b is a, tagged with a's MIME type. */
  lemma FirstImageRoundTrip(a: seq<byte>, b: seq<byte>)
    requires SignatureAt(a, 0) && |a| >= MIN_GAP && SignatureAt(b, 0)
    requires NoSignatureIn(a + b, MIN_GAP, |a|)
    ensures ExtractFirstImage(a + b) == Success(Image(a, MimeType(DetectedFormat(a))))
  {
    FirstRegionOfConcatenation(a, b);
    assert (a + b)[0..|a|] == a;
  }

  /** The region at |a| of a + b is exactly b when b has no signature-like
      bytes from the minimum gap on. */
  lemma LastRegionOfConcatenation(a: seq<byte>, b: seq<byte>)
    requires SignatureAt(b, 0) && NoSignatureIn(b, MIN_GAP, |b|)
    ensures RegionEnd(a + b, |a|) == |a + b|
  {
    var data := a + b;
    EntryAtShift(a, b, 0);
    assert |a| + 0 == |a|;
    if |a| + MIN_GAP < |data| {
      NoSignatureShift(a, b, MIN_GAP);
      ScanFindsNothing(data, |a| + MIN_GAP);
    }
  }

  /** Round trip, magic mode: when b also has no signature-like bytes from the
      minimum gap on, the hidden image extracted from a + b is b, tagged with
      b's MIME type. */
  lemma HiddenImageRoundTrip(a: seq<byte>, b: seq<byte>)
    requires SignatureAt(a, 0) && |a| >= MIN_GAP && SignatureAt(b, 0)
    requires NoSignatureIn(a + b, MIN_GAP, |a|) && NoSignatureIn(b, MIN_GAP, |b|)
    ensures ExtractHiddenImage(a + b) == Success(Some(Image(b, MimeType(DetectedFormat(b)))))
  {
    FirstRegionOfConcatenation(a, b);
    LastRegionOfConcatenation(a, b);
    assert (a + b)[|a|..|a + b|] == b;
  }

  /** Round trip, analysis: under the same hypotheses a + b is a magic image of
      exactly two regions, a and then b. */
  lemma AnalyzeRoundTrip(a: seq<byte>, b: seq<byte>)
    requires SignatureAt(a, 0) && |a| >= MIN_GAP && SignatureAt(b, 0)
    requires NoSignatureIn(a + b, MIN_GAP, |a|) && NoSignatureIn(b, MIN_GAP, |b|)
    ensures Analyze(a + b) == Analysis(|a| + |b|,
      [ImageEntry(1, DetectedFormat(a), 0, |a|, |a|), ImageEntry(2, DetectedFormat(b), |a|, |a| + |b|, |b|)], true)
  {
    var data := a + b;
    FirstRegionOfConcatenation(a, b);
    LastRegionOfConcatenation(a, b);
    var e1 := ImageEntry(1, DetectedFormat(a), 0, |a|, |a|);
    var e2 := ImageEntry(2, DetectedFormat(b), |a|, |a| + |b|, |b|);
    assert RegionsFrom(data, |data|, 3) == [];
    assert RegionsFrom(data, |a|, 2) == [e2] + RegionsFrom(data, |data|, 3);
    assert RegionsFrom(data, 0, 1) == [e1] + RegionsFrom(data, |a|, 2);
  }

  /** A PNG header followed by 1200 zero bytes. */
  function PngFixture(): (a: seq<byte>)
    ensures |a| == 1208
  {
    PNG_PREFIX + seq(1200, _ => 0)
  }

  /** A JPEG header followed by 50 zero bytes. */
  function JpegFixture(): (b: seq<byte>)
    ensures |b| == 53
  {
    JPEG_PREFIX + seq(50, _ => 0)
  }

  /** The worked example: PNG header, 1200 zero bytes, JPEG header, 50 zero
      bytes is a magic image of a PNG region [0, 1208) and a JPEG region
      [1208, 1261); normal mode gives the PNG part and magic mode the JPEG part. */
  lemma PngThenJpegExample()
    ensures Analyze(PngFixture() + JpegFixture()) ==
      Analysis(1261, [ImageEntry(1, PNG, 0, 1208, 1208), ImageEntry(2, JPEG, 1208, 1261, 53)], true)
    ensures ExtractFirstImage(PngFixture() + JpegFixture()) == Success(Image(PngFixture(), "image/png"))
    ensures ExtractHiddenImage(PngFixture() + JpegFixture()) == Success(Some(Image(JpegFixture(), "image/jpeg")))
  {
    var a := PngFixture();
    var b := JpegFixture();
    assert PrefixAt(a, 0, PNG_PREFIX);
    assert PrefixAt(b, 0, JPEG_PREFIX);
    DetectedFormatIff(b, 1);
    ZerosHoldNoSignature(a + b, MIN_GAP, |a|);
    AnalyzeRoundTrip(a, b);
    FirstImageRoundTrip(a, b);
    HiddenImageRoundTrip(a, b);
  }

  /** Ten zero bytes hold no image: the analysis is empty and extraction fails. */
  lemma ZeroBufferExample()
    ensures Analyze(seq(10, _ => 0)) == Analysis(10, [], false)
    ensures ExtractFirstImage(seq(10, _ => 0)) == Failure(NoSignatureFound)
    ensures ExtractHiddenImage(seq(10, _ => 0)) == Failure(NoSignatureFound)
  {
    var data: seq<byte> := seq(10, _ => 0);
    ZerosHoldNoSignature(data, 0, 10);
    AnalyzeReport(data);
    FirstImageBoundsLeftmost(data);
    HiddenImageBoundsNextAfterGap(data);
  }

  /** The minimum-gap limitation: a container no longer than the gap is one
      region, whatever it holds after its first signature, so an image hidden
      behind a small first image is merged into it and magic mode finds nothing. */
  lemma SmallContainerIsOneRegion(data: seq<byte>)
    requires SignatureAt(data, 0) && |data| <= MIN_GAP
    ensures Analyze(data) == Analysis(|data|, [ImageEntry(1, DetectedFormat(data), 0, |data|, |data|)], false)
    ensures ExtractFirstImage(data) == Success(Image(data, MimeType(DetectedFormat(data))))
    ensures ExtractHiddenImage(data) == Success(None)
  {
    SignatureStartByte(data, 0);
    ScanFindsLeftmost(data, 0, 0);
    ScanIsLeftmost(data, 0);
    assert RegionsFrom(data, |data|, 2) == [];
    assert data[0..|data|] == data;
  }

  /** The other side of the gap: when a is shorter than the minimum gap, the
      first image extracted from a + b runs past the end of a, into b, and a
      hidden image, if one is found, begins at or after the gap, never where b
      begins. */
  lemma SmallFirstImageMerged(a: seq<byte>, b: seq<byte>)
    requires SignatureAt(a, 0) && |a| < MIN_GAP && SignatureAt(b, 0)
    ensures ExtractFirstImage(a + b).Success? && |ExtractFirstImage(a + b).value.bytes| > |a|
    ensures HiddenImageBounds(a + b).Success?
    ensures HiddenImageBounds(a + b).value.Some? ==> HiddenImageBounds(a + b).value.value.start >= MIN_GAP > |a|
  {
    var data := a + b;
    EntryAtExtend(a, b, 0);
    EntryAtShift(a, b, 0);
    assert |a| + 0 == |a|;
    SignatureStartByte(b, 0);
    ScanFindsLeftmost(data, 0, 0);
  }

  /** A 100-byte BMP behind a 2000-byte PNG (zero payloads) is found: the
      search for the hidden image starts at offset 1000, before the BMP header
      at 2000, so magic mode returns the BMP bytes. */
  lemma PngThenSmallBmpExample()
    ensures ExtractHiddenImage((PNG_PREFIX + seq(1992, _ => 0)) + (BMP_PREFIX + seq(98, _ => 0))) ==
      Success(Some(Image(BMP_PREFIX + seq(98, _ => 0), "image/bmp")))
  {
    var a := PNG_PREFIX + seq(1992, _ => 0);
    var b := BMP_PREFIX + seq(98, _ => 0);
    assert PrefixAt(a, 0, PNG_PREFIX);
    assert PrefixAt(b, 0, BMP_PREFIX);
    DetectedFormatIff(b, 3);
    ZerosHoldNoSignature(a + b, MIN_GAP, |a|);
    HiddenImageRoundTrip(a, b);
  }

  /** n BMP images of exactly the minimum gap each: the header 42 4D, then
      zero bytes. */
  function BmpUnits(n: nat): (data: seq<byte>)
    ensures |data| == MIN_GAP * n
  {
    seq(MIN_GAP * n, i => if i % MIN_GAP == 0 then 0x42 else if i % MIN_GAP == 1 then 0x4D else 0)
  }

  /** Offset j inside unit k of a run of gap-sized units is j. */
  lemma UnitOffset(k: nat, j: nat)
    requires j < MIN_GAP
    ensures (MIN_GAP * k + j) % MIN_GAP == j
  {
  }

  /** Unit k of BmpUnits(n) begins with a BMP header, a signature. */
  lemma BmpUnitStarts(n: nat, k: nat)
    requires k < n
    ensures SignatureAt(BmpUnits(n), MIN_GAP * k)
  {
    var data := BmpUnits(n);
    UnitOffset(k, 0);
    UnitOffset(k, 1);
    assert MIN_GAP * k + 2 <= |data|;
    assert data[MIN_GAP * k] == 0x42 && data[MIN_GAP * k + 1] == 0x4D;
    assert PrefixAt(data, MIN_GAP * k, BMP_PREFIX);
  }

  /** The blocks of the minimum gap at pos, pos + MIN_GAP, ..., up to the end of data
      each begin with a signature. */
  predicate BlocksFrom(data: seq<byte>, pos: nat)
    decreases |data| - pos
  {
    pos + MIN_GAP <= |data| ==> SignatureAt(data, pos) && BlocksFrom(data, pos + MIN_GAP)
  }

  /** How many of blocks regions the analysis records when it numbers the
      first one imageCount: it stops after number MAX_IMAGES. */
  function CappedCount(blocks: nat, imageCount: nat): (count: nat)
  {
    if MAX_IMAGES < imageCount then 0
    else if blocks <= MAX_IMAGES + 1 - imageCount then blocks
    else MAX_IMAGES + 1 - imageCount
  }

  /** One block is one region: the signature at pos is found at once, and the
      region ends one gap later, where the next block begins (or the data ends). */
  lemma BlockStep(data: seq<byte>, pos: nat, blocks: nat, imageCount: nat)
    requires |data| == pos + MIN_GAP * blocks && 0 < blocks && imageCount <= MAX_IMAGES
    requires BlocksFrom(data, pos)
    requires |RegionsFrom(data, pos + MIN_GAP, imageCount + 1)| == CappedCount(blocks - 1, imageCount + 1)
    ensures |RegionsFrom(data, pos, imageCount)| == CappedCount(blocks, imageCount)
  {
    assert BlocksFrom(data, pos + MIN_GAP);
    ScanFindsLeftmost(data, pos, pos);
    if 1 < blocks {
      ScanFindsLeftmost(data, pos + MIN_GAP, pos + MIN_GAP);
    }
    assert RegionEnd(data, pos) == pos + MIN_GAP;
    assert RegionsFrom(data, pos, imageCount) ==
      [ImageEntry(imageCount, Scan(data, pos).format, pos, pos + MIN_GAP, MIN_GAP)] + RegionsFrom(data, pos + MIN_GAP, imageCount + 1);
  }

  /** Back-to-back blocks of the minimum gap, each beginning with a signature,
      are one region each, up to the cap. */
  lemma {:induction false} BlockRegions(data: seq<byte>, pos: nat, blocks: nat, imageCount: nat)
    requires |data| == pos + MIN_GAP * blocks && BlocksFrom(data, pos)
    ensures |RegionsFrom(data, pos, imageCount)| == CappedCount(blocks, imageCount)
    decreases blocks
  {
    if 0 < blocks && imageCount <= MAX_IMAGES {
      assert BlocksFrom(data, pos + MIN_GAP);
      BlockRegions(data, pos + MIN_GAP, blocks - 1, imageCount + 1);
      BlockStep(data, pos, blocks, imageCount);
    } else {
      AnalysisStop(data, pos, imageCount);
    }
  }

  /** Every unit of BmpUnits(n) begins with a BMP header. */
  lemma {:induction false} BmpUnitsBlocks(n: nat, k: nat)
    requires k <= n
    ensures BlocksFrom(BmpUnits(n), MIN_GAP * k)
    decreases n - k
  {
    if k < n {
      BmpUnitStarts(n, k);
      assert MIN_GAP * k + MIN_GAP == MIN_GAP * (k + 1);
      BmpUnitsBlocks(n, k + 1);
    }
  }

  /** A container of back-to-back blocks of the minimum gap, each beginning
      with a signature, is reported as one region per block, but no more than
      the cap. */
  lemma BlockContainerRegionCount(data: seq<byte>, blocks: nat)
    requires |data| == MIN_GAP * blocks && BlocksFrom(data, 0)
    ensures |Analyze(data).images| == if blocks <= MAX_IMAGES then blocks else MAX_IMAGES
    ensures Analyze(data).isMagicImage <==> blocks > 1
  {
    BlockRegions(data, 0, blocks, 1);
  }

  /** The cap: twelve concatenated minimal BMP images give ten regions; the
      last two are not reported. */
  lemma CapExample()
    ensures |Analyze(BmpUnits(12)).images| == MAX_IMAGES
    ensures Analyze(BmpUnits(12)).isMagicImage
  {
    BmpUnitsBlocks(12, 0);
    BlockContainerRegionCount(BmpUnits(12), 12);
  }
}
