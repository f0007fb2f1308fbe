/** The container analyzer: partitions a buffer into at most ten image regions,
    each running from a signature to the next signature found after the
    minimum gap, or to the end of the buffer. */
module Analyzer {
  import opened Signatures
  import opened Scanner

  /** The most regions one analysis reports. */
  const MAX_IMAGES: nat := 10

  /** One region of the analysis: its 1-based index, format and byte range [startPosition, endPosition). */
  datatype ImageEntry = ImageEntry(index: nat, format: Format, startPosition: nat, endPosition: nat, size: nat)

  /** The analysis report. */
  datatype Analysis = Analysis(totalSize: nat, images: seq<ImageEntry>, isMagicImage: bool)

  /** Every region is a well-formed range of data that begins at a signature of
      its format, and the next region can only begin at or after the minimum gap. */
  predicate WellFormedRegion(data: seq<byte>, e: ImageEntry)
  {
    && e.startPosition < e.endPosition <= |data|
    && e.size == e.endPosition - e.startPosition
    && SignatureAt(data, e.startPosition)
    && e.format == FormatAt(data, e.startPosition)
    && NoSignatureIn(data, e.startPosition + MIN_GAP, e.endPosition)
    && (e.endPosition == |data| || (e.size >= MIN_GAP && SignatureAt(data, e.endPosition)))
  }

  /** The end of the region that begins at pos: the next image start after the
      minimum gap, or the end of data. */
  function RegionEnd(data: seq<byte>, pos: nat): (end: nat)
    requires pos < |data|
    ensures pos < end <= |data|
  {
    var nextImage := FindNextImageStart(data, pos, MIN_GAP);
    if nextImage.found then nextImage.position else |data|
  }

  /** The regions the analysis loop collects from searchPos on, numbering them
      from imageCount. */
  function RegionsFrom(data: seq<byte>, searchPos: nat, imageCount: nat): (regions: seq<ImageEntry>)
    requires searchPos <= |data|
    decreases |data| - searchPos
  {
    if searchPos < |data| && imageCount <= MAX_IMAGES then
      var imageInfo := Scan(data, searchPos);
      if !imageInfo.found then []
      else
        var imageEnd := RegionEnd(data, imageInfo.position);
        [ImageEntry(imageCount, imageInfo.format, imageInfo.position, imageEnd, imageEnd - imageInfo.position)]
          + RegionsFrom(data, imageEnd, imageCount + 1)
    else []
  }

  /** A region that does not end the data ends where the next signature begins,
      so the next scan finds that signature at once. */
  lemma RegionEndIsNextStart(data: seq<byte>, pos: nat)
    requires pos < |data|
    ensures var end := RegionEnd(data, pos);
      end == |data| || (end >= pos + MIN_GAP && SignatureAt(data, end) && Scan(data, end).position == end)
    ensures NoSignatureIn(data, pos + MIN_GAP, RegionEnd(data, pos))
  {
    var end := RegionEnd(data, pos);
    NextImageStartIsLeftmost(data, pos, MIN_GAP);
    if end < |data| {
      ScanFindsLeftmost(data, end, end);
    }
  }

  /** The regions are numbered first, first + 1, ... in order. */
  predicate NumberedFrom(images: seq<ImageEntry>, first: nat)
  {
    forall i :: 0 <= i < |images| ==> images[i].index == first + i
  }

  /** Every region is well formed and begins at or after from. */
  predicate AllWellFormed(data: seq<byte>, images: seq<ImageEntry>, from: nat)
  {
    forall i :: 0 <= i < |images| ==> from <= images[i].startPosition && WellFormedRegion(data, images[i])
  }

  /** Each region ends exactly where the next one begins. */
  predicate Contiguous(images: seq<ImageEntry>)
  {
    forall i :: 0 <= i < |images| - 1 ==> images[i].endPosition == images[i + 1].startPosition
  }

  /** How many regions there are, how they are numbered, and where the first begins. */
  lemma {:induction false} RegionsFromShape(data: seq<byte>, searchPos: nat, imageCount: nat)
    requires searchPos <= |data|
    ensures RegionsFrom(data, searchPos, imageCount) != [] ==>
              imageCount + |RegionsFrom(data, searchPos, imageCount)| <= MAX_IMAGES + 1
    ensures RegionsFrom(data, searchPos, imageCount) == [] <==>
              searchPos == |data| || imageCount > MAX_IMAGES || NoSignatureIn(data, searchPos, |data|)
    ensures RegionsFrom(data, searchPos, imageCount) != [] ==>
              RegionsFrom(data, searchPos, imageCount)[0].startPosition == Scan(data, searchPos).position
    ensures NumberedFrom(RegionsFrom(data, searchPos, imageCount), imageCount)
    decreases |data| - searchPos
  {
    if searchPos < |data| && imageCount <= MAX_IMAGES {
      var imageInfo := Scan(data, searchPos);
      if imageInfo.found {
        var imageEnd := RegionEnd(data, imageInfo.position);
        RegionsFromShape(data, imageEnd, imageCount + 1);
        var images := RegionsFrom(data, searchPos, imageCount);
        var rest := RegionsFrom(data, imageEnd, imageCount + 1);
        assert images == [images[0]] + rest;
        ScanIsLeftmost(data, searchPos);
        assert SignatureAt(data, imageInfo.position);
      }
    }
    if searchPos < |data| && !Scan(data, searchPos).found {
      ScanIsLeftmost(data, searchPos);
    }
  }

  /** Every region begins at or after searchPos and is well formed. */
  lemma {:induction false} RegionsFromWellFormed(data: seq<byte>, searchPos: nat, imageCount: nat)
    requires searchPos <= |data|
    ensures AllWellFormed(data, RegionsFrom(data, searchPos, imageCount), searchPos)
    decreases |data| - searchPos
  {
    if searchPos < |data| && imageCount <= MAX_IMAGES {
      var imageInfo := Scan(data, searchPos);
      if imageInfo.found {
        var imageEnd := RegionEnd(data, imageInfo.position);
        RegionEndIsNextStart(data, imageInfo.position);
        ScanIsLeftmost(data, searchPos);
        RegionsFromWellFormed(data, imageEnd, imageCount + 1);
        var images := RegionsFrom(data, searchPos, imageCount);
        var rest := RegionsFrom(data, imageEnd, imageCount + 1);
        assert images == [images[0]] + rest;
        assert WellFormedRegion(data, images[0]);
      }
    }
  }

  /** Each region ends exactly where the next one begins, and unless the cap
      stopped the loop the last region ends with the data. */
  lemma {:induction false} RegionsFromContiguous(data: seq<byte>, searchPos: nat, imageCount: nat)
    requires searchPos <= |data|
    ensures Contiguous(RegionsFrom(data, searchPos, imageCount))
    ensures RegionsFrom(data, searchPos, imageCount) != [] &&
            imageCount + |RegionsFrom(data, searchPos, imageCount)| <= MAX_IMAGES ==>
              RegionsFrom(data, searchPos, imageCount)[|RegionsFrom(data, searchPos, imageCount)| - 1].endPosition == |data|
    decreases |data| - searchPos
  {
    if searchPos < |data| && imageCount <= MAX_IMAGES {
      var imageInfo := Scan(data, searchPos);
      if imageInfo.found {
        var imageEnd := RegionEnd(data, imageInfo.position);
        RegionEndIsNextStart(data, imageInfo.position);
        RegionsFromContiguous(data, imageEnd, imageCount + 1);
        RegionsFromShape(data, imageEnd, imageCount + 1);
        var images := RegionsFrom(data, searchPos, imageCount);
        var rest := RegionsFrom(data, imageEnd, imageCount + 1);
        assert images == [images[0]] + rest;
      }
    }
  }

  /** One pass of the analysis loop: recording the region found at searchPos
      keeps "collected so far, then the regions still ahead" equal to the
      whole list. */
  lemma AnalysisStep(data: seq<byte>, searchPos: nat, imageCount: nat, images: seq<ImageEntry>, entry: ImageEntry, all: seq<ImageEntry>)
    requires searchPos < |data| && imageCount <= MAX_IMAGES && Scan(data, searchPos).found
    requires entry.index == imageCount && entry.format == Scan(data, searchPos).format
    requires entry.startPosition == Scan(data, searchPos).position
    requires entry.endPosition == RegionEnd(data, entry.startPosition)
    requires entry.size == entry.endPosition - entry.startPosition
    requires images + RegionsFrom(data, searchPos, imageCount) == all
    ensures (images + [entry]) + RegionsFrom(data, entry.endPosition, imageCount + 1) == all
  {
    var rest := RegionsFrom(data, entry.endPosition, imageCount + 1);
    assert RegionsFrom(data, searchPos, imageCount) == [entry] + rest;
    assert images + [entry] + rest == images + ([entry] + rest);
  }

  /** The analysis stops without adding a region when the search position has
      reached the end, the count is past the cap, or the scan finds nothing. */
  lemma AnalysisStop(data: seq<byte>, searchPos: nat, imageCount: nat)
    requires searchPos <= |data|
    requires !(searchPos < |data| && imageCount <= MAX_IMAGES) || !Scan(data, searchPos).found
    ensures RegionsFrom(data, searchPos, imageCount) == []
  {
  }

  /** The report the analysis produces for data. */
  function Analyze(data: seq<byte>): (report: Analysis)
    ensures report.totalSize == |data|
    ensures report.isMagicImage <==> |report.images| > 1
  {
    var images := RegionsFrom(data, 0, 1);
    Analysis(|data|, images, |images| > 1)
  }

  /** What the report says about data: at most ten regions, numbered from 1,
      each well formed, back to back, the first at the leftmost signature, the
      last running to the end of data unless the cap cut the list short; and
      no region at all exactly when data holds no signature. */
  lemma AnalyzeReport(data: seq<byte>)
    ensures |Analyze(data).images| <= MAX_IMAGES
    ensures Analyze(data).images == [] <==> NoSignatureIn(data, 0, |data|)
    ensures NumberedFrom(Analyze(data).images, 1)
    ensures AllWellFormed(data, Analyze(data).images, 0)
    ensures Contiguous(Analyze(data).images)
    ensures Analyze(data).images != [] ==> Analyze(data).images[0].startPosition == Scan(data, 0).position
    ensures 0 < |Analyze(data).images| < MAX_IMAGES ==> Analyze(data).images[|Analyze(data).images| - 1].endPosition == |data|
  {
    RegionsFromShape(data, 0, 1);
    RegionsFromWellFormed(data, 0, 1);
    RegionsFromContiguous(data, 0, 1);
  }

  /** The analysis loop: scan from searchPos, bound the image by the next start
      after the minimum gap (or the end of data), record it, continue from its end. */
  method AnalyzeMagicImage(data: seq<byte>) returns (analysis: Analysis)
    ensures analysis == Analyze(data)
  {
    ghost var all := RegionsFrom(data, 0, 1);
    var images: seq<ImageEntry> := [];
    var searchPos: nat := 0;
    var imageCount: nat := 1;
    while searchPos < |data| && imageCount <= MAX_IMAGES
      invariant searchPos <= |data|
      invariant images + RegionsFrom(data, searchPos, imageCount) == all
      decreases |data| - searchPos
    {
      var imageInfo := FindImageSignature(data, searchPos);
      if !imageInfo.found {
        AnalysisStop(data, searchPos, imageCount);
        break;
      }
      var nextImage := FindNextImageStart(data, imageInfo.position, MIN_GAP);
      var imageEnd := if nextImage.found then nextImage.position else |data|;
      var entry := ImageEntry(imageCount, imageInfo.format, imageInfo.position, imageEnd, imageEnd - imageInfo.position);
      AnalysisStep(data, searchPos, imageCount, images, entry, all);
      images := images + [entry];
      searchPos := imageEnd;
      imageCount := imageCount + 1;
    }
    if searchPos == |data| || imageCount > MAX_IMAGES {
      AnalysisStop(data, searchPos, imageCount);
    }
    analysis := Analysis(|data|, images, |images| > 1);
  }
}
