/** Extraction: the first image of a container (normal mode) and the image
    hidden behind it (magic mode), as the browser front end returns them and
    as the command-line viewer writes them out. */
module Extractor {
  import opened Wrappers
  import opened Signatures
  import opened Scanner
  import opened Analyzer

  /** The byte range [start, end) of one extracted image, with the format and
      extension of the signature it begins with. */
  datatype Bounds = Bounds(start: nat, end: nat, format: Format, extension: string)

  /** An extracted image: its bytes and the MIME type it is tagged with. */
  datatype Image = Image(bytes: seq<byte>, mimeType: string)

  /** Extraction fails only when the container holds no signature at all. */
  datatype ExtractError = NoSignatureFound

  /** What the viewer writes: the output path and the bytes written there. */
  datatype Output = Output(path: string, bytes: seq<byte>)

  /** The MIME type an extracted image is tagged with. */
  function MimeType(format: Format): (mime: string)
    ensures format != Unknown <==> |mime| >= 6 && mime[..6] == "image/"
  {
    match format
    case PNG => "image/png"
    case JPEG => "image/jpeg"
    case GIF => "image/gif"
    case BMP => "image/bmp"
    case Unknown =>
      var fallback := "application/octet-stream";
      assert fallback[0] != "image/"[0];
      fallback
  }

  /** Different formats get different MIME types, and every known format an
      image/ type. */
  lemma MimeTypeInjective(f: Format, g: Format)
    ensures MimeType(f) == MimeType(g) ==> f == g
    ensures f != Unknown ==> MimeType(f)[..6] == "image/"
  {
    if MimeType(f) == MimeType(g) {
      assert MimeType(f)[6] == MimeType(g)[6];
      assert |MimeType(f)| == |MimeType(g)|;
    }
  }

  /** The first image: from the first signature to the next image start after
      the minimum gap, or to the end of data. */
  function FirstImageBounds(data: seq<byte>): (b: Option<Bounds>)
    ensures b.Some? ==> b.value.start < b.value.end <= |data|
  {
    var firstImage := Scan(data, 0);
    if !firstImage.found then None
    else Some(Bounds(firstImage.position, RegionEnd(data, firstImage.position), firstImage.format, firstImage.extension))
  }

  /** The hidden image: from the next image start after the first image's
      minimum gap to the image start after that (or the end of data); an error
      when there is no first image, nothing when there is no second. */
  function HiddenImageBounds(data: seq<byte>): (r: Result<Option<Bounds>, ExtractError>)
    ensures r.Success? && r.value.Some? ==> r.value.value.start < r.value.value.end <= |data|
  {
    var firstImage := Scan(data, 0);
    if !firstImage.found then Failure(NoSignatureFound)
    else
      var secondImage := FindNextImageStart(data, firstImage.position, MIN_GAP);
      if !secondImage.found then Success(None)
      else Success(Some(Bounds(secondImage.position, RegionEnd(data, secondImage.position), secondImage.format, secondImage.extension)))
  }

  /** A region bounded by the container's rules: it begins at a signature of
      its format, no image start lies after its minimum gap, and it ends with
      the data or at the next signature, at least the minimum gap further on. */
  predicate ImageRegion(data: seq<byte>, b: Bounds)
  {
    && b.start < b.end <= |data|
    && SignatureAt(data, b.start)
    && b.format == FormatAt(data, b.start)
    && b.extension == KNOWN_SIGNATURES[EntryAt(data, b.start).value].extension
    && NoSignatureIn(data, b.start + MIN_GAP, b.end)
    && (b.end == |data| || (b.end >= b.start + MIN_GAP && SignatureAt(data, b.end)))
  }

  /** The first image is the region at the leftmost signature, and there is none
      exactly when data holds no signature. */
  lemma FirstImageBoundsLeftmost(data: seq<byte>)
    ensures FirstImageBounds(data).None? <==> NoSignatureIn(data, 0, |data|)
    ensures FirstImageBounds(data).Some? ==>
              ImageRegion(data, FirstImageBounds(data).value) && NoSignatureIn(data, 0, FirstImageBounds(data).value.start)
  {
    ScanIsLeftmost(data, 0);
    var firstImage := Scan(data, 0);
    if firstImage.found {
      RegionEndIsNextStart(data, firstImage.position);
    }
  }

  /** The hidden image is the region at the leftmost signature at or after the
      first image's start plus the minimum gap; it is missing exactly when no
      signature lies from there on. */
  lemma HiddenImageBoundsNextAfterGap(data: seq<byte>)
    ensures HiddenImageBounds(data).Failure? <==> NoSignatureIn(data, 0, |data|)
    ensures HiddenImageBounds(data) == Success(None) <==>
              FirstImageBounds(data).Some? && NoSignatureIn(data, FirstImageBounds(data).value.start + MIN_GAP, |data|)
    ensures HiddenImageBounds(data).Success? && HiddenImageBounds(data).value.Some? ==>
              && FirstImageBounds(data).Some?
              && ImageRegion(data, HiddenImageBounds(data).value.value)
              && HiddenImageBounds(data).value.value.start == FirstImageBounds(data).value.end
  {
    ScanIsLeftmost(data, 0);
    var firstImage := Scan(data, 0);
    if firstImage.found {
      NextImageStartIsLeftmost(data, firstImage.position, MIN_GAP);
      RegionEndIsNextStart(data, firstImage.position);
      var secondImage := FindNextImageStart(data, firstImage.position, MIN_GAP);
      if secondImage.found {
        ScanIsLeftmost(data, firstImage.position + MIN_GAP);
        RegionEndIsNextStart(data, secondImage.position);
      }
    }
  }

  /** The first image is the first region of the analysis, and the hidden
      image its second: normal mode, magic mode and the analysis agree, and a
      hidden image exists exactly when the analysis calls data a magic image. */
  lemma ExtractionMatchesAnalysis(data: seq<byte>)
    ensures FirstImageBounds(data).None? <==> Analyze(data).images == []
    ensures FirstImageBounds(data).Some? ==>
              var e := Analyze(data).images[0];
              FirstImageBounds(data).value.start == e.startPosition
              && FirstImageBounds(data).value.end == e.endPosition
              && FirstImageBounds(data).value.format == e.format
    ensures (HiddenImageBounds(data).Success? && HiddenImageBounds(data).value.Some?) <==> Analyze(data).isMagicImage
    ensures Analyze(data).isMagicImage ==>
              var e := Analyze(data).images[1];
              HiddenImageBounds(data).value.value.start == e.startPosition
              && HiddenImageBounds(data).value.value.end == e.endPosition
              && HiddenImageBounds(data).value.value.format == e.format
  {
    var images := RegionsFrom(data, 0, 1);
    RegionsFromShape(data, 0, 1);
    ScanIsLeftmost(data, 0);
    var firstImage := Scan(data, 0);
    if firstImage.found {
      var end := RegionEnd(data, firstImage.position);
      RegionEndIsNextStart(data, firstImage.position);
      var rest := RegionsFrom(data, end, 2);
      assert images == [images[0]] + rest;
      RegionsFromShape(data, end, 2);
      if end < |data| {
        ScanIsLeftmost(data, end);
        ScanIsLeftmost(data, firstImage.position + MIN_GAP);
        var secondEnd := RegionEnd(data, end);
        assert rest == [ImageEntry(2, Scan(data, end).format, end, secondEnd, secondEnd - end)]
          + RegionsFrom(data, secondEnd, 3);
      } else {
        assert rest == [];
      }
    }
  }

  /** The TypeScript normal mode: the first image's bytes with the MIME type of
      its format, or an error when no signature exists. */
  function ExtractFirstImage(data: seq<byte>): (r: Result<Image, ExtractError>)
  {
    match FirstImageBounds(data)
    case None => Failure(NoSignatureFound)
    case Some(b) => Success(Image(data[b.start..b.end], MimeType(b.format)))
  }

  /** The TypeScript magic mode: the hidden image, null (None) when there is
      none, an error when no signature exists. */
  function ExtractHiddenImage(data: seq<byte>): (r: Result<Option<Image>, ExtractError>)
  {
    match HiddenImageBounds(data)
    case Failure(e) => Failure(e)
    case Success(None) => Success(None)
    case Success(Some(b)) => Success(Some(Image(data[b.start..b.end], MimeType(b.format))))
  }

  /** An extracted image is never empty, begins with a signature of the format
      its MIME type names, and that type is always an image/ type: the
      octet-stream fallback is never reached. */
  lemma ExtractedImagesAreImages(data: seq<byte>)
    ensures ExtractFirstImage(data).Failure? <==> NoSignatureIn(data, 0, |data|)
    ensures ExtractFirstImage(data).Success? ==>
              var img := ExtractFirstImage(data).value;
              |img.bytes| > 0 && SignatureAt(img.bytes, 0)
              && img.mimeType == MimeType(FormatAt(img.bytes, 0)) && img.mimeType[..6] == "image/"
    ensures ExtractHiddenImage(data).Failure? <==> NoSignatureIn(data, 0, |data|)
    ensures ExtractHiddenImage(data).Success? && ExtractHiddenImage(data).value.Some? ==>
              var img := ExtractHiddenImage(data).value.value;
              |img.bytes| > 0 && SignatureAt(img.bytes, 0)
              && img.mimeType == MimeType(FormatAt(img.bytes, 0)) && img.mimeType[..6] == "image/"
  {
    FirstImageBoundsLeftmost(data);
    HiddenImageBoundsNextAfterGap(data);
    var first := FirstImageBounds(data);
    if first.Some? {
      SliceKeepsSignature(data, first.value);
      MimeTypeInjective(first.value.format, first.value.format);
    }
    var hidden := HiddenImageBounds(data);
    if hidden.Success? && hidden.value.Some? {
      SliceKeepsSignature(data, hidden.value.value);
      MimeTypeInjective(hidden.value.value.format, hidden.value.value.format);
    }
  }

  /** Cutting a region out of data keeps the signature at its start. */
  lemma SliceKeepsSignature(data: seq<byte>, b: Bounds)
    requires ImageRegion(data, b)
    ensures SignatureAt(data[b.start..b.end], 0)
    ensures FormatAt(data[b.start..b.end], 0) == b.format
    ensures b.format != Unknown
  {
    var slice := data[b.start..b.end];
    assert data[..b.start] + slice + data[b.end..] == data;
    EntryAtShift(data[..b.start], slice + data[b.end..], 0);
    var k := EntryAt(data, b.start).value;
    var p := KNOWN_SIGNATURES[k].prefix;
    if b.end == |data| {
      assert slice + data[b.end..] == slice;
    } else {
      // The next signature lies at least the minimum gap on, so the prefix fits.
      assert b.start + |p| <= b.end;
      forall i | 0 <= i < |p| ensures slice[i] == p[i] {
        assert slice[i] == data[b.start + i];
      }
      EntryAtIff(slice, 0, k);
    }
  }

  /** The C++ range guard: a range is written only when it is non-empty and
      lies inside data, and then exactly its bytes are written. */
  function ExtractImage(data: seq<byte>, startPos: nat, endPos: nat): (r: Option<seq<byte>>)
    ensures r.Some? <==> startPos < endPos <= |data|
    ensures r.Some? ==> |r.value| == endPos - startPos
    ensures r.Some? ==> forall i :: 0 <= i < |r.value| ==> r.value[i] == data[startPos + i]
  {
    if startPos >= |data| || endPos > |data| || startPos >= endPos then None
    else Some(data[startPos..endPos])
  }

  /** The file a viewer mode writes to: the given path, or by default
      extracted_image_<n> with the image's extension. */
  function OutputPath(outputPath: string, n: string, extension: string): (path: string)
  {
    if outputPath != "" then outputPath else "extracted_image_" + n + extension
  }

  /** The C++ normal mode on the bytes of the input file: finds the first
      image, bounds it by the next image start or the end of the file, and
      writes it out; None stands for the false result. */
  method ViewNormalMode(data: seq<byte>, outputPath: string) returns (written: Option<Output>)
    ensures written.None? <==> ExtractFirstImage(data).Failure?
    ensures written.Some? ==> written.value.bytes == ExtractFirstImage(data).value.bytes
    ensures written.Some? ==> written.value.path == OutputPath(outputPath, "1", FirstImageBounds(data).value.extension)
  {
    var firstImage := FindImageSignature(data, 0);
    if !firstImage.found {
      return None;
    }
    var nextImage := FindNextImageStart(data, firstImage.position, MIN_GAP);
    var firstImageEnd: nat;
    if nextImage.found {
      firstImageEnd := nextImage.position;
    } else {
      firstImageEnd := |data|;
    }
    var bytes := ExtractImage(data, firstImage.position, firstImageEnd);
    written := if bytes.Some? then Some(Output(OutputPath(outputPath, "1", firstImage.extension), bytes.value)) else None;
  }

  /** The C++ magic mode: finds the first image, then the hidden one after the
      minimum gap, bounds it by the image start after that or the end of the
      file, and writes it out; None stands for the false result, which here
      covers both a missing first and a missing hidden image. */
  method ViewMagicMode(data: seq<byte>, outputPath: string) returns (written: Option<Output>)
    ensures written.None? <==> !(ExtractHiddenImage(data).Success? && ExtractHiddenImage(data).value.Some?)
    ensures written.Some? ==> written.value.bytes == ExtractHiddenImage(data).value.value.bytes
    ensures written.Some? ==> written.value.path == OutputPath(outputPath, "2", HiddenImageBounds(data).value.value.extension)
  {
    var firstImage := FindImageSignature(data, 0);
    if !firstImage.found {
      return None;
    }
    var secondImage := FindNextImageStart(data, firstImage.position, MIN_GAP);
    if !secondImage.found {
      return None;
    }
    var thirdImage := FindNextImageStart(data, secondImage.position, MIN_GAP);
    var secondImageEnd := if thirdImage.found then thirdImage.position else |data|;
    var bytes := ExtractImage(data, secondImage.position, secondImageEnd);
    written := if bytes.Some? then Some(Output(OutputPath(outputPath, "2", secondImage.extension), bytes.value)) else None;
  }
}
