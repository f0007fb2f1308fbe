# Magic image container — a verified Dafny model

A *magic image* is two image files glued together byte for byte. The bytes of
the first image (the visible one) come first, then the bytes of the second
(the hidden one). There is no header, no length field and no separator. The
browser front end (`MagicImageProcessor.ts`) and the two command-line tools
(`magic_image_creator.cpp`, `magic_image_viewer.cpp`) split such a buffer
again by scanning for the magic bytes that begin four image formats:

| format | prefix | extension | MIME type |
|---|---|---|---|
| PNG | `89 50 4E 47 0D 0A 1A 0A` (section 5.2 of RFC 2083) | `.png` | `image/png` |
| JPEG | `FF D8 FF` | `.jpg` | `image/jpeg` |
| GIF | `47 49 46 38` | `.gif` | `image/gif` |
| BMP | `42 4D` | `.bmp` | `image/bmp` |

A region runs from a signature to the next signature found at least
`MIN_GAP` = 1000 bytes further on, or to the end of the buffer. The gap keeps
the scanner from taking signature-like bytes inside an image's payload for
the start of the next image. The analysis collects at most 10 regions.

The two languages implement the same algorithm, and this project models it
once:

- `signatures.dfy` (module `Signatures`) holds the ordered signature table. It
  also says what it means for an entry to occur at an offset.
- `scanner.dfy` (module `Scanner`) covers format detection at offset 0, the
  leftmost-signature search and the gap-skipping search. The loops of the
  source (`detectImageFormat`, `findImageSignature`, the byte comparison with
  its `match` flag) are methods proved against the functions `DetectedFormat`
  and `Scan`.
- `analyzer.dfy` (module `Analyzer`) holds the region analysis. The
  specification is the recursive function `RegionsFrom`. The source's `while`
  loop is the method `AnalyzeMagicImage`, proved equal to it.
- `extractor.dfy` (module `Extractor`) holds normal mode (first image) and
  magic mode (hidden image), both as the front end returns them (bytes and
  MIME type) and as the viewer writes them (path and bytes), plus the viewer's
  range guard.
- `builder.dfy` (module `Builder`) holds the builder, which writes the first
  image and then the second into one new buffer.
- `container.dfy` (module `Container`) holds the round trips (build, then
  extract or analyse) and the worked scenarios, including the limits of the
  gap heuristic and the cap of ten regions.
- `wrappers.dfy` (module `Wrappers`) holds `Option` and `Result`.

Bytes are `byte` (0..255). Offsets are `nat`. Format names are the datatype
`Format`, whose `Unknown` stands for the source's `'UNKNOWN'`. A thrown
"no valid image format" error is `Failure(NoSignatureFound)`. The front end's
`null` is `None`, and a viewer's `false` is `None` as well.

A small image behind a large one is found. For a 2000-byte PNG followed by a
100-byte BMP with zero payloads, the hidden-image search starts at offset
1000, before the BMP header at 2000, so magic mode returns the BMP
(`Container.PngThenSmallBmpExample`).

The round trips need a hypothesis on the combined buffer A + B, not on A
alone: no signature may begin in A + B at an offset p with 1000 <= p < |A|.
A signature can straddle the seam. If A ends in `FF D8` and B is a JPEG, the
bytes `FF D8 FF` begin at |A| - 2, although no signature lies inside A alone,
and the first region then ends two bytes before A does
(`Container.SeamSignatureExample`).

## Model

| member | source | states |
|---|---|---|
| `Signatures.FirstEntryFrom` | magic-image-frontend/src/utils/MagicImageProcessor.ts:61-78 | the table walk from entry k on returns an index at least k of an entry whose whole prefix fits and matches at pos |
| `Signatures.EntryAt` | magic-image-frontend/src/utils/MagicImageProcessor.ts:61-78 | the entry found at an offset, tried in the order PNG, JPEG, GIF, BMP, is one whose whole prefix fits in data and matches there |
| `Signatures.EntryAtIsTableWalk` | magic-image-frontend/src/utils/MagicImageProcessor.ts:61 | the per-offset match is the walk over the whole table in its order |
| `Signatures.FirstBytesDistinct` | magic_image_viewer.cpp:16-21 | the four prefixes start with four different nonzero bytes, and the four formats are different |
| `Signatures.EntryAtIff` | magic_image_viewer.cpp:16-21 | entry k is the one matched at pos exactly when its prefix occurs there: at most one entry can match at any offset |
| `Signatures.SignatureStartByte` | magic_image_viewer.cpp:16-21 | a signature lies inside data and begins with 0x89, 0xFF, 0x47 or 0x42 |
| `Signatures.EntryAtShift` | magic_image_creator.cpp:95-98 | putting bytes in front of a buffer moves every signature match by their length and changes none |
| `Signatures.EntryAtExtend` | magic_image_creator.cpp:95-98 | appending bytes keeps every signature that already fits |
| `Scanner.Scan` | magic_image_viewer.cpp:33-57 | a found result lies at or after startPos and inside data; a failed one is exactly `{0, UNKNOWN, ".bin", false}` |
| `Scanner.ScanReportsEntry` | magic-image-frontend/src/utils/MagicImageProcessor.ts:70-75 | a found position begins a signature, and the reported format and extension are those of the entry matching there |
| `Scanner.ScanSkipsNoSignature` | magic-image-frontend/src/utils/MagicImageProcessor.ts:60-80 | no offset between startPos and the found position begins a signature; when nothing is found, none from startPos to the end does |
| `Scanner.ScanIsLeftmost` | magic-image-frontend/src/utils/MagicImageProcessor.ts:52-81 | both of the above together: the scan reports the leftmost signature at or after startPos with its entry's format and extension, or there is none |
| `Scanner.ScanFindsLeftmost` | magic_image_viewer.cpp:36-51 | a signature at p with none in [startPos, p) is exactly what the scan from startPos finds |
| `Scanner.ScanFindsNothing` | magic_image_viewer.cpp:34-56 | where no signature lies from startPos on, the scan result is the not-found report |
| `Scanner.FindNextImageStart` | magic-image-frontend/src/utils/MagicImageProcessor.ts:86-97 | not found when afterPos + minGap reaches the end of data; otherwise any start found lies at or after afterPos + minGap and inside data |
| `Scanner.NextImageStartIsLeftmost` | magic_image_viewer.cpp:60-68 | a next start found is the leftmost signature from afterPos + minGap on, with its format; none found means no signature from there on |
| `Scanner.ComparePrefix` | magic-image-frontend/src/utils/MagicImageProcessor.ts:63-69 | the flag-and-break comparison loop answers true exactly when the prefix occurs at pos |
| `Scanner.MatchEntryAt` | magic_image_viewer.cpp:37-54 | the loop over the table at one offset, which skips an entry that would run past the end, returns the entry found there |
| `Scanner.FindImageSignature` | magic_image_viewer.cpp:33-57 | the nested position and table loops return exactly the leftmost-signature report `Scan(data, startPos)` |
| `Scanner.DetectImageFormat` | magic_image_creator.cpp:24-40 | the loop over the table, which skips entries longer than data, returns `DetectedFormat(data)` |
| `Scanner.DetectedFormat` | magic-image-frontend/src/utils/MagicImageProcessor.ts:31-47 | the format of the first table entry whose prefix fits and begins data, else UNKNOWN; `DetectedFormatIff` proves this in both directions |
| `Scanner.DetectedFormatIff` | magic-image-frontend/src/utils/MagicImageProcessor.ts:31-47 | the detected format is entry k's exactly when entry k's whole prefix is a prefix of data, and UNKNOWN exactly when no entry's is |
| `Scanner.DetectedFormatHeaderOnly` | magic_image_creator.cpp:28-33 | detection depends only on the first min(8, size) bytes |
| `Scanner.DetectedFormatShortInputs` | magic_image_creator.cpp:26 | an entry longer than data is skipped: `42 4D` is BMP, and any single byte is UNKNOWN |
| `Analyzer.RegionEnd` | magic-image-frontend/src/utils/MagicImageProcessor.ts:297-298 | a region's end lies after its start and at most at the end of data |
| `Analyzer.RegionsFrom` | magic-image-frontend/src/utils/MagicImageProcessor.ts:286-313 | the regions the loop collects from a search position with a running number; `RegionsFromShape`, `RegionsFromWellFormed` and `RegionsFromContiguous` state their properties and `AnalyzeMagicImage` is proved to compute them |
| `Analyzer.RegionEndIsNextStart` | magic_image_viewer.cpp:247-248 | a region ends with data, or at a signature at least the gap away that the next scan finds at once; no signature lies between its start plus the gap and its end |
| `Analyzer.RegionsFromShape` | magic-image-frontend/src/utils/MagicImageProcessor.ts:286-290 | the loop stops at the end of data, past the cap or at the first failed scan; it yields no region exactly then; the count stays within the cap of 10; entries are numbered consecutively; the first starts at the scan result |
| `Analyzer.RegionsFromWellFormed` | magic-image-frontend/src/utils/MagicImageProcessor.ts:297-309 | every region starts at or after the search position at a signature of its format, has start < end <= size and size = end - start, and every region not at the end of data is at least 1000 bytes long and ends at a signature |
| `Analyzer.RegionsFromContiguous` | magic-image-frontend/src/utils/MagicImageProcessor.ts:311-312 | each region ends where the next begins (searchPos = imageEnd), and unless the cap cut the loop short the last ends with the data |
| `Analyzer.AnalysisStep` | magic_image_viewer.cpp:234-256 | one pass of the loop keeps "collected regions followed by the regions still ahead" equal to all regions |
| `Analyzer.Analyze` | magic-image-frontend/src/utils/MagicImageProcessor.ts:315-319 | totalSize is the buffer length and isMagicImage holds exactly when more than one region was found |
| `Analyzer.AnalyzeReport` | magic-image-frontend/src/utils/MagicImageProcessor.ts:282-319 | at most 10 regions, numbered 1, 2, ..., each well formed, back to back, the first at the leftmost signature; none exactly when data holds no signature |
| `Analyzer.AnalyzeMagicImage` | magic_image_viewer.cpp:230-264 | the `while` loop with its break and cap produces exactly the report `Analyze(data)` |
| `Extractor.MimeTypeInjective` | magic-image-frontend/src/utils/MagicImageProcessor.ts:186-200 | different formats get different MIME types, and every known format an `image/` type |
| `Extractor.MimeType` | magic-image-frontend/src/utils/MagicImageProcessor.ts:186-200 | a format's MIME type begins with `image/` exactly when the format is known (UNKNOWN gets `application/octet-stream`); `MimeTypeInjective` proves distinct formats get distinct types |
| `Extractor.FirstImageBounds` | magic_image_viewer.cpp:141-150 | the first image's range [first, next-or-size) is non-empty and inside data |
| `Extractor.HiddenImageBounds` | magic_image_viewer.cpp:186-203 | the hidden image's range [second, third-or-size) is non-empty and inside data |
| `Extractor.FirstImageBoundsLeftmost` | magic-image-frontend/src/utils/MagicImageProcessor.ts:221-244 | there is no first image exactly when data holds no signature; otherwise it starts at the leftmost signature and ends with the data or at the next signature at least 1000 bytes on, with none in between after the gap |
| `Extractor.HiddenImageBoundsNextAfterGap` | magic-image-frontend/src/utils/MagicImageProcessor.ts:150-183 | an error exactly when there is no signature; null exactly when none lies from the first start plus 1000 on; otherwise a well-formed region that starts where the first image ends |
| `Extractor.ExtractFirstImage` | magic-image-frontend/src/utils/MagicImageProcessor.ts:214-270 | normal mode: the bytes of the first region with its format's MIME type, or an error; `ExtractedImagesAreImages`, `ExtractionMatchesAnalysis` and `FirstImageRoundTrip` give its meaning |
| `Extractor.ExtractHiddenImage` | magic-image-frontend/src/utils/MagicImageProcessor.ts:143-209 | magic mode: the bytes of the second region with its MIME type, none, or an error; `ExtractedImagesAreImages`, `ExtractionMatchesAnalysis` and `HiddenImageRoundTrip` give its meaning |
| `Extractor.ExtractionMatchesAnalysis` | magic_image_viewer.cpp:130-212 | normal mode extracts the first analysis region and magic mode the second; a hidden image exists exactly when the analysis reports a magic image |
| `Extractor.ExtractedImagesAreImages` | magic-image-frontend/src/utils/MagicImageProcessor.ts:244-263 | both modes fail exactly when no signature exists; an extracted image is non-empty and begins with a signature of the format its MIME type names, an `image/` type, so the octet-stream fallback is never used |
| `Extractor.ExtractImage` | magic_image_viewer.cpp:100-112 | the range guard passes exactly when start < end <= size, and then exactly the end - start bytes from start on are written |
| `Extractor.OutputPath` | magic_image_viewer.cpp:155-160 | the given output path, or by default `extracted_image_` plus the image number and the extension; `ViewNormalMode` and `ViewMagicMode` state which number each mode uses |
| `Extractor.ViewNormalMode` | magic_image_viewer.cpp:124-166 | fails exactly when the front end's normal mode fails; otherwise writes the same bytes to the given path or to `extracted_image_1` plus the extension |
| `Extractor.ViewMagicMode` | magic_image_viewer.cpp:169-219 | fails when there is no first or no hidden image (the front end distinguishes these); otherwise writes the front end's hidden image bytes to the given path or to `extracted_image_2` plus the extension |
| `Builder.Set` | magic-image-frontend/src/utils/MagicImageProcessor.ts:122-123 | copying into the buffer at an offset sets exactly that range to the source bytes and leaves the rest unchanged |
| `Builder.CreateMagicImage` | magic-image-frontend/src/utils/MagicImageProcessor.ts:107-123 | a new buffer of size len1 + len2, image1 at offsets 0..len1-1 and image2 after it; a warning exactly when either format is UNKNOWN, and the buffer is built regardless |
| `Builder.CombinedKeepsFirstFormat` | magic_image_creator.cpp:94-98 | appending the hidden image never changes the format detected for a known first image |
| `Container.FirstRegionOfConcatenation` | magic_image_creator.cpp:95-98 | for A + B with A >= 1000 bytes, signatures at the start of both, and no signature beginning in A + B at an offset p with 1000 <= p < len(A), the first region is all of A and the next begins at len(A) |
| `Container.SeamSignatureExample` | magic-image-frontend/src/utils/MagicImageProcessor.ts:86-97 | a 1010-byte A ending in FF D8 with no signature inside A from 1000 on, followed by a JPEG header, has its first region end at 1008: a signature across the seam cuts A short, so the hypothesis must be on A + B |
| `Container.FirstImageRoundTrip` | magic-image-frontend/src/utils/MagicImageProcessor.ts:221-263 | when A and B begin with signatures, len(A) >= 1000, and no signature begins in A + B at an offset 1000 <= p < len(A), normal mode on build(A, B) returns A with A's MIME type |
| `Container.LastRegionOfConcatenation` | magic-image-frontend/src/utils/MagicImageProcessor.ts:176-177 | when B has no signature from 1000 on, the region at len(A) runs to the end of A + B |
| `Container.HiddenImageRoundTrip` | magic-image-frontend/src/utils/MagicImageProcessor.ts:150-203 | when A and B begin with signatures, len(A) >= 1000, and no signature begins in A + B at an offset 1000 <= p < len(A), and no signature begins in B from 1000 on, magic mode on build(A, B) returns B with B's MIME type |
| `Container.AnalyzeRoundTrip` | magic-image-frontend/src/utils/MagicImageProcessor.ts:282-319 | under the hypotheses of the magic-mode round trip (signatures at both starts, len(A) >= 1000, none in A + B at 1000 <= p < len(A), none in B from 1000 on) the analysis of build(A, B) is exactly two regions, A then B, and a magic image |
| `Container.PngThenJpegExample` | magic-image-frontend/src/utils/MagicImageProcessor.ts:282-319 | PNG header + 1200 zeros + JPEG header + 50 zeros analyses to PNG [0, 1208) and JPEG [1208, 1261), and the two modes return those two parts |
| `Container.ZeroBufferExample` | magic_image_viewer.cpp:258-259 | ten zero bytes give no region, and both modes fail |
| `Container.SmallContainerIsOneRegion` | magic_image_viewer.cpp:60-65 | a buffer of at most 1000 bytes starting with a signature is one region; magic mode finds no hidden image in it |
| `Container.SmallFirstImageMerged` | magic-image-frontend/src/utils/MagicImageProcessor.ts:86-96 | when A is shorter than the gap, the first image extracted from A + B runs past A, and no hidden image can begin where B does |
| `Container.PngThenSmallBmpExample` | magic-image-frontend/src/utils/MagicImageProcessor.ts:160-183 | a 100-byte BMP behind a 2000-byte PNG with zero payloads is found and returned by magic mode |
| `Container.BmpUnitStarts` | magic_image_creator.cpp:94-98 | every unit of a concatenation of minimal BMP images of 1000 bytes begins with a BMP signature |
| `Container.BlockStep` | magic-image-frontend/src/utils/MagicImageProcessor.ts:286-312 | a block of 1000 bytes that begins with a signature and is followed by another such block (or the end of data) is exactly one region, and the loop goes on at the next block |
| `Container.BlockRegions` | magic-image-frontend/src/utils/MagicImageProcessor.ts:286-312 | back-to-back blocks of 1000 bytes that each begin with a signature yield one region per block, until the region number passes 10 |
| `Container.BlockContainerRegionCount` | magic-image-frontend/src/utils/MagicImageProcessor.ts:282-319 | such a container of n blocks is reported as min(n, 10) regions, and as a magic image exactly when n > 1 |
| `Container.CapExample` | magic-image-frontend/src/utils/MagicImageProcessor.ts:286 | twelve concatenated 1000-byte BMP images give exactly 10 regions; the last two are not reported |

## Left out

- File and stream I/O is not modelled: `readMagicImage`, `readImageFile`, `File.arrayBuffer()`, the `ofstream` writes and the `Blob` objects. The model works on the bytes these produce and consume.
- The viewer's `extractImage` can fail to open or write its output file. That is I/O and is not modelled: a write that passes the range guard is taken to succeed.
- `readMagicImage` and `readImageFile` reject an empty file. This is left out with the rest of the I/O. For the viewer it changes nothing: an empty buffer holds no signature, so both modes fail anyway.
- Console and error-stream logging is left out, and so is `printUsage`.
- The `main` argument parsing of both tools, the React components, the style constants and the download helpers are left out; they contain no container logic.
- The MIME type of the front end's built `Blob` (always `image1.type`) is browser metadata and is not modelled.
- `size_t` wrap-around of `afterPos + minGap` (magic_image_viewer.cpp:62) is not modelled: offsets are unbounded naturals.
- The front end's `extractHiddenImage` and `extractFirstImage` return a Promise and wrap errors in a new message. The model keeps only which error it is.
- The viewer's `analyzeMagicImage` prints its result instead of returning a report. `AnalyzeMagicImage` models both languages' loop with the front end's report record.
