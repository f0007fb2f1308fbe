/** The signature scanner: format detection at offset 0, the leftmost
    signature search from a start offset, and the gap-skipping search for the
    start of the next image. */
module Scanner {
  import opened Wrappers
  import opened Signatures

  /** The heuristic distance skipped before looking for the next image. */
  const MIN_GAP: nat := 1000

  /** What a scan reports: where a signature was found, its format and extension. */
  datatype ImageInfo = ImageInfo(position: nat, format: Format, extension: string, found: bool)

  /** The report of a scan that found nothing. */
  const NOT_FOUND: ImageInfo := ImageInfo(0, Unknown, ".bin", false)

  /** The format detected at the start of data: the first registry entry, in
      table order, whose whole prefix fits in data and equals its first bytes. */
  function DetectedFormat(data: seq<byte>): (f: Format)
  {
    FormatAt(data, 0)
  }

  /** The leftmost signature at or after startPos, reported with the format and
      extension of the registry entry that matches there (ScanIsLeftmost). */
  function Scan(data: seq<byte>, startPos: nat): (info: ImageInfo)
    ensures info.found ==> startPos <= info.position < |data|
    ensures !info.found ==> info == NOT_FOUND
    decreases |data| - startPos
  {
    if startPos >= |data| then NOT_FOUND
    else match EntryAt(data, startPos)
      case Some(k) => ImageInfo(startPos, KNOWN_SIGNATURES[k].format, KNOWN_SIGNATURES[k].extension, true)
      case None => Scan(data, startPos + 1)
  }

  /** A found scan result reports a signature, with the format and extension
      of the registry entry that matches there. */
  lemma {:induction false} ScanReportsEntry(data: seq<byte>, startPos: nat)
    ensures Scan(data, startPos).found ==> SignatureAt(data, Scan(data, startPos).position)
    ensures Scan(data, startPos).found ==> Scan(data, startPos).format == FormatAt(data, Scan(data, startPos).position)
    ensures Scan(data, startPos).found ==>
              Scan(data, startPos).extension == KNOWN_SIGNATURES[EntryAt(data, Scan(data, startPos).position).value].extension
    decreases |data| - startPos
  {
    if startPos < |data| && EntryAt(data, startPos).None? {
      ScanReportsEntry(data, startPos + 1);
      assert Scan(data, startPos) == Scan(data, startPos + 1);
    }
  }

  /** The scan passes over no signature: none lies between startPos and the
      one found, and none at all from startPos on when nothing is found. */
  lemma {:induction false} ScanSkipsNoSignature(data: seq<byte>, startPos: nat)
    ensures Scan(data, startPos).found ==> NoSignatureIn(data, startPos, Scan(data, startPos).position)
    ensures !Scan(data, startPos).found ==> NoSignatureIn(data, startPos, |data|)
    decreases |data| - startPos
  {
    if startPos < |data| && EntryAt(data, startPos).None? {
      ScanSkipsNoSignature(data, startPos + 1);
      var info := Scan(data, startPos);
      assert info == Scan(data, startPos + 1);
      var hi := if info.found then info.position else |data|;
      forall p: nat | startPos <= p < hi
        ensures !SignatureAt(data, p)
      {
        if p == startPos {
          assert EntryAt(data, startPos).None?;
        }
      }
    }
  }

  /** A found scan result is the leftmost signature at or after startPos,
      reported with its entry's format and extension; a failed scan means there
      is no signature at or after startPos at all. */
  lemma ScanIsLeftmost(data: seq<byte>, startPos: nat)
    ensures Scan(data, startPos).found ==> SignatureAt(data, Scan(data, startPos).position)
    ensures Scan(data, startPos).found ==> Scan(data, startPos).format == FormatAt(data, Scan(data, startPos).position)
    ensures Scan(data, startPos).found ==>
              Scan(data, startPos).extension == KNOWN_SIGNATURES[EntryAt(data, Scan(data, startPos).position).value].extension
    ensures Scan(data, startPos).found ==> NoSignatureIn(data, startPos, Scan(data, startPos).position)
    ensures !Scan(data, startPos).found ==> NoSignatureIn(data, startPos, |data|)
  {
    ScanReportsEntry(data, startPos);
    ScanSkipsNoSignature(data, startPos);
  }

  /** The scan finds a signature that has none before it, wherever it is. */
  lemma ScanFindsLeftmost(data: seq<byte>, startPos: nat, p: nat)
    requires startPos <= p && SignatureAt(data, p) && NoSignatureIn(data, startPos, p)
    ensures Scan(data, startPos).found && Scan(data, startPos).position == p
  {
    SignatureStartByte(data, p);
    ScanIsLeftmost(data, startPos);
  }

  /** Where no signature begins from startPos on, the scan finds nothing. */
  lemma ScanFindsNothing(data: seq<byte>, startPos: nat)
    requires NoSignatureIn(data, startPos, |data|)
    ensures Scan(data, startPos) == NOT_FOUND
  {
    ScanIsLeftmost(data, startPos);
  }

  /** The next image start: the scan from afterPos + minGap, and not-found
      whenever that offset is already past the data (NextImageStartIsLeftmost). */
  function FindNextImageStart(data: seq<byte>, afterPos: nat, minGap: nat): (info: ImageInfo)
    ensures afterPos + minGap >= |data| ==> info == NOT_FOUND
    ensures info.found ==> afterPos + minGap <= info.position < |data|
    ensures !info.found ==> info == NOT_FOUND
  {
    var searchStart := afterPos + minGap;
    if searchStart >= |data| then NOT_FOUND
    else Scan(data, searchStart)
  }

  /** A next image start found is the leftmost signature at or after
      afterPos + minGap; none found means there is no signature from there on. */
  lemma NextImageStartIsLeftmost(data: seq<byte>, afterPos: nat, minGap: nat)
    ensures var info := FindNextImageStart(data, afterPos, minGap);
      info.found ==> (SignatureAt(data, info.position) && info.format == FormatAt(data, info.position))
    ensures FindNextImageStart(data, afterPos, minGap).found ==>
              NoSignatureIn(data, afterPos + minGap, FindNextImageStart(data, afterPos, minGap).position)
    ensures !FindNextImageStart(data, afterPos, minGap).found ==> NoSignatureIn(data, afterPos + minGap, |data|)
  {
    ScanIsLeftmost(data, afterPos + minGap);
  }

  /** Compares prefix with data from pos on, byte by byte, stopping at the
      first difference. */
  method ComparePrefix(data: seq<byte>, pos: nat, prefix: seq<byte>) returns (matched: bool)
    requires pos + |prefix| <= |data|
    ensures matched <==> PrefixAt(data, pos, prefix)
  {
    matched := true;
    var i := 0;
    while i < |prefix|
      invariant 0 <= i <= |prefix|
      invariant forall j :: 0 <= j < i ==> data[pos + j] == prefix[j]
    {
      if data[pos + i] != prefix[i] {
        matched := false;
        break;
      }
      i := i + 1;
    }
  }

  /** Detects the format of data by trying the registry entries in order on its
      first bytes; an entry longer than data is skipped. */
  method DetectImageFormat(data: seq<byte>) returns (format: Format)
    ensures format == DetectedFormat(data)
  {
    EntryAtIsTableWalk(data, 0);
    var k := 0;
    while k < |KNOWN_SIGNATURES|
      invariant 0 <= k <= |KNOWN_SIGNATURES|
      invariant EntryAt(data, 0) == FirstEntryFrom(data, 0, k)
    {
      var sig := KNOWN_SIGNATURES[k];
      if |data| >= |sig.prefix| {
        var matched := ComparePrefix(data, 0, sig.prefix);
        if matched {
          return sig.format;
        }
      }
      k := k + 1;
    }
    return Unknown;
  }

  /** Tries the registry entries in order at offset pos, skipping an entry
      that would run past the end of data; returns the index of the first
      that matches. */
  method MatchEntryAt(data: seq<byte>, pos: nat) returns (found: Option<nat>)
    ensures found == EntryAt(data, pos)
  {
    EntryAtIsTableWalk(data, pos);
    var k := 0;
    while k < |KNOWN_SIGNATURES|
      invariant 0 <= k <= |KNOWN_SIGNATURES|
      invariant EntryAt(data, pos) == FirstEntryFrom(data, pos, k)
    {
      var sig := KNOWN_SIGNATURES[k];
      if pos + |sig.prefix| <= |data| {
        var matched := ComparePrefix(data, pos, sig.prefix);
        if matched {
          return Some(k);
        }
      }
      k := k + 1;
    }
    return None;
  }

  /** Searches offsets startPos, startPos + 1, ... and, at each, the registry
      entries in order; returns the first match. */
  method FindImageSignature(data: seq<byte>, startPos: nat) returns (info: ImageInfo)
    ensures info == Scan(data, startPos)
  {
    var pos := startPos;
    while pos < |data|
      invariant startPos <= pos
      invariant Scan(data, startPos) == Scan(data, pos)
      decreases |data| - pos
    {
      var entry := MatchEntryAt(data, pos);
      if entry.Some? {
        var sig := KNOWN_SIGNATURES[entry.value];
        return ImageInfo(pos, sig.format, sig.extension, true);
      }
      pos := pos + 1;
    }
    return NOT_FOUND;
  }

  /** A detected format is the format of entry k exactly when entry k's prefix
      is a prefix of data, and Unknown exactly when no entry's is. */
  lemma DetectedFormatIff(data: seq<byte>, k: nat)
    requires k < |KNOWN_SIGNATURES|
    ensures DetectedFormat(data) == KNOWN_SIGNATURES[k].format <==> PrefixAt(data, 0, KNOWN_SIGNATURES[k].prefix)
    ensures DetectedFormat(data) == Unknown <==> !SignatureAt(data, 0)
  {
    EntryAtIff(data, 0, k);
    var r := EntryAt(data, 0);
    if r.Some? {
      FirstBytesDistinct(r.value, k);
    }
  }

  /** Detection reads at most the first eight bytes: cutting data down to them
      never changes the result. */
  lemma DetectedFormatHeaderOnly(data: seq<byte>)
    ensures DetectedFormat(data) == DetectedFormat(data[..if |data| < LONGEST_PREFIX then |data| else LONGEST_PREFIX])
  {
    var header := data[..if |data| < LONGEST_PREFIX then |data| else LONGEST_PREFIX];
    forall k | 0 <= k < |KNOWN_SIGNATURES|
      ensures PrefixAt(data, 0, KNOWN_SIGNATURES[k].prefix) <==> PrefixAt(header, 0, KNOWN_SIGNATURES[k].prefix)
    {
      var p := KNOWN_SIGNATURES[k].prefix;
      if PrefixAt(data, 0, p) {
        forall i | 0 <= i < |p| ensures header[0 + i] == p[i] {
          assert header[i] == data[i];
        }
      }
    }
    var r := EntryAt(data, 0);
    if r.Some? {
      EntryAtIff(header, 0, r.value);
    } else {
      var h := EntryAt(header, 0);
      if h.Some? {
        EntryAtIff(data, 0, h.value);
      }
    }
  }

  /** An entry longer than data is skipped: the two bytes 42 4D are detected
      as BMP, and a single byte, shorter than every prefix, is always Unknown. */
  lemma DetectedFormatShortInputs(b: byte)
    ensures DetectedFormat([0x42, 0x4D]) == BMP
    ensures DetectedFormat([b]) == Unknown
  {
    DetectedFormatIff([0x42, 0x4D], 3);
  }
}
