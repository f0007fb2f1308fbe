/** The signature registry: the fixed, ordered table of image formats that the
    container recognises by their leading magic bytes, and what it means for an
    entry of that table to occur at an offset of a buffer. */
module Signatures {
  import opened Wrappers

  /** One element of a buffer (a Uint8Array element, a C++ unsigned char). */
  newtype byte = b: int | 0 <= b < 0x100

  /** The format names of the registry, and the name reported when nothing matches. */
  datatype Format = PNG | JPEG | GIF | BMP | Unknown

  /** A registry record: magic-byte prefix, format name and file extension. */
  datatype SignatureEntry = SignatureEntry(prefix: seq<byte>, format: Format, extension: string)

  /** Every entry of the registry has a prefix of two to eight bytes and names a known format. */
  type Signature = e: SignatureEntry | 2 <= |e.prefix| <= LONGEST_PREFIX && e.format != Unknown
    witness SignatureEntry([0x42, 0x4D], BMP, ".bmp")

  const LONGEST_PREFIX: nat := 8

  /** The eight-byte PNG signature (section 5.2 of RFC 2083). */
  const PNG_PREFIX: seq<byte> := [0x89, 0x50, 0x4E, 0x47, 0x0D, 0x0A, 0x1A, 0x0A]
  const JPEG_PREFIX: seq<byte> := [0xFF, 0xD8, 0xFF]
  const GIF_PREFIX: seq<byte> := [0x47, 0x49, 0x46, 0x38]
  const BMP_PREFIX: seq<byte> := [0x42, 0x4D]

  /** The registry, in the order that decides ties: PNG, JPEG, GIF, BMP. */
  const KNOWN_SIGNATURES: seq<Signature> := [
    SignatureEntry(PNG_PREFIX, PNG, ".png"),
    SignatureEntry(JPEG_PREFIX, JPEG, ".jpg"),
    SignatureEntry(GIF_PREFIX, GIF, ".gif"),
    SignatureEntry(BMP_PREFIX, BMP, ".bmp")
  ]

  /** The whole of prefix fits in data from pos on and equals data there. */
  predicate PrefixAt(data: seq<byte>, pos: nat, prefix: seq<byte>)
  {
    pos + |prefix| <= |data| && forall i :: 0 <= i < |prefix| ==> data[pos + i] == prefix[i]
  }

  /** The index of the first registry entry, from index k on, whose prefix occurs at pos. */
  function FirstEntryFrom(data: seq<byte>, pos: nat, k: nat): (r: Option<nat>)
    requires k <= |KNOWN_SIGNATURES|
    ensures r.Some? ==> k <= r.value < |KNOWN_SIGNATURES|
    ensures r.Some? ==> PrefixAt(data, pos, KNOWN_SIGNATURES[r.value].prefix)
    decreases |KNOWN_SIGNATURES| - k
  {
    if k == |KNOWN_SIGNATURES| then None
    else if PrefixAt(data, pos, KNOWN_SIGNATURES[k].prefix) then Some(k)
    else FirstEntryFrom(data, pos, k + 1)
  }

  /** The registry entry, in table order, that begins at pos, if any; the
      table walk written out entry by entry. The walk FirstEntryFrom is what
      the loops are proved against; this chain, equal to it by
      EntryAtIsTableWalk, keeps the proofs about scans cheap, since the
      solver need not unfold the recursion over the table. */
  function EntryAt(data: seq<byte>, pos: nat): (r: Option<nat>)
    ensures r.Some? ==> r.value < |KNOWN_SIGNATURES| && PrefixAt(data, pos, KNOWN_SIGNATURES[r.value].prefix)
  {
    if PrefixAt(data, pos, PNG_PREFIX) then Some(0)
    else if PrefixAt(data, pos, JPEG_PREFIX) then Some(1)
    else if PrefixAt(data, pos, GIF_PREFIX) then Some(2)
    else if PrefixAt(data, pos, BMP_PREFIX) then Some(3)
    else None
  }

  /** The written-out chain is the walk over the registry from its first entry. */
  lemma EntryAtIsTableWalk(data: seq<byte>, pos: nat)
    ensures EntryAt(data, pos) == FirstEntryFrom(data, pos, 0)
  {
    assert FirstEntryFrom(data, pos, 3) == if PrefixAt(data, pos, BMP_PREFIX) then Some(3) else None;
  }

  /** Some image signature begins at pos. */
  predicate SignatureAt(data: seq<byte>, pos: nat)
  {
    EntryAt(data, pos).Some?
  }

  /** No image signature begins at any offset in [lo, hi). */
  predicate NoSignatureIn(data: seq<byte>, lo: nat, hi: nat)
  {
    forall p: nat :: lo <= p < hi ==> !SignatureAt(data, p)
  }

  /** The format whose signature begins at pos, or Unknown. */
  function FormatAt(data: seq<byte>, pos: nat): (f: Format)
  {
    match EntryAt(data, pos)
    case Some(k) => KNOWN_SIGNATURES[k].format
    case None => Unknown
  }

  /** The four prefixes start with four different bytes, and none of them with 0. */
  lemma FirstBytesDistinct(j: nat, k: nat)
    requires j < |KNOWN_SIGNATURES| && k < |KNOWN_SIGNATURES|
    ensures KNOWN_SIGNATURES[k].prefix[0] != 0
    ensures KNOWN_SIGNATURES[j].prefix[0] == KNOWN_SIGNATURES[k].prefix[0] ==> j == k
    ensures KNOWN_SIGNATURES[j].format == KNOWN_SIGNATURES[k].format ==> j == k
  {
    var t := KNOWN_SIGNATURES;
    assert t[0].prefix[0] == 0x89 && t[1].prefix[0] == 0xFF && t[2].prefix[0] == 0x47 && t[3].prefix[0] == 0x42;
  }

  /** At most one registry entry can match at any offset, so table order never
      has to break a tie: entry k is the one found at pos exactly when its
      prefix occurs there. */
  lemma EntryAtIff(data: seq<byte>, pos: nat, k: nat)
    requires k < |KNOWN_SIGNATURES|
    ensures EntryAt(data, pos) == Some(k) <==> PrefixAt(data, pos, KNOWN_SIGNATURES[k].prefix)
  {
    var r := EntryAt(data, pos);
    if PrefixAt(data, pos, KNOWN_SIGNATURES[k].prefix) {
      assert r.Some?;
      FirstBytesDistinct(r.value, k);
      assert data[pos + 0] == KNOWN_SIGNATURES[k].prefix[0];
      assert data[pos + 0] == KNOWN_SIGNATURES[r.value].prefix[0];
    }
  }

  /** A signature begins with one of the four start bytes 0x89, 0xFF, 0x47 or 0x42. */
  lemma SignatureStartByte(data: seq<byte>, pos: nat)
    requires SignatureAt(data, pos)
    ensures pos < |data|
    ensures data[pos] in {0x89, 0xFF, 0x47, 0x42}
  {
    var k := EntryAt(data, pos).value;
    assert data[pos + 0] == KNOWN_SIGNATURES[k].prefix[0];
    assert k == 0 || k == 1 || k == 2 || k == 3;
  }

  /** Shifting a buffer right by |a| bytes shifts its signatures with it. */
  lemma EntryAtShift(a: seq<byte>, b: seq<byte>, q: nat)
    ensures EntryAt(a + b, |a| + q) == EntryAt(b, q)
  {
    forall k | 0 <= k < |KNOWN_SIGNATURES|
      ensures PrefixAt(a + b, |a| + q, KNOWN_SIGNATURES[k].prefix) <==> PrefixAt(b, q, KNOWN_SIGNATURES[k].prefix)
    {
      var p := KNOWN_SIGNATURES[k].prefix;
      if PrefixAt(b, q, p) {
        forall i | 0 <= i < |p| ensures (a + b)[|a| + q + i] == p[i] {
          assert (a + b)[|a| + q + i] == b[q + i];
        }
      }
      if PrefixAt(a + b, |a| + q, p) {
        forall i | 0 <= i < |p| ensures b[q + i] == p[i] {
          assert (a + b)[|a| + q + i] == b[q + i];
        }
      }
    }
    var r := EntryAt(b, q);
    if r.Some? {
      EntryAtIff(a + b, |a| + q, r.value);
    }
  }

  /** Appending bytes after a buffer keeps every signature that already fits in it. */
  lemma EntryAtExtend(a: seq<byte>, b: seq<byte>, pos: nat)
    requires SignatureAt(a, pos)
    ensures EntryAt(a + b, pos) == EntryAt(a, pos)
  {
    var k := EntryAt(a, pos).value;
    var p := KNOWN_SIGNATURES[k].prefix;
    forall i | 0 <= i < |p| ensures (a + b)[pos + i] == p[i] {
      assert (a + b)[pos + i] == a[pos + i];
    }
    EntryAtIff(a + b, pos, k);
  }
}
