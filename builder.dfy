/** The builder: a magic image is the bytes of the first image immediately
    followed by the bytes of the second, with no header, length field or
    separator. */
module Builder {
  import opened Signatures
  import opened Scanner

  /** Copies src into dst from offset at on, leaving every other element of
      dst as it was (Uint8Array.prototype.set). */
  method Set(dst: array<byte>, src: seq<byte>, at: nat)
    requires at + |src| <= dst.Length
    modifies dst
    ensures forall j :: 0 <= j < dst.Length ==>
              dst[j] == if at <= j < at + |src| then src[j - at] else old(dst[j])
  {
    var i := 0;
    while i < |src|
      invariant 0 <= i <= |src|
      invariant forall j :: 0 <= j < dst.Length ==>
                  dst[j] == if at <= j < at + i then src[j - at] else old(dst[j])
    {
      dst[at + i] := src[i];
      i := i + 1;
    }
  }

  /** Detects both formats, warns (without stopping) when either is unknown,
      and lays image1 then image2 out in one new buffer of their total size:
      image1 fills offsets 0 to |image1| - 1, image2 the rest. */
  method CreateMagicImage(image1: seq<byte>, image2: seq<byte>) returns (combined: array<byte>, warning: bool)
    ensures fresh(combined)
    ensures combined[..] == image1 + image2
    ensures combined.Length == |image1| + |image2|
    ensures combined[..|image1|] == image1 && combined[|image1|..] == image2
    ensures warning <==> DetectedFormat(image1) == Unknown || DetectedFormat(image2) == Unknown
  {
    var format1 := DetectImageFormat(image1);
    var format2 := DetectImageFormat(image2);
    warning := format1 == Unknown || format2 == Unknown;
    combined := new byte[|image1| + |image2|];
    Set(combined, image1, 0);
    Set(combined, image2, |image1|);
    assert combined[..] == image1 + image2 by {
      forall j | 0 <= j < combined.Length
        ensures combined[j] == (image1 + image2)[j]
      {
      }
    }
  }

  /** The first image's format is still detected at the start of the magic
      image whenever it is known: appending the hidden image never changes it. */
  lemma CombinedKeepsFirstFormat(image1: seq<byte>, image2: seq<byte>)
    requires DetectedFormat(image1) != Unknown
    ensures DetectedFormat(image1 + image2) == DetectedFormat(image1)
  {
    EntryAtExtend(image1, image2, 0);
  }
}
