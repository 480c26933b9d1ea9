/**
 The header every companion file carries: magic, version, fingerprint
 (src/durability/record_blob.rs), and for the generic files a schema tag after it
 (src/generic/record_blob.rs).
 */
module BlobHeader {
  import opened Bytes
  import opened Fnv

  type Magic = m: seq<byte> | |m| == 8 witness [0, 0, 0, 0, 0, 0, 0, 0]

  datatype Cause =
    | NotABlob
    | VersionMismatch(found: u32)
    | TooShortForTag
    | TagMismatch(foundTag: u64)
    | BodyDoesNotDecode
    | FingerprintMismatch(actual: u64)
    | CannotRead

  // ----- the plain header: twenty bytes -----

  function EncodeImage(magic: Magic, version: u32, fingerprint: u64, body: seq<byte>): (image: seq<byte>)
    ensures |image| == 20 + |body|
  {
    magic + LeU32(version) + LeU64(fingerprint) + body
  }

  function ParseHeader(b: seq<byte>, magic: Magic, version: u32): Result<u64, Cause> {
    if |b| < 20 || b[..8] != magic then Err(NotABlob)
    else if ReadU32(b[8..12]) != version then Err(VersionMismatch(ReadU32(b[8..12])))
    else Ok(ReadU64(b[12..20]))
  }

  lemma HeaderRoundTrip(magic: Magic, version: u32, fingerprint: u64, body: seq<byte>)
    ensures ParseHeader(EncodeImage(magic, version, fingerprint, body), magic, version) == Ok(fingerprint)
    ensures EncodeImage(magic, version, fingerprint, body)[20..] == body
  {
    var b := EncodeImage(magic, version, fingerprint, body);
    assert b[..8] == magic && b[8..12] == LeU32(version) && b[12..20] == LeU64(fingerprint);
    U32RoundTrip(version);
    U64RoundTrip(fingerprint);
  }

  /**
   Which header is which, by its bytes: the magic and this version's number open it, the magic and another
   number are refused by that version, and anything else, or anything short, is no blob.
   */
  lemma HeaderVerdicts(b: seq<byte>, magic: Magic, version: u32, found: u32)
    ensures |b| < 20 || b[..8] != magic ==> ParseHeader(b, magic, version) == Err(NotABlob)
    ensures |b| >= 20 && b[..12] == magic + LeU32(found) ==>
              ParseHeader(b, magic, version)
              == if found == version then Ok(ReadU64(b[12..20])) else Err(VersionMismatch(found))
  {
    if |b| >= 20 && b[..12] == magic + LeU32(found) {
      assert b[..8] == b[..12][..8] == magic;
      assert b[8..12] == b[..12][8..12] == LeU32(found);
      U32RoundTrip(found);
    }
  }

  /** Twenty bytes that parse are those a writer puts there. */
  lemma HeaderIsWritten(b: seq<byte>, magic: Magic, version: u32)
    requires ParseHeader(b, magic, version).Ok?
    ensures b == EncodeImage(magic, version, ParseHeader(b, magic, version).value, b[20..])
  {
    U32RoundTrip(version);
    ReadU32Injective(b[8..12], LeU32(version));
    var fingerprint := ReadU64(b[12..20]);
    U64RoundTrip(fingerprint);
    ReadU64Injective(b[12..20], LeU64(fingerprint));
    CutInFour(b);
  }

  lemma CutInFour(b: seq<byte>)
    requires |b| >= 20
    ensures b == b[..8] + b[8..12] + b[12..20] + b[20..]
  {
  }

  // ----- the tagged header: eight more -----

  function EncodeTaggedImage(magic: Magic, version: u32, fingerprint: u64, tag: seq<byte>, body: seq<byte>)
    : (image: seq<byte>)
    ensures |image| == 28 + |body|
  {
    EncodeImage(magic, version, fingerprint, []) + LeU64(Hash(tag)) + body
  }

  function ParseTaggedHeader(b: seq<byte>, magic: Magic, version: u32, tag: seq<byte>): Result<u64, Cause> {
    match ParseHeader(b, magic, version)
    case Err(cause) => Err(cause)
    case Ok(fingerprint) =>
      if |b| < 28 then Err(TooShortForTag)
      else if ReadU64(b[20..28]) != Hash(tag) then Err(TagMismatch(ReadU64(b[20..28])))
      else Ok(fingerprint)
  }

  lemma TaggedHeaderRoundTrip(magic: Magic, version: u32, fingerprint: u64, tag: seq<byte>, body: seq<byte>)
    ensures ParseTaggedHeader(EncodeTaggedImage(magic, version, fingerprint, tag, body), magic, version, tag)
            == Ok(fingerprint)
    ensures EncodeTaggedImage(magic, version, fingerprint, tag, body)[28..] == body
  {
    var rest := LeU64(Hash(tag)) + body;
    var b := EncodeTaggedImage(magic, version, fingerprint, tag, body);
    assert b == EncodeImage(magic, version, fingerprint, rest);
    HeaderRoundTrip(magic, version, fingerprint, rest);
    assert b[20..28] == LeU64(Hash(tag));
    U64RoundTrip(Hash(tag));
  }

  /** With a good plain header, eight bytes more decide: none there, another tag's hash, or this one's. */
  lemma TagVerdicts(b: seq<byte>, magic: Magic, version: u32, tag: seq<byte>, found: u64)
    requires ParseHeader(b, magic, version).Ok?
    ensures |b| < 28 ==> ParseTaggedHeader(b, magic, version, tag) == Err(TooShortForTag)
    ensures |b| >= 28 && b[20..28] == LeU64(found) ==>
              ParseTaggedHeader(b, magic, version, tag)
              == if found == Hash(tag) then ParseHeader(b, magic, version) else Err(TagMismatch(found))
  {
    U64RoundTrip(found);
  }

  lemma TaggedHeaderIsWritten(b: seq<byte>, magic: Magic, version: u32, tag: seq<byte>)
    requires ParseTaggedHeader(b, magic, version, tag).Ok?
    ensures |b| >= 28
    ensures b == EncodeTaggedImage(magic, version, ParseTaggedHeader(b, magic, version, tag).value, tag, b[28..])
  {
    HeaderIsWritten(b, magic, version);
    U64RoundTrip(Hash(tag));
    ReadU64Injective(b[20..28], LeU64(Hash(tag)));
    TagAndBody(b);
    BodyInTwo(magic, version, ParseHeader(b, magic, version).value, b[20..28], b[28..]);
  }

  lemma TagAndBody(b: seq<byte>)
    requires |b| >= 28
    ensures b[20..] == b[20..28] + b[28..]
  {
  }

  lemma BodyInTwo(magic: Magic, version: u32, fingerprint: u64, x: seq<byte>, y: seq<byte>)
    ensures EncodeImage(magic, version, fingerprint, x + y) == EncodeImage(magic, version, fingerprint, []) + x + y
  {
    var header := magic + LeU32(version) + LeU64(fingerprint);
    assert header + [] == header;
    ThreePieces(header, x, y);
  }

  /** A header is read from its own bytes alone. */
  lemma TaggedHeaderIsLocal(a: seq<byte>, b: seq<byte>, magic: Magic, version: u32, tag: seq<byte>)
    requires |a| >= 28 && |b| >= 28 && a[..28] == b[..28]
    ensures ParseTaggedHeader(a, magic, version, tag) == ParseTaggedHeader(b, magic, version, tag)
  {
    assert a[..8] == a[..28][..8] && b[..8] == b[..28][..8];
    assert a[8..12] == a[..28][8..12] && b[8..12] == b[..28][8..12];
    assert a[12..20] == a[..28][12..20] && b[12..20] == b[..28][12..20];
    assert a[20..28] == a[..28][20..28] && b[20..28] == b[..28][20..28];
  }

  /**
   One changed byte anywhere in a good tagged header: it no longer parses, or it parses to another
   fingerprint.
   */
  lemma OneChangedHeaderByteShows(b: seq<byte>, k: nat, x: byte, magic: Magic, version: u32, tag: seq<byte>)
    requires |b| >= 28 && k < 28 && x != b[k]
    requires ParseTaggedHeader(b, magic, version, tag).Ok?
    ensures
      var changed := ParseTaggedHeader(b[k := x], magic, version, tag);
      changed.Err? || changed.value != ParseTaggedHeader(b, magic, version, tag).value
  {
    var c := b[k := x];
    if k < 8 {
      assert c[..8][k] != b[..8][k];
    } else if k < 12 {
      assert c[8..12][k - 8] != b[8..12][k - 8];
      if ReadU32(c[8..12]) == ReadU32(b[8..12]) { ReadU32Injective(c[8..12], b[8..12]); }
    } else if k < 20 {
      assert c[12..20][k - 12] != b[12..20][k - 12];
      if ReadU64(c[12..20]) == ReadU64(b[12..20]) { ReadU64Injective(c[12..20], b[12..20]); }
    } else {
      assert c[20..28][k - 20] != b[20..28][k - 20];
      if ReadU64(c[20..28]) == ReadU64(b[20..28]) { ReadU64Injective(c[20..28], b[20..28]); }
    }
  }
}
