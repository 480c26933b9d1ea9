/**
 The companion record blob (src/durability/record_blob.rs): a plain header, then the records and
 edges in the crate's fixed-width encoding (src/codec.rs). The header's fingerprint covers what
 never changes, the ids, breeds and edges in order, and leaves out the ages.
 */
module RecordBlobs {
  import opened Bytes
  import opened Framing
  import opened Fnv
  import opened Records
  import opened BlobHeader
  import opened EdgeBlob

  const MAGIC: Magic := [68, 79, 71, 66, 76, 79, 66, 0] // "DOGBLOB\0"
  const BLOB_VERSION: u32 := 2

  datatype Contents = Contents(records: seq<DogRecord>, edges: seq<Edge>)

  /** Every length fits the encoding's 64-bit counts. */
  predicate Fits(c: Contents) {
    && |c.records| < 0x1_0000_0000_0000_0000
    && |c.edges| < 0x1_0000_0000_0000_0000
    && forall i | 0 <= i < |c.records| :: FitsRecord(c.records[i])
  }

  predicate FitsRecord(r: DogRecord) {
    |r.breed| < 0x1_0000_0000_0000_0000
  }

  type RecordBlob = c: Contents | Fits(c) witness Contents([], [])

  // ----- the body -----

  function EncodeRecord(r: DogRecord): (b: seq<byte>)
    ensures |b| == 36 + |r.breed|
  {
    EncodeUuid(r.id) + ToLe(|r.breed|, 8) + r.breed + LeU32(r.age)
  }

  function Body(c: RecordBlob): seq<byte> {
    LeU64(|c.records|) + Flatten(EncodeRecord, c.records) + EdgeBlob.Body(c.edges)
  }

  /** One record off the front, and the bytes after it. */
  function DecodeRecord(b: seq<byte>): Option<(DogRecord, seq<byte>)> {
    if |b| < 32 || ReadU64(b[..8]) != 16 then None
    else
      var length := ReadU64(b[24..32]);
      if |b| < 36 + length then None
      else
        Some((DogRecord(Uuid(b[8..24]), b[32..32 + length], ReadU32(b[32 + length..36 + length])), b[36 + length..]))
  }

  function DecodeRecords(b: seq<byte>, count: nat): Option<(seq<DogRecord>, seq<byte>)>
    decreases count
  {
    if count == 0 then Some(([], b))
    else
      match DecodeRecord(b)
      case None => None
      case Some((r, rest)) =>
        match DecodeRecords(rest, count - 1)
        case None => None
        case Some((more, after)) => Some(([r] + more, after))
  }

  function DecodeBody(b: seq<byte>): Option<Contents> {
    if |b| < 8 then None
    else
      match DecodeRecords(b[8..], ReadU64(b[..8]))
      case None => None
      case Some((records, rest)) =>
        match EdgeBlob.DecodeBody(rest)
        case None => None
        case Some(edges) => Some(Contents(records, edges))
  }

  lemma RecordRoundTrip(r: DogRecord, rest: seq<byte>)
    requires FitsRecord(r)
    ensures DecodeRecord(EncodeRecord(r) + rest) == Some((r, rest))
  {
    var b, n := EncodeRecord(r) + rest, |r.breed|;
    assert b[..8] == LeU64(16);
    assert b[8..24] == r.id.octets;
    assert b[24..32] == LeU64(n);
    assert b[32..32 + n] == r.breed;
    assert b[32 + n..36 + n] == LeU32(r.age);
    assert b[36 + n..] == rest;
    U64RoundTrip(16);
    U64RoundTrip(n);
    U32RoundTrip(r.age);
  }

  lemma DecodeOneMore(b: seq<byte>, count: nat, r: DogRecord, rest: seq<byte>, more: seq<DogRecord>, after: seq<byte>)
    requires count > 0 && DecodeRecord(b) == Some((r, rest)) && DecodeRecords(rest, count - 1) == Some((more, after))
    ensures DecodeRecords(b, count) == Some(([r] + more, after))
  {
  }

  lemma {:induction false} RecordsRoundTrip(records: seq<DogRecord>, rest: seq<byte>)
    requires forall i | 0 <= i < |records| :: FitsRecord(records[i])
    ensures DecodeRecords(Flatten(EncodeRecord, records) + rest, |records|) == Some((records, rest))
  {
    if records == [] {
      assert Flatten(EncodeRecord, records) + rest == rest;
    } else {
      var first, tail := EncodeRecord(records[0]), Flatten(EncodeRecord, records[1..]);
      ThreePieces(first, tail, rest);
      RecordRoundTrip(records[0], tail + rest);
      RecordsRoundTrip(records[1..], rest);
      DecodeOneMore(first + (tail + rest), |records|, records[0], tail + rest, records[1..], rest);
      assert [records[0]] + records[1..] == records;
    }
  }

  lemma BodySplits(c: RecordBlob)
    ensures Body(c)[..8] == LeU64(|c.records|)
    ensures Body(c)[8..] == Flatten(EncodeRecord, c.records) + EdgeBlob.Body(c.edges)
    ensures |Body(c)| >= 8
  {
    ThreePieces(LeU64(|c.records|), Flatten(EncodeRecord, c.records), EdgeBlob.Body(c.edges));
  }

  lemma BodyRoundTrip(c: RecordBlob)
    ensures DecodeBody(Body(c)) == Some(c)
  {
    BodySplits(c);
    U64RoundTrip(|c.records|);
    RecordsRoundTrip(c.records, EdgeBlob.Body(c.edges));
    EdgeBlob.BodyRoundTrip(c.edges);
  }

  lemma DecodedRecord(b: seq<byte>, r: DogRecord, rest: seq<byte>)
    requires DecodeRecord(b) == Some((r, rest))
    ensures FitsRecord(r) && b == EncodeRecord(r) + rest
  {
    var n := |r.breed|;
    U64RoundTrip(16);
    ReadU64Injective(b[..8], LeU64(16));
    U64RoundTrip(n);
    ReadU64Injective(b[24..32], LeU64(n));
    U32RoundTrip(r.age);
    ReadU32Injective(b[32 + n..36 + n], LeU32(r.age));
    CutInSix(b, n);
  }

  lemma CutInSix(b: seq<byte>, n: nat)
    requires |b| >= 36 + n
    ensures b == b[..8] + b[8..24] + b[24..32] + b[32..32 + n] + b[32 + n..36 + n] + b[36 + n..]
  {
  }

  lemma {:induction false} DecodedRecords(b: seq<byte>, count: nat, records: seq<DogRecord>, after: seq<byte>)
    requires DecodeRecords(b, count) == Some((records, after))
    ensures |records| == count && b == Flatten(EncodeRecord, records) + after
    decreases count
  {
    if count > 0 {
      var (r, rest) := DecodeRecord(b).value;
      var more := DecodeRecords(rest, count - 1).value.0;
      DecodedRecord(b, r, rest);
      DecodedRecords(rest, count - 1, more, after);
      assert records == [r] + more;
      RecordsCons(r, more, after);
    } else {
      assert [] + after == after;
    }
  }

  lemma RecordsCons(r: DogRecord, more: seq<DogRecord>, after: seq<byte>)
    ensures Flatten(EncodeRecord, [r] + more) + after == EncodeRecord(r) + (Flatten(EncodeRecord, more) + after)
  {
    assert ([r] + more)[1..] == more;
    ThreePieces(EncodeRecord(r), Flatten(EncodeRecord, more), after);
  }

  /** Only its own encoding decodes to a blob. */
  lemma DecodedBody(b: seq<byte>, c: Contents)
    requires DecodeBody(b) == Some(c)
    ensures Fits(c) && b == Body(c)
  {
    DecodedFits(b);
    var (records, rest) := DecodeRecords(b[8..], ReadU64(b[..8])).value;
    DecodedRecords(b[8..], ReadU64(b[..8]), records, rest);
    EdgeBlob.DecodedBody(rest, c.edges);
    U64RoundTrip(|records|);
    ReadU64Injective(b[..8], LeU64(|records|));
    BodyInTwo(b, Flatten(EncodeRecord, records), rest);
  }

  lemma BodyInTwo(b: seq<byte>, records: seq<byte>, rest: seq<byte>)
    requires |b| >= 8 && b[8..] == records + rest
    ensures b == b[..8] + records + rest
  {
    assert b == b[..8] + b[8..];
  }

  lemma {:induction false} DecodedRecordsFit(b: seq<byte>, count: nat)
    ensures DecodeRecords(b, count).Some? ==>
              var records := DecodeRecords(b, count).value.0;
              |records| == count && forall i | 0 <= i < |records| :: FitsRecord(records[i])
    decreases count
  {
    if count > 0 && DecodeRecord(b).Some? {
      DecodedRecordsFit(DecodeRecord(b).value.1, count - 1);
    }
  }

  lemma {:induction false} DecodedEdgesCount(b: seq<byte>, count: nat)
    ensures DecodeEdges(b, count).Some? ==> |DecodeEdges(b, count).value| == count
    decreases count
  {
    if count > 0 && |b| >= 48 {
      DecodedEdgesCount(b[48..], count - 1);
    }
  }

  /** Whatever decodes is a blob: its counts came from 64-bit fields. */
  lemma DecodedFits(b: seq<byte>)
    ensures DecodeBody(b).Some? ==> Fits(DecodeBody(b).value)
  {
    if DecodeBody(b).Some? {
      DecodedRecordsFit(b[8..], ReadU64(b[..8]));
      var rest := DecodeRecords(b[8..], ReadU64(b[..8])).value.1;
      DecodedEdgesCount(rest[8..], ReadU64(rest[..8]));
    }
  }

  // ----- the fingerprint -----

  function IdAndBreed(r: DogRecord): seq<byte> {
    r.id.octets + ToLe(|r.breed|, 8) + r.breed
  }

  function BothIds(e: Edge): seq<byte> {
    e.0.octets + e.1.octets
  }

  /** The bytes fed to the hash. */
  function Hashed(c: RecordBlob): seq<byte> {
    LeU64(|c.records|) + Flatten(IdAndBreed, c.records) + LeU64(|c.edges|) + Flatten(BothIds, c.edges)
  }

  function Fingerprint(c: RecordBlob): u64 { Hash(Hashed(c)) }

  /** The same records and edges in the same order, ages aside. */
  predicate SameButAges(a: Contents, b: Contents) {
    && |a.records| == |b.records|
    && a.edges == b.edges
    && forall i | 0 <= i < |a.records| ::
         a.records[i].id == b.records[i].id && a.records[i].breed == b.records[i].breed
  }

  lemma {:induction false} SameFramesFlattenAlike(a: seq<DogRecord>, b: seq<DogRecord>)
    requires |a| == |b|
    requires forall i | 0 <= i < |a| :: a[i].id == b[i].id && a[i].breed == b[i].breed
    ensures Flatten(IdAndBreed, a) == Flatten(IdAndBreed, b)
  {
    if a != [] {
      SameFramesFlattenAlike(a[1..], b[1..]);
    }
  }

  /** A record's frame says where it ends: two frames with something after them agree piece by piece. */
  lemma FrameIsSelfDelimiting(r: DogRecord, s: DogRecord, x: seq<byte>, y: seq<byte>)
    requires FitsRecord(r) && FitsRecord(s)
    requires IdAndBreed(r) + x == IdAndBreed(s) + y
    ensures r.id == s.id && r.breed == s.breed && x == y
  {
    var b, c := IdAndBreed(r) + x, IdAndBreed(s) + y;
    var n := |r.breed|;
    assert b[..16] == r.id.octets && c[..16] == s.id.octets;
    assert b[16..24] == LeU64(n) && c[16..24] == LeU64(|s.breed|);
    U64RoundTrip(n);
    U64RoundTrip(|s.breed|);
    assert n == |s.breed|;
    assert b[24..24 + n] == r.breed && c[24..24 + n] == s.breed;
    assert b[24 + n..] == x && c[24 + n..] == y;
  }

  lemma {:induction false} FramesAreSelfDelimiting(a: seq<DogRecord>, b: seq<DogRecord>, x: seq<byte>, y: seq<byte>)
    requires |a| == |b|
    requires forall i | 0 <= i < |a| :: FitsRecord(a[i]) && FitsRecord(b[i])
    requires Flatten(IdAndBreed, a) + x == Flatten(IdAndBreed, b) + y
    ensures forall i | 0 <= i < |a| :: a[i].id == b[i].id && a[i].breed == b[i].breed
    ensures x == y
  {
    if a == [] {
      assert [] + x == x && [] + y == y;
    } else {
      var r, s := Flatten(IdAndBreed, a[1..]), Flatten(IdAndBreed, b[1..]);
      assert Flatten(IdAndBreed, a) + x == IdAndBreed(a[0]) + (r + x);
      assert Flatten(IdAndBreed, b) + y == IdAndBreed(b[0]) + (s + y);
      FrameIsSelfDelimiting(a[0], b[0], r + x, s + y);
      FramesAreSelfDelimiting(a[1..], b[1..], x, y);
      forall i | 0 <= i < |a|
        ensures a[i].id == b[i].id && a[i].breed == b[i].breed
      {
        assert i > 0 ==> a[1..][i - 1] == a[i] && b[1..][i - 1] == b[i];
      }
    }
  }

  lemma {:induction false} EdgeFramesAreSelfDelimiting(a: seq<Edge>, b: seq<Edge>)
    requires |a| == |b| && Flatten(BothIds, a) == Flatten(BothIds, b)
    ensures a == b
  {
    if a != [] {
      var x, y := Flatten(BothIds, a), Flatten(BothIds, b);
      assert x[..16] == a[0].0.octets && y[..16] == b[0].0.octets;
      assert x[16..32] == a[0].1.octets && y[16..32] == b[0].1.octets;
      assert x[32..] == Flatten(BothIds, a[1..]) && y[32..] == Flatten(BothIds, b[1..]);
      EdgeFramesAreSelfDelimiting(a[1..], b[1..]);
      assert a == [a[0]] + a[1..] && b == [b[0]] + b[1..];
    }
  }

  /**
   The hash is fed the same bytes for exactly the blobs that differ at most in their ages: no two
   lists run together, whatever their breeds, and no age is seen.
   */
  lemma HashedTellsApartAllButAges(a: RecordBlob, b: RecordBlob)
    ensures Hashed(a) == Hashed(b) <==> SameButAges(a, b)
  {
    if SameButAges(a, b) {
      SameFramesFlattenAlike(a.records, b.records);
    }
    if Hashed(a) == Hashed(b) {
      HashedSplits(a);
      HashedSplits(b);
      U64RoundTrip(|a.records|);
      U64RoundTrip(|b.records|);
      FramesAreSelfDelimiting(a.records, b.records, HashedEdges(a.edges), HashedEdges(b.edges));
      HashedEdgesTellApart(a.edges, b.edges);
    }
  }

  function HashedEdges(edges: EdgeList): seq<byte> {
    LeU64(|edges|) + Flatten(BothIds, edges)
  }

  lemma HashedSplits(c: RecordBlob)
    ensures Hashed(c)[..8] == LeU64(|c.records|)
    ensures Hashed(c)[8..] == Flatten(IdAndBreed, c.records) + HashedEdges(c.edges)
  {
    var count, ids := LeU64(|c.records|), Flatten(IdAndBreed, c.records);
    ThreePieces(count + ids, LeU64(|c.edges|), Flatten(BothIds, c.edges));
    ThreePieces(count, ids, HashedEdges(c.edges));
  }

  lemma HashedEdgesTellApart(a: EdgeList, b: EdgeList)
    requires HashedEdges(a) == HashedEdges(b)
    ensures a == b
  {
    var x, y := HashedEdges(a), HashedEdges(b);
    assert x[..8] == LeU64(|a|) && y[..8] == LeU64(|b|);
    U64RoundTrip(|a|);
    U64RoundTrip(|b|);
    assert x[8..] == Flatten(BothIds, a) && y[8..] == Flatten(BothIds, b);
    EdgeFramesAreSelfDelimiting(a, b);
  }

  // ----- the file -----

  function Encode(c: RecordBlob): seq<byte> {
    EncodeImage(MAGIC, BLOB_VERSION, Fingerprint(c), Body(c))
  }

  /** The body is decoded first and the decoded blob's fingerprint compared with the header's. */
  function Read(file: Option<seq<byte>>): Result<RecordBlob, Cause> {
    if file == None then Err(CannotRead)
    else
      match ParseHeader(file.value, MAGIC, BLOB_VERSION)
      case Err(cause) => Err(cause)
      case Ok(claimed) =>
        match DecodeBody(file.value[20..])
        case None => Err(BodyDoesNotDecode)
        case Some(c) =>
          DecodedFits(file.value[20..]);
          if Fingerprint(c) != claimed then Err(FingerprintMismatch(Fingerprint(c)))
          else Ok(c)
  }

  predicate IsCurrentAt(file: Option<seq<byte>>, c: RecordBlob) {
    file.Some? && |file.value| >= 20 && ParseHeader(file.value[..20], MAGIC, BLOB_VERSION) == Ok(Fingerprint(c))
  }

  lemma ReadBack(c: RecordBlob)
    ensures Read(Some(Encode(c))) == Ok(c)
  {
    HeaderRoundTrip(MAGIC, BLOB_VERSION, Fingerprint(c), Body(c));
    BodyRoundTrip(c);
  }

  /** A file reads as a blob exactly when it is, byte for byte, the file written for that blob. */
  lemma ReadsExactly(b: seq<byte>, c: RecordBlob)
    ensures Read(Some(b)) == Ok(c) <==> b == Encode(c)
  {
    ReadBack(c);
    if Read(Some(b)) == Ok(c) {
      HeaderIsWritten(b, MAGIC, BLOB_VERSION);
      DecodedBody(b[20..], c);
      assert ParseHeader(b, MAGIC, BLOB_VERSION) == Ok(Fingerprint(c));
    }
  }

  /**
   Behind a good header: a body that is no blob's does not decode; one that is, is held against the
   fingerprint the header claims. A missing file cannot be read.
   */
  lemma ReadVerdicts(claimed: u64, body: seq<byte>)
    ensures Read(None) == Err(CannotRead)
    ensures
      var read := Read(Some(EncodeImage(MAGIC, BLOB_VERSION, claimed, body)));
      && ((forall c: RecordBlob :: body != Body(c)) ==> read == Err(BodyDoesNotDecode))
      && forall c: RecordBlob | body == Body(c) ::
           read == if Fingerprint(c) == claimed then Ok(c) else Err(FingerprintMismatch(Fingerprint(c)))
  {
    HeaderRoundTrip(MAGIC, BLOB_VERSION, claimed, body);
    if DecodeBody(body).Some? { DecodedBody(body, DecodeBody(body).value); }
    forall c: RecordBlob | body == Body(c)
      ensures DecodeBody(body) == Some(c)
    {
      BodyRoundTrip(c);
    }
  }

  /** One blob's header over another's body reads exactly when their fingerprints agree. */
  lemma SplicedReadsIff(a: RecordBlob, b: RecordBlob)
    ensures Read(Some(Encode(a)[..20] + Body(b))).Ok? <==> Fingerprint(a) == Fingerprint(b)
  {
    assert Encode(a)[..20] + Body(b) == EncodeImage(MAGIC, BLOB_VERSION, Fingerprint(a), Body(b));
    ReadVerdicts(Fingerprint(a), Body(b));
  }

  /** So a body whose hashed bytes differ in one place from those the header was made for is refused. */
  lemma OneHashedByteIsRefused(a: RecordBlob, b: RecordBlob, k: nat)
    requires |Hashed(a)| == |Hashed(b)| && k < |Hashed(a)|
    requires Hashed(a)[k] != Hashed(b)[k]
    requires forall j | 0 <= j < |Hashed(a)| && j != k :: Hashed(a)[j] == Hashed(b)[j]
    ensures Read(Some(Encode(a)[..20] + Body(b))) == Err(FingerprintMismatch(Fingerprint(b)))
  {
    OneChangedByteChangesTheHash(Hashed(a), k, Hashed(b)[k]);
    assert Hashed(a)[k := Hashed(b)[k]] == Hashed(b);
    assert Encode(a)[..20] + Body(b) == EncodeImage(MAGIC, BLOB_VERSION, Fingerprint(a), Body(b));
    ReadVerdicts(Fingerprint(a), Body(b));
  }

  /** A blob is current for its own contents, for any that differ only in ages, and for a collision. */
  lemma CurrentIff(written: RecordBlob, c: RecordBlob)
    ensures IsCurrentAt(Some(Encode(written)), c) <==> Fingerprint(written) == Fingerprint(c)
    ensures SameButAges(written, c) ==> IsCurrentAt(Some(Encode(written)), c)
  {
    var b := Encode(written);
    HeaderRoundTrip(MAGIC, BLOB_VERSION, Fingerprint(written), Body(written));
    HashedTellsApartAllButAges(written, c);
    assert b[..20][..8] == b[..8] && b[..20][8..12] == b[8..12] && b[..20][12..20] == b[12..20];
  }

  /** Whatever is in the file: it is current for a blob exactly when it starts with that blob's own header. */
  lemma CurrentExactly(b: seq<byte>, c: RecordBlob)
    ensures !IsCurrentAt(None, c)
    ensures IsCurrentAt(Some(b), c) <==> |b| >= 20 && b[..20] == Encode(c)[..20]
  {
    var own := Encode(c);
    HeaderRoundTrip(MAGIC, BLOB_VERSION, Fingerprint(c), Body(c));
    if |b| >= 20 {
      var h := b[..20];
      if ParseHeader(h, MAGIC, BLOB_VERSION) == Ok(Fingerprint(c)) {
        HeaderIsWritten(h, MAGIC, BLOB_VERSION);
        HeaderFirst(c, h);
      }
      CurrentIff(c, c);
    }
  }

  lemma HeaderFirst(c: RecordBlob, h: seq<byte>)
    requires |h| == 20 && h == EncodeImage(MAGIC, BLOB_VERSION, Fingerprint(c), h[20..])
    ensures h == Encode(c)[..20]
  {
    var header := MAGIC + LeU32(BLOB_VERSION) + LeU64(Fingerprint(c));
    assert h[20..] == [] && header + [] == header;
    assert (header + Body(c))[..20] == header;
  }

  /**
   A one-byte change to the hashed content shows: blobs whose hashed bytes differ in exactly one
   place have different fingerprints, so neither is current for the other.
   */
  lemma OneHashedByteIsDetected(a: RecordBlob, b: RecordBlob, k: nat)
    requires |Hashed(a)| == |Hashed(b)| && k < |Hashed(a)|
    requires Hashed(a)[k] != Hashed(b)[k]
    requires forall j | 0 <= j < |Hashed(a)| && j != k :: Hashed(a)[j] == Hashed(b)[j]
    ensures !IsCurrentAt(Some(Encode(a)), b)
  {
    OneChangedByteChangesTheHash(Hashed(a), k, Hashed(b)[k]);
    assert Hashed(a)[k := Hashed(b)[k]] == Hashed(b);
    CurrentIff(a, b);
  }

  /** A change to seed ages alone does not: the header stands, and the changed body reads as it is. */
  lemma ChangedAgesAreNotDetected(a: RecordBlob, b: RecordBlob)
    requires SameButAges(a, b)
    ensures Encode(a)[..20] == Encode(b)[..20]
    ensures Read(Some(Encode(a)[..20] + Body(b))) == Ok(b)
  {
    HashedTellsApartAllButAges(a, b);
    ReadBack(b);
    assert Encode(a)[..20] + Body(b) == Encode(b);
  }

  // ----- the hasher's loop -----

  method FeedRecord(hasher: Fnv1a64, r: DogRecord)
    modifies hasher
    ensures hasher.state == HashFrom(old(hasher.state), IdAndBreed(r))
  {
    ghost var h := hasher.state;
    hasher.Update(r.id.octets);
    hasher.Update(ToLe(|r.breed|, 8));
    hasher.Update(r.breed);
    HashInPieces(h, r.id.octets, ToLe(|r.breed|, 8));
    HashInPieces(h, r.id.octets + ToLe(|r.breed|, 8), r.breed);
  }

  method FeedEdge(hasher: Fnv1a64, e: Edge)
    modifies hasher
    ensures hasher.state == HashFrom(old(hasher.state), BothIds(e))
  {
    ghost var h := hasher.state;
    hasher.Update(e.0.octets);
    hasher.Update(e.1.octets);
    HashInPieces(h, e.0.octets, e.1.octets);
  }

  lemma HashNext<T>(enc: T -> seq<byte>, h: u64, xs: seq<T>, i: nat)
    requires i < |xs|
    ensures HashFrom(h, Flatten(enc, xs[..i + 1])) == HashFrom(HashFrom(h, Flatten(enc, xs[..i])), enc(xs[i]))
  {
    assert xs[..i + 1] == xs[..i] + [xs[i]];
    FlattenSnoc(enc, xs[..i], xs[i]);
    HashInPieces(h, Flatten(enc, xs[..i]), enc(xs[i]));
  }

  method ComputeFingerprint(c: RecordBlob) returns (fingerprint: u64)
    ensures fingerprint == Fingerprint(c)
  {
    var hasher := new Fnv1a64();
    hasher.Update(LeU64(|c.records|));
    FeedRecords(hasher, c.records);
    hasher.Update(LeU64(|c.edges|));
    FeedEdges(hasher, c.edges);
    HashedInPieces(c);
    fingerprint := hasher.Finish();
  }

  method FeedRecords(hasher: Fnv1a64, records: seq<DogRecord>)
    modifies hasher
    ensures hasher.state == HashFrom(old(hasher.state), Flatten(IdAndBreed, records))
  {
    for i := 0 to |records|
      invariant hasher.state == HashFrom(old(hasher.state), Flatten(IdAndBreed, records[..i]))
    {
      HashNext(IdAndBreed, old(hasher.state), records, i);
      FeedRecord(hasher, records[i]);
    }
    assert records[..|records|] == records;
  }

  method FeedEdges(hasher: Fnv1a64, edges: seq<Edge>)
    modifies hasher
    ensures hasher.state == HashFrom(old(hasher.state), Flatten(BothIds, edges))
  {
    for i := 0 to |edges|
      invariant hasher.state == HashFrom(old(hasher.state), Flatten(BothIds, edges[..i]))
    {
      HashNext(BothIds, old(hasher.state), edges, i);
      FeedEdge(hasher, edges[i]);
    }
    assert edges[..|edges|] == edges;
  }

  lemma HashedInPieces(c: RecordBlob)
    ensures
      var h1 := HashFrom(OFFSET_BASIS, LeU64(|c.records|));
      var h2 := HashFrom(h1, Flatten(IdAndBreed, c.records));
      var h3 := HashFrom(h2, LeU64(|c.edges|));
      Fingerprint(c) == HashFrom(h3, Flatten(BothIds, c.edges))
  {
    var p1, p2, p3 := LeU64(|c.records|), Flatten(IdAndBreed, c.records), LeU64(|c.edges|);
    HashInPieces(OFFSET_BASIS, p1, p2);
    HashInPieces(OFFSET_BASIS, p1 + p2, p3);
    HashInPieces(OFFSET_BASIS, p1 + p2 + p3, Flatten(BothIds, c.edges));
  }
}
