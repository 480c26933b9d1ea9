/**
 The edge-list companion file (src/generic/edge_blob.rs): a tagged header whose fingerprint is the
 FNV-1a hash of the body, and the body a counted list of id pairs in the crate's fixed-width
 encoding (src/codec.rs).
 */
module EdgeBlob {
  import opened Bytes
  import opened Framing
  import opened Fnv
  import opened Records
  import opened BlobHeader

  const MAGIC: Magic := [71, 69, 78, 69, 68, 71, 69, 0] // "GENEDGE\0"
  const BLOB_VERSION: u32 := 2

  // ----- the body -----

  function EncodeUuid(id: Uuid): (b: seq<byte>)
    ensures |b| == 24
  {
    LeU64(16) + id.octets
  }

  function EncodeEdge(e: Edge): (b: seq<byte>)
    ensures |b| == 48
  {
    EncodeUuid(e.0) + EncodeUuid(e.1)
  }

  /** A list whose count fits the encoding's 64-bit length. */
  type EdgeList = edges: seq<Edge> | |edges| < 0x1_0000_0000_0000_0000

  function Body(edges: EdgeList): seq<byte> {
    LeU64(|edges|) + Flatten(EncodeEdge, edges)
  }

  function DecodeEdge(b: seq<byte>): Option<Edge>
    requires |b| == 48
  {
    if ReadU64(b[..8]) != 16 || ReadU64(b[24..32]) != 16 then None
    else Some((Uuid(b[8..24]), Uuid(b[32..48])))
  }

  /** Exactly `count` edges and nothing after them. */
  function DecodeEdges(b: seq<byte>, count: nat): Option<seq<Edge>>
    decreases count
  {
    if count == 0 then if b == [] then Some([]) else None
    else if |b| < 48 then None
    else
      match DecodeEdge(b[..48])
      case None => None
      case Some(e) =>
        match DecodeEdges(b[48..], count - 1)
        case None => None
        case Some(rest) => Some([e] + rest)
  }

  function DecodeBody(b: seq<byte>): Option<seq<Edge>> {
    if |b| < 8 then None else DecodeEdges(b[8..], ReadU64(b[..8]))
  }

  lemma EdgeRoundTrip(e: Edge)
    ensures DecodeEdge(EncodeEdge(e)) == Some(e)
  {
    FourPieces(LeU64(16), e.0.octets, LeU64(16), e.1.octets);
    assert EncodeEdge(e) == LeU64(16) + e.0.octets + LeU64(16) + e.1.octets;
    U64RoundTrip(16);
  }

  lemma {:induction false} EdgesRoundTrip(edges: seq<Edge>)
    ensures DecodeEdges(Flatten(EncodeEdge, edges), |edges|) == Some(edges)
  {
    if edges != [] {
      var b := Flatten(EncodeEdge, edges);
      EdgesRoundTrip(edges[1..]);
      EdgeRoundTrip(edges[0]);
      assert b[..48] == EncodeEdge(edges[0]) && b[48..] == Flatten(EncodeEdge, edges[1..]);
      assert [edges[0]] + edges[1..] == edges;
    }
  }

  lemma BodyRoundTrip(edges: EdgeList)
    ensures DecodeBody(Body(edges)) == Some(edges)
  {
    EdgesRoundTrip(edges);
    U64RoundTrip(|edges|);
    assert Body(edges)[..8] == LeU64(|edges|) && Body(edges)[8..] == Flatten(EncodeEdge, edges);
  }

  lemma DecodedEdge(b: seq<byte>, e: Edge)
    requires |b| == 48 && DecodeEdge(b) == Some(e)
    ensures b == EncodeEdge(e)
  {
    U64RoundTrip(16);
    ReadU64Injective(b[..8], LeU64(16));
    ReadU64Injective(b[24..32], LeU64(16));
    EdgeInTwo(b);
  }

  lemma EdgeInTwo(b: seq<byte>)
    requires |b| == 48
    ensures b == b[..8] + b[8..24] + (b[24..32] + b[32..48])
  {
  }

  lemma {:induction false} DecodedEdges(b: seq<byte>, count: nat, edges: seq<Edge>)
    requires DecodeEdges(b, count) == Some(edges)
    ensures |edges| == count && b == Flatten(EncodeEdge, edges)
    decreases count
  {
    if count > 0 {
      var e, rest := DecodeEdge(b[..48]).value, DecodeEdges(b[48..], count - 1).value;
      DecodedEdge(b[..48], e);
      DecodedEdges(b[48..], count - 1, rest);
      assert edges == [e] + rest;
      FlattenCons(e, rest);
      assert b == b[..48] + b[48..];
    }
  }

  lemma FlattenCons(e: Edge, rest: seq<Edge>)
    ensures Flatten(EncodeEdge, [e] + rest) == EncodeEdge(e) + Flatten(EncodeEdge, rest)
  {
    assert ([e] + rest)[1..] == rest;
  }

  /** Only its own encoding decodes to a list. */
  lemma DecodedBody(b: seq<byte>, edges: seq<Edge>)
    requires DecodeBody(b) == Some(edges)
    ensures |edges| < 0x1_0000_0000_0000_0000 && b == Body(edges)
  {
    DecodedEdges(b[8..], ReadU64(b[..8]), edges);
    U64RoundTrip(|edges|);
    ReadU64Injective(b[..8], LeU64(|edges|));
    assert b == b[..8] + b[8..];
  }

  // ----- the file -----

  function Fingerprint(edges: EdgeList): u64 { Hash(Body(edges)) }

  function Encode(edges: EdgeList, tag: seq<byte>): (image: seq<byte>) {
    EncodeTaggedImage(MAGIC, BLOB_VERSION, Fingerprint(edges), tag, Body(edges))
  }

  /** Header, then the body's hash against the header's, and only then the decoder. */
  function Read(file: Option<seq<byte>>, tag: seq<byte>): Result<seq<Edge>, Cause> {
    if file == None then Err(CannotRead)
    else
      match ParseTaggedHeader(file.value, MAGIC, BLOB_VERSION, tag)
      case Err(cause) => Err(cause)
      case Ok(claimed) =>
        var body := file.value[28..];
        if Hash(body) != claimed then Err(FingerprintMismatch(Hash(body)))
        else
          match DecodeBody(body)
          case None => Err(BodyDoesNotDecode)
          case Some(edges) => Ok(edges)
  }

  /** The first twenty-eight bytes against the fingerprint of the list in hand. */
  predicate IsCurrentAt(file: Option<seq<byte>>, edges: EdgeList, tag: seq<byte>) {
    file.Some? && |file.value| >= 28
    && ParseTaggedHeader(file.value[..28], MAGIC, BLOB_VERSION, tag) == Ok(Fingerprint(edges))
  }

  /** What was written reads back, in order. */
  lemma ReadBack(edges: EdgeList, tag: seq<byte>)
    ensures Read(Some(Encode(edges, tag)), tag) == Ok(edges)
  {
    TaggedHeaderRoundTrip(MAGIC, BLOB_VERSION, Fingerprint(edges), tag, Body(edges));
    BodyRoundTrip(edges);
  }

  /** A file reads as a list exactly when it is, byte for byte, the file written for that list. */
  lemma ReadsExactly(b: seq<byte>, tag: seq<byte>, edges: EdgeList)
    ensures Read(Some(b), tag) == Ok(edges) <==> b == Encode(edges, tag)
  {
    ReadBack(edges, tag);
    if Read(Some(b), tag) == Ok(edges) {
      TaggedHeaderIsWritten(b, MAGIC, BLOB_VERSION, tag);
      DecodedBody(b[28..], edges);
    }
  }

  /** Behind a good header: first the hash of the body, then the decoder. A missing file cannot be read. */
  lemma ReadVerdicts(fingerprint: u64, tag: seq<byte>, body: seq<byte>)
    ensures Read(None, tag) == Err(CannotRead)
    ensures
      var read := Read(Some(EncodeTaggedImage(MAGIC, BLOB_VERSION, fingerprint, tag, body)), tag);
      && (Hash(body) != fingerprint ==> read == Err(FingerprintMismatch(Hash(body))))
      && (Hash(body) == fingerprint && (forall edges: EdgeList :: body != Body(edges)) ==>
            read == Err(BodyDoesNotDecode))
  {
    TaggedHeaderRoundTrip(MAGIC, BLOB_VERSION, fingerprint, tag, body);
    if DecodeBody(body).Some? { DecodedBody(body, DecodeBody(body).value); }
  }

  /** Under the wrong tag nothing is decoded, unless the two tags hash alike. */
  lemma ForeignTagIsRefused(edges: EdgeList, tag: seq<byte>, other: seq<byte>)
    ensures Read(Some(Encode(edges, tag)), other).Ok? <==> Hash(tag) == Hash(other)
  {
    var b := Encode(edges, tag);
    ReadBack(edges, tag);
    TaggedHeaderRoundTrip(MAGIC, BLOB_VERSION, Fingerprint(edges), tag, Body(edges));
    assert ReadU64(b[20..28]) == Hash(tag);
  }

  /**
   Changing any one byte of an edge file, header or body, is always detected: it never reads as an
   edge list again.
   */
  lemma OneChangedByteIsDetected(edges: EdgeList, tag: seq<byte>, k: nat, x: byte)
    requires k < |Encode(edges, tag)| && x != Encode(edges, tag)[k]
    ensures Read(Some(Encode(edges, tag)[k := x]), tag).Err?
  {
    var b := Encode(edges, tag);
    TaggedHeaderRoundTrip(MAGIC, BLOB_VERSION, Fingerprint(edges), tag, Body(edges));
    if k < 28 {
      ChangedHeaderIsRefused(b, tag, k, x);
    } else {
      ChangedBodyIsRefused(b, tag, k, x);
    }
  }

  /** Header and body vouch for each other: the fingerprint in the one is the hash of the other. */
  predicate Sealed(b: seq<byte>, tag: seq<byte>) {
    |b| >= 28 && ParseTaggedHeader(b, MAGIC, BLOB_VERSION, tag) == Ok(Hash(b[28..]))
  }

  lemma ChangedHeaderIsRefused(b: seq<byte>, tag: seq<byte>, k: nat, x: byte)
    requires Sealed(b, tag) && k < 28 && x != b[k]
    ensures Read(Some(b[k := x]), tag).Err?
  {
    OneChangedHeaderByteShows(b, k, x, MAGIC, BLOB_VERSION, tag);
    assert b[k := x][28..] == b[28..];
  }

  lemma ChangedBodyIsRefused(b: seq<byte>, tag: seq<byte>, k: nat, x: byte)
    requires Sealed(b, tag) && 28 <= k < |b| && x != b[k]
    ensures Read(Some(b[k := x]), tag).Err?
  {
    var c := b[k := x];
    assert c[..28] == b[..28];
    TaggedHeaderIsLocal(b, c, MAGIC, BLOB_VERSION, tag);
    assert c[28..] == b[28..][k - 28 := x];
    OneChangedByteChangesTheHash(b[28..], k - 28, x);
  }

  /** A file is current for exactly the lists that share its list's fingerprint: its own, always. */
  lemma CurrentIff(written: EdgeList, edges: EdgeList, tag: seq<byte>)
    ensures IsCurrentAt(Some(Encode(written, tag)), edges, tag) <==> Fingerprint(written) == Fingerprint(edges)
  {
    var b := Encode(written, tag);
    TaggedHeaderRoundTrip(MAGIC, BLOB_VERSION, Fingerprint(written), tag, Body(written));
    assert b[..28][..28] == b[..28];
    TaggedHeaderIsLocal(b, b[..28], MAGIC, BLOB_VERSION, tag);
  }

  /** Whatever is in the file: it is current for a list exactly when it starts with that list's own header. */
  lemma CurrentExactly(b: seq<byte>, edges: EdgeList, tag: seq<byte>)
    ensures !IsCurrentAt(None, edges, tag)
    ensures IsCurrentAt(Some(b), edges, tag) <==> |b| >= 28 && b[..28] == Encode(edges, tag)[..28]
  {
    var own := Encode(edges, tag);
    TaggedHeaderRoundTrip(MAGIC, BLOB_VERSION, Fingerprint(edges), tag, Body(edges));
    if |b| >= 28 {
      var h := b[..28];
      if ParseTaggedHeader(h, MAGIC, BLOB_VERSION, tag) == Ok(Fingerprint(edges)) {
        TaggedHeaderIsWritten(h, MAGIC, BLOB_VERSION, tag);
        HeaderFirst(edges, tag, h);
      }
      assert own[..28][..28] == own[..28];
      TaggedHeaderIsLocal(own, own[..28], MAGIC, BLOB_VERSION, tag);
    }
  }

  lemma HeaderFirst(edges: EdgeList, tag: seq<byte>, h: seq<byte>)
    requires |h| == 28 && h == EncodeTaggedImage(MAGIC, BLOB_VERSION, Fingerprint(edges), tag, h[28..])
    ensures h == Encode(edges, tag)[..28]
  {
    var header := EncodeImage(MAGIC, BLOB_VERSION, Fingerprint(edges), []) + LeU64(Hash(tag));
    assert h[28..] == [] && header + [] == header;
    assert (header + Body(edges))[..28] == header;
  }

  // ----- the streamed fingerprint -----

  /** The encoder writing straight into the hasher, field after field: the same hash as the body's. */
  method StreamFingerprint(edges: EdgeList) returns (fingerprint: u64)
    ensures fingerprint == Fingerprint(edges)
  {
    var hasher := new Fnv1a64();
    hasher.Update(LeU64(|edges|));
    HashInPieces(OFFSET_BASIS, LeU64(|edges|), Flatten(EncodeEdge, edges));
    assert edges[0..] == edges;
    for i := 0 to |edges|
      invariant HashFrom(hasher.state, Flatten(EncodeEdge, edges[i..])) == Fingerprint(edges)
    {
      HashNextEdge(hasher.state, edges, i);
      StreamEdge(hasher, edges[i]);
    }
    fingerprint := hasher.Finish();
  }

  lemma HashNextEdge(h: u64, edges: seq<Edge>, i: nat)
    requires i < |edges|
    ensures HashFrom(h, Flatten(EncodeEdge, edges[i..]))
            == HashFrom(HashFrom(h, EncodeEdge(edges[i])), Flatten(EncodeEdge, edges[i + 1..]))
  {
    assert edges[i..][1..] == edges[i + 1..];
    HashInPieces(h, EncodeEdge(edges[i]), Flatten(EncodeEdge, edges[i + 1..]));
  }

  method StreamEdge(hasher: Fnv1a64, e: Edge)
    modifies hasher
    ensures hasher.state == HashFrom(old(hasher.state), EncodeEdge(e))
  {
    ghost var h := hasher.state;
    hasher.Update(LeU64(16));
    hasher.Update(e.0.octets);
    hasher.Update(LeU64(16));
    hasher.Update(e.1.octets);
    HashInPieces(h, LeU64(16), e.0.octets);
    HashInPieces(HashFrom(h, EncodeUuid(e.0)), LeU64(16), e.1.octets);
    HashInPieces(h, EncodeUuid(e.0), EncodeUuid(e.1));
  }
}
