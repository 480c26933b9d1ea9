/**
 The bytes each file is made of, field by field and, where the repository pins them, byte by byte
 (src/codec.rs, src/durability/record_blob.rs, src/generic/edge_blob.rs, src/generic/record_blob.rs):
 what a file written by one build holds for every other.
 */
module Formats {
  import opened Bytes
  import opened Framing
  import opened Records
  import Fnv
  import Wal
  import ColumnarImage
  import SlotFiles
  import InsertLog
  import BlobHeader
  import EdgeBlob
  import RecordBlobs

  // ----- numbers and ids -----

  /** Least significant byte first. */
  lemma LittleEndian(x: u64, i: nat)
    requires i < 8
    ensures LeU64(x)[i] == x / Pow256(i) % 256
    ensures x < 0x1_0000_0000 && i < 4 ==> LeU32(x)[i] == x / Pow256(i) % 256
  {
    ByteOf(x, 8, i);
    if i < 4 { ByteOf(x, 4, i); }
  }

  lemma {:induction false} ByteOf(x: nat, width: nat, i: nat)
    requires i < width
    ensures ToLe(x, width)[i] == x / Pow256(i) % 256
  {
    if i > 0 {
      ByteOf(x / 256, width - 1, i - 1);
      DivideTwice(x, Pow256(i - 1));
    }
  }

  lemma DivideTwice(x: nat, m: nat)
    requires m > 0
    ensures x / 256 / m == x / (256 * m)
  {
    var q, r := x / 256 / m, x / 256 % m;
    assert x / 256 == m * q + r;
    var low := x % 256;
    assert x == 256 * (x / 256) + low;
    assert 256 * (m * q) == (256 * m) * q;
    assert x == (256 * m) * q + (256 * r + low);
    assert r <= m - 1;
    QuotientIs(x, 256 * m, q, 256 * r + low);
  }

  lemma QuotientIs(x: nat, m: nat, q: nat, r: nat)
    requires m > 0 && x == m * q + r && r < m
    ensures x / m == q
  {
    RemainderIs(x, m, q, r);
    assert m * (x / m) == m * q;
    CancelFactor(m, x / m, q);
  }

  lemma CancelFactor(m: nat, a: nat, b: nat)
    requires m > 0 && m * a == m * b
    ensures a == b
  {
    var d := a - b;
    assert m * d == 0;
    MultipleIsFar(m, d);
  }

  lemma {:induction false} Zeros(width: nat)
    ensures |ToLe(0, width)| == width && forall i | 0 <= i < width :: ToLe(0, width)[i] == 0
  {
    if width > 0 { Zeros(width - 1); }
  }

  /** A number below 256 is its byte and zeros. */
  lemma SmallNumbers(x: byte)
    ensures LeU32(x) == [x, 0, 0, 0] && LeU64(x) == [x, 0, 0, 0, 0, 0, 0, 0]
  {
    Zeros(3);
    Zeros(7);
    assert LeU32(x) == [x] + ToLe(0, 3) && LeU64(x) == [x] + ToLe(0, 7);
  }

  const SIXTEEN: seq<byte> := [16, 0, 0, 0, 0, 0, 0, 0]

  /** The golden vectors of the encoding: 0xdeadbeef in four bytes and one in eight. */
  lemma GoldenNumbers()
    ensures LeU32(0xdead_beef) == [0xef, 0xbe, 0xad, 0xde]
    ensures LeU64(1) == [1, 0, 0, 0, 0, 0, 0, 0]
  {
    assert ToLe(0xdead, 2) == [0xad, 0xde];
    assert ToLe(0xdead_be, 3) == [0xbe, 0xad, 0xde];
    SmallNumbers(1);
  }

  // ----- the hash -----

  /** The two known answers the repository checks: of nothing, and of the one letter `a`. */
  lemma KnownHashes(a: byte)
    requires a == 97
    ensures Fnv.Hash([]) == 0xcbf2_9ce4_8422_2325
    ensures Fnv.Hash([a]) == 0xaf63_dc4c_8601_ec8c
  {
    HashOfOne(Fnv.OFFSET_BASIS, a);
    XorWithA(0xcb_f29c_e484_2223, Fnv.OFFSET_BASIS, a);
    Multiplied(Fnv.XorByte(Fnv.OFFSET_BASIS, a));
  }

  lemma HashOfOne(h: u64, b: byte)
    ensures Fnv.HashFrom(h, [b]) == Fnv.Multiply(Fnv.XorByte(h, b))
  {
    assert [b][1..] == [];
    assert Fnv.HashFrom(Fnv.Step(h, b), []) == Fnv.Step(h, b);
  }

  lemma Multiplied(x: u64)
    requires x == 0xcbf2_9ce4_8422_2344
    ensures Fnv.Multiply(x) == 0xaf63_dc4c_8601_ec8c
  {
  }

  lemma XorWithA(high: nat, h: u64, a: byte)
    requires h == 256 * high + 37 && a == 97
    ensures Fnv.XorByte(h, a) == 256 * high + 68
  {
    XorAbove(256 * high, high, 37, a);
    LowByteWithA(37, a);
  }

  lemma XorAbove(n: nat, h: nat, x: nat, y: nat)
    requires n == 256 * h && x < 256 && y < 256
    ensures Fnv.Xor(n + x, y) == n + Fnv.Xor(x, y)
  {
    EightBits();
    XorHigh(n, h, x, y, 8);
  }

  lemma EightBits()
    ensures Fnv.Pow2(8) == 256
  {
    Fnv.NextEight(0);
  }

  lemma LowByteWithA(x: nat, a: nat)
    requires x == 37 && a == 97
    ensures Fnv.Xor(x, a) == 68
  {
    Fnv.XorUnfold(x, a);
    Fnv.XorUnfold(x / 2, a / 2);
    Fnv.XorUnfold(x / 4, a / 4);
    Fnv.XorUnfold(x / 8, a / 8);
    Fnv.XorUnfold(x / 16, a / 16);
    Fnv.XorUnfold(x / 32, a / 32);
    Fnv.XorUnfold(x / 64, a / 64);
    assert Fnv.Xor(x / 128, a / 128) == 0;
  }

  /** Above the bits the other number has, nothing changes. */
  lemma {:induction false} XorHigh(n: nat, h: nat, x: nat, y: nat, bits: nat)
    requires n == Fnv.Pow2(bits) * h && x < Fnv.Pow2(bits) && y < Fnv.Pow2(bits)
    ensures Fnv.Xor(n + x, y) == n + Fnv.Xor(x, y)
  {
    if bits == 0 {
      XorZero(n);
      XorZero(0);
    } else {
      var half := Fnv.Pow2(bits - 1) * h;
      Doubled(Fnv.Pow2(bits - 1), h);
      XorHigh(half, h, x / 2, y / 2, bits - 1);
      XorStep(half, x, y);
    }
  }

  lemma Doubled(m: nat, h: nat)
    ensures 2 * m * h == 2 * (m * h)
  {
  }

  lemma XorStep(n: nat, x: nat, y: nat)
    requires Fnv.Xor(n + x / 2, y / 2) == n + Fnv.Xor(x / 2, y / 2)
    ensures Fnv.Xor(2 * n + x, y) == 2 * n + Fnv.Xor(x, y)
  {
    Fnv.XorUnfold(2 * n + x, y);
    Fnv.XorUnfold(x, y);
    Halves(n, x, y);
  }

  lemma Halves(n: nat, x: nat, y: nat)
    ensures (2 * n + x) / 2 == n + x / 2 && (2 * n + x + y) % 2 == (x + y) % 2
  {
  }

  lemma {:induction false} XorZero(a: nat)
    ensures Fnv.Xor(a, 0) == a
  {
    if a > 0 { XorZero(a / 2); }
  }

  // ----- the write-ahead log -----

  /** A frame: its length, the number, the id with its length, the age. */
  lemma WalFrame(e: Wal.WalEntry)
    ensures
      var b := Wal.Frame(e);
      && |b| == 40
      && b[..4] == [36, 0, 0, 0] && b[4..12] == LeU64(e.seqNo)
      && b[12..20] == SIXTEEN && b[20..36] == e.id.octets && b[36..40] == LeU32(e.age)
  {
    SmallNumbers(36);
    SmallNumbers(16);
    FiveFields(LeU32(36), LeU64(e.seqNo), LeU64(16), e.id.octets, LeU32(e.age));
  }

  lemma FiveFields(a: seq<byte>, b: seq<byte>, c: seq<byte>, d: seq<byte>, e: seq<byte>)
    ensures
      var s := a + (b + c + d + e);
      var i, j, k := |a|, |a| + |b|, |a| + |b| + |c|;
      && s[..i] == a && s[i..j] == b && s[j..k] == c && s[k..k + |d|] == d
      && |s| == k + |d| + |e| && s[k + |d|..|s|] == e
  {
    var x := b + c + d + e;
    var s, i, j := a + x, |b|, |b| + |c|;
    FourPieces(b, c, d, e);
    CutPrefix(a, x);
    SliceOfSlice(s, |a|, |s|, 0, i);
    SliceOfSlice(s, |a|, |s|, i, j);
    SliceOfSlice(s, |a|, |s|, j, j + |d|);
    SliceOfSlice(s, |a|, |s|, j + |d|, |x|);
  }

  // ----- the mapped files -----

  /** The columnar file: magic and version, then every id, then every age, then every marker. */
  lemma ColumnarFile(entries: seq<(Uuid, u32)>, p: nat)
    requires p < |entries|
    ensures
      var b, n := ColumnarImage.ImageOf(entries), |entries|;
      && |b| == 12 + 21 * n
      && b[..8] == [68, 79, 71, 77, 77, 65, 80, 0] && b[8..12] == [1, 0, 0, 0]
      && b[12 + 16 * p..28 + 16 * p] == entries[p].0.octets
      && b[12 + 16 * n + 4 * p..16 + 16 * n + 4 * p] == LeU32(entries[p].1)
      && b[12 + 20 * n + p] == 1
  {
    ColumnarHeader(entries);
    ColumnarImage.ImageIdBytes(entries, p);
    ColumnarImage.ImageAgeBytes(entries, p);
    ColumnarImage.ImageMarkerByte(entries, p);
  }

  lemma ColumnarHeader(entries: seq<(Uuid, u32)>)
    ensures
      var b := ColumnarImage.ImageOf(entries);
      |b| >= 12 && b[..8] == [68, 79, 71, 77, 77, 65, 80, 0] && b[8..12] == [1, 0, 0, 0]
  {
    SmallNumbers(1);
    var b := ColumnarImage.ImageOf(entries);
    assert forall k | 0 <= k < 12 :: b[k] == ColumnarImage.ImageByte(entries, k);
  }

  /** The slot file: magic and version, then slot after slot, each an id, a value and a marker. */
  lemma SlotFile(entries: seq<SlotFiles.Entry>, p: nat)
    requires p < |entries|
    ensures
      var b, at := SlotFiles.ImageOf(entries), 12 + 25 * p;
      && |b| == 12 + 25 * |entries|
      && b[..8] == [71, 77, 77, 65, 80, 83, 84, 0] && b[8..12] == [2, 0, 0, 0]
      && b[at..at + 16] == entries[p].0.octets && b[at + 16..at + 24] == LeU64(entries[p].1) && b[at + 24] == 1
  {
    SmallNumbers(2);
    SlotFiles.ImageRoundTrip(entries);
    SlotFiles.SlotsLength(entries);
    SlotBytesAt(SlotFiles.ImageOf(entries), p, entries[p]);
    var b := SlotFiles.ImageOf(entries);
    CutPrefix(SlotFiles.Header(), Flatten(SlotFiles.SlotBytes, entries));
    SlotHeader();
    assert b[..8] == b[..12][..8] && b[8..12] == b[..12][8..12];
  }

  lemma SlotHeader()
    ensures
      var h := SlotFiles.Header();
      |h| == 12 && h[..8] == [71, 77, 77, 65, 80, 83, 84, 0] && h[8..12] == [2, 0, 0, 0]
  {
    SmallNumbers(2);
    CutPrefix(SlotFiles.MAGIC, LeU32(2));
  }

  lemma CutPrefix(a: seq<byte>, b: seq<byte>)
    ensures (a + b)[..|a|] == a && (a + b)[|a|..|a| + |b|] == b
  {
  }

  /** A slot that reads as a pair, committed, is made of the pair's bytes and the marker. */
  lemma SlotBytesAt(b: seq<byte>, p: nat, e: SlotFiles.Entry)
    requires |b| >= 12 && p < SlotFiles.SlotCount(b)
    requires SlotFiles.SlotsIn(b)[p].id == e.0 && SlotFiles.SlotsIn(b)[p].value == e.1
    requires SlotFiles.SlotsIn(b)[p].committed
    ensures
      var at := 12 + 25 * p;
      b[at..at + 16] == e.0.octets && b[at + 16..at + 24] == LeU64(e.1) && b[at + 24] == 1
  {
    var at := 12 + 25 * p;
    assert SlotFiles.SlotsIn(b)[p] == SlotFiles.SlotAt(b, p);
    U64RoundTrip(e.1);
    ReadU64Injective(b[at + 16..at + 24], LeU64(e.1));
  }

  // ----- the companion files -----

  /** Magic, version and fingerprint; for a tagged file then the hash of the tag; then the body. */
  lemma Headers(magic: BlobHeader.Magic, version: u32, fingerprint: u64, tag: seq<byte>, body: seq<byte>)
    ensures
      var b := BlobHeader.EncodeImage(magic, version, fingerprint, body);
      b[..8] == magic && b[8..12] == LeU32(version) && b[12..20] == LeU64(fingerprint) && b[20..] == body
    ensures
      var b := BlobHeader.EncodeTaggedImage(magic, version, fingerprint, tag, body);
      && b[..8] == magic && b[8..12] == LeU32(version) && b[12..20] == LeU64(fingerprint)
      && b[20..28] == LeU64(Fnv.Hash(tag)) && b[28..] == body
  {
    FourPieces(magic, LeU32(version), LeU64(fingerprint), body);
    var rest := LeU64(Fnv.Hash(tag)) + body;
    FourPieces(magic, LeU32(version), LeU64(fingerprint), rest);
    BlobHeader.BodyInTwo(magic, version, fingerprint, LeU64(Fnv.Hash(tag)), body);
    var b := BlobHeader.EncodeImage(magic, version, fingerprint, rest);
    assert b[20..28] == b[20..][..8] && b[28..] == b[20..][8..];
  }

  /** Which file is which, and of which version. */
  lemma Magics()
    ensures RecordBlobs.MAGIC == [68, 79, 71, 66, 76, 79, 66, 0] && RecordBlobs.BLOB_VERSION == 2
    ensures EdgeBlob.MAGIC == [71, 69, 78, 69, 68, 71, 69, 0] && EdgeBlob.BLOB_VERSION == 2
    ensures InsertLog.MAGIC == [71, 69, 78, 73, 78, 83, 76, 0]
  {
  }

  /** The body for one pair, as the repository pins it: the count, then each id with its length. */
  lemma GoldenEdges(x: Uuid, y: Uuid)
    ensures EdgeBlob.Body([(x, y)]) == [1, 0, 0, 0, 0, 0, 0, 0] + SIXTEEN + x.octets + SIXTEEN + y.octets
  {
    SmallNumbers(1);
    SmallNumbers(16);
    OneFrame(EdgeBlob.EncodeEdge, (x, y));
    FourPieces(SIXTEEN, x.octets, SIXTEEN, y.octets);
    ThreePieces([1, 0, 0, 0, 0, 0, 0, 0], SIXTEEN + x.octets, SIXTEEN + y.octets);
    FourPieces([1, 0, 0, 0, 0, 0, 0, 0], SIXTEEN + x.octets, SIXTEEN, y.octets);
    ThreePieces([1, 0, 0, 0, 0, 0, 0, 0], SIXTEEN, x.octets);
  }

  /** The body for one record and one list of edges, as pinned: the count, id, breed and age, then the edges. */
  lemma GoldenRecords(r: DogRecord, edges: EdgeBlob.EdgeList)
    requires RecordBlobs.FitsRecord(r)
    ensures
      RecordBlobs.Body(RecordBlobs.Contents([r], edges))
      == [1, 0, 0, 0, 0, 0, 0, 0] + (SIXTEEN + r.id.octets + LeU64(|r.breed|) + r.breed + LeU32(r.age))
         + EdgeBlob.Body(edges)
  {
    SmallNumbers(1);
    SmallNumbers(16);
    OneFrame(RecordBlobs.EncodeRecord, r);
  }

  /** What the fingerprint is taken over: counts, ids, breeds with their lengths, and the pairs; no age. */
  lemma GoldenFingerprint(r: DogRecord, e: Edge)
    requires RecordBlobs.FitsRecord(r)
    ensures
      RecordBlobs.Hashed(RecordBlobs.Contents([r], [e]))
      == [1, 0, 0, 0, 0, 0, 0, 0] + (r.id.octets + LeU64(|r.breed|) + r.breed)
         + [1, 0, 0, 0, 0, 0, 0, 0] + (e.0.octets + e.1.octets)
  {
    SmallNumbers(1);
    OneFrame(RecordBlobs.IdAndBreed, r);
    OneFrame(RecordBlobs.BothIds, e);
  }

  // ----- the insert log -----

  /** A version 2 file: its header, with no fingerprint, then entries of a kind, a length and a payload. */
  lemma InsertLogFile(tag: seq<byte>, e: InsertLog.RawEntry)
    ensures
      var b := InsertLog.Header(2, tag);
      && |b| == 28 && b[..8] == [71, 69, 78, 73, 78, 83, 76, 0] && b[8..12] == [2, 0, 0, 0]
      && b[12..20] == [0, 0, 0, 0, 0, 0, 0, 0] && b[20..28] == LeU64(Fnv.Hash(tag))
    ensures
      var f, n := InsertLog.Frame2(e), |e.payload|;
      |f| == 5 + n && f[0] == e.kind && f[1..5] == LeU32(n) && f[5..] == e.payload
  {
    SmallNumbers(2);
    SmallNumbers(0);
    Headers(InsertLog.MAGIC, 2, 0, tag, []);
    ThreePieces([e.kind], LeU32(|e.payload|), e.payload);
  }

  /** Kind zero is an item, kind one a tombstone, each with its encoder's payload. */
  lemma {:induction false} Kinds<T, K>(entries: seq<InsertLog.LogEntry<T, K>>, item: T -> InsertLog.Payload,
                                       key: K -> InsertLog.Payload, i: nat)
    requires i < |entries|
    ensures
      var raw := InsertLog.Encoded(entries, item, key);
      && |raw| == |entries|
      && raw[i] == match entries[i]
                   case Item(x) => InsertLog.Raw(0, item(x))
                   case Tombstone(k) => InsertLog.Raw(1, key(k))
  {
    if i > 0 {
      Kinds(entries[1..], item, key, i - 1);
    } else if |entries| > 1 {
      Kinds(entries[1..], item, key, 0);
    }
  }
}
