/**
 The byte image of the columnar ages file (src/durability/mmap_store.rs): a twelve-byte header,
 then N ids of sixteen bytes, then N ages of four, then N one-byte commit markers.
 N is not stored; it is the file length less the header, divided by twenty-one.
 */
module ColumnarImage {
  import opened Bytes
  import opened Slots

  const MAGIC: seq<byte> := [68, 79, 71, 77, 77, 65, 80, 0] // "DOGMMAP\0"
  const SCHEMA_VERSION: u32 := 1
  const COMMITTED: byte := 1

  datatype OpenError = NoSuchFile | InvalidMagic | SchemaVersionMismatch(found: u32)

  // ----- offsets -----

  function RecordCountFor(length: nat): nat
    requires length >= 12
  {
    (length - 12) / 21
  }

  function AgesStart(count: nat): nat { 12 + count * 16 }

  function MarkersStart(count: nat): nat { AgesStart(count) + count * 4 }

  function CountOf(b: seq<byte>): (count: nat)
    requires |b| >= 12
    ensures 12 + count * 21 <= |b| < 12 + count * 21 + 21
  {
    RecordCountFor(|b|)
  }

  // ----- reading -----

  function ReadHeader(b: seq<byte>): Option<OpenError> {
    if |b| < 12 || b[..8] != MAGIC then Some(InvalidMagic)
    else if ReadU32(b[8..12]) != SCHEMA_VERSION then Some(SchemaVersionMismatch(ReadU32(b[8..12])))
    else None
  }

  /** The twelve bytes a file of schema `version` starts with. */
  predicate StartsWithHeader(b: seq<byte>, version: u32) {
    |b| >= 12 && b[..12] == MAGIC + LeU32(version)
  }

  /**
   A header is accepted for exactly one byte string of twelve, refused by version for exactly those
   another version's build would have written, and called foreign otherwise.
   */
  lemma HeaderVerdicts(b: seq<byte>)
    ensures ReadHeader(b) == None <==> StartsWithHeader(b, SCHEMA_VERSION)
    ensures forall v: u32 ::
              ReadHeader(b) == Some(SchemaVersionMismatch(v)) <==> v != SCHEMA_VERSION && StartsWithHeader(b, v)
    ensures ReadHeader(b) == Some(InvalidMagic) <==> forall v: u32 :: !StartsWithHeader(b, v)
  {
    if |b| >= 12 && b[..8] == MAGIC {
      var found := ReadU32(b[8..12]);
      forall v: u32
        ensures StartsWithHeader(b, v) <==> v == found
      {
        VersionField(b, v);
      }
      assert StartsWithHeader(b, found);
    } else {
      forall v: u32
        ensures !StartsWithHeader(b, v)
      {
        if |b| >= 12 { assert b[..8] == b[..12][..8]; }
      }
    }
  }

  lemma VersionField(b: seq<byte>, v: u32)
    requires |b| >= 12 && b[..8] == MAGIC
    ensures StartsWithHeader(b, v) <==> ReadU32(b[8..12]) == v
  {
    var version := LeU32(v);
    U32RoundTrip(v);
    assert b[..12] == b[..8] + b[8..12];
    if StartsWithHeader(b, v) {
      assert b[8..12] == b[..12][8..12] == version;
    }
    if ReadU32(b[8..12]) == v {
      ReadU32Injective(b[8..12], version);
    }
  }

  function IdAt(b: seq<byte>, p: nat): Uuid
    requires |b| >= 12 && p < CountOf(b)
  {
    Uuid(b[12 + p * 16..12 + p * 16 + 16])
  }

  function AgeAt(b: seq<byte>, p: nat): u32
    requires |b| >= 12 && p < CountOf(b)
  {
    var start := AgesStart(CountOf(b)) + p * 4;
    ReadU32(b[start..start + 4])
  }

  predicate CommittedAt(b: seq<byte>, p: nat)
    requires |b| >= 12 && p < CountOf(b)
  {
    b[MarkersStart(CountOf(b)) + p] == COMMITTED
  }

  function SlotAt(b: seq<byte>, p: nat): Slot<u32>
    requires |b| >= 12 && p < CountOf(b)
  {
    Slot(IdAt(b, p), AgeAt(b, p), CommittedAt(b, p))
  }

  /** The image read as slots, committed or not. */
  function SlotsIn(b: seq<byte>): (slots: seq<Slot<u32>>)
    requires |b| >= 12
    ensures |slots| == CountOf(b)
    ensures forall p | 0 <= p < |slots| :: slots[p] == SlotAt(b, p)
  {
    seq(CountOf(b), p requires 0 <= p < CountOf(b) => SlotAt(b, p))
  }

  // ----- the image of a list -----

  /** `b` is the whole, committed image of `entries`: exact length, header and every region. */
  predicate Encodes(b: seq<byte>, entries: seq<(Uuid, u32)>) {
    && |b| == 12 + |entries| * 21
    && ReadHeader(b) == None
    && SlotsIn(b) == SlotsOf(entries)
  }

  /** An image is determined by what it decodes to: no byte of it is free. */
  lemma ImageIsDetermined(b: seq<byte>, c: seq<byte>, entries: seq<(Uuid, u32)>)
    requires Encodes(b, entries) && Encodes(c, entries)
    ensures b == c
  {
    var n := |entries|;
    forall k | 0 <= k < |b|
      ensures b[k] == c[k]
    {
      if k < 12 {
        HeaderByte(b, c, k);
      } else if k < AgesStart(n) {
        IdByte(b, c, (k - 12) / 16, k);
      } else if k < MarkersStart(n) {
        AgeByte(b, c, (k - AgesStart(n)) / 4, k);
      } else {
        MarkerByte(b, c, k - MarkersStart(n));
      }
    }
  }

  lemma HeaderByte(b: seq<byte>, c: seq<byte>, k: nat)
    requires ReadHeader(b) == None && ReadHeader(c) == None && k < 12
    ensures b[k] == c[k]
  {
    ReadU32Injective(b[8..12], c[8..12]);
    if k < 8 {
      assert b[k] == b[..8][k] && c[k] == c[..8][k];
    } else {
      assert b[k] == b[8..12][k - 8] && c[k] == c[8..12][k - 8];
    }
  }

  lemma MarkerByte(b: seq<byte>, c: seq<byte>, p: nat)
    requires |b| == |c| >= 12 && p < CountOf(b) && SlotsIn(b)[p].committed && SlotsIn(c)[p].committed
    ensures b[MarkersStart(CountOf(b)) + p] == c[MarkersStart(CountOf(b)) + p]
  {
    assert CommittedAt(b, p) && CommittedAt(c, p);
  }

  lemma IdByte(b: seq<byte>, c: seq<byte>, p: nat, k: nat)
    requires |b| == |c| >= 12 && p < CountOf(b) && SlotsIn(b)[p].id == SlotsIn(c)[p].id
    requires 12 + p * 16 <= k < 12 + p * 16 + 16
    ensures b[k] == c[k]
  {
    var at := 12 + p * 16;
    assert b[k] == b[at..at + 16][k - at] && c[k] == c[at..at + 16][k - at];
    assert IdAt(b, p) == IdAt(c, p);
  }

  lemma AgeByte(b: seq<byte>, c: seq<byte>, p: nat, k: nat)
    requires |b| == |c| >= 12 && p < CountOf(b) && SlotsIn(b)[p].value == SlotsIn(c)[p].value
    requires AgesStart(CountOf(b)) + p * 4 <= k < AgesStart(CountOf(b)) + p * 4 + 4
    ensures b[k] == c[k]
  {
    var at := AgesStart(CountOf(b)) + p * 4;
    assert AgeAt(b, p) == AgeAt(c, p);
    ReadU32Injective(b[at..at + 4], c[at..at + 4]);
    assert b[k] == b[at..at + 4][k - at] && c[k] == c[at..at + 4][k - at];
  }

  /** The image itself, byte by byte. */
  function ImageOf(entries: seq<(Uuid, u32)>): (b: seq<byte>)
    ensures |b| == 12 + |entries| * 21
  {
    seq(12 + |entries| * 21, k requires 0 <= k < 12 + |entries| * 21 => ImageByte(entries, k))
  }

  function ImageByte(entries: seq<(Uuid, u32)>, k: nat): byte
    requires k < 12 + |entries| * 21
  {
    var n := |entries|;
    if k < 8 then MAGIC[k]
    else if k < 12 then LeU32(SCHEMA_VERSION)[k - 8]
    else if k < AgesStart(n) then entries[(k - 12) / 16].0.octets[(k - 12) % 16]
    else if k < MarkersStart(n) then LeU32(entries[(k - AgesStart(n)) / 4].1)[(k - AgesStart(n)) % 4]
    else COMMITTED
  }

  /** Round trip: the image of any list of any length decodes to exactly that list, all committed. */
  lemma ImageRoundTrip(entries: seq<(Uuid, u32)>)
    ensures Encodes(ImageOf(entries), entries)
  {
    var b := ImageOf(entries);
    assert b[..8] == MAGIC;
    assert b[8..12] == LeU32(SCHEMA_VERSION);
    U32RoundTrip(SCHEMA_VERSION);
    forall p | 0 <= p < |entries|
      ensures SlotAt(b, p) == Slot(entries[p].0, entries[p].1, true)
    {
      ImageSlot(entries, p);
    }
    assert SlotsIn(b) == SlotsOf(entries);
  }

  lemma ImageSlot(entries: seq<(Uuid, u32)>, p: nat)
    requires p < |entries|
    ensures SlotAt(ImageOf(entries), p) == Slot(entries[p].0, entries[p].1, true)
  {
    var b := ImageOf(entries);
    assert CountOf(b) == |entries|;
    assert IdAt(b, p) == entries[p].0 by { ImageIdBytes(entries, p); }
    assert AgeAt(b, p) == entries[p].1 by {
      ImageAgeBytes(entries, p);
      U32RoundTrip(entries[p].1);
    }
    assert CommittedAt(b, p) by { ImageMarkerByte(entries, p); }
  }

  lemma ImageMarkerByte(entries: seq<(Uuid, u32)>, p: nat)
    requires p < |entries|
    ensures ImageOf(entries)[MarkersStart(|entries|) + p] == COMMITTED
  {
  }

  lemma ImageIdBytes(entries: seq<(Uuid, u32)>, p: nat)
    requires p < |entries|
    ensures ImageOf(entries)[12 + p * 16..12 + p * 16 + 16] == entries[p].0.octets
  {
    forall i | 0 <= i < 16
      ensures ImageByte(entries, 12 + p * 16 + i) == entries[p].0.octets[i]
    {
      assert (12 + p * 16 + i - 12) / 16 == p && (12 + p * 16 + i - 12) % 16 == i;
    }
  }

  lemma ImageAgeBytes(entries: seq<(Uuid, u32)>, p: nat)
    requires p < |entries|
    ensures
      var at := AgesStart(|entries|) + p * 4;
      ImageOf(entries)[at..at + 4] == LeU32(entries[p].1)
  {
    var start := AgesStart(|entries|);
    forall i | 0 <= i < 4
      ensures ImageByte(entries, start + p * 4 + i) == LeU32(entries[p].1)[i]
    {
      assert (start + p * 4 + i - start) / 4 == p && (start + p * 4 + i - start) % 4 == i;
    }
  }

  // ----- in-place writes -----

  /** The image with the four age bytes of position `p` replaced. */
  function WithAge(b: seq<byte>, p: nat, age: u32): (c: seq<byte>)
    requires |b| >= 12 && p < CountOf(b)
    ensures |c| == |b|
  {
    var start := AgesStart(CountOf(b)) + p * 4;
    b[..start] + LeU32(age) + b[start + 4..]
  }

  /** An age write touches that age alone: header, ids, markers and every other age stand. */
  lemma WithAgeWritesOneAge(b: seq<byte>, p: nat, age: u32)
    requires |b| >= 12 && p < CountOf(b)
    ensures WithAge(b, p, age)[..12] == b[..12]
    ensures ReadHeader(WithAge(b, p, age)) == ReadHeader(b)
    ensures SlotsIn(WithAge(b, p, age)) == SlotsIn(b)[p := SlotsIn(b)[p].(value := age)]
  {
    WithAgeElsewhere(b, p, age, 0, 12);
    WithAgeElsewhere(b, p, age, 0, 8);
    WithAgeElsewhere(b, p, age, 8, 4);
    var c := WithAge(b, p, age);
    forall q | 0 <= q < CountOf(b)
      ensures SlotAt(c, q) == if q == p then SlotAt(b, p).(value := age) else SlotAt(b, q)
    {
      WithAgeSlot(b, p, age, q);
    }
  }

  lemma WithAgeSlot(b: seq<byte>, p: nat, age: u32, q: nat)
    requires |b| >= 12 && p < CountOf(b) && q < CountOf(b)
    ensures SlotAt(WithAge(b, p, age), q) == if q == p then SlotAt(b, p).(value := age) else SlotAt(b, q)
  {
    WithAgeKeepsId(b, p, age, q);
    WithAgeKeepsMarker(b, p, age, q);
    if q == p { WithAgeHere(b, p, age); } else { WithAgeKeepsAge(b, p, age, q); }
  }

  lemma WithAgeKeepsId(b: seq<byte>, p: nat, age: u32, q: nat)
    requires |b| >= 12 && p < CountOf(b) && q < CountOf(b)
    ensures IdAt(WithAge(b, p, age), q) == IdAt(b, q)
  {
    WithAgeElsewhere(b, p, age, 12 + q * 16, 16);
  }

  lemma WithAgeKeepsMarker(b: seq<byte>, p: nat, age: u32, q: nat)
    requires |b| >= 12 && p < CountOf(b) && q < CountOf(b)
    ensures CommittedAt(WithAge(b, p, age), q) == CommittedAt(b, q)
  {
    var c, at := WithAge(b, p, age), MarkersStart(CountOf(b)) + q;
    WithAgeElsewhere(b, p, age, at, 1);
    assert c[at] == c[at..at + 1][0] && b[at] == b[at..at + 1][0];
  }

  lemma WithAgeKeepsAge(b: seq<byte>, p: nat, age: u32, q: nat)
    requires |b| >= 12 && p < CountOf(b) && q < CountOf(b) && q != p
    ensures AgeAt(WithAge(b, p, age), q) == AgeAt(b, q)
  {
    WithAgeElsewhere(b, p, age, AgesStart(CountOf(b)) + q * 4, 4);
  }

  lemma WithAgeHere(b: seq<byte>, p: nat, age: u32)
    requires |b| >= 12 && p < CountOf(b)
    ensures AgeAt(WithAge(b, p, age), p) == age
  {
    var start := AgesStart(CountOf(b)) + p * 4;
    assert WithAge(b, p, age)[start..start + 4] == LeU32(age);
    U32RoundTrip(age);
  }

  lemma WithAgeElsewhere(b: seq<byte>, p: nat, age: u32, at: nat, width: nat)
    requires |b| >= 12 && p < CountOf(b) && at + width <= |b|
    requires at + width <= AgesStart(CountOf(b)) + p * 4 || AgesStart(CountOf(b)) + p * 4 + 4 <= at
    ensures WithAge(b, p, age)[at..at + width] == b[at..at + width]
  {
  }

  // ----- building an image in a buffer -----

  /** `buf[at..at + |bytes|].copy_from_slice(bytes)`. */
  method CopyInto(buf: array<byte>, at: nat, bytes: seq<byte>)
    requires at + |bytes| <= buf.Length
    modifies buf
    ensures forall k | 0 <= k < buf.Length ::
              buf[k] == if at <= k < at + |bytes| then bytes[k - at] else old(buf[k])
  {
    forall k | at <= k < at + |bytes| {
      buf[k] := bytes[k - at];
    }
  }

  /** Which bytes the loop has filled once `done` entries are written. */
  predicate Filled(k: nat, count: nat, done: nat)
    requires k < 12 + count * 21
  {
    if k < 12 then true
    else if k < AgesStart(count) then (k - 12) / 16 < done
    else if k < MarkersStart(count) then (k - AgesStart(count)) / 4 < done
    else k - MarkersStart(count) < done
  }

  method BuildImage(entries: seq<(Uuid, u32)>) returns (buf: array<byte>)
    ensures fresh(buf)
    ensures buf[..] == ImageOf(entries)
  {
    var n := |entries|;
    buf := new byte[12 + n * 21](_ => 0);
    CopyInto(buf, 0, MAGIC);
    CopyInto(buf, 8, LeU32(SCHEMA_VERSION));
    for p := 0 to n
      invariant buf.Length == 12 + n * 21
      invariant forall k | 0 <= k < buf.Length && Filled(k, n, p) :: buf[k] == ImageByte(entries, k)
    {
      WriteEntry(buf, entries, p);
    }
  }

  method WriteEntry(buf: array<byte>, entries: seq<(Uuid, u32)>, p: nat)
    requires p < |entries| && buf.Length == 12 + |entries| * 21
    requires forall k | 0 <= k < buf.Length && Filled(k, |entries|, p) :: buf[k] == ImageByte(entries, k)
    modifies buf
    ensures forall k | 0 <= k < buf.Length && Filled(k, |entries|, p + 1) :: buf[k] == ImageByte(entries, k)
  {
    var n := |entries|;
    CopyInto(buf, 12 + p * 16, entries[p].0.octets);
    CopyInto(buf, AgesStart(n) + p * 4, LeU32(entries[p].1));
    buf[MarkersStart(n) + p] := COMMITTED;
  }
}
