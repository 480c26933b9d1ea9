/**
 The slot file (src/generic/slot_file.rs): a twelve-byte header, then fixed-width slots of an id,
 a value and a commit marker. The value here is eight bytes wide, read as an unsigned number: for
 an `i64` field, its bit pattern.
 */
module SlotFiles {
  import opened Bytes
  import opened Slots
  import opened Framing

  type Value = u64

  const MAGIC: seq<byte> := [71, 77, 77, 65, 80, 83, 84, 0] // "GMMAPST\0"
  const SCHEMA_VERSION: u32 := 2

  datatype OpenError =
    | InvalidMagic
    | SchemaVersionMismatch(found: u32)
    | SlotWidthMismatch(bodyLength: nat)

  type Entry = (Uuid, Value)

  function Header(): (b: seq<byte>)
    ensures |b| == 12
  {
    MAGIC + LeU32(SCHEMA_VERSION)
  }

  function CheckHeader(b: seq<byte>): Option<OpenError> {
    if |b| < 12 || b[..8] != MAGIC then Some(InvalidMagic)
    else if ReadU32(b[8..12]) != SCHEMA_VERSION then Some(SchemaVersionMismatch(ReadU32(b[8..12])))
    else None
  }

  /** Magic and version two are accepted, magic and another version refused by that version, anything else foreign. */
  lemma HeaderVerdicts(b: seq<byte>, version: u32)
    ensures |b| < 12 || b[..8] != MAGIC ==> CheckHeader(b) == Some(InvalidMagic)
    ensures |b| >= 12 && b[..12] == MAGIC + LeU32(version) ==>
              CheckHeader(b) == if version == 2 then None else Some(SchemaVersionMismatch(version))
  {
    if |b| >= 12 && b[..12] == MAGIC + LeU32(version) {
      assert b[..8] == b[..12][..8] == MAGIC;
      assert b[8..12] == b[..12][8..12] == LeU32(version);
      U32RoundTrip(version);
    }
  }

  // ----- the file as slots -----

  function SlotCount(b: seq<byte>): (n: nat)
    requires |b| >= 12
    ensures 12 + n * 25 <= |b| < 12 + n * 25 + 25
  {
    (|b| - 12) / 25
  }

  /** Bytes past the last whole slot. */
  function TrailingPartialBytes(b: seq<byte>): nat
    requires |b| >= 12
  {
    (|b| - 12) % 25
  }

  function SlotAt(b: seq<byte>, p: nat): Slot<Value>
    requires |b| >= 12 && p < SlotCount(b)
  {
    var start := 12 + p * 25;
    Slot(Uuid(b[start..start + 16]), ReadU64(b[start + 16..start + 24]), b[start + 24] == 1)
  }

  function SlotsIn(b: seq<byte>): (slots: seq<Slot<Value>>)
    requires |b| >= 12
    ensures |slots| == SlotCount(b)
    ensures forall p | 0 <= p < |slots| :: slots[p] == SlotAt(b, p)
  {
    seq(SlotCount(b), p requires 0 <= p < SlotCount(b) => SlotAt(b, p))
  }

  /** Header checked, and nothing but whole slots after it. */
  predicate WellFormed(b: seq<byte>) {
    |b| >= 12 && CheckHeader(b) == None && TrailingPartialBytes(b) == 0
  }

  // ----- the three kinds of write -----

  function SlotBytes(e: Entry): (b: seq<byte>)
    ensures |b| == 25
  {
    e.0.octets + LeU64(e.1) + [1]
  }

  function WithValue(b: seq<byte>, p: nat, value: Value): (c: seq<byte>)
    requires |b| >= 12 && p < SlotCount(b)
    ensures |c| == |b|
  {
    var start := 12 + p * 25 + 16;
    b[..start] + LeU64(value) + b[start + 8..]
  }

  function WithoutMarker(b: seq<byte>, p: nat): (c: seq<byte>)
    requires |b| >= 12 && p < SlotCount(b)
    ensures |c| == |b|
  {
    b[12 + p * 25 + 24 := 0]
  }

  lemma SlotIsLocal(b: seq<byte>, c: seq<byte>, p: nat)
    requires |b| >= 12 && |c| >= 12 && p < SlotCount(b) && p < SlotCount(c)
    requires b[12 + p * 25..12 + p * 25 + 25] == c[12 + p * 25..12 + p * 25 + 25]
    ensures SlotAt(b, p) == SlotAt(c, p)
  {
    var at := 12 + p * 25;
    var s, t := b[at..at + 25], c[at..at + 25];
    SliceOfSlice(b, at, at + 25, 0, 16);
    SliceOfSlice(c, at, at + 25, 0, 16);
    SliceOfSlice(b, at, at + 25, 16, 24);
    SliceOfSlice(c, at, at + 25, 16, 24);
    assert b[at + 24] == s[24] && c[at + 24] == t[24];
  }

  lemma HeaderIsLocal(b: seq<byte>, c: seq<byte>)
    requires |b| >= 12 && |c| >= 12 && b[..12] == c[..12]
    ensures CheckHeader(b) == CheckHeader(c)
  {
    assert b[..8] == b[..12][..8] && c[..8] == c[..12][..8];
    assert b[8..12] == b[..12][8..12] && c[8..12] == c[..12][8..12];
  }

  /** Outside the bytes written, nothing moves. */
  lemma UntouchedSlot(b: seq<byte>, c: seq<byte>, q: nat)
    requires |b| == |c| >= 12 && q < SlotCount(b)
    requires forall k | 12 + q * 25 <= k < 12 + q * 25 + 25 :: c[k] == b[k]
    ensures SlotAt(c, q) == SlotAt(b, q)
  {
    var at := 12 + q * 25;
    assert b[at..at + 25] == c[at..at + 25];
    SlotIsLocal(b, c, q);
  }

  /** A value write changes one slot's value, and no id, marker or header byte. */
  lemma WithValueWritesOneValue(b: seq<byte>, p: nat, value: Value)
    requires |b| >= 12 && p < SlotCount(b)
    ensures CheckHeader(WithValue(b, p, value)) == CheckHeader(b)
    ensures SlotsIn(WithValue(b, p, value)) == SlotsIn(b)[p := SlotsIn(b)[p].(value := value)]
  {
    var c, start := WithValue(b, p, value), 12 + p * 25 + 16;
    assert c[..12] == b[..12];
    HeaderIsLocal(b, c);
    forall q | 0 <= q < SlotCount(b)
      ensures SlotAt(c, q) == if q == p then SlotAt(b, p).(value := value) else SlotAt(b, q)
    {
      if q == p {
        assert c[start..start + 8] == LeU64(value);
        U64RoundTrip(value);
        assert c[start - 16..start] == b[start - 16..start];
      } else {
        UntouchedSlot(b, c, q);
      }
    }
  }

  lemma WithoutMarkerRetiresOneSlot(b: seq<byte>, p: nat)
    requires |b| >= 12 && p < SlotCount(b)
    ensures CheckHeader(WithoutMarker(b, p)) == CheckHeader(b)
    ensures SlotsIn(WithoutMarker(b, p)) == SlotsIn(b)[p := SlotsIn(b)[p].(committed := false)]
  {
    var c, at := WithoutMarker(b, p), 12 + p * 25;
    assert c[..12] == b[..12];
    HeaderIsLocal(b, c);
    forall q | 0 <= q < SlotCount(b)
      ensures SlotAt(c, q) == if q == p then SlotAt(b, p).(committed := false) else SlotAt(b, q)
    {
      if q == p {
        assert c[at..at + 16] == b[at..at + 16] && c[at + 16..at + 24] == b[at + 16..at + 24];
      } else {
        UntouchedSlot(b, c, q);
      }
    }
  }

  /** An appended slot becomes the last one, committed. */
  lemma AppendAddsOneSlot(b: seq<byte>, e: Entry)
    requires WellFormed(b)
    ensures WellFormed(b + SlotBytes(e))
    ensures SlotsIn(b + SlotBytes(e)) == SlotsIn(b) + [Slot(e.0, e.1, true)]
  {
    var c, n := b + SlotBytes(e), SlotCount(b);
    assert c[..12] == b[..12];
    HeaderIsLocal(b, c);
    assert |b| == 12 + n * 25 && SlotCount(c) == n + 1;
    AppendedSlot(b, e);
    forall q | 0 <= q < n
      ensures SlotAt(c, q) == SlotAt(b, q)
    {
      assert c[12 + q * 25..12 + q * 25 + 25] == b[12 + q * 25..12 + q * 25 + 25];
      SlotIsLocal(b, c, q);
    }
  }

  lemma AppendedSlot(b: seq<byte>, e: Entry)
    requires |b| >= 12 && TrailingPartialBytes(b) == 0
    ensures SlotCount(b + SlotBytes(e)) == SlotCount(b) + 1
    ensures SlotAt(b + SlotBytes(e), SlotCount(b)) == Slot(e.0, e.1, true)
  {
    var c, at := b + SlotBytes(e), |b|;
    assert at == 12 + SlotCount(b) * 25;
    assert c[at..at + 16] == e.0.octets;
    assert c[at + 16..at + 24] == LeU64(e.1);
    assert c[at + 24] == 1;
    U64RoundTrip(e.1);
  }

  // ----- the image of a list -----

  function ImageOf(entries: seq<Entry>): seq<byte> {
    Header() + Flatten(SlotBytes, entries)
  }

  lemma HeaderAlone()
    ensures WellFormed(Header()) && SlotsIn(Header()) == []
  {
    assert Header()[..8] == MAGIC && Header()[8..12] == LeU32(SCHEMA_VERSION);
    U32RoundTrip(SCHEMA_VERSION);
  }

  /** A file appended to slot after slot reads as its old slots and then those. */
  lemma {:induction false} AppendsAddSlots(b: seq<byte>, entries: seq<Entry>)
    requires WellFormed(b)
    ensures WellFormed(b + Flatten(SlotBytes, entries))
    ensures SlotsIn(b + Flatten(SlotBytes, entries)) == SlotsIn(b) + SlotsOf(entries)
    decreases |entries|
  {
    if entries == [] {
      assert b + [] == b;
    } else {
      var first, rest := SlotBytes(entries[0]), Flatten(SlotBytes, entries[1..]);
      AppendAddsOneSlot(b, entries[0]);
      AppendsAddSlots(b + first, entries[1..]);
      ThreePieces(b, first, rest);
      SlotsOfFirst(SlotsIn(b), entries);
    }
  }

  lemma SlotsOfFirst(slots: seq<Slot<Value>>, entries: seq<Entry>)
    requires entries != []
    ensures
      slots + [Slot(entries[0].0, entries[0].1, true)] + SlotsOf(entries[1..]) == slots + SlotsOf(entries)
  {
  }

  /** Round trip: a freshly written file is well formed and reads as its list, all committed. */
  lemma ImageRoundTrip(entries: seq<Entry>)
    ensures WellFormed(ImageOf(entries))
    ensures SlotsIn(ImageOf(entries)) == SlotsOf(entries)
  {
    HeaderAlone();
    AppendsAddSlots(Header(), entries);
  }

  // ----- cut appends -----

  lemma {:induction false} SlotsLength(entries: seq<Entry>)
    ensures |Flatten(SlotBytes, entries)| == 25 * |entries|
  {
    if entries != [] {
      SlotsLength(entries[1..]);
    }
  }

  /**
   Slots appended one after the other and cut at any byte: what is left is a whole file exactly when the
   cut falls on a slot boundary, and then holds the slots before it. Anywhere else an open that insists
   on whole slots refuses the file.
   */
  lemma CutAppendsAreWholeIff(b: seq<byte>, entries: seq<Entry>, k: nat)
    requires WellFormed(b) && k <= 25 * |entries|
    ensures |Flatten(SlotBytes, entries)| == 25 * |entries|
    ensures
      var cut := b + Flatten(SlotBytes, entries)[..k];
      && (WellFormed(cut) <==> k % 25 == 0)
      && (k % 25 == 0 ==> SlotsIn(cut) == SlotsIn(b) + SlotsOf(entries[..k / 25]))
  {
    SlotsLength(entries);
    WholeSlotsIff(b, Flatten(SlotBytes, entries)[..k]);
    if k % 25 == 0 {
      CutOnBoundary(entries, k);
      AppendsAddSlots(b, entries[..k / 25]);
    }
  }

  lemma WholeSlotsIff(b: seq<byte>, tail: seq<byte>)
    requires WellFormed(b)
    ensures WellFormed(b + tail) <==> |tail| % 25 == 0
  {
    assert (b + tail)[..12] == b[..12];
    HeaderIsLocal(b, b + tail);
  }

  lemma CutOnBoundary(entries: seq<Entry>, k: nat)
    requires k % 25 == 0 && k <= |Flatten(SlotBytes, entries)|
    ensures k / 25 <= |entries| && Flatten(SlotBytes, entries)[..k] == Flatten(SlotBytes, entries[..k / 25])
  {
    var n := WholeFrames(SlotBytes, entries, k);
    var whole := Flatten(SlotBytes, entries[..n]);
    CutAt(SlotBytes, entries, k);
    SlotsLength(entries[..n]);
    if n < |entries| { assert SlotBytes(entries[n])[..0] == []; }
    assert whole + [] == whole;
  }

  // ----- the committed pairs -----

  function PairsOf(slots: seq<Slot<Value>>, bound: nat): map<Uuid, (nat, Value)>
    requires bound <= |slots|
  {
    if bound == 0 then map[]
    else
      var earlier := PairsOf(slots, bound - 1);
      var last := slots[bound - 1];
      if last.committed then earlier[last.id := (bound - 1, last.value)] else earlier
  }

  /** Their positions are the index of the file, their values what the file holds for each id. */
  lemma {:induction false} PairsArePositionsAndValues(slots: seq<Slot<Value>>, bound: nat)
    requires bound <= |slots|
    ensures PairsOf(slots, bound).Keys == LastCommittedBelow(slots, bound).Keys
    ensures forall id | id in PairsOf(slots, bound) ::
              var p := LastCommittedBelow(slots, bound)[id];
              p < bound && PairsOf(slots, bound)[id] == (p, slots[p].value)
  {
    if bound > 0 {
      PairsArePositionsAndValues(slots, bound - 1);
    }
  }

  // ----- the mapped file -----

  /** What the directory holds: the file at the path, and the rewrite's file beside it. */
  datatype FileState = FileState(path: seq<byte>, temp: Option<seq<byte>>)

  /** Some first part of the bytes has been written at the end. */
  predicate DuringAppend(d: FileState, before: FileState, bytes: seq<byte>) {
    exists k :: 0 <= k <= |bytes| && d == FileState(before.path + bytes[..k], before.temp)
  }

  /** The new file is created empty beside the path, sized, filled through its mapping, then takes the path's place. */
  predicate DuringRewrite(d: FileState, before: FileState, image: seq<byte>) {
    || d == FileState(before.path, Some([]))
    || (d.path == before.path && d.temp.Some? && exists k :: 0 <= k <= |image| && d.temp.value == Filled(image, k))
    || d == FileState(image, None)
  }

  /** A file of the image's length with its first `k` bytes written, and zeros after them. */
  function Filled(image: seq<byte>, k: nat): (b: seq<byte>)
    requires k <= |image|
    ensures |b| == |image|
  {
    image[..k] + seq(|image| - k, i => 0)
  }

  /** The states an append passes through, a byte at a time. */
  function AppendTrace(before: FileState, bytes: seq<byte>): seq<FileState> {
    seq(|bytes|, k requires 0 <= k < |bytes| => FileState(before.path + bytes[..k + 1], before.temp))
  }

  /** And a rewrite: the new file created, sized, filled from the front, renamed. */
  function RewriteTrace(before: FileState, image: seq<byte>): seq<FileState> {
    [FileState(before.path, Some([]))]
    + seq(|image| + 1, k requires 0 <= k <= |image| => FileState(before.path, Some(Filled(image, k))))
    + [FileState(image, None)]
  }

  lemma TracesAreDuring(before: FileState, bytes: seq<byte>, i: nat)
    ensures i < |bytes| ==> DuringAppend(AppendTrace(before, bytes)[i], before, bytes)
    ensures i < |RewriteTrace(before, bytes)| ==> DuringRewrite(RewriteTrace(before, bytes)[i], before, bytes)
  {
    if i < |bytes| { assert AppendTrace(before, bytes)[i] == FileState(before.path + bytes[..i + 1], before.temp); }
    if 0 < i < |bytes| + 2 { assert RewriteTrace(before, bytes)[i].temp == Some(Filled(bytes, i - 1)); }
  }

  /** One append after another is an append of both. */
  lemma AppendTwice(before: FileState, a: seq<byte>, b: seq<byte>)
    ensures AppendTrace(before, a + b)
            == AppendTrace(before, a) + AppendTrace(before.(path := before.path + a), b)
  {
    var whole, first := AppendTrace(before, a + b), AppendTrace(before, a);
    var second := AppendTrace(before.(path := before.path + a), b);
    forall k | 0 <= k < |a + b|
      ensures whole[k] == (first + second)[k]
    {
      if k < |a| {
        assert (a + b)[..k + 1] == a[..k + 1];
      } else {
        assert (a + b)[..k + 1] == a + b[..k + 1 - |a|];
        assert before.path + (a + b[..k + 1 - |a|]) == before.path + a + b[..k + 1 - |a|];
      }
    }
  }

  class SlotFile {
    var mmap: seq<byte>
    var temp: Option<seq<byte>>
    ghost var seen: seq<FileState>

    constructor (bytes: seq<byte>)
      ensures mmap == bytes && temp == None && seen == []
    {
      mmap, temp, seen := bytes, None, [];
    }

    ghost function State(): FileState
      reads this
    {
      FileState(mmap, temp)
    }

    ghost predicate Valid()
      reads this
    {
      WellFormed(mmap)
    }

    ghost function Contents(): seq<Slot<Value>>
      reads this
      requires Valid()
    {
      SlotsIn(mmap)
    }

    method ReadValue(position: nat) returns (value: Value)
      requires Valid() && position < |Contents()|
      ensures value == Contents()[position].value
    {
      var start := 12 + position * 25 + 16;
      value := ReadU64(mmap[start..start + 8]);
    }

    method WriteValue(position: nat, value: Value)
      requires Valid() && position < |Contents()|
      modifies this
      ensures Valid() && Contents() == old(Contents())[position := old(Contents())[position].(value := value)]
      ensures temp == old(temp) && seen == old(seen)
    {
      WithValueWritesOneValue(mmap, position, value);
      mmap := WithValue(mmap, position, value);
    }

    method ClearMarker(position: nat)
      requires Valid() && position < |Contents()|
      modifies this
      ensures Valid() && Contents() == old(Contents())[position := old(Contents())[position].(committed := false)]
      ensures temp == old(temp) && seen == old(seen)
    {
      WithoutMarkerRetiresOneSlot(mmap, position);
      mmap := WithoutMarker(mmap, position);
    }

    method SlotBytesAt(position: nat) returns (slot: Slot<Value>)
      requires Valid() && position < |Contents()|
      ensures slot == Contents()[position]
    {
      var start := 12 + position * 25;
      slot := Slot(Uuid(mmap[start..start + 16]), ReadU64(mmap[start + 16..start + 24]), mmap[start + 24] == 1);
    }

    /** Every committed `(position, value)`, by id; a later slot of the same id replaces an earlier one. */
    method CommittedPairs() returns (persisted: map<Uuid, (nat, Value)>)
      requires Valid()
      ensures persisted == PairsOf(Contents(), |Contents()|)
    {
      persisted := map[];
      ghost var slots := Contents();
      for p := 0 to (|mmap| - 12) / 25
        invariant persisted == PairsOf(slots, p)
      {
        var slot := SlotBytesAt(p);
        if slot.committed {
          persisted := persisted[slot.id := (p, slot.value)];
        }
      }
    }

    /** `create`'s truncating write in place; there is no earlier generation to protect. */
    method WriteFresh(entries: seq<Entry>)
      modifies this`mmap
      ensures Valid() && mmap == ImageOf(entries) && Contents() == SlotsOf(entries)
    {
      var image := BuildImage(entries);
      ImageRoundTrip(entries);
      mmap := image;
    }

    /** One write of `bytes` at the end, which a crash can cut anywhere. */
    method WriteAll(bytes: seq<byte>)
      modifies this
      ensures mmap == old(mmap) + bytes && temp == old(temp)
      ensures seen == old(seen) + AppendTrace(old(State()), bytes)
    {
      ghost var trace := AppendTrace(State(), bytes);
      assert old(mmap) + bytes[..0] == old(mmap);
      for j := 0 to |bytes|
        invariant mmap == old(mmap) + bytes[..j] && temp == old(temp)
        invariant seen == old(seen) + trace[..j]
      {
        assert bytes[..j + 1] == bytes[..j] + [bytes[j]];
        mmap := mmap + [bytes[j]];
        assert mmap == old(mmap) + bytes[..j + 1];
        seen := seen + [State()];
        assert trace[..j + 1] == trace[..j] + [trace[j]];
      }
      assert bytes[..|bytes|] == bytes && trace[..|bytes|] == trace;
    }

    /** One write; the slot's position is read back from where it landed. */
    method AppendCommittedSlot(entry: Entry) returns (position: nat)
      requires Valid()
      modifies this
      ensures Valid() && |Contents()| == |old(Contents())| + 1 && position == |old(Contents())|
      ensures mmap == old(mmap) + SlotBytes(entry) && temp == old(temp)
      ensures seen == old(seen) + AppendTrace(old(State()), SlotBytes(entry))
    {
      AppendAddsOneSlot(mmap, entry);
      WriteAll(SlotBytes(entry));
      position := (|mmap| - 12) / 25 - 1;
    }

    /** Slot after slot, each landing at the end. */
    method AppendCommittedSlots(entries: seq<Entry>) returns (positions: seq<nat>)
      requires Valid()
      modifies this
      ensures Valid() && Contents() == old(Contents()) + SlotsOf(entries)
      ensures mmap == old(mmap) + Flatten(SlotBytes, entries) && temp == old(temp)
      ensures |positions| == |entries|
      ensures forall i | 0 <= i < |entries| :: positions[i] == |old(Contents())| + i
      ensures seen == old(seen) + AppendTrace(old(State()), Flatten(SlotBytes, entries))
    {
      positions := [];
      assert mmap + [] == mmap;
      for i := 0 to |entries|
        invariant mmap == old(mmap) + Flatten(SlotBytes, entries[..i]) && temp == old(temp)
        invariant Valid() && |Contents()| == |old(Contents())| + i
        invariant |positions| == i
        invariant forall j | 0 <= j < i :: positions[j] == |old(Contents())| + j
        invariant seen == old(seen) + AppendTrace(old(State()), Flatten(SlotBytes, entries[..i]))
      {
        var position := AppendCommittedSlot(entries[i]);
        NextSlot(old(mmap), entries, i);
        NextTrace(old(State()), entries, i);
        positions := positions + [position];
      }
      assert entries[..|entries|] == entries;
      AppendsAddSlots(old(mmap), entries);
    }

    /** `create` at the path beside: opened truncated, `set_len`, then written through the mapping from the front. */
    method WriteTemp(image: seq<byte>)
      modifies this
      ensures mmap == old(mmap) && temp == Some(image)
      ensures seen == old(seen) + RewriteTrace(old(State()), image)[..|image| + 2]
    {
      ghost var trace := RewriteTrace(State(), image);
      temp := Some([]);
      seen := seen + [State()];
      var done := Filled(image, 0);
      temp := Some(done);
      seen := seen + [State()];
      assert trace[..2] == [trace[0], trace[1]];
      for k := 0 to |image|
        invariant done == Filled(image, k) && temp == Some(done) && mmap == old(mmap)
        invariant seen == old(seen) + trace[..k + 2]
      {
        FillOneMore(image, k);
        done := done[k := image[k]];
        temp := Some(done);
        seen := seen + [State()];
        assert trace[..k + 3] == trace[..k + 2] + [trace[k + 2]];
      }
      assert Filled(image, |image|) == image;
    }

    /** Written whole beside the file and renamed over it: the file is the old one or the new one. */
    method Rewrite(entries: seq<Entry>)
      modifies this
      ensures Valid() && mmap == ImageOf(entries) && Contents() == SlotsOf(entries) && temp == None
      ensures seen == old(seen) + RewriteTrace(old(State()), ImageOf(entries))
    {
      var image := BuildImage(entries);
      WriteTemp(image);
      ImageRoundTrip(entries);
      mmap, temp := image, None;
      seen := seen + [State()];
      ghost var trace := RewriteTrace(old(State()), image);
      assert trace == trace[..|image| + 2] + [trace[|image| + 2]];
    }
  }

  lemma NextTrace(before: FileState, entries: seq<Entry>, i: nat)
    requires i < |entries|
    ensures
      AppendTrace(before, Flatten(SlotBytes, entries[..i + 1]))
      == AppendTrace(before, Flatten(SlotBytes, entries[..i]))
         + AppendTrace(before.(path := before.path + Flatten(SlotBytes, entries[..i])), SlotBytes(entries[i]))
  {
    assert entries[..i + 1] == entries[..i] + [entries[i]];
    FlattenSnoc(SlotBytes, entries[..i], entries[i]);
    AppendTwice(before, Flatten(SlotBytes, entries[..i]), SlotBytes(entries[i]));
  }

  lemma FillOneMore(image: seq<byte>, k: nat)
    requires k < |image|
    ensures Filled(image, k)[k := image[k]] == Filled(image, k + 1)
  {
  }

  lemma NextSlot(start: seq<byte>, entries: seq<Entry>, i: nat)
    requires i < |entries|
    ensures start + Flatten(SlotBytes, entries[..i]) + SlotBytes(entries[i])
            == start + Flatten(SlotBytes, entries[..i + 1])
  {
    assert entries[..i + 1] == entries[..i] + [entries[i]];
    FlattenSnoc(SlotBytes, entries[..i], entries[i]);
    ThreePieces(start, Flatten(SlotBytes, entries[..i]), SlotBytes(entries[i]));
  }

  /** Header first, then slot after slot, each with its marker set last. */
  method BuildImage(entries: seq<Entry>) returns (image: seq<byte>)
    ensures image == ImageOf(entries)
  {
    image := Header();
    assert image + [] == image;
    for i := 0 to |entries|
      invariant image == Header() + Flatten(SlotBytes, entries[..i])
    {
      NextSlot(Header(), entries, i);
      image := image + SlotBytes(entries[i]);
    }
    assert entries[..|entries|] == entries;
  }
}
