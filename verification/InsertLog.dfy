/**
 The insert log (src/generic/insert_log.rs): after a tagged header, entries of a kind byte, a
 length and a payload. Version 1 had no kind byte; it is still read, every entry an item, and is
 rewritten as version 2 before anything is appended to it. A torn tail is dropped when read.
 */
module InsertLog {
  import opened Bytes
  import opened Framing
  import opened BlobHeader
  import opened Fnv
  import opened Rewrites

  const MAGIC: Magic := [71, 69, 78, 73, 78, 83, 76, 0] // "GENINSL\0"
  const KIND_ITEM: byte := 0
  const KIND_TOMBSTONE: byte := 1

  /** A payload whose length fits the four-byte prefix. */
  type Payload = p: seq<byte> | |p| < 0x1_0000_0000

  datatype RawEntry = Raw(kind: byte, payload: Payload)

  // ----- frames -----

  function Frame2(e: RawEntry): (b: seq<byte>)
    ensures |b| == 5 + |e.payload|
  {
    [e.kind] + LeU32(|e.payload|) + e.payload
  }

  function Frame1(e: RawEntry): (b: seq<byte>)
    ensures |b| == 4 + |e.payload|
  {
    LeU32(|e.payload|) + e.payload
  }

  function Header(version: u32, tag: seq<byte>): (b: seq<byte>)
    ensures |b| == 28
  {
    EncodeTaggedImage(MAGIC, version, 0, tag, [])
  }

  /** A version-2 file holding `entries`. */
  function Log2(tag: seq<byte>, entries: seq<RawEntry>): seq<byte> {
    Header(2, tag) + Flatten(Frame2, entries)
  }

  /** A version-1 file holding the items `entries`. */
  function Log1(tag: seq<byte>, entries: seq<RawEntry>): seq<byte> {
    Header(1, tag) + Flatten(Frame1, entries)
  }

  predicate AllItems(entries: seq<RawEntry>) {
    forall i | 0 <= i < |entries| :: entries[i].kind == KIND_ITEM
  }

  // ----- reading -----

  /** Where the payload behind the length at `at` ends, if it is all there. */
  function PayloadEnd(b: seq<byte>, at: nat): (end: Option<nat>)
    ensures end.Some? ==> at + 4 <= end.value <= |b| && end.value - at - 4 < 0x1_0000_0000
  {
    if at + 4 > |b| || at + 4 + ReadU32(b[at..at + 4]) > |b| then None
    else Some(at + 4 + ReadU32(b[at..at + 4]))
  }

  datatype Next = Torn | Whole(e: RawEntry, end: nat)

  /** The entry at `pos` and where it ends, if it is all there. */
  function NextEntry(b: seq<byte>, pos: nat, version: u32): (n: Next)
    ensures n.Whole? ==> pos < n.end <= |b|
  {
    var at := if version == 1 then pos else pos + 1;
    match PayloadEnd(b, at)
    case None => Torn
    case Some(end) => Whole(Raw(if version == 1 then KIND_ITEM else b[pos], b[at + 4..end]), end)
  }

  /** Every complete entry from `pos` on; the walk ends at the first that is not all there. */
  function RawFrom(b: seq<byte>, pos: nat, version: u32): seq<RawEntry>
    decreases |b| + 1 - pos
  {
    match NextEntry(b, pos, version)
    case Torn => []
    case Whole(e, end) => [e] + RawFrom(b, end, version)
  }

  function OnDiskVersion(file: Option<seq<byte>>): Option<u32> {
    if file.Some? && |file.value| >= 12 then Some(ReadU32(file.value[8..12])) else None
  }

  function ReadRaw(file: Option<seq<byte>>, tag: seq<byte>): Result<seq<RawEntry>, Cause> {
    if file == None then Ok([])
    else
      var version := if OnDiskVersion(file) == Some(1) then 1 else 2;
      match ParseTaggedHeader(file.value, MAGIC, version, tag)
      case Err(cause) => Err(cause)
      case Ok(_) => Ok(RawFrom(file.value, 28, version))
  }

  // ----- typed reading -----

  datatype LogEntry<T, K> = Item(item: T) | Tombstone(key: K)

  datatype EntryError = UnknownKind(kind: byte) | DoesNotDecode | Unreadable(cause: Cause)

  function DecodeEntry<T, K>(e: RawEntry, item: seq<byte> -> Option<T>, key: seq<byte> -> Option<K>)
    : Result<LogEntry<T, K>, EntryError>
  {
    if e.kind == KIND_ITEM then
      match item(e.payload) case Some(x) => Ok(Item(x)) case None => Err(DoesNotDecode)
    else if e.kind == KIND_TOMBSTONE then
      match key(e.payload) case Some(k) => Ok(Tombstone(k)) case None => Err(DoesNotDecode)
    else Err(UnknownKind(e.kind))
  }

  /** The first entry that does not decode fails the read. */
  function DecodeAll<T, K>(raw: seq<RawEntry>, item: seq<byte> -> Option<T>, key: seq<byte> -> Option<K>)
    : Result<seq<LogEntry<T, K>>, EntryError>
  {
    if raw == [] then Ok([])
    else
      match DecodeEntry(raw[0], item, key)
      case Err(e) => Err(e)
      case Ok(x) => Prepend([x], DecodeAll(raw[1..], item, key))
  }

  function ReadEntries<T, K>(
      file: Option<seq<byte>>, tag: seq<byte>, item: seq<byte> -> Option<T>, key: seq<byte> -> Option<K>)
    : Result<seq<LogEntry<T, K>>, EntryError>
  {
    match ReadRaw(file, tag)
    case Err(cause) => Err(Unreadable(cause))
    case Ok(raw) => DecodeAll(raw, item, key)
  }

  /** The version a file declares is the number after its magic, once there are that many bytes. */
  lemma VersionVerdicts(b: seq<byte>, version: u32)
    ensures OnDiskVersion(None) == None && (|b| < 12 ==> OnDiskVersion(Some(b)) == None)
    ensures |b| >= 12 && b[8..12] == LeU32(version) ==> OnDiskVersion(Some(b)) == Some(version)
  {
    U32RoundTrip(version);
  }

  /** No file, no entries: nothing was ever inserted. */
  lemma MissingLogIsEmpty<T, K>(tag: seq<byte>, item: seq<byte> -> Option<T>, key: seq<byte> -> Option<K>)
    ensures ReadRaw(None, tag) == Ok([])
    ensures ReadEntries(None, tag, item, key) == Ok([])
  {
  }

  /** An entry of kind zero reads as its item, one of kind one as its key, if they decode; no other kind reads. */
  lemma EntryVerdicts<T, K>(payload: Payload, kind: byte, item: seq<byte> -> Option<T>, key: seq<byte> -> Option<K>)
    ensures
      DecodeEntry(Raw(kind, payload), item, key)
      == if kind == 0 && item(payload).Some? then Ok(Item(item(payload).value))
         else if kind == 1 && key(payload).Some? then Ok(Tombstone(key(payload).value))
         else if kind <= 1 then Err(DoesNotDecode)
         else Err(UnknownKind(kind))
  {
  }

  /** A log reads when every entry does, as those readings in order; otherwise as the first that fails. */
  lemma {:induction false} ReadsWhenAllDo<T, K>(
      raw: seq<RawEntry>, item: seq<byte> -> Option<T>, key: seq<byte> -> Option<K>)
    ensures DecodeAll(raw, item, key).Ok? ==>
              var entries := DecodeAll(raw, item, key).value;
              |entries| == |raw| && forall i | 0 <= i < |raw| :: DecodeEntry(raw[i], item, key) == Ok(entries[i])
    ensures DecodeAll(raw, item, key).Err? ==>
              exists i: nat :: i < |raw| && FailsFirst(raw, i, DecodeAll(raw, item, key).error, item, key)
  {
    if raw != [] && DecodeEntry(raw[0], item, key).Ok? {
      ReadsWhenAllDo(raw[1..], item, key);
      var rest := DecodeAll(raw[1..], item, key);
      if rest.Err? {
        var i: nat :| i < |raw[1..]| && FailsFirst(raw[1..], i, rest.error, item, key);
        forall j | 0 <= j < i + 1
          ensures DecodeEntry(raw[j], item, key).Ok?
        {
          if j > 0 { assert raw[1..][j - 1] == raw[j]; }
        }
        var all := DecodeAll(raw, item, key);
        assert all.Err? && all.error == rest.error;
        assert FailsFirst(raw, i + 1, all.error, item, key);
      } else {
        forall i | 0 <= i < |raw|
          ensures DecodeEntry(raw[i], item, key) == Ok(DecodeAll(raw, item, key).value[i])
        {
          if i > 0 { assert raw[1..][i - 1] == raw[i]; }
        }
      }
    } else if raw != [] {
      var all := DecodeAll(raw, item, key);
      assert all.Err? && all.error == DecodeEntry(raw[0], item, key).error;
      assert FailsFirst(raw, 0, all.error, item, key);
    }
  }

  predicate FailsFirst<T(==), K(==)>(raw: seq<RawEntry>, i: nat, e: EntryError,
                                     item: seq<byte> -> Option<T>, key: seq<byte> -> Option<K>)
    requires i < |raw|
  {
    DecodeEntry(raw[i], item, key) == Err(e) && forall j | 0 <= j < i :: DecodeEntry(raw[j], item, key).Ok?
  }

  // ----- what one frame reads as -----

  /** The same entry, found so many bytes further on. */
  function Moved(next: Next, shift: nat): Next {
    match next
    case Torn => Torn
    case Whole(e, end) => Whole(e, shift + end)
  }

  lemma NextEntryMoved(c: seq<byte>, shift: nat, b: seq<byte>, pos: nat, version: u32)
    requires shift <= |c| && b == c[shift..] && pos <= |b|
    ensures NextEntry(c, shift + pos, version) == Moved(NextEntry(b, pos, version), shift)
  {
    var at := if version == 1 then pos else pos + 1;
    PayloadEndMoved(c, shift, b, at);
    var end := PayloadEnd(b, at);
    if end.Some? {
      assert b == c[shift..|c|];
      SliceOfSlice(c, shift, |c|, at + 4, end.value);
    }
  }

  lemma PayloadEndMoved(c: seq<byte>, shift: nat, b: seq<byte>, at: nat)
    requires shift <= |c| && b == c[shift..]
    ensures PayloadEnd(c, shift + at)
            == match PayloadEnd(b, at) case None => None case Some(end) => Some(shift + end)
  {
    if at + 4 <= |b| {
      assert b == c[shift..|c|];
      SliceOfSlice(c, shift, |c|, at, at + 4);
    }
  }

  lemma {:induction false} RawFromMoved(c: seq<byte>, shift: nat, b: seq<byte>, pos: nat, version: u32)
    requires shift <= |c| && b == c[shift..] && pos <= |b|
    ensures RawFrom(c, shift + pos, version) == RawFrom(b, pos, version)
    decreases |b| - pos
  {
    NextEntryMoved(c, shift, b, pos, version);
    var next := NextEntry(b, pos, version);
    if next.Whole? {
      RawFromMoved(c, shift, b, next.end, version);
    }
  }

  lemma RawFromSuffix(a: seq<byte>, b: seq<byte>, version: u32)
    ensures RawFrom(a + b, |a|, version) == RawFrom(b, 0, version)
  {
    assert (a + b)[|a|..] == b;
    RawFromMoved(a + b, |a|, b, 0, version);
  }

  lemma NextFrame2(e: RawEntry, rest: seq<byte>)
    ensures NextEntry(Frame2(e) + rest, 0, 2) == Whole(e, |Frame2(e)|)
  {
    var b, n := Frame2(e) + rest, |e.payload|;
    assert b[0] == e.kind;
    assert b[1..5] == LeU32(n);
    assert b[5..5 + n] == e.payload;
    U32RoundTrip(n);
  }

  lemma NextFrame1(e: RawEntry, rest: seq<byte>)
    requires e.kind == KIND_ITEM
    ensures NextEntry(Frame1(e) + rest, 0, 1) == Whole(e, |Frame1(e)|)
  {
    var b, n := Frame1(e) + rest, |e.payload|;
    assert b[0..4] == LeU32(n);
    assert b[4..4 + n] == e.payload;
    U32RoundTrip(n);
  }

  lemma ReadFrame2(e: RawEntry, rest: seq<byte>)
    ensures RawFrom(Frame2(e) + rest, 0, 2) == [e] + RawFrom(rest, 0, 2)
  {
    NextFrame2(e, rest);
    RawFromSuffix(Frame2(e), rest, 2);
  }

  lemma ReadFrame1(e: RawEntry, rest: seq<byte>)
    requires e.kind == KIND_ITEM
    ensures RawFrom(Frame1(e) + rest, 0, 1) == [e] + RawFrom(rest, 0, 1)
  {
    NextFrame1(e, rest);
    RawFromSuffix(Frame1(e), rest, 1);
  }

  lemma TornFrame2(e: RawEntry, j: nat)
    requires j < |Frame2(e)|
    ensures RawFrom(Frame2(e)[..j], 0, 2) == []
  {
    if j >= 5 {
      SliceOfPrefix(Frame2(e), j, 1, 5);
      ThreePieces([e.kind], LeU32(|e.payload|), e.payload);
      U32RoundTrip(|e.payload|);
    }
  }

  lemma TornFrame1(e: RawEntry, j: nat)
    requires j < |Frame1(e)|
    ensures RawFrom(Frame1(e)[..j], 0, 1) == []
  {
    if j >= 4 {
      SliceOfPrefix(Frame1(e), j, 0, 4);
      assert Frame1(e)[0..4] == LeU32(|e.payload|);
      U32RoundTrip(|e.payload|);
    }
  }

  lemma ReadFrames2(entries: seq<RawEntry>, rest: seq<byte>)
    ensures RawFrom(Flatten(Frame2, entries) + rest, 0, 2) == entries + RawFrom(rest, 0, 2)
  {
    var read: seq<byte> -> Result<seq<RawEntry>, ()> := b => Ok(RawFrom(b, 0, 2));
    forall e: RawEntry, more: seq<byte>
      ensures read(Frame2(e) + more) == Prepend([e], read(more))
    {
      ReadFrame2(e, more);
    }
    ReadsInOrder(Frame2, e => true, read, entries, rest);
  }

  lemma ReadFrames1(entries: seq<RawEntry>, rest: seq<byte>)
    requires AllItems(entries)
    ensures RawFrom(Flatten(Frame1, entries) + rest, 0, 1) == entries + RawFrom(rest, 0, 1)
  {
    var read: seq<byte> -> Result<seq<RawEntry>, ()> := b => Ok(RawFrom(b, 0, 1));
    var fits := (e: RawEntry) => e.kind == KIND_ITEM;
    forall e: RawEntry, more: seq<byte> | fits(e)
      ensures read(Frame1(e) + more) == Prepend([e], read(more))
    {
      ReadFrame1(e, more);
    }
    ReadsInOrder(Frame1, fits, read, entries, rest);
  }

  // ----- whole files -----

  /** Twenty-eight bytes that parse as this log's header at `version`. */
  predicate IsHeader(h: seq<byte>, version: u32, tag: seq<byte>) {
    && |h| == 28
    && ReadU32(h[8..12]) == version
    && ParseTaggedHeader(h, MAGIC, version, tag).Ok?
  }

  lemma HeaderIsHeader(version: u32, tag: seq<byte>)
    ensures IsHeader(Header(version, tag), version, tag)
  {
    TaggedHeaderRoundTrip(MAGIC, version, 0, tag, []);
  }

  lemma VersionAfterHeader(h: seq<byte>, version: u32, tag: seq<byte>, body: seq<byte>)
    requires IsHeader(h, version, tag)
    ensures OnDiskVersion(Some(h + body)) == Some(version)
    ensures ParseTaggedHeader(h + body, MAGIC, version, tag).Ok?
  {
    var b := h + body;
    assert b[..28] == h[..28] == h;
    assert b[8..12] == h[8..12];
    TaggedHeaderIsLocal(b, h, MAGIC, version, tag);
  }

  lemma ReadAfter(h: seq<byte>, version: u32, tag: seq<byte>, body: seq<byte>)
    requires IsHeader(h, version, tag) && (version == 1 || version == 2)
    ensures ReadRaw(Some(h + body), tag) == Ok(RawFrom(body, 0, version))
  {
    VersionAfterHeader(h, version, tag, body);
    RawFromSuffix(h, body, version);
  }

  lemma CutReadsItsBody(h: seq<byte>, version: u32, tag: seq<byte>, body: seq<byte>, k: nat)
    requires IsHeader(h, version, tag) && (version == 1 || version == 2) && 28 <= k <= 28 + |body|
    ensures ReadRaw(Some((h + body)[..k]), tag) == Ok(RawFrom(body[..k - 28], 0, version))
  {
    ReadAfter(h, version, tag, body[..k - 28]);
    CutPast(h, body, k);
  }

  /**
   A log file reads exactly when it starts with this log's magic, one of the two versions and this tag's
   hash; whatever follows the header, it is what the walk of that version makes of it.
   */
  lemma ReadsIff(b: seq<byte>, tag: seq<byte>)
    ensures ReadRaw(Some(b), tag).Ok? <==>
              && |b| >= 28 && b[..8] == MAGIC
              && (b[8..12] == LeU32(1) || b[8..12] == LeU32(2)) && b[20..28] == LeU64(Hash(tag))
    ensures |b| >= 28 && ReadRaw(Some(b), tag).Ok? ==>
              ReadRaw(Some(b), tag).value == RawFrom(b[28..], 0, if b[8..12] == LeU32(1) then 1 else 2)
  {
    if |b| >= 28 {
      var version := if b[8..12] == LeU32(1) then 1 else 2;
      VersionBytes(b[8..12], 1);
      VersionBytes(b[8..12], 2);
      HeaderParsesIff(b, version, tag);
      RawFromMoved(b, 28, b[28..], 0, version);
    }
  }

  lemma HeaderParsesIff(b: seq<byte>, version: u32, tag: seq<byte>)
    requires |b| >= 28
    ensures ParseTaggedHeader(b, MAGIC, version, tag).Ok? <==>
              b[..8] == MAGIC && b[8..12] == LeU32(version) && b[20..28] == LeU64(Hash(tag))
  {
    VersionBytes(b[8..12], version);
    TagBytes(b[20..28], Hash(tag));
  }

  lemma TagBytes(b: seq<byte>, hash: u64)
    requires |b| == 8
    ensures ReadU64(b) == hash <==> b == LeU64(hash)
  {
    U64RoundTrip(hash);
    if ReadU64(b) == hash { ReadU64Injective(b, LeU64(hash)); }
  }

  lemma VersionBytes(b: seq<byte>, version: u32)
    requires |b| == 4
    ensures ReadU32(b) == version <==> b == LeU32(version)
  {
    U32RoundTrip(version);
    if ReadU32(b) == version { ReadU32Injective(b, LeU32(version)); }
  }

  /** How many entries lie wholly before byte `k` of a version-2 file. */
  function WholeEntries(entries: seq<RawEntry>, k: nat): (n: nat)
    ensures n <= |entries|
  {
    if k < 28 then 0 else WholeFrames(Frame2, entries, k - 28)
  }

  /**
   A version-2 log cut at any byte: past the header it reads as exactly the entries whose bytes lie
   wholly before the cut, in order and with their kinds; inside the header it is refused.
   */
  lemma CutLogReadsWholeEntries(tag: seq<byte>, entries: seq<RawEntry>, k: nat)
    requires k <= |Log2(tag, entries)|
    ensures k < 28 ==> ReadRaw(Some(Log2(tag, entries)[..k]), tag).Err?
    ensures k >= 28 ==> ReadRaw(Some(Log2(tag, entries)[..k]), tag) == Ok(entries[..WholeEntries(entries, k)])
  {
    HeaderIsHeader(2, tag);
    CutLogOver(Header(2, tag), tag, entries, k);
  }

  lemma CutLogOver(h: seq<byte>, tag: seq<byte>, entries: seq<RawEntry>, k: nat)
    requires IsHeader(h, 2, tag) && k <= 28 + |Flatten(Frame2, entries)|
    ensures k < 28 ==> ReadRaw(Some((h + Flatten(Frame2, entries))[..k]), tag).Err?
    ensures k >= 28 ==>
              ReadRaw(Some((h + Flatten(Frame2, entries))[..k]), tag) == Ok(entries[..WholeEntries(entries, k)])
  {
    if k >= 28 {
      CutBodyReads2(entries, k - 28);
      CutReadsItsBody(h, 2, tag, Flatten(Frame2, entries), k);
    }
  }

  /** Those are the entries that fit before the cut: the next one, if any, does not. */
  lemma WholeEntriesAreThoseBeforeTheCut(entries: seq<RawEntry>, k: nat)
    requires 28 <= k <= 28 + |Flatten(Frame2, entries)|
    ensures
      var n := WholeEntries(entries, k);
      && n <= |entries|
      && 28 + |Flatten(Frame2, entries[..n])| <= k
      && (n < |entries| ==> k < 28 + |Flatten(Frame2, entries[..n])| + |Frame2(entries[n])|)
  {
    CutAt(Frame2, entries, k - 28);
  }

  lemma CutBodyReads2(entries: seq<RawEntry>, k: nat)
    requires k <= |Flatten(Frame2, entries)|
    ensures RawFrom(Flatten(Frame2, entries)[..k], 0, 2) == entries[..WholeFrames(Frame2, entries, k)]
  {
    var n := WholeFrames(Frame2, entries, k);
    var whole := Flatten(Frame2, entries[..n]);
    CutAt(Frame2, entries, k);
    if n < |entries| {
      TornFrame2(entries[n], k - |whole|);
      ReadFrames2(entries[..n], Frame2(entries[n])[..k - |whole|]);
    } else {
      ReadFrames2(entries[..n], []);
      assert whole + [] == whole;
    }
    assert entries[..n] + [] == entries[..n];
  }

  lemma CutBodyReads1(entries: seq<RawEntry>, k: nat)
    requires AllItems(entries) && k <= |Flatten(Frame1, entries)|
    ensures RawFrom(Flatten(Frame1, entries)[..k], 0, 1) == entries[..WholeFrames(Frame1, entries, k)]
  {
    var n := WholeFrames(Frame1, entries, k);
    var whole := Flatten(Frame1, entries[..n]);
    CutAt(Frame1, entries, k);
    if n < |entries| {
      TornFrame1(entries[n], k - |whole|);
      ReadFrames1(entries[..n], Frame1(entries[n])[..k - |whole|]);
    } else {
      ReadFrames1(entries[..n], []);
      assert whole + [] == whole;
    }
    assert entries[..n] + [] == entries[..n];
  }

  lemma WholeLogReadsBack(tag: seq<byte>, entries: seq<RawEntry>)
    ensures ReadRaw(Some(Log2(tag, entries)), tag) == Ok(entries)
  {
    var body := Flatten(Frame2, entries);
    HeaderIsHeader(2, tag);
    ReadAfter(Header(2, tag), 2, tag, body);
    assert RawFrom(body, 0, 2) == entries by {
      ReadFrames2(entries, []);
      assert body + [] == body && entries + [] == entries;
    }
  }

  /** A version-1 log, torn or not, reads as its whole entries, every one an item. */
  lemma CutVersion1Reads(tag: seq<byte>, entries: seq<RawEntry>, k: nat)
    requires AllItems(entries) && 28 <= k <= |Log1(tag, entries)|
    ensures ReadRaw(Some(Log1(tag, entries)[..k]), tag) == Ok(entries[..WholeFrames(Frame1, entries, k - 28)])
  {
    HeaderIsHeader(1, tag);
    CutLogOver1(Header(1, tag), tag, entries, k);
  }

  lemma CutLogOver1(h: seq<byte>, tag: seq<byte>, entries: seq<RawEntry>, k: nat)
    requires IsHeader(h, 1, tag) && AllItems(entries) && 28 <= k <= 28 + |Flatten(Frame1, entries)|
    ensures ReadRaw(Some((h + Flatten(Frame1, entries))[..k]), tag)
            == Ok(entries[..WholeFrames(Frame1, entries, k - 28)])
  {
    CutBodyReads1(entries, k - 28);
    CutReadsItsBody(h, 1, tag, Flatten(Frame1, entries), k);
  }

  // ----- the rewrite of a version-1 log -----

  function Upgrade(file: Option<seq<byte>>, tag: seq<byte>): Result<Option<seq<byte>>, Cause> {
    if OnDiskVersion(file) != Some(1) then Ok(file)
    else
      match ParseTaggedHeader(file.value, MAGIC, 1, tag)
      case Err(cause) => Err(cause)
      case Ok(_) => Ok(Some(Log2(tag, RawFrom(file.value, 28, 1))))
  }

  /** Whatever a file holds, an upgrade that succeeds leaves one that reads the same. */
  lemma UpgradePreservesReading(file: Option<seq<byte>>, tag: seq<byte>)
    requires Upgrade(file, tag).Ok?
    ensures ReadRaw(Upgrade(file, tag).value, tag) == ReadRaw(file, tag)
    ensures OnDiskVersion(Upgrade(file, tag).value) != Some(1)
  {
    if OnDiskVersion(file) == Some(1) {
      var entries := RawFrom(file.value, 28, 1);
      WholeLogReadsBack(tag, entries);
      HeaderIsHeader(2, tag);
      VersionAfterHeader(Header(2, tag), 2, tag, Flatten(Frame2, entries));
    }
  }

  // ----- appending -----

  datatype AppendError = PayloadTooLarge | Refused(cause: Cause)

  /** `append_entry`: size check, upgrade, then header if the file is new or empty, then the frame. */
  function Append(file: Option<seq<byte>>, tag: seq<byte>, kind: byte, payload: seq<byte>)
    : Result<seq<byte>, AppendError>
  {
    if |payload| >= 0x1_0000_0000 then Err(PayloadTooLarge)
    else
      match Upgrade(file, tag)
      case Err(cause) => Err(Refused(cause))
      case Ok(upgraded) =>
        var start := if upgraded.Some? then upgraded.value else [];
        Ok(start + (if start == [] then Header(2, tag) else []) + Frame2(Raw(kind, payload)))
  }

  /**
   An append is refused for a payload past the length prefix, or else for a version 1 log whose header is
   not this log's, with the reader's own cause; and for nothing else.
   */
  lemma AppendVerdicts(file: Option<seq<byte>>, tag: seq<byte>, kind: byte, payload: seq<byte>)
    ensures |payload| >= 0x1_0000_0000 <==> Append(file, tag, kind, payload) == Err(PayloadTooLarge)
    ensures |payload| < 0x1_0000_0000 ==>
              (Append(file, tag, kind, payload).Err? <==> OnDiskVersion(file) == Some(1) && ReadRaw(file, tag).Err?)
    ensures |payload| < 0x1_0000_0000 && Append(file, tag, kind, payload).Err? ==>
              Append(file, tag, kind, payload) == Err(Refused(ReadRaw(file, tag).error))
  {
  }

  lemma Log2Snoc(tag: seq<byte>, entries: seq<RawEntry>, e: RawEntry)
    ensures Log2(tag, entries + [e]) == Log2(tag, entries) + Frame2(e)
  {
    var h, body, frame := Header(2, tag), Flatten(Frame2, entries), Frame2(e);
    FlattenSnoc(Frame2, entries, e);
    assert h + (body + frame) == h + body + frame;
  }

  /**
   Appending to a missing or empty log, to a whole version-2 log, or to any readable version-1 log
   however its tail is torn: the file is then the version-2 log of its old entries and the new
   one, and reads as just that.
   */
  lemma AppendReadsBack(file: Option<seq<byte>>, tag: seq<byte>, before: seq<RawEntry>, e: RawEntry)
    requires
      || ((file == None || file == Some([])) && before == [])
      || file == Some(Log2(tag, before))
      || (OnDiskVersion(file) == Some(1) && ReadRaw(file, tag) == Ok(before))
    ensures Append(file, tag, e.kind, e.payload) == Ok(Log2(tag, before + [e]))
    ensures ReadRaw(Some(Log2(tag, before + [e])), tag) == Ok(before + [e])
  {
    WholeLogReadsBack(tag, before + [e]);
    Log2Snoc(tag, before, e);
    if file == None || file == Some([]) {
      AppendToNothing(file, tag, e);
    } else if file == Some(Log2(tag, before)) {
      HeaderIsHeader(2, tag);
      VersionAfterHeader(Header(2, tag), 2, tag, Flatten(Frame2, before));
      assert Upgrade(file, tag) == Ok(file);
      AppendToUpgraded(file, tag, Log2(tag, before), e);
    } else {
      assert Upgrade(file, tag) == Ok(Some(Log2(tag, before)));
      AppendToUpgraded(file, tag, Log2(tag, before), e);
    }
  }

  lemma AppendToNothing(file: Option<seq<byte>>, tag: seq<byte>, e: RawEntry)
    requires file == None || file == Some([])
    ensures Append(file, tag, e.kind, e.payload) == Ok(Log2(tag, [] + [e]))
  {
    Log2Snoc(tag, [], e);
    var h := Header(2, tag);
    assert Log2(tag, []) == h + [] == h;
    assert [] + h == h;
  }

  lemma AppendToUpgraded(file: Option<seq<byte>>, tag: seq<byte>, upgraded: seq<byte>, e: RawEntry)
    requires Upgrade(file, tag) == Ok(Some(upgraded)) && upgraded != []
    ensures Append(file, tag, e.kind, e.payload) == Ok(upgraded + Frame2(e))
  {
    assert upgraded + [] == upgraded;
  }

  // ----- appending after a cut -----

  /** An append of `e` to `file` reads back as `before` and then `e`. */
  predicate Recovers(file: seq<byte>, tag: seq<byte>, before: seq<RawEntry>, e: RawEntry) {
    var appended := Append(Some(file), tag, e.kind, e.payload);
    appended.Ok? && ReadRaw(Some(appended.value), tag) == Ok(before + [e])
  }

  /** Every later item or tombstone reads back. */
  ghost predicate AllRecover(file: seq<byte>, tag: seq<byte>, before: seq<RawEntry>) {
    forall e: RawEntry | e.kind == KIND_ITEM || e.kind == KIND_TOMBSTONE :: Recovers(file, tag, before, e)
  }

  /** The cut fell between two entries, or before the first byte. */
  predicate OnBoundary(entries: seq<RawEntry>, k: nat) {
    k == 0 || (k >= 28 && k - 28 == |Flatten(Frame2, entries[..WholeEntries(entries, k)])|)
  }

  /** A file that is not version 1 is appended to as it stands. */
  lemma AppendInPlace(file: seq<byte>, tag: seq<byte>, e: RawEntry)
    requires file != [] && OnDiskVersion(Some(file)) != Some(1)
    ensures Append(Some(file), tag, e.kind, e.payload) == Ok(file + Frame2(e))
  {
    AppendToUpgraded(Some(file), tag, file, e);
  }

  lemma FirstKindIsFirstByte(b: seq<byte>)
    requires b != []
    ensures RawFrom(b, 0, 2) != [] ==> RawFrom(b, 0, 2)[0].kind == b[0]
  {
  }

  lemma Cancel<T>(a: seq<T>, r: seq<T>, t: seq<T>)
    requires a + r == a + t
    ensures r == t
  {
    assert r == (a + r)[|a|..] && t == (a + t)[|a|..];
  }

  /** Whatever follows the header is appended to in place, and what is then read is what follows the header then. */
  lemma ReadAfterAppend(h: seq<byte>, tag: seq<byte>, body: seq<byte>, e: RawEntry)
    requires IsHeader(h, 2, tag)
    ensures Append(Some(h + body), tag, e.kind, e.payload) == Ok(h + body + Frame2(e))
    ensures ReadRaw(Some(h + body + Frame2(e)), tag) == Ok(RawFrom(body + Frame2(e), 0, 2))
  {
    AppendAfter(h, tag, body, e);
    var frame := Frame2(e);
    ReadAfter(h, 2, tag, body + frame);
    assert h + body + frame == h + (body + frame);
  }

  lemma AppendAfter(h: seq<byte>, tag: seq<byte>, body: seq<byte>, e: RawEntry)
    requires IsHeader(h, 2, tag)
    ensures Append(Some(h + body), tag, e.kind, e.payload) == Ok(h + body + Frame2(e))
  {
    VersionAfterHeader(h, 2, tag, body);
    AppendInPlace(h + body, tag, e);
  }

  lemma WholeEntriesTakeTheAppend(h: seq<byte>, tag: seq<byte>, before: seq<RawEntry>, e: RawEntry)
    requires IsHeader(h, 2, tag)
    ensures Recovers(h + Flatten(Frame2, before), tag, before, e)
  {
    var whole := Flatten(Frame2, before);
    ReadAfterAppend(h, tag, whole, e);
    ReadFrames2(before, Frame2(e));
    ReadFrame2(e, []);
    assert Frame2(e) + [] == Frame2(e) && [e] + [] == [e];
  }

  /** After part of an entry, an entry of the other kind is misread. */
  lemma TornEntryLosesTheAppend(
      h: seq<byte>, tag: seq<byte>, before: seq<RawEntry>, next: RawEntry, j: nat, e: RawEntry)
    requires IsHeader(h, 2, tag) && 0 < j < |Frame2(next)| && e.kind != next.kind
    ensures !Recovers(h + (Flatten(Frame2, before) + Frame2(next)[..j]), tag, before, e)
  {
    var whole, torn := Flatten(Frame2, before), Frame2(next)[..j];
    var tail := torn + Frame2(e);
    ReadAfterAppend(h, tag, whole + torn, e);
    assert whole + torn + Frame2(e) == whole + tail;
    ReadFrames2(before, tail);
    MisreadKind(next, j, e);
    var r := RawFrom(tail, 0, 2);
    if before + r == before + [e] {
      Cancel(before, r, [e]);
    }
  }

  lemma MisreadKind(next: RawEntry, j: nat, e: RawEntry)
    requires 0 < j < |Frame2(next)| && e.kind != next.kind
    ensures RawFrom(Frame2(next)[..j] + Frame2(e), 0, 2) != [e]
  {
    var tail := Frame2(next)[..j] + Frame2(e);
    FirstKindIsFirstByte(tail);
    assert tail[0] == Frame2(next)[0] == next.kind;
  }

  /** An entry that a log cut inside its header cannot take. */
  function HeaderProbe(h: seq<byte>, k: nat): (e: RawEntry)
    requires |h| == 28 && k < 28
    ensures e.kind == KIND_ITEM || e.kind == KIND_TOMBSTONE
  {
    if 12 <= k < 20 then
      var x: byte := if h[27] == 0 then 1 else 0;
      Raw(KIND_ITEM, [x, x, x, x, x, x, x, x, x, x, x, x, x, x, x, x])
    else Raw(if h[k] == KIND_ITEM then KIND_TOMBSTONE else KIND_ITEM, [])
  }

  lemma CutHeaderLosesTheAppend(h: seq<byte>, tag: seq<byte>, k: nat)
    requires IsHeader(h, 2, tag) && 0 < k < 28
    ensures !Recovers(h[..k], tag, [], HeaderProbe(h, k))
  {
    var e := HeaderProbe(h, k);
    if k >= 12 { assert h[..k][8..12] == h[8..12]; }
    AppendInPlace(h[..k], tag, e);
    HeaderMisread(h, tag, k);
  }

  /** What the probe leaves behind part of a header is no header for this tag. */
  lemma HeaderMisread(h: seq<byte>, tag: seq<byte>, k: nat)
    requires IsHeader(h, 2, tag) && 0 < k < 28
    ensures ReadRaw(Some(h[..k] + Frame2(HeaderProbe(h, k))), tag).Err?
  {
    var e := HeaderProbe(h, k);
    var b := h[..k] + Frame2(e);
    if 12 <= k < 20 {
      assert b[8..12] == h[8..12];
      assert b[27] == Frame2(e)[27 - k] == e.payload[22 - k];
      assert b[20..28][7] == b[27] && h[20..28][7] == h[27];
      TagBytesMatter(b, h, tag);
    } else if |b| >= 28 {
      assert b[8..12] == h[8..12];
      assert b[k] == e.kind;
      assert b[20..28][k - 20] == b[k] && h[20..28][k - 20] == h[k];
      TagBytesMatter(b, h, tag);
    }
  }

  lemma TagBytesMatter(b: seq<byte>, h: seq<byte>, tag: seq<byte>)
    requires IsHeader(h, 2, tag) && |b| >= 28 && b[8..12] == h[8..12] && b[20..28] != h[20..28]
    ensures ReadRaw(Some(b), tag).Err?
  {
    if ReadU64(b[20..28]) == ReadU64(h[20..28]) { ReadU64Injective(b[20..28], h[20..28]); }
  }

  /**
   A version-2 log is not trimmed before it is appended to. So after a crash has cut it at byte
   `k`, every later entry is read back behind the surviving ones exactly when the cut fell between
   two entries or left no byte at all.
   */
  lemma AppendAfterCutIsRecoveredIff(tag: seq<byte>, entries: seq<RawEntry>, k: nat)
    requires k <= |Log2(tag, entries)|
    ensures AllRecover(Log2(tag, entries)[..k], tag, entries[..WholeEntries(entries, k)]) <==> OnBoundary(entries, k)
  {
    var h := Header(2, tag);
    HeaderIsHeader(2, tag);
    AppendAfterCutOver(h, tag, entries, k);
  }

  lemma AppendAfterCutOver(h: seq<byte>, tag: seq<byte>, entries: seq<RawEntry>, k: nat)
    requires IsHeader(h, 2, tag) && k <= |h + Flatten(Frame2, entries)|
    ensures AllRecover((h + Flatten(Frame2, entries))[..k], tag, entries[..WholeEntries(entries, k)])
            <==> OnBoundary(entries, k)
  {
    var body := Flatten(Frame2, entries);
    if k >= 28 {
      assert (h + body)[..k] == h + body[..k - 28];
      AppendAfterCutBody(h, tag, entries, k);
    } else {
      assert entries[..WholeEntries(entries, k)] == [] && (h + body)[..k] == h[..k];
      if k == 0 {
        forall e: RawEntry ensures Recovers([], tag, [], e) {
          AppendReadsBack(Some([]), tag, [], e);
        }
      } else {
        CutHeaderLosesTheAppend(h, tag, k);
      }
    }
  }

  lemma AppendAfterCutBody(h: seq<byte>, tag: seq<byte>, entries: seq<RawEntry>, k: nat)
    requires IsHeader(h, 2, tag) && 28 <= k <= 28 + |Flatten(Frame2, entries)|
    ensures AllRecover(h + Flatten(Frame2, entries)[..k - 28], tag, entries[..WholeEntries(entries, k)])
            <==> OnBoundary(entries, k)
  {
    if OnBoundary(entries, k) {
      CutOnBoundary(entries, k);
      BoundaryRecovers(h, tag, entries[..WholeEntries(entries, k)]);
    } else {
      var n, j := CutInside(entries, k);
      TornDoesNotRecover(h, tag, entries[..n], entries[n], j);
    }
  }

  lemma CutOnBoundary(entries: seq<RawEntry>, k: nat)
    requires 28 <= k <= 28 + |Flatten(Frame2, entries)| && OnBoundary(entries, k)
    ensures Flatten(Frame2, entries)[..k - 28] == Flatten(Frame2, entries[..WholeEntries(entries, k)])
  {
    CutAt(Frame2, entries, k - 28);
  }

  lemma CutInside(entries: seq<RawEntry>, k: nat) returns (n: nat, j: nat)
    requires 28 <= k <= 28 + |Flatten(Frame2, entries)| && !OnBoundary(entries, k)
    ensures n == WholeEntries(entries, k) < |entries| && 0 < j < |Frame2(entries[n])|
    ensures Flatten(Frame2, entries)[..k - 28] == Flatten(Frame2, entries[..n]) + Frame2(entries[n])[..j]
  {
    n := WholeEntries(entries, k);
    CutAt(Frame2, entries, k - 28);
    j := k - 28 - |Flatten(Frame2, entries[..n])|;
  }

  lemma BoundaryRecovers(h: seq<byte>, tag: seq<byte>, before: seq<RawEntry>)
    requires IsHeader(h, 2, tag)
    ensures AllRecover(h + Flatten(Frame2, before), tag, before)
  {
    forall e: RawEntry
      ensures Recovers(h + Flatten(Frame2, before), tag, before, e)
    {
      WholeEntriesTakeTheAppend(h, tag, before, e);
    }
  }

  lemma TornDoesNotRecover(h: seq<byte>, tag: seq<byte>, before: seq<RawEntry>, next: RawEntry, j: nat)
    requires IsHeader(h, 2, tag) && 0 < j < |Frame2(next)|
    ensures !AllRecover(h + (Flatten(Frame2, before) + Frame2(next)[..j]), tag, before)
  {
    var e := Raw(if next.kind == KIND_ITEM then KIND_TOMBSTONE else KIND_ITEM, []);
    TornEntryLosesTheAppend(h, tag, before, next, j, e);
  }

  // ----- typed round trip -----

  /** How typed entries are framed, given encoders that fit the length prefix. */
  function Encoded<T, K>(entries: seq<LogEntry<T, K>>, item: T -> Payload, key: K -> Payload): seq<RawEntry> {
    if entries == [] then []
    else
      [match entries[0] case Item(x) => Raw(KIND_ITEM, item(x)) case Tombstone(k) => Raw(KIND_TOMBSTONE, key(k))]
      + Encoded(entries[1..], item, key)
  }

  lemma {:induction false} DecodeEncoded<T(!new), K(!new)>(
      entries: seq<LogEntry<T, K>>, item: T -> Payload, key: K -> Payload,
      readItem: seq<byte> -> Option<T>, readKey: seq<byte> -> Option<K>)
    requires forall x: T :: readItem(item(x)) == Some(x)
    requires forall k: K :: readKey(key(k)) == Some(k)
    ensures DecodeAll(Encoded(entries, item, key), readItem, readKey) == Ok(entries)
  {
    if entries != [] {
      DecodeEncoded(entries[1..], item, key, readItem, readKey);
      assert Encoded(entries, item, key)[1..] == Encoded(entries[1..], item, key);
      assert [entries[0]] + entries[1..] == entries;
    }
  }

  /** A log of items and tombstones reads back as those items and tombstones, in order. */
  lemma TypedLogReadsBack<T(!new), K(!new)>(
      tag: seq<byte>, entries: seq<LogEntry<T, K>>, item: T -> Payload, key: K -> Payload,
      readItem: seq<byte> -> Option<T>, readKey: seq<byte> -> Option<K>)
    requires forall x: T :: readItem(item(x)) == Some(x)
    requires forall k: K :: readKey(key(k)) == Some(k)
    ensures ReadEntries(Some(Log2(tag, Encoded(entries, item, key))), tag, readItem, readKey) == Ok(entries)
  {
    WholeLogReadsBack(tag, Encoded(entries, item, key));
    DecodeEncoded(entries, item, key, readItem, readKey);
  }

  // ----- the file on disk -----

  /** The walk of `raw_entries`, pushing one entry at a time. */
  method RawEntries(bytes: seq<byte>, version: u32) returns (entries: seq<RawEntry>)
    requires |bytes| >= 28
    ensures entries == RawFrom(bytes, 28, version)
  {
    entries := [];
    var pos := 28;
    while true
      invariant 28 <= pos <= |bytes|
      invariant RawFrom(bytes, 28, version) == entries + RawFrom(bytes, pos, version)
      decreases |bytes| - pos
    {
      var next := NextEntry(bytes, pos, version);
      if next == Torn {
        assert entries + [] == entries;
        return;
      }
      OneMoreEntry(entries, next.e, RawFrom(bytes, next.end, version));
      entries := entries + [next.e];
      pos := next.end;
    }
  }

  lemma OneMoreEntry(entries: seq<RawEntry>, e: RawEntry, rest: seq<RawEntry>)
    ensures entries + ([e] + rest) == entries + [e] + rest
  {
  }

  method BuildVersion2(tag: seq<byte>, entries: seq<RawEntry>) returns (image: seq<byte>)
    ensures image == Log2(tag, entries)
  {
    image := Header(2, tag);
    assert image + [] == image;
    for i := 0 to |entries|
      invariant image == Log2(tag, entries[..i])
    {
      Log2Snoc(tag, entries[..i], entries[i]);
      assert entries[..i + 1] == entries[..i] + [entries[i]];
      image := image + Frame2(entries[i]);
    }
    assert entries[..|entries|] == entries;
  }

  /** The log file, with the upgrade's temporary file beside it and every state their writes pass through. */
  class LogFile {
    const disk: RenamedFile

    constructor (file: Option<seq<byte>>)
      ensures fresh(disk) && disk.path == file && disk.seen == []
    {
      disk := new RenamedFile(file);
    }

    method ReadLog(tag: seq<byte>) returns (r: Result<seq<RawEntry>, Cause>)
      ensures r == ReadRaw(disk.path, tag)
    {
      if disk.path == None {
        return Ok([]);
      }
      var version := if OnDiskVersion(disk.path) == Some(1) then 1 else 2;
      var header := ParseTaggedHeader(disk.path.value, MAGIC, version, tag);
      if header.Err? {
        return Err(header.error);
      }
      var entries := RawEntries(disk.path.value, version);
      r := Ok(entries);
    }

    /** The new image is written beside the log and renamed over it: the log is the old file or the new. */
    method UpgradeIfVersion1(tag: seq<byte>) returns (r: Result<(), Cause>)
      modifies disk
      ensures r.Err? <==> Upgrade(old(disk.path), tag).Err?
      ensures r.Err? ==> Upgrade(old(disk.path), tag) == Err(r.error) && disk.path == old(disk.path)
      ensures r.Ok? ==> Upgrade(old(disk.path), tag) == Ok(disk.path)
      ensures r.Err? ==> disk.Image() == old(disk.Image()) && disk.seen == old(disk.seen)
      ensures r.Ok? ==> disk.seen == old(disk.seen) + UpgradeTrace(old(disk.Image()), tag)
      ensures r.Ok? ==> disk.temp == if OnDiskVersion(old(disk.path)) == Some(1) then None else old(disk.temp)
    {
      if OnDiskVersion(disk.path) != Some(1) {
        return Ok(());
      }
      var header := ParseTaggedHeader(disk.path.value, MAGIC, 1, tag);
      if header.Err? {
        return Err(header.error);
      }
      var entries := RawEntries(disk.path.value, 1);
      var image := BuildVersion2(tag, entries);
      disk.WriteViaRename(image);
      r := Ok(());
    }

    /**
     A crash leaves the log before the upgrade, after it, or with some first part of the header
     and frame appended.
     */
    method AppendEntry(tag: seq<byte>, kind: byte, payload: seq<byte>) returns (r: Result<(), AppendError>)
      modifies disk
      ensures r.Ok? <==> Append(old(disk.path), tag, kind, payload).Ok?
      ensures r.Err? ==> Append(old(disk.path), tag, kind, payload) == Err(r.error) && disk.path == old(disk.path)
      ensures r.Ok? ==> disk.path == Some(Append(old(disk.path), tag, kind, payload).value)
      ensures r.Err? ==> disk.seen == old(disk.seen)
      ensures r.Ok? ==>
                var upgraded := Written(Upgrade(old(disk.path), tag).value);
                && upgraded <= disk.path.value
                && disk.seen == old(disk.seen) + UpgradeTrace(old(disk.Image()), tag)
                                + AppendTrace(upgraded, disk.path.value[|upgraded|..], disk.temp)
    {
      if |payload| >= 0x1_0000_0000 {
        return Err(PayloadTooLarge);
      }
      var upgraded := UpgradeIfVersion1(tag);
      if upgraded.Err? {
        return Err(Refused(upgraded.error));
      }
      var start := Written(disk.path);
      var image := (if start == [] then Header(2, tag) else []) + Frame2(Raw(kind, payload));
      assert start + (if start == [] then Header(2, tag) else []) + Frame2(Raw(kind, payload)) == start + image;
      WriteAll(start, image);
      assert disk.path.value[|start|..] == image;
      r := Ok(());
    }

    method WriteAll(start: seq<byte>, image: seq<byte>)
      requires start == Written(disk.path)
      modifies disk
      ensures disk.path == Some(start + image) && disk.temp == old(disk.temp)
      ensures disk.seen == old(disk.seen) + AppendTrace(start, image, disk.temp)
    {
      ghost var trace := AppendTrace(start, image, disk.temp);
      disk.path := Some(start);
      disk.seen := disk.seen + [disk.Image()];
      assert start + image[..0] == start;
      for j := 0 to |image|
        invariant disk.path == Some(start + image[..j]) && disk.temp == old(disk.temp)
        invariant disk.seen == old(disk.seen) + trace[..j + 1]
      {
        assert start + image[..j] + [image[j]] == start + image[..j + 1];
        disk.path := Some(disk.path.value + [image[j]]);
        disk.seen := disk.seen + [disk.Image()];
        assert trace[..j + 2] == trace[..j + 1] + [trace[j + 1]];
      }
      assert image[..|image|] == image && trace[..|image| + 1] == trace;
    }
  }

  /** The states an upgrade passes through: those of a rewrite for a version 1 log, otherwise none. */
  function UpgradeTrace(before: DirImage, tag: seq<byte>): seq<DirImage> {
    if OnDiskVersion(before.path) == Some(1) && Upgrade(before.path, tag).Ok? then
      Trace(before, Written(Upgrade(before.path, tag).value))
    else []
  }

  /** The states an append passes through: the log opened, created if need be, then grown a byte at a time. */
  function AppendTrace(start: seq<byte>, image: seq<byte>, temp: Option<seq<byte>>): seq<DirImage> {
    seq(|image| + 1, j requires 0 <= j <= |image| => DirImage(Some(start + image[..j]), temp))
  }

  /** An append leaves every first part of what it writes, an upgrade every state of its rewrite or none. */
  lemma TracesAreWhole(before: DirImage, tag: seq<byte>, start: seq<byte>, image: seq<byte>, j: nat)
    ensures j <= |image| ==>
              && |AppendTrace(start, image, before.temp)| == |image| + 1
              && AppendTrace(start, image, before.temp)[j] == DirImage(Some(start + image[..j]), before.temp)
    ensures Upgrade(before.path, tag).Ok? && Upgrade(before.path, tag).value == before.path ==>
              UpgradeTrace(before, tag) == []
    ensures Upgrade(before.path, tag).Ok? && Upgrade(before.path, tag).value != before.path ==>
              UpgradeTrace(before, tag) == Trace(before, Written(Upgrade(before.path, tag).value))
  {
    if Upgrade(before.path, tag).Ok? { UpgradePreservesReading(before.path, tag); }
  }

  function Written(file: Option<seq<byte>>): seq<byte> {
    if file.Some? then file.value else []
  }
}
