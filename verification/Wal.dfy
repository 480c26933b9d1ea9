/**
 The write-ahead log shared by the log-based stores (src/durability/mod.rs): length-prefixed
 frames, each a `WalEntry` in the crate's fixed-width encoding (src/codec.rs), read back up to
 the first frame the file does not hold whole.
 */
module Wal {
  import opened Bytes
  import opened Framing

  datatype WalEntry = WalEntry(seqNo: u64, id: Uuid, age: u32)

  /** An entry's bytes: the sequence number, the id as a length-prefixed byte string, the age. */
  function Encode(e: WalEntry): (b: seq<byte>)
    ensures |b| == 36
  {
    LeU64(e.seqNo) + LeU64(16) + e.id.octets + LeU32(e.age)
  }

  /** The strict decoder: exactly one entry and nothing after it. */
  function Decode(b: seq<byte>): Option<WalEntry> {
    if |b| != 36 || ReadU64(b[8..16]) != 16 then None
    else Some(WalEntry(ReadU64(b[..8]), Uuid(b[16..32]), ReadU32(b[32..36])))
  }

  lemma DecodeEncode(e: WalEntry)
    ensures Decode(Encode(e)) == Some(e)
  {
    FourPieces(LeU64(e.seqNo), LeU64(16), e.id.octets, LeU32(e.age));
    U64RoundTrip(e.seqNo);
    U64RoundTrip(16);
    U32RoundTrip(e.age);
  }

  /** Only its own encoding decodes to an entry. */
  lemma EncodeDecode(b: seq<byte>, e: WalEntry)
    requires Decode(b) == Some(e)
    ensures b == Encode(e)
  {
    assert b[..8] == LeU64(e.seqNo) by {
      U64RoundTrip(e.seqNo);
      ReadU64Injective(b[..8], LeU64(e.seqNo));
    }
    assert b[8..16] == LeU64(16) by {
      U64RoundTrip(16);
      ReadU64Injective(b[8..16], LeU64(16));
    }
    assert b[32..36] == LeU32(e.age) by {
      U32RoundTrip(e.age);
      ReadU32Injective(b[32..36], LeU32(e.age));
    }
    FourFields(b);
  }

  lemma FourFields(b: seq<byte>)
    requires |b| == 36
    ensures b == b[..8] + b[8..16] + b[16..32] + b[32..36]
  {
  }

  function Frame(e: WalEntry): (b: seq<byte>)
    ensures |b| == 40
  {
    LeU32(36) + Encode(e)
  }

  /** The file after appending `entries` to an empty one. */
  function Log(entries: seq<WalEntry>): seq<byte> {
    Flatten(Frame, entries)
  }

  lemma {:induction false} LogLength(entries: seq<WalEntry>)
    ensures |Log(entries)| == 40 * |entries|
  {
    if entries != [] {
      LogLength(entries[1..]);
    }
  }

  datatype ReadError = Serde

  /** What stands at an offset: no whole frame, one that does not decode, or an entry and where it ends. */
  datatype Next = Torn | Undecodable | Whole(e: WalEntry, end: nat)

  function NextFrame(b: seq<byte>, offset: nat): (n: Next)
    requires offset <= |b|
    ensures n.Whole? ==> offset < n.end <= |b|
  {
    if offset + 4 > |b| then Torn
    else
      var len := ReadU32(b[offset..offset + 4]);
      if offset + 4 + len > |b| then Torn
      else
        match Decode(b[offset + 4..offset + 4 + len])
        case None => Undecodable
        case Some(e) => Whole(e, offset + 4 + len)
  }

  /** The entries from `offset` on: stop at a frame that is not all there, fail on one that is but does not decode. */
  function ReadFrom(b: seq<byte>, offset: nat): Result<seq<WalEntry>, ReadError>
    requires offset <= |b|
    decreases |b| - offset
  {
    match NextFrame(b, offset)
    case Torn => Ok([])
    case Undecodable => Err(Serde)
    case Whole(e, end) => Prepend([e], ReadFrom(b, end))
  }

  /** A missing file is an empty log. */
  function ReadWal(file: Option<seq<byte>>): Result<seq<WalEntry>, ReadError> {
    if file == None then Ok([]) else ReadFrom(file.value, 0)
  }

  method ReadWalEntries(file: Option<seq<byte>>) returns (r: Result<seq<WalEntry>, ReadError>)
    ensures r == ReadWal(file)
  {
    if file == None {
      return Ok([]);
    }
    var bytes := file.value;
    var entries: seq<WalEntry> := [];
    var offset := 0;
    PrependNil(ReadFrom(bytes, 0));
    while offset + 4 <= |bytes|
      invariant offset <= |bytes|
      invariant ReadFrom(bytes, 0) == Prepend(entries, ReadFrom(bytes, offset))
      decreases |bytes| - offset
    {
      var len := ReadU32(bytes[offset..offset + 4]);
      if offset + 4 + len > |bytes| {
        break;
      }
      var entry := Decode(bytes[offset + 4..offset + 4 + len]);
      if entry == None {
        return Err(Serde);
      }
      ReadOneMore(bytes, offset, entries);
      entries := entries + [entry.value];
      offset := offset + 4 + len;
    }
    assert entries + [] == entries;
    return Ok(entries);
  }

  lemma ReadOneMore(b: seq<byte>, offset: nat, entries: seq<WalEntry>)
    requires offset <= |b| && NextFrame(b, offset).Whole?
    ensures
      var Whole(e, end) := NextFrame(b, offset);
      Prepend(entries, ReadFrom(b, offset)) == Prepend(entries + [e], ReadFrom(b, end))
  {
    var Whole(e, end) := NextFrame(b, offset);
    PrependTwice(entries, [e], ReadFrom(b, end));
  }

  /** Before anything was ever logged there may be no file; it reads as an empty one. */
  lemma MissingLogIsEmpty()
    ensures ReadWal(None) == Ok([]) && ReadWal(Some([])) == Ok([])
  {
  }

  /** Numbered one after the other, from whatever number on. */
  predicate Consecutive(entries: seq<WalEntry>) {
    forall i | 0 < i < |entries| :: entries[i].seqNo == entries[i - 1].seqNo + 1
  }

  /** The next number follows the log's last. */
  predicate Numbered(entries: seq<WalEntry>, nextSeq: nat) {
    Consecutive(entries) && (entries != [] ==> nextSeq == entries[|entries| - 1].seqNo + 1)
  }

  // ----- reading depends only on what is left -----

  /** The same frame, found so many bytes further on. */
  function Moved(next: Next, shift: nat): Next {
    match next
    case Whole(e, end) => Whole(e, shift + end)
    case other => other
  }

  lemma NextFrameMoved(c: seq<byte>, shift: nat, b: seq<byte>, offset: nat)
    requires shift <= |c| && b == c[shift..] && offset <= |b|
    ensures NextFrame(c, shift + offset) == Moved(NextFrame(b, offset), shift)
  {
    assert b == c[shift..|c|];
    if offset + 4 <= |b| {
      SliceOfSlice(c, shift, |c|, offset, offset + 4);
      var len := ReadU32(b[offset..offset + 4]);
      if offset + 4 + len <= |b| {
        SliceOfSlice(c, shift, |c|, offset + 4, offset + 4 + len);
      }
    }
  }

  lemma {:induction false} ReadFromMoved(c: seq<byte>, shift: nat, b: seq<byte>, offset: nat)
    requires shift <= |c| && b == c[shift..] && offset <= |b|
    ensures ReadFrom(c, shift + offset) == ReadFrom(b, offset)
    decreases |b| - offset
  {
    NextFrameMoved(c, shift, b, offset);
    var next := NextFrame(b, offset);
    if next.Whole? {
      ReadFromMoved(c, shift, b, next.end);
    }
  }

  lemma ReadFromSuffix(a: seq<byte>, b: seq<byte>)
    ensures ReadFrom(a + b, |a|) == ReadFrom(b, 0)
  {
    assert (a + b)[|a|..] == b;
    ReadFromMoved(a + b, |a|, b, 0);
  }

  lemma ReadFrame(e: WalEntry, rest: seq<byte>)
    ensures ReadFrom(Frame(e) + rest, 0) == Prepend([e], ReadFrom(rest, 0))
  {
    DecodeEncode(e);
    FrameFirst(Encode(e), rest);
    ReadFromSuffix(Frame(e), rest);
  }

  /** Thirty-six bytes behind their length are taken for an entry, whatever follows. */
  lemma FrameFirst(body: seq<byte>, rest: seq<byte>)
    requires |body| == 36
    ensures
      NextFrame(LeU32(36) + body + rest, 0)
      == match Decode(body) case None => Undecodable case Some(e) => Whole(e, 40)
  {
    ThreePieces(LeU32(36), body, rest);
    U32RoundTrip(36);
  }

  /** A log of whole frames followed by anything reads as its entries followed by what the rest reads as. */
  lemma ReadLogThen(entries: seq<WalEntry>, rest: seq<byte>)
    ensures ReadFrom(Log(entries) + rest, 0) == Prepend(entries, ReadFrom(rest, 0))
  {
    var read := (b: seq<byte>) => ReadFrom(b, 0);
    forall e: WalEntry, more: seq<byte>
      ensures read(Frame(e) + more) == Prepend([e], read(more))
    {
      ReadFrame(e, more);
    }
    ReadsInOrder(Frame, e => true, read, entries, rest);
  }

  /** Where a cut at byte `k` falls: so many whole frames, and part of the next one. */
  lemma LogCut(entries: seq<WalEntry>, k: nat)
    requires k <= |Log(entries)|
    ensures
      var n := k / 40;
      && n <= |entries|
      && (k % 40 == 0 ==> Log(entries)[..k] == Log(entries[..n]))
      && (k % 40 != 0 ==> n < |entries| && Log(entries)[..k] == Log(entries[..n]) + Frame(entries[n])[..k % 40])
  {
    CutAt(Frame, entries, k);
    var n := WholeFrames(Frame, entries, k);
    LogLength(entries[..n]);
    if n < |entries| {
      var j := k - 40 * n;
      assert k / 40 == n && k % 40 == j;
      NothingTorn(Log(entries[..n]), Frame(entries[n]));
    }
  }

  lemma NothingTorn(whole: seq<byte>, next: seq<byte>)
    ensures whole + next[..0] == whole
  {
  }

  /** A strict prefix of a frame holds no entry. */
  lemma TornFrame(e: WalEntry, j: nat)
    requires j < 40
    ensures ReadFrom(Frame(e)[..j], 0) == Ok([])
  {
    if j >= 4 {
      SliceOfPrefix(Frame(e), j, 0, 4);
      assert Frame(e)[0..4] == LeU32(36);
      U32RoundTrip(36);
    }
  }

  /**
   Reading a log cut at any byte never fails and returns exactly the entries whose frames lie
   wholly before the cut, in append order.
   */
  lemma CutLogReadsWholeFrames(entries: seq<WalEntry>, k: nat)
    requires k <= |Log(entries)|
    ensures k / 40 <= |entries|
    ensures ReadWal(Some(Log(entries)[..k])) == Ok(entries[..k / 40])
  {
    var n := k / 40;
    LogCut(entries, k);
    if k % 40 == 0 {
      ReadLogThen(entries[..n], []);
      assert Log(entries[..n]) + [] == Log(entries[..n]);
    } else {
      TornFrame(entries[n], k % 40);
      ReadLogThen(entries[..n], Frame(entries[n])[..k % 40]);
    }
    assert entries[..n] + [] == entries[..n];
  }

  lemma WholeLogReadsBack(entries: seq<WalEntry>)
    ensures ReadWal(Some(Log(entries))) == Ok(entries)
  {
    ReadLogThen(entries, []);
    assert Log(entries) + [] == Log(entries) && entries + [] == entries;
  }

  /** One more append, cut short at byte `j` of its frame: all there, or not there at all. */
  lemma CutAppendReads(entries: seq<WalEntry>, e: WalEntry, j: nat)
    requires j <= 40
    ensures ReadWal(Some(Log(entries) + Frame(e)[..j])) == Ok(if j == 40 then entries + [e] else entries)
  {
    if j == 40 {
      assert Frame(e)[..40] == Frame(e);
      FlattenSnoc(Frame, entries, e);
      WholeLogReadsBack(entries + [e]);
    } else {
      TornFrame(e, j);
      ReadLogThen(entries, Frame(e)[..j]);
      assert entries + [] == entries;
    }
  }

  // ----- appending after a torn tail -----

  /** What part of one frame and the whole of a later one read as together. */
  function AfterTear(next: WalEntry, j: nat, e: WalEntry): Result<seq<WalEntry>, ReadError>
    requires j < 40
  {
    ReadFrom(Frame(next)[..j] + Frame(e), 0)
  }

  /** The bytes then taken for an entry: what is left of the torn one, filled up from the frame after it. */
  function Mixture(next: WalEntry, j: nat, e: WalEntry): (b: seq<byte>)
    requires 4 <= j < 40
    ensures |b| == 36
  {
    Encode(next)[..j - 4] + Frame(e)[..40 - j]
  }

  /** Fewer bytes than a frame's hold no entry; they may still fail to read. */
  lemma ShortHoldsNoEntry(b: seq<byte>)
    requires |b| < 40
    ensures ReadFrom(b, 0) == Ok([]) || ReadFrom(b, 0) == Err(Serde)
  {
  }

  /**
   Torn inside its length, a frame swallows the next one. Torn later, it takes as many bytes of the
   next as it lost: they fail to decode, or pass for an entry, and what is left over reads as nothing or
   fails.
   */
  lemma AfterTearReads(next: WalEntry, j: nat, e: WalEntry)
    requires 0 < j < 40
    ensures j < 4 ==> AfterTear(next, j, e) == Ok([])
    ensures j >= 4 ==>
              var phantom := Decode(Mixture(next, j, e));
              AfterTear(next, j, e) == Err(Serde) || (phantom.Some? && AfterTear(next, j, e) == Ok([phantom.value]))
  {
    if j < 4 { ShortTear(next, j, e); } else { LongTear(next, j, e); }
  }

  lemma LengthBytes(e: WalEntry)
    ensures Frame(e)[0] == 36
  {
    assert Frame(e)[0] == LeU32(36)[0];
  }

  lemma ShortTear(next: WalEntry, j: nat, e: WalEntry)
    requires 0 < j < 4
    ensures AfterTear(next, j, e) == Ok([])
  {
    var b := Frame(next)[..j] + Frame(e);
    LengthBytes(next);
    LengthBytes(e);
    assert b[0] == 36 && b[j] == 36;
    ShortTearLength(b, j);
  }

  lemma ShortTearLength(b: seq<byte>, j: nat)
    requires 1 <= j <= 3 && |b| >= 4
    requires b[0] == 36 && b[j] == 36
    ensures ReadU32(b[0..4]) >= 9252
  {
    var s := b[0..4];
    assert FromLe(s) == s[0] + 256 * FromLe(s[1..]);
    assert FromLe(s[1..]) == s[1] + 256 * FromLe(s[2..]) by { assert s[1..][1..] == s[2..]; }
    assert FromLe(s[2..]) == s[2] + 256 * FromLe(s[3..]) by { assert s[2..][1..] == s[3..]; }
    assert FromLe(s[3..]) >= s[3];
  }

  lemma LongTear(next: WalEntry, j: nat, e: WalEntry)
    requires 4 <= j < 40
    ensures
      var phantom := Decode(Mixture(next, j, e));
      AfterTear(next, j, e) == Err(Serde) || (phantom.Some? && AfterTear(next, j, e) == Ok([phantom.value]))
  {
    var a, b := LeU32(36) + Mixture(next, j, e), Frame(e)[40 - j..];
    TornBytes(next, j, e);
    FrameFirst(Mixture(next, j, e), b);
    ReadFromSuffix(a, b);
    ShortHoldsNoEntry(b);
    var phantom := Decode(Mixture(next, j, e));
    assert phantom.Some? ==> [phantom.value] + [] == [phantom.value];
  }

  lemma TornBytes(next: WalEntry, j: nat, e: WalEntry)
    requires 4 <= j < 40
    ensures Frame(next)[..j] + Frame(e) == LeU32(36) + Mixture(next, j, e) + Frame(e)[40 - j..]
  {
    assert Frame(next)[..j] == LeU32(36) + Encode(next)[..j - 4];
    assert Frame(e) == Frame(e)[..40 - j] + Frame(e)[40 - j..];
  }

  /** The age's bytes come last, and no tear past the length leaves room for them. */
  lemma MixtureLacksTheAge(next: WalEntry, j: nat, e: WalEntry, f: WalEntry)
    requires 4 <= j < 40 && e.seqNo == f.seqNo && e.id == f.id
    ensures Mixture(next, j, e) == Mixture(next, j, f)
  {
    var shared := LeU32(36) + (LeU64(e.seqNo) + LeU64(16) + e.id.octets);
    assert Frame(e) == shared + LeU32(e.age) && Frame(f) == shared + LeU32(f.age);
    assert Frame(e)[..40 - j] == shared[..40 - j] == Frame(f)[..40 - j];
  }

  lemma RecoveredIsTheMixture(next: WalEntry, j: nat, e: WalEntry)
    requires 0 < j < 40 && AfterTear(next, j, e) == Ok([e])
    ensures j >= 4 && Decode(Mixture(next, j, e)) == Some(e)
  {
    AfterTearReads(next, j, e);
  }

  /**
   After a torn tail, of all the ages an update could have set under one number for one id, at most
   one is read back.
   */
  lemma AtMostOneAgeIsRecovered(entries: seq<WalEntry>, next: WalEntry, j: nat, e: WalEntry, f: WalEntry)
    requires 0 < j < 40 && e.seqNo == f.seqNo && e.id == f.id
    requires ReadWal(Some(Log(entries) + Frame(next)[..j] + Frame(e))) == Ok(entries + [e])
    requires ReadWal(Some(Log(entries) + Frame(next)[..j] + Frame(f))) == Ok(entries + [f])
    ensures e == f
  {
    RecoveredBehindTheLog(entries, next, j, e);
    RecoveredBehindTheLog(entries, next, j, f);
    RecoveredIsTheMixture(next, j, e);
    RecoveredIsTheMixture(next, j, f);
    MixtureLacksTheAge(next, j, e, f);
  }

  lemma RecoveredBehindTheLog(entries: seq<WalEntry>, next: WalEntry, j: nat, e: WalEntry)
    requires j < 40 && ReadWal(Some(Log(entries) + Frame(next)[..j] + Frame(e))) == Ok(entries + [e])
    ensures AfterTear(next, j, e) == Ok([e])
  {
    TornLogReads(entries, next, j, e);
    PrependCancels(entries, AfterTear(next, j, e), [e]);
  }

  /** The whole frames read as they did; the rest reads as the tear and what follows it. */
  lemma TornLogReads(entries: seq<WalEntry>, next: WalEntry, j: nat, e: WalEntry)
    requires j < 40
    ensures ReadWal(Some(Log(entries) + Frame(next)[..j] + Frame(e))) == Prepend(entries, AfterTear(next, j, e))
  {
    ReadLogThenTwo(entries, Frame(next)[..j], Frame(e));
  }

  lemma ReadLogThenTwo(entries: seq<WalEntry>, a: seq<byte>, b: seq<byte>)
    ensures ReadFrom(Log(entries) + a + b, 0) == Prepend(entries, ReadFrom(a + b, 0))
  {
    ReadLogThen(entries, a + b);
    assert Log(entries) + a + b == Log(entries) + (a + b);
  }

  /**
   `open` appends after whatever the file ends with. Whatever number and id a later update has, it is
   read back whatever age it sets exactly when the file it was appended to ended on a frame boundary:
   the length of the file is a multiple of forty.
   */
  lemma AppendAfterCutIsRecoveredIff(entries: seq<WalEntry>, k: nat, seqNo: u64, id: Uuid)
    requires k <= |Log(entries)|
    ensures k / 40 <= |entries|
    ensures (forall age: u32 ::
               ReadWal(Some(Log(entries)[..k] + Frame(WalEntry(seqNo, id, age))))
               == Ok(entries[..k / 40] + [WalEntry(seqNo, id, age)]))
            <==> k % 40 == 0
  {
    var n := k / 40;
    LogCut(entries, k);
    if k % 40 == 0 {
      forall age: u32
        ensures ReadWal(Some(Log(entries)[..k] + Frame(WalEntry(seqNo, id, age))))
                == Ok(entries[..n] + [WalEntry(seqNo, id, age)])
      {
        FlattenSnoc(Frame, entries[..n], WalEntry(seqNo, id, age));
        WholeLogReadsBack(entries[..n] + [WalEntry(seqNo, id, age)]);
      }
    } else {
      var e, f := WalEntry(seqNo, id, 0), WalEntry(seqNo, id, 1);
      if && ReadWal(Some(Log(entries)[..k] + Frame(e))) == Ok(entries[..n] + [e])
         && ReadWal(Some(Log(entries)[..k] + Frame(f))) == Ok(entries[..n] + [f]) {
        AtMostOneAgeIsRecovered(entries[..n], entries[n], k % 40, e, f);
      }
    }
  }

  /** Where the mixture passes for an entry of `id`, the age it carries: no age of a later update's choosing. */
  function PhantomAge(next: WalEntry, j: nat, seqNo: u64, id: Uuid): Option<u32>
    requires 0 < j < 40
  {
    if j < 4 then None
    else
      match Decode(Mixture(next, j, WalEntry(seqNo, id, 0)))
      case Some(p) => if p.id == id then Some(p.age) else None
      case None => None
  }

  /** All a later update of `id` can leave in the log for that id is the phantom's age. */
  lemma OnlyThePhantomIsRead(next: WalEntry, j: nat, e: WalEntry)
    requires 0 < j < 40
    ensures
      match AfterTear(next, j, e)
      case Err(_) => true
      case Ok(more) =>
        |more| <= 1 && (more != [] && more[0].id == e.id ==> PhantomAge(next, j, e.seqNo, e.id) == Some(more[0].age))
  {
    AfterTearReads(next, j, e);
    if j >= 4 { MixtureLacksTheAge(next, j, e, e.(age := 0)); }
  }

  /** A log with a torn tail and an entry after it reads as a whole log, or not at all. */
  lemma TornLogReadsAs(entries: seq<WalEntry>, next: WalEntry, j: nat, e: WalEntry)
    requires j < 40
    ensures
      ReadWal(Some(Log(entries) + Frame(next)[..j] + Frame(e)))
      == match AfterTear(next, j, e)
         case Err(err) => Err(err)
         case Ok(more) => ReadWal(Some(Log(entries + more)))
  {
    TornLogReads(entries, next, j, e);
    if AfterTear(next, j, e).Ok? { WholeLogReadsBack(entries + AfterTear(next, j, e).value); }
  }

  /**
   Each of the three outcomes happens. A tear inside the length loses the update (`AfterTearReads`). A tear
   that cost the torn entry its age alone gives it the age thirty-six, the length of the frame behind it;
   what is left over, read as a frame, fails while that frame's number is small, and is let go after.
   */
  lemma LostAgeReadsAsThirtySix(next: WalEntry, e: WalEntry)
    ensures AfterTear(next, 36, e)
            == if e.seqNo % 0x1_0000_0000 <= 32 then Err(Serde) else Ok([next.(age := 36)])
  {
    var phantom := next.(age := 36);
    assert Mixture(next, 36, e) == Encode(phantom) by {
      assert Encode(next)[..32] == LeU64(next.seqNo) + LeU64(16) + next.id.octets;
      assert Frame(e)[..4] == LeU32(36);
    }
    assert Frame(e)[4..] == Encode(e);
    TornBytes(next, 36, e);
    DecodeEncode(phantom);
    FrameFirst(Encode(phantom), Encode(e));
    ReadFromSuffix(LeU32(36) + Encode(phantom), Encode(e));
    EntryAsFrame(e);
    assert [phantom] + [] == [phantom];
  }

  /** An entry's bytes taken for a frame: its number is the length. */
  lemma EntryAsFrame(e: WalEntry)
    ensures ReadFrom(Encode(e), 0) == if e.seqNo % 0x1_0000_0000 <= 32 then Err(Serde) else Ok([])
  {
    var b := Encode(e);
    assert b[0..4] == LeU64(e.seqNo)[..4];
    LowWord(e.seqNo);
  }
}
