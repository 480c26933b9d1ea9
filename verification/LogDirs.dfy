/**
 The directory of a log-based store: a write-ahead log beside whatever else the store keeps
 there. Every write goes through here and leaves the state it produced in `seen`: those are the
 states a crash can leave. Appending an entry goes byte by byte; replacing a snapshot or a count
 is one step.
 */
module LogDirs {
  import opened Bytes
  import opened Wal

  datatype Disk<+S> = Disk(base: S, wal: Option<seq<byte>>)

  /** `d` with the first `j` bytes of `e`'s frame appended to its log. */
  function PartlyAppended<S>(d: Disk<S>, e: WalEntry, j: nat): Disk<S>
    requires d.wal.Some? && j <= 40
  {
    d.(wal := Some(d.wal.value + Frame(e)[..j]))
  }

  predicate DuringAppend<S(==)>(d: Disk<S>, before: Disk<S>, e: WalEntry) {
    before.wal.Some? && exists j :: 0 <= j <= 40 && d == PartlyAppended(before, e, j)
  }

  /** The states an append passes through, a byte at a time. */
  function AppendTrace<S>(before: Disk<S>, e: WalEntry): seq<Disk<S>>
    requires before.wal.Some?
  {
    seq(40, j requires 0 <= j < 40 => PartlyAppended(before, e, j + 1))
  }

  lemma AppendTraceIsDuring<S>(before: Disk<S>, e: WalEntry, i: nat)
    requires before.wal.Some? && i < 40
    ensures DuringAppend(AppendTrace(before, e)[i], before, e)
    ensures AppendTrace(before, e)[39] == Appended(before, e)
  {
    assert Frame(e)[..40] == Frame(e);
    assert AppendTrace(before, e)[i] == PartlyAppended(before, e, i + 1);
  }

  function Appended<S>(d: Disk<S>, e: WalEntry): Disk<S>
    requires d.wal.Some?
  {
    d.(wal := Some(d.wal.value + Frame(e)))
  }

  class LogDir<S(==)> {
    var disk: Disk<S>
    ghost var seen: seq<Disk<S>>

    constructor (base: S)
      ensures disk == Disk(base, None) && seen == []
    {
      disk, seen := Disk(base, None), [];
    }

    /** `append_wal_entry`. */
    method AppendWalEntry(e: WalEntry)
      requires disk.wal.Some?
      modifies this
      ensures disk == Appended(old(disk), e)
      ensures seen == old(seen) + AppendTrace(old(disk), e)
    {
      var bytes := Frame(e);
      ghost var trace := AppendTrace(disk, e);
      assert disk.wal.value + bytes[..0] == disk.wal.value;
      for j := 0 to |bytes|
        invariant disk == PartlyAppended(old(disk), e, j)
        invariant seen == old(seen) + trace[..j]
      {
        assert bytes[..j + 1] == bytes[..j] + [bytes[j]];
        assert old(disk).wal.value + bytes[..j] + [bytes[j]] == old(disk).wal.value + bytes[..j + 1];
        disk := disk.(wal := Some(disk.wal.value + [bytes[j]]));
        seen := seen + [disk];
        assert trace[..j + 1] == trace[..j] + [trace[j]];
      }
      assert trace[..40] == trace;
      assert Frame(e)[..40] == Frame(e);
    }

    /** Reopen the log truncated: an empty log, created if need be. */
    method TruncateWal()
      modifies this
      ensures disk == old(disk).(wal := Some([]))
      ensures seen == old(seen) + [disk]
    {
      disk := disk.(wal := Some([]));
      seen := seen + [disk];
    }

    /** Open the log for appending: created empty when missing, otherwise as it is. */
    method OpenWal()
      modifies this
      ensures disk == if old(disk).wal.Some? then old(disk) else old(disk).(wal := Some([]))
      ensures seen == old(seen) + [disk]
    {
      if disk.wal == None {
        disk := disk.(wal := Some([]));
      }
      seen := seen + [disk];
    }

    method WriteBase(base: S)
      modifies this
      ensures disk == old(disk).(base := base)
      ensures seen == old(seen) + [disk]
    {
      disk := disk.(base := base);
      seen := seen + [disk];
    }
  }
}
