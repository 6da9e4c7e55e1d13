/** The two tiers of a node's log: entries still in memory, and the storage behind them. */
module LogStore {
  import opened Types
  import opened FlatLog

  datatype SnapshotMeta = SnapshotMeta(index: nat, term: nat)

  // ---------------------------------------------------------------- storage

  /** MemoryStorageCore: the last snapshot's place and the entries after it. */
  class MemoryStorage {
    var snapshot: SnapshotMeta
    var entries: seq<Entry>

    /** Entries are consecutive and start after the snapshot, perhaps well after it. */
    predicate Valid()
      reads this
    {
      && (entries != [] ==> snapshot.index < entries[0].index && Follows(entries[0].index - 1, entries))
      && (snapshot.index == 0 ==> snapshot.term == 0)
    }

    function FirstIndex(): nat
      reads this
    {
      if entries == [] then snapshot.index + 1 else entries[0].index
    }

    function LastIndex(): nat
      reads this
    {
      if entries == [] then snapshot.index else entries[|entries| - 1].index
    }

    /** The flat log the storage holds; compaction forgets the term at the base. */
    function AsFlat(): (f: Flat)
      requires Valid()
      reads this
      ensures f.Valid() && f.First() == FirstIndex() && f.Last() == LastIndex() && f.Term(0) == Ok(0)
    {
      var base := FirstIndex() - 1;
      Flat(base, if base == snapshot.index then Some(snapshot.term) else None, entries)
    }

    constructor ()
      ensures Valid() && AsFlat() == Flat(0, Some(0), [])
    {
      snapshot, entries := SnapshotMeta(0, 0), [];
    }

    /** MemoryStorage::Term. */
    function Term(idx: nat): (r: Result<nat, LogError>)
      requires Valid()
      reads this
      ensures r.Ok? <==> idx == snapshot.index || FirstIndex() <= idx <= LastIndex()
      ensures AsFlat().base <= idx <= AsFlat().Last() ==> r == AsFlat().Term(idx)
    {
      if idx == snapshot.index then Ok(snapshot.term)
      else if idx < FirstIndex() then Err(Compacted)
      else if idx > LastIndex() then Err(Unavailable)
      else Ok(entries[idx - FirstIndex()].term)
    }

    /** MemoryStorage::Entries: a size-limited page of a range inside the storage, or compacted. */
    method Entries(size: Entry -> nat, low: nat, high: nat, max: Option<nat>) returns (r: Result<seq<Entry>, LogError>)
      requires Valid() && (FirstIndex() <= low ==> low <= high <= LastIndex() + 1 && entries != [])
      ensures r.Ok? <==> FirstIndex() <= low
      ensures r.Ok? ==> r.value == Limited(size, AsFlat().Range(low, high), max)
      ensures r.Err? ==> r.error == Compacted
    {
      if low < FirstIndex() {
        return Err(Compacted);
      }
      var offset := entries[0].index;
      var ents := LimitSize(size, entries[low - offset..high - offset], max);
      return Ok(ents);
    }

    /** MemoryStorageCore::MayAppend: refused if it would leave a gap or rewrite compacted entries. */
    method MayAppend(ents: seq<Entry>) returns (r: Result<(), LogError>)
      requires Valid() && (ents != [] ==> ents[0].index > 0 && Follows(ents[0].index - 1, ents))
      modifies this
      ensures Valid() && snapshot == old(snapshot)
      ensures r.Ok? <==> ents == [] || old(FirstIndex()) <= ents[0].index <= old(LastIndex()) + 1
      ensures AsFlat() == if r.Ok? && ents != [] then old(AsFlat()).Append(ents) else old(AsFlat())
    {
      if ents == [] {
        return Ok(());
      }
      var start := ents[0].index;
      if FirstIndex() > start || LastIndex() + 1 < start {
        return Err(Fatal);
      }
      var diff := start - FirstIndex();
      if diff < |entries| {
        entries := entries[..diff];
      }
      entries := entries + ents;
      return Ok(());
    }

    /**
      MemoryStorageCore::Compact drops the entries before `index`.  It does not move the
      snapshot, so dropping everything sends the last index back to the snapshot's.
     */
    method Compact(index: nat) returns (r: Result<(), LogError>)
      requires Valid()
      modifies this
      ensures Valid() && snapshot == old(snapshot)
      ensures r.Ok? <==> index <= old(LastIndex()) + 1
      ensures r.Err? || index <= old(FirstIndex()) ==> entries == old(entries) && AsFlat() == old(AsFlat())
      ensures old(FirstIndex()) < index <= old(LastIndex()) ==>
                AsFlat() == Flat(index - 1, None, old(AsFlat()).Range(index, old(LastIndex()) + 1))
      ensures LastIndex() == old(LastIndex()) <==>
                !(old(FirstIndex()) < index == old(LastIndex()) + 1)
    {
      if index <= FirstIndex() {
        return Ok(());
      }
      if index > LastIndex() + 1 {
        return Err(Fatal);
      }
      if entries == [] {
        return Ok(());
      }
      entries := entries[index - entries[0].index..];
      return Ok(());
    }

    /** MemoryStorageCore::ApplySnapshot replaces the whole log by a snapshot. */
    method ApplySnapshot(meta: SnapshotMeta) returns (r: Result<(), LogError>)
      requires Valid()
      modifies this
      ensures Valid()
      ensures r.Ok? <==> old(FirstIndex()) <= meta.index
      ensures r.Ok? ==> AsFlat() == Flat(meta.index, Some(meta.term), []) && snapshot == meta
      ensures r.Err? ==> snapshot == old(snapshot) && entries == old(entries)
    {
      if FirstIndex() > meta.index {
        return Err(SnapshotOutOfDate);
      }
      snapshot, entries := meta, [];
      return Ok(());
    }

    /**
      MemoryStorageCore::ApplyLocalSnapshot moves the snapshot up and keeps the entries after it.
      An index past the last entry is refused only after the snapshot has moved, which leaves
      the storage inconsistent.
     */
    method ApplyLocalSnapshot(meta: SnapshotMeta) returns (r: Result<(), LogError>)
      requires Valid()
      modifies this
      ensures r.Ok? <==> old(FirstIndex()) <= meta.index && (old(entries) == [] || meta.index <= old(LastIndex()))
      ensures r.Ok? && old(entries) != [] ==>
                Valid() && AsFlat() == Flat(meta.index, Some(meta.term), old(AsFlat()).Range(meta.index + 1, old(LastIndex()) + 1))
      ensures r.Ok? && old(entries) == [] ==> Valid() && AsFlat() == Flat(meta.index, Some(meta.term), [])
      ensures old(FirstIndex()) > meta.index ==> snapshot == old(snapshot) && entries == old(entries)
      ensures Valid() <==> r.Ok? || old(FirstIndex()) > meta.index
    {
      if FirstIndex() > meta.index {
        return Err(SnapshotOutOfDate);
      }
      snapshot := meta;
      if meta.index + 1 <= FirstIndex() {
        return Ok(());
      }
      if meta.index + 1 > LastIndex() + 1 {
        return Err(Fatal);
      }
      entries := entries[meta.index + 1 - entries[0].index..];
      return Ok(());
    }
  }

  // ---------------------------------------------------------------- unstable entries

  /** EntryApproximateSize: the payload and a fixed overhead. */
  function ApproximateSize(e: Entry): nat { |e.data| + 12 }

  function SizeSum(ents: seq<Entry>): nat { TotalSize(ApproximateSize, ents) }

  lemma {:induction false} SizeSumConcat(a: seq<Entry>, b: seq<Entry>)
    ensures SizeSum(a + b) == SizeSum(a) + SizeSum(b)
  {
    if a == [] {
      assert a + b == b;
    } else {
      assert (a + b)[1..] == a[1..] + b;
      SizeSumConcat(a[1..], b);
    }
  }

  lemma SizeSumOne(e: Entry)
    ensures SizeSum([e]) == ApproximateSize(e)
  {
    assert [e][1..] == [];
    assert TotalSize(ApproximateSize, [e]) == ApproximateSize([e][0]) + TotalSize(ApproximateSize, [e][1..]);
  }

  /** Unstable: entries, and perhaps a snapshot, that storage does not have yet. */
  class Unstable {
    var snapshot: Option<SnapshotMeta>
    var entries: seq<Entry>
    var entriesSize: nat
    var offset: nat

    /** A pending snapshot sits right before the entries, and the size is kept up to date. */
    predicate Valid()
      reads this
    {
      && offset > 0 && Follows(offset - 1, entries)
      && (snapshot.Some? ==> offset == snapshot.value.index + 1 && (snapshot.value.index == 0 ==> snapshot.value.term == 0))
      && entriesSize == SizeSum(entries)
    }

    constructor (offset: nat)
      requires offset > 0
      ensures Valid() && this.offset == offset && entries == [] && snapshot == None
    {
      snapshot, entries, entriesSize, this.offset := None, [], 0, offset;
    }

    function MaybeFirstIndex(): Option<nat>
      reads this
    {
      if snapshot.Some? then Some(snapshot.value.index + 1) else None
    }

    function MaybeLastIndex(): Option<nat>
      reads this
    {
      if entries != [] then Some(offset + |entries| - 1)
      else if snapshot.Some? then Some(snapshot.value.index)
      else None
    }

    /** Unstable::MaybeTerm: known for its entries and for a pending snapshot. */
    function MaybeTerm(idx: nat): (t: Option<nat>)
      requires Valid()
      reads this
      ensures t.Some? <==> offset <= idx < offset + |entries| || (snapshot.Some? && idx == snapshot.value.index)
    {
      if idx < offset then
        if snapshot.Some? && idx == snapshot.value.index then Some(snapshot.value.term) else None
      else if MaybeLastIndex().Some? && idx <= MaybeLastIndex().value then
        Some(entries[idx - offset].term)
      else None
    }

    /** Drops the entries from position `keep` on, one size at a time. */
    method Shrink(keep: nat)
      requires Valid() && keep <= |entries|
      modifies `entries, `entriesSize
      ensures Valid() && entries == old(entries)[..keep]
    {
      SizeSumConcat(entries[..keep], entries[keep..]);
      assert entries == entries[..keep] + entries[keep..];
      var i := keep;
      while i < |entries|
        invariant keep <= i <= |entries| && entries == old(entries)
        invariant entriesSize == SizeSum(entries[..keep]) + SizeSum(entries[i..])
      {
        assert entries[i..][1..] == entries[i + 1..];
        entriesSize := entriesSize - ApproximateSize(entries[i]);
        i := i + 1;
      }
      entries := entries[..keep];
    }

    /** Adds entries at the end, one at a time. */
    method Extend(ents: seq<Entry>)
      requires entriesSize == SizeSum(entries)
      modifies `entries, `entriesSize
      ensures entries == old(entries) + ents && entriesSize == SizeSum(entries)
    {
      var k := 0;
      while k < |ents|
        invariant 0 <= k <= |ents|
        invariant entries == old(entries) + ents[..k]
        invariant entriesSize == SizeSum(entries)
      {
        SizeSumConcat(entries, [ents[k]]);
        SizeSumOne(ents[k]);
        entries, entriesSize := entries + [ents[k]], entriesSize + ApproximateSize(ents[k]);
        assert ents[..k + 1] == ents[..k] + [ents[k]];
        k := k + 1;
      }
      assert ents[..k] == ents;
    }

    /** Unstable::TruncateAndAppend: three cases for where the new entries start. */
    method TruncateAndAppend(ents: seq<Entry>)
      requires Valid() && ents != [] && 0 < ents[0].index <= offset + |entries|
      requires Follows(ents[0].index - 1, ents) && (snapshot.Some? ==> offset <= ents[0].index)
      modifies this
      ensures Valid() && snapshot == old(snapshot)
      ensures offset == Min(old(offset), ents[0].index)
      ensures entries == (if ents[0].index <= old(offset) then [] else old(entries)[..ents[0].index - old(offset)]) + ents
    {
      var after := ents[0].index;
      if after == offset + |entries| {
        assert entries[..after - offset] == entries;
      } else if after <= offset {
        offset, entries, entriesSize := after, [], 0;
      } else {
        Shrink(after - offset);
      }
      Extend(ents);
    }

    /** Unstable::StableEntries: storage has taken every entry; there must be no pending snapshot. */
    method StableEntries(index: nat, term: nat)
      requires Valid() && snapshot == None && entries != []
      requires entries[|entries| - 1].index == index && entries[|entries| - 1].term == term
      modifies this
      ensures Valid() && snapshot == None && entries == [] && offset == index + 1
    {
      offset, entries, entriesSize := index + 1, [], 0;
    }

    /** Unstable::StableSnapshot: storage has taken the pending snapshot. */
    method StableSnapshot(index: nat)
      requires Valid() && snapshot.Some? && snapshot.value.index == index
      modifies this
      ensures Valid() && snapshot == None && entries == old(entries) && offset == old(offset)
    {
      snapshot := None;
    }

    /** Unstable::Restore: a snapshot replaces everything. */
    method Restore(meta: SnapshotMeta)
      requires Valid() && (meta.index == 0 ==> meta.term == 0)
      modifies this
      ensures Valid() && snapshot == Some(meta) && entries == [] && offset == meta.index + 1
    {
      snapshot, entries, entriesSize, offset := Some(meta), [], 0, meta.index + 1;
    }
  }
}
