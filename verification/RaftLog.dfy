/** RaftLog: unstable entries over a storage, read and written as one flat log with three cursors. */
module RaftLog {
  import opened Types
  import opened FlatLog
  import opened LogStore

  /** The result of a matching attempt: whether it matched, where it conflicted, its last index. */
  datatype AppendResult = AppendResult(matched: bool, conflict: nat, last: nat)

  /** The unstable entries over the part of the storage before them. */
  function Overlay(stored: Flat, offset: nat, entries: seq<Entry>): Flat
    requires stored.First() <= offset <= stored.Last() + 1
  {
    Flat(stored.base, stored.baseTerm, stored.entries[..offset - stored.First()] + entries)
  }

  /** Truncating and appending in memory is truncating and appending the flat log. */
  lemma OverlayAppend(stored: Flat, offset: nat, entries: seq<Entry>, ents: seq<Entry>, offset': nat, entries': seq<Entry>)
    requires stored.First() <= offset <= stored.Last() + 1 && ents != []
    requires stored.First() <= ents[0].index <= offset + |entries|
    requires offset' == Min(offset, ents[0].index)
    requires entries' == (if ents[0].index <= offset then [] else entries[..ents[0].index - offset]) + ents
    ensures Overlay(stored, offset', entries') == Overlay(stored, offset, entries).Append(ents)
  {
    var old_entries, after := Overlay(stored, offset, entries).entries, ents[0].index;
    var kept := stored.entries[..offset - stored.First()];
    if after <= offset {
      assert stored.entries[..after - stored.First()] == old_entries[..after - stored.First()];
      assert [] + ents == ents;
    } else {
      assert old_entries[..after - stored.First()] == kept + entries[..after - offset];
    }
  }

  /** Entries the storage has taken over no longer need the overlay. */
  lemma OverlayStored(stored: Flat, offset: nat, entries: seq<Entry>)
    requires stored.First() <= offset <= stored.Last() + 1 && entries != [] && entries[0].index == offset
    ensures var s := stored.Append(entries);
            && s.First() == stored.First() && s.Last() == offset + |entries| - 1
            && s.entries[offset - stored.First()..] == entries && Overlay(s, offset, entries) == Overlay(stored, offset, entries)
  {
  }

  /** Compaction under the overlay is compaction of the flat log. */
  lemma OverlayCompacted(stored: Flat, offset: nat, entries: seq<Entry>, index: nat)
    requires stored.First() <= offset <= stored.Last() + 1
    ensures var f := Overlay(stored, offset, entries);
            f.base == stored.base && f.Last() == offset + |entries| - 1
    ensures stored.First() <= index <= Min(offset, stored.Last()) ==>
              var f, s := Overlay(stored, offset, entries), Flat(index - 1, None, stored.Range(index, stored.Last() + 1));
              && s.Last() == stored.Last() && index <= f.Last() + 1
              && Overlay(s, offset, entries) == Flat(index - 1, None, f.Range(index, f.Last() + 1))
  {
  }

  /** A page read at `at` continues what was read before it. */
  lemma PageExtends(flat: Flat, low: nat, at: nat, high: nat, page: seq<Entry>)
    requires flat.First() <= low <= at < high <= flat.Last() + 1
    requires page <= flat.Range(at, high)
    ensures at + |page| <= high
    ensures flat.Range(low, at) + page == flat.Range(low, at + |page|)
    ensures flat.Range(low, at + |page|) <= flat.Range(low, high)
  {
  }

  class RaftLog {
    const store: MemoryStorage
    const unstable: Unstable
    const size: Entry -> nat
    var committed: nat
    var persisted: nat
    var applied: nat
    var unpersistedLimit: nat

    /** How the two tiers fit together. */
    ghost predicate Tiers()
      reads store, unstable
    {
      && store.Valid() && unstable.Valid()
      && (unstable.snapshot == None ==>
            && store.FirstIndex() <= unstable.offset <= store.LastIndex() + 1
            && (unstable.entries == [] ==> unstable.offset == store.LastIndex() + 1))
    }

    /** The flat log. */
    ghost function AsFlat(): (f: Flat)
      requires Tiers()
      reads store, unstable
      ensures f.Valid() && f.Term(0) == Ok(0)
    {
      if unstable.snapshot.Some? then
        Flat(unstable.snapshot.value.index, Some(unstable.snapshot.value.term), unstable.entries)
      else
        Overlay(store.AsFlat(), unstable.offset, unstable.entries)
    }

    /** The cursor invariant: applied <= committed <= last, nothing before the base is uncommitted, persisted < offset. */
    ghost predicate Valid()
      reads this, store, unstable
    {
      && Tiers()
      && applied <= committed <= AsFlat().Last() && AsFlat().base <= committed
      && persisted < unstable.offset
    }

    /** A log over a storage starts committed and applied up to the storage's base. */
    constructor (store: MemoryStorage, size: Entry -> nat, unpersistedLimit: nat)
      requires store.Valid()
      ensures Valid() && this.store == store && this.size == size && fresh(unstable)
      ensures AsFlat() == store.AsFlat()
      ensures committed == applied == store.FirstIndex() - 1 && persisted == store.LastIndex()
      ensures this.unpersistedLimit == unpersistedLimit
    {
      this.store, this.size := store, size;
      var u := new Unstable(store.LastIndex() + 1);
      unstable := u;
      committed, applied, persisted := store.FirstIndex() - 1, store.FirstIndex() - 1, store.LastIndex();
      this.unpersistedLimit := unpersistedLimit;
      new;
      assert AsFlat().entries == store.entries;
    }

    lemma OffsetInLog()
      requires Valid()
      ensures persisted < unstable.offset <= AsFlat().Last() + 1
    {
    }

    // -------------------------------------------------------------- reading

    method LastIndex() returns (r: nat)
      requires Tiers()
      ensures r == AsFlat().Last()
    {
      var last := unstable.MaybeLastIndex();
      if last.Some? {
        return last.value;
      }
      return store.LastIndex();
    }

    method FirstIndex() returns (r: nat)
      requires Tiers()
      ensures r == AsFlat().First()
    {
      var first := unstable.MaybeFirstIndex();
      if first.Some? {
        return first.value;
      }
      return store.FirstIndex();
    }

    /** RaftLog::Term: asks the unstable part first, then the storage. */
    method Term(idx: nat) returns (r: Result<nat, LogError>)
      requires Tiers()
      ensures r == AsFlat().Term(idx)
    {
      hide Flat.Valid, MemoryStorage.Term;
      var first := FirstIndex();
      var last := LastIndex();
      if idx < first - 1 || idx > last {
        return Ok(0);
      }
      var t := unstable.MaybeTerm(idx);
      if t.Some? {
        return Ok(t.value);
      }
      return store.Term(idx);
    }

    method MatchTerm(idx: nat, term: nat) returns (r: bool)
      requires Tiers()
      ensures r == AsFlat().Match(idx, term)
    {
      var t := Term(idx);
      return t.Ok? && t.value == term;
    }

    /** RaftLog::FindConflict: a scan that compares terms only. */
    method FindConflict(entries: seq<Entry>) returns (r: nat)
      requires Tiers()
      ensures r == AsFlat().Conflict(entries)
    {
      var k := 0;
      while k < |entries|
        invariant 0 <= k <= |entries| && AsFlat().Conflict(entries) == AsFlat().Conflict(entries[k..])
      {
        var ok := MatchTerm(entries[k].index, entries[k].term);
        if !ok {
          return entries[k].index;
        }
        assert entries[k..][1..] == entries[k + 1..];
        k := k + 1;
      }
      return 0;
    }

    /** RaftLog::FindConflictByTerm; the term found is missing if it is not known. */
    method FindConflictByTerm(index: nat, term: nat) returns (r: nat, t: Option<nat>)
      requires Tiers()
      ensures r == AsFlat().BackTo(index, term)
      ensures t == if index <= AsFlat().Last() && AsFlat().Term(r).Ok? then Some(AsFlat().Term(r).value) else None
    {
      hide Tiers, AsFlat, Flat.Valid, Flat.Term;
      var last := LastIndex();
      if index > last {
        return index, None;
      }
      r := index;
      while true
        invariant r <= index && AsFlat().BackTo(r, term) == AsFlat().BackTo(index, term)
        decreases r
      {
        var x := Term(r);
        if x.Err? {
          return r, None;
        }
        if x.value <= term {
          return r, Some(x.value);
        }
        r := r - 1;
      }
    }

    // -------------------------------------------------------------- cursors

    /** RaftLog::CommitTo never lowers the commit index and refuses to pass the end of the log. */
    method CommitTo(to: nat) returns (r: Result<(), LogError>)
      requires Valid()
      modifies `committed
      ensures Valid()
      ensures r.Ok? <==> to <= Max(old(committed), AsFlat().Last())
      ensures committed == if r.Ok? then Max(old(committed), to) else old(committed)
    {
      if committed >= to {
        return Ok(());
      }
      var last := LastIndex();
      if last < to {
        return Err(Fatal);
      }
      committed := to;
      return Ok(());
    }

    /** RaftLog::MaybeCommit commits up to an index whose entry has the given term. */
    method MaybeCommit(index: nat, term: nat) returns (r: bool)
      requires Valid()
      modifies `committed
      ensures Valid()
      ensures r <==> index > old(committed) && AsFlat().Match(index, term)
      ensures committed == if r && index <= AsFlat().Last() then index else old(committed)
    {
      if index > committed {
        var ok := MatchTerm(index, term);
        if ok {
          var c := CommitTo(index);
          return true;
        }
      }
      return false;
    }

    /** RaftLog::AppliedTo; going back or past the commit index would stop the process. */
    method AppliedTo(idx: nat)
      requires Valid() && (idx == 0 || applied <= idx <= committed)
      modifies `applied
      ensures Valid() && applied == if idx == 0 then old(applied) else idx
    {
      if idx == 0 {
        return;
      }
      applied := idx;
    }

    /** Below the offset a term is the storage's. */
    lemma StoredTerm(index: nat)
      requires Tiers()
      ensures store.Valid() && unstable.Valid()
      ensures unstable.snapshot == None && AsFlat().base < index < unstable.offset ==>
                && AsFlat().Term(index) == store.AsFlat().Term(index)
                && store.AsFlat().base <= index <= store.AsFlat().Last()
    {
    }

    /** RaftLog::MaybePersist: an index of an outdated report, or not yet in storage, is ignored. */
    method MaybePersist(index: nat, term: nat) returns (r: bool)
      requires Valid()
      modifies `persisted
      ensures Valid()
      ensures r <==> old(persisted) < index < (if unstable.snapshot.Some? then unstable.snapshot.value.index else unstable.offset)
                     && store.Term(index) == Ok(term)
      ensures r ==> persisted == index
      ensures unstable.snapshot == None && AsFlat().base < index ==>
                (r <==> old(persisted) < index < unstable.offset && AsFlat().Match(index, term))
      ensures !r ==> persisted == old(persisted)
    {
      hide Tiers, AsFlat, Flat.Term, Flat.Last, MemoryStorage.AsFlat, MemoryStorage.Valid;
      StoredTerm(index);
      var limit := if unstable.snapshot.Some? then unstable.snapshot.value.index else unstable.offset;
      if index > persisted && index < limit {
        if store.Term(index) == Ok(term) {
          persisted := index;
          return true;
        }
      }
      return false;
    }

    method MaybePersistSnapshot(index: nat) returns (r: bool)
      requires Valid() && (index > persisted ==> index <= committed && index < unstable.offset)
      modifies `persisted
      ensures Valid()
      ensures r <==> index > old(persisted)
      ensures persisted == Max(old(persisted), index)
    {
      if index <= persisted {
        return false;
      }
      persisted := index;
      return true;
    }

    // -------------------------------------------------------------- writing

    /** RaftLog::Append: truncate, then append; the commit index gives way if it must. */
    method Append(entries: seq<Entry>) returns (last: nat)
      requires Valid() && (entries != [] ==> AsFlat().base < entries[0].index <= AsFlat().Last() + 1 && Follows(entries[0].index - 1, entries))
      modifies `committed, unstable
      ensures Tiers() && last == AsFlat().Last()
      ensures entries == [] || (persisted < entries[0].index && applied < entries[0].index) ==> Valid()
      ensures AsFlat() == if entries == [] then old(AsFlat()) else old(AsFlat()).Append(entries)
      ensures committed == if entries == [] then old(committed) else Min(old(committed), entries[0].index - 1)
      ensures unstable.snapshot == old(unstable.snapshot)
      ensures unstable.offset == if entries == [] then old(unstable.offset) else Min(old(unstable.offset), entries[0].index)
    {
      if entries == [] {
        last := LastIndex();
        return;
      }
      var after := entries[0].index - 1;
      if after < committed {
        committed := after;
      }
      Truncate(entries);
      last := LastIndex();
    }

    /** Rewriting the unstable part rewrites the flat log. */
    method Truncate(entries: seq<Entry>)
      requires Tiers() && entries != [] && AsFlat().base < entries[0].index <= AsFlat().Last() + 1
      requires Follows(entries[0].index - 1, entries)
      modifies unstable
      ensures Tiers() && AsFlat() == old(AsFlat()).Append(entries)
      ensures unstable.snapshot == old(unstable.snapshot)
      ensures unstable.offset == Min(old(unstable.offset), entries[0].index)
    {
      if unstable.snapshot == None {
        ghost var stored, offset, ents := store.AsFlat(), unstable.offset, unstable.entries;
        unstable.TruncateAndAppend(entries);
        OverlayAppend(stored, offset, ents, entries, unstable.offset, unstable.entries);
      } else {
        unstable.TruncateAndAppend(entries);
        assert [] + entries == entries;
      }
    }

    /** RaftLog::MaybeAppend: what a follower does with an append message. */
    method MaybeAppend(idx: nat, term: nat, commit: nat, entries: seq<Entry>) returns (r: Result<AppendResult, LogError>)
      requires Valid() && WellFormed(AsFlat(), idx, term, entries)
      modifies this, unstable
      ensures Valid() && applied == old(applied) && unpersistedLimit == old(unpersistedLimit)
      ensures committed >= old(committed) && unstable.snapshot == old(unstable.snapshot)
      ensures r == if !old(AsFlat()).Match(idx, term) then Ok(AppendResult(false, 0, 0))
                   else if 0 < old(AsFlat()).Conflict(entries) <= old(committed) then Err(Fatal)
                   else Ok(AppendResult(true, old(AsFlat()).Conflict(entries), idx + |entries|))
      ensures r.Err? || !r.value.matched ==> AsFlat() == old(AsFlat()) && committed == old(committed) && persisted == old(persisted)
      ensures r.Ok? && r.value.matched ==>
                && (old(AsFlat()).Conflict(entries) == 0 || old(AsFlat()).base < old(AsFlat()).Conflict(entries) <= old(AsFlat()).Last() + 1)
                && AsFlat() == Spliced(old(AsFlat()), idx, entries)
                && committed == (if Min(commit, idx + |entries|) <= AsFlat().Last() then Max(old(committed), Min(commit, idx + |entries|)) else old(committed))
                && (entries != [] || idx <= AsFlat().Last() ==> committed == Max(old(committed), Min(commit, idx + |entries|)))
                && persisted == (if r.value.conflict == 0 then old(persisted) else Min(old(persisted), r.value.conflict - 1))
    {
      hide Tiers, AsFlat, Flat.Conflict, Flat.Term, Flat.Append, Spliced;
      var ok := MatchTerm(idx, term);
      if !ok {
        return Ok(AppendResult(false, 0, 0));
      }
      ConflictFound(AsFlat(), idx, entries);
      ConflictInRange(AsFlat(), idx, term, entries);
      var conflict := FindConflict(entries);
      if 0 < conflict <= committed {
        return Err(Fatal);
      }
      SplicedLast(AsFlat(), idx, term, entries);
      ReplaceFrom(idx, term, entries, conflict);
      var lastNew := idx + |entries|;
      var c := CommitTo(Min(commit, lastNew));
      return Ok(AppendResult(true, conflict, lastNew));
    }

    /** The entries of a message replace the log from their first conflict on, and persistence with it. */
    method ReplaceFrom(idx: nat, term: nat, entries: seq<Entry>, conflict: nat)
      requires Valid() && WellFormed(AsFlat(), idx, term, entries) && AsFlat().Match(idx, term)
      requires conflict == AsFlat().Conflict(entries) && (conflict == 0 || committed < conflict <= AsFlat().Last() + 1)
      modifies this, unstable
      ensures Valid() && committed == old(committed) && applied == old(applied) && unpersistedLimit == old(unpersistedLimit)
      ensures unstable.snapshot == old(unstable.snapshot)
      ensures AsFlat() == Spliced(old(AsFlat()), idx, entries)
      ensures persisted == if conflict == 0 then old(persisted) else Min(old(persisted), conflict - 1)
    {
      hide Tiers, AsFlat, Flat.Conflict, Flat.Term;
      ConflictFound(AsFlat(), idx, entries);
      if conflict != 0 {
        var rest := entries[conflict - (idx + 1)..];
        assert rest[0].index == conflict && Follows(conflict - 1, rest);
        var last := Append(rest);
        persisted := Min(persisted, conflict - 1);
      }
    }

    /** RaftLog::Restore: a snapshot that is not older than the commit index replaces the log. */
    method Restore(meta: SnapshotMeta) returns (r: Result<(), LogError>)
      requires Valid() && (meta.index == 0 ==> meta.term == 0)
      modifies this, unstable
      ensures Valid() && applied == old(applied)
      ensures r.Ok? <==> old(committed) <= meta.index
      ensures r.Ok? ==> AsFlat() == Flat(meta.index, Some(meta.term), []) && committed == meta.index
                        && persisted == Min(old(persisted), old(committed))
      ensures r.Err? ==> AsFlat() == old(AsFlat()) && committed == old(committed) && persisted == old(persisted)
    {
      if meta.index < committed {
        return Err(Fatal);
      }
      if persisted > committed {
        persisted := committed;
      }
      committed := meta.index;
      unstable.Restore(meta);
      return Ok(());
    }

    /** Handing the unstable entries over to a storage that has taken them leaves the flat log as it was. */
    method StableEntries(index: nat, term: nat)
      requires Valid() && Stored() && unstable.entries != []
      requires var e := unstable.entries[|unstable.entries| - 1]; e.index == index && e.term == term
      modifies unstable
      ensures Valid() && AsFlat() == old(AsFlat()) && unstable.entries == [] && unstable.snapshot == None
    {
      ghost var stored := store.AsFlat().entries;
      assert stored[..unstable.offset - store.FirstIndex()] + stored[unstable.offset - store.FirstIndex()..] == stored;
      unstable.StableEntries(index, term);
      assert stored[..unstable.offset - store.FirstIndex()] == stored;
    }

    /** Storage holds everything that is unstable. */
    ghost predicate Stored()
      requires Tiers()
      reads store, unstable
    {
      && unstable.snapshot == None
      && store.AsFlat().entries[unstable.offset - store.FirstIndex()..] == unstable.entries
    }

    /** The storage takes the unstable entries; the flat log does not change. */
    method StoreUnstable() returns (r: Result<(), LogError>)
      requires Valid() && unstable.snapshot == None
      modifies store
      ensures Valid() && r.Ok? && AsFlat() == old(AsFlat()) && Stored()
    {
      hide Overlay, Flat.Append, Flat.Term, MemoryStorage.AsFlat, MemoryStorage.Valid, MemoryStorage.FirstIndex, MemoryStorage.LastIndex;
      ghost var stored := store.AsFlat();
      r := store.MayAppend(unstable.entries);
      if unstable.entries == [] {
        assert stored.entries[unstable.offset - stored.First()..] == [];
      } else {
        OverlayStored(stored, unstable.offset, unstable.entries);
      }
    }

    /** Compacting the storage moves the base of the flat log and nothing else. */
    method CompactStore(index: nat) returns (r: Result<(), LogError>)
      requires Valid() && unstable.snapshot == None
      requires index <= committed + 1 && index <= unstable.offset && index <= store.LastIndex()
      modifies store
      ensures Valid() && r.Ok?
      ensures index <= old(AsFlat()).First() ==> AsFlat() == old(AsFlat())
      ensures index > old(AsFlat()).First() ==>
                index <= old(AsFlat()).Last() && AsFlat() == Flat(index - 1, None, old(AsFlat()).Range(index, old(AsFlat()).Last() + 1))
    {
      hide Overlay, Flat.Term, MemoryStorage.AsFlat;
      ghost var stored := store.AsFlat();
      OverlayCompacted(stored, unstable.offset, unstable.entries, index);
      r := store.Compact(index);
    }

    /** Likewise for a pending snapshot that the storage has applied. */
    method StableSnapshot(index: nat)
      requires Valid() && unstable.snapshot.Some? && unstable.snapshot.value.index == index
      requires store.snapshot == unstable.snapshot.value && store.FirstIndex() == index + 1
      requires unstable.entries == [] ==> store.entries == []
      modifies unstable
      ensures Valid() && AsFlat() == old(AsFlat()) && unstable.entries == old(unstable.entries) && unstable.snapshot == None
    {
      unstable.StableSnapshot(index);
    }

    // -------------------------------------------------------------- paging

    /** RaftLog::Slice: one page of a range, across the boundary of the two tiers. */
    method Slice(low: nat, high: nat, max: Option<nat>) returns (r: Result<seq<Entry>, LogError>)
      requires Tiers()
      ensures r.Ok? <==> AsFlat().First() <= low <= high <= AsFlat().Last() + 1
      ensures r.Ok? ==> r.value == Limited(size, AsFlat().Range(low, high), max)
      ensures r.Err? ==> r.error == if AsFlat().First() > low && low <= high then Compacted else Fatal
    {
      hide Tiers, AsFlat, Flat.Range, Flat.First, Flat.Last, Flat.Valid, Flat.Term, Limited;
      hide MemoryStorage.AsFlat, MemoryStorage.Valid, MemoryStorage.FirstIndex, MemoryStorage.LastIndex;
      var first := FirstIndex();
      var last := LastIndex();
      if low > high {
        return Err(Fatal);
      }
      if low < first {
        return Err(Compacted);
      }
      if high > last + 1 {
        return Err(Fatal);
      }
      ghost var flat := AsFlat();
      RangeSplits(flat, low, low, high);
      if low == high {
        return Ok([]);
      }
      var entries := [];
      if low < unstable.offset {
        var middle := Min(high, unstable.offset);
        StoredRange(low, middle);
        var page := store.Entries(size, low, middle, max);
        entries := page.value;
        RangeSplits(flat, low, middle, high);
        if |entries| < middle - low {
          LimitedStops(size, flat.Range(low, middle), flat.Range(middle, high), max);
          return Ok(entries);
        }
      }
      if high > unstable.offset {
        var start := Max(low, unstable.offset);
        UnstableRange(start, high);
        entries := entries + unstable.entries[start - unstable.offset..high - unstable.offset];
      }
      assert entries == flat.Range(low, high);
      entries := LimitSize(size, entries, max);
      return Ok(entries);
    }

    /** Below the offset the flat log reads as the storage. */
    lemma StoredRange(low: nat, high: nat)
      requires Tiers() && AsFlat().First() <= low < high <= unstable.offset
      ensures store.Valid() && unstable.snapshot == None && store.entries != [] && high <= store.LastIndex() + 1 && store.FirstIndex() <= low
      ensures AsFlat().Range(low, high) == store.AsFlat().Range(low, high)
    {
    }

    /** From the offset on the flat log reads as the unstable entries. */
    lemma UnstableRange(low: nat, high: nat)
      requires Tiers() && AsFlat().First() <= low && unstable.offset <= low <= high <= AsFlat().Last() + 1
      ensures high <= unstable.offset + |unstable.entries|
      ensures AsFlat().Range(low, high) == unstable.entries[low - unstable.offset..high - unstable.offset]
    {
    }

    /**
      RaftLog::Scan reads a range page by page until it ends or the visitor has had enough.
      The pages are the range in order, without gap or repeat.
     */
    method Scan(low: nat, high: nat, pageSize: nat, more: seq<Entry> -> bool) returns (r: Result<(), LogError>, visited: seq<Entry>)
      requires Tiers()
      ensures r.Ok? <==> low >= high || AsFlat().First() <= low < high <= AsFlat().Last() + 1
      ensures low >= high || r.Err? ==> visited == []
      ensures r.Ok? && low < high ==> visited != [] && visited <= AsFlat().Range(low, high)
      ensures r.Ok? && low < high && (forall k | 0 <= k < |visited| :: more(visited[k..])) ==>
                visited == AsFlat().Range(low, high)
    {
      hide Tiers, AsFlat, Flat.Range, Flat.First, Flat.Last, Flat.Valid, Flat.Term, Limited;
      visited := [];
      var at := low;
      while at < high
        invariant low <= at && (at <= high || at == low) && |visited| == at - low
        invariant at == low || AsFlat().First() <= low < high <= AsFlat().Last() + 1
        invariant low < at ==> visited == AsFlat().Range(low, at)
        invariant low < at == high ==> visited == AsFlat().Range(low, high)
        decreases high - at
      {
        var page := Slice(at, high, Some(pageSize));
        if page.Err? {
          return Err(page.error), visited;
        }
        var n := |page.value|;
        RangeSplits(AsFlat(), low, at, high);
        PageExtends(AsFlat(), low, at, high, page.value);
        assert (visited + page.value)[|visited|..] == page.value;
        at, visited := at + n, visited + page.value;
        if !more(page.value) {
          return Ok(()), visited;
        }
      }
      return Ok(()), visited;
    }

    /** RaftLog::AppliedIndexUpperBound. */
    function UpperBound(): nat
      reads this
    {
      Min(committed, persisted + unpersistedLimit)
    }

    /** RaftLog::NextEntriesSince: the next page of entries that may be applied. */
    method NextEntriesSince(since: nat, max: Option<nat>) returns (r: seq<Entry>)
      requires Valid()
      ensures r == NextPage(AsFlat(), size, since, UpperBound(), max)
      ensures forall k | 0 <= k < |r| :: r[k].index <= committed && r[k].index <= persisted + unpersistedLimit
      ensures r == [] <==> committed <= Max(since, AsFlat().base) || persisted + unpersistedLimit <= Max(since, AsFlat().base)
    {
      hide Tiers, AsFlat, Limited, Flat.Range, Flat.Term, Flat.Valid;
      var first := FirstIndex();
      var offset := Max(since + 1, first);
      var high := UpperBound() + 1;
      if high > offset {
        var page := Slice(offset, high, max);
        RangeIndices(AsFlat(), offset, high, page.value);
        return page.value;
      }
      return [];
    }
  }
}
