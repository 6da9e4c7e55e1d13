/** RawNode: hands entries out to be stored and committed entries out to be applied. */
module RawNode {
  import opened Types
  import opened FlatLog
  import opened LogStore
  import opened RaftLog

  datatype Place = Place(index: nat, term: nat)

  /** ReadyRecord: what an outstanding ready asked to be stored, without snapshots. */
  datatype Record = Record(number: nat, last: Option<Place>)

  datatype LightReady = LightReady(committed: seq<Entry>, commitIndex: Option<nat>)

  /** Who leads, and whether that is this node. */
  datatype SoftState = SoftState(leader: nat, leads: bool)

  datatype HardState = HardState(term: nat, vote: nat, commit: nat)

  /** A ready: the states that have changed, entries to store, and committed entries to apply. */
  datatype Ready = Ready(
    number: nat,
    ss: Option<SoftState>,
    hs: Option<HardState>,
    mustSync: bool,
    entries: seq<Entry>,
    light: LightReady)

  function OrElse<T>(o: Option<T>, otherwise: T): (r: T)
    ensures o == None || o == Some(r)
    ensures o == None ==> r == otherwise
  {
    if o.Some? then o.value else otherwise
  }

  /** What to report of a state: nothing if it is the one reported before. */
  function Changed<T(==)>(before: T, after: T): (r: Option<T>)
    ensures r == None <==> before == after
    ensures OrElse(r, before) == after
  {
    if before != after then Some(after) else None
  }

  // ---------------------------------------------------------------- records

  /** Outstanding readies are numbered upwards, no number is ahead of the counter, and places are real. */
  predicate Numbered(records: seq<Record>, max: nat) {
    && (forall i, j | 0 <= i < j < |records| :: records[i].number < records[j].number)
    && (forall i | 0 <= i < |records| :: records[i].number <= max && (records[i].last.Some? ==> records[i].last.value.index > 0))
  }

  lemma NumberedNext(records: seq<Record>, max: nat, last: Option<Place>)
    requires Numbered(records, max) || records == []
    requires last.Some? ==> last.value.index > 0
    ensures Numbered(records + [Record(max + 1, last)], max + 1)
  {
  }

  /** How many records a report of `number` covers. */
  function Covered(records: seq<Record>, number: nat): (n: nat)
    ensures n <= |records|
    ensures forall i | 0 <= i < n :: records[i].number <= number
    ensures n < |records| ==> records[n].number > number
  {
    if records == [] || records[0].number > number then 0
    else
      assert forall i | 0 < i < |records| :: records[i] == records[1..][i - 1];
      1 + Covered(records[1..], number)
  }

  /** The place of the last entry that these records asked to be stored. */
  function LastStored(records: seq<Record>): (r: Option<Place>)
    ensures r == None <==> forall i | 0 <= i < |records| :: records[i].last == None
    ensures r.Some? ==> exists i | 0 <= i < |records| :: records[i].last == r && forall j | i < j < |records| :: records[j].last == None
  {
    if records == [] then None
    else
      var n := |records| - 1;
      if records[n].last.Some? then records[n].last else LastStored(records[..n])
  }

  lemma Popped(rs: seq<Record>, k: nat, number: nat)
    requires k <= |rs|
    ensures forall max | Numbered(rs, max) :: Numbered(rs[k..], max)
    ensures LastStored(rs[..0]) == None && rs[0..] == rs
    ensures k < |rs| ==> LastStored(rs[..k + 1]) == if rs[k].last.Some? then rs[k].last else LastStored(rs[..k])
    ensures k < |rs| ==> rs[k..][1..] == rs[k + 1..]
    ensures Covered(rs[k..], number) == if k < |rs| && rs[k].number <= number then 1 + Covered(rs[k + 1..], number) else 0
  {
    if k < |rs| {
      assert rs[..k + 1][..k] == rs[..k];
      assert rs[k..][1..] == rs[k + 1..];
    }
  }

  lemma {:induction false} AllCovered(records: seq<Record>, number: nat)
    requires Numbered(records, number)
    ensures Covered(records, number) == |records|
  {
    if records != [] {
      AllCovered(records[1..], number);
    }
  }

  /** If the newest record asks for something, that counts. */
  lemma NewestCounts(records: seq<Record>)
    ensures records[..|records|] == records
    ensures records != [] && records[|records| - 1].last.Some? ==> LastStored(records) == records[|records| - 1].last
  {
  }

  // ---------------------------------------------------------------- what has been delivered

  /** The log still holds what was delivered after `start`, except where it has been compacted. */
  predicate Held(flat: Flat, start: nat, delivered: seq<Entry>) {
    forall k {:trigger delivered[k]} | 0 <= k < |delivered| && flat.base <= start + k ::
      start + k < flat.Last() && flat.entries[start + k - flat.base] == delivered[k]
  }

  lemma HeldSpliced(flat: Flat, start: nat, delivered: seq<Entry>, prev: nat, ents: seq<Entry>)
    requires Held(flat, start, delivered) && Follows(prev, ents)
    requires flat.base <= start + |delivered| <= flat.Last()
    requires flat.Conflict(ents) == 0 || start + |delivered| < flat.Conflict(ents) <= flat.Last() + 1
    ensures Held(Spliced(flat, prev, ents), start, delivered) && Spliced(flat, prev, ents).base == flat.base
  {
    hide Flat.Conflict, Spliced;
    var i := start + |delivered|;
    SpliceKeeps(flat, prev, ents, i);
    var s := Spliced(flat, prev, ents);
    forall k | 0 <= k < |delivered| && flat.base <= start + k
      ensures start + k < s.Last() && s.entries[start + k - s.base] == delivered[k]
    {
      assert s.entries[..i - s.base][start + k - s.base] == flat.entries[..i - s.base][start + k - s.base];
    }
  }

  lemma HeldAppended(flat: Flat, start: nat, delivered: seq<Entry>, ents: seq<Entry>)
    requires Held(flat, start, delivered) && ents != [] && ents[0].index == flat.Last() + 1
    ensures flat.Append(ents) == Flat(flat.base, flat.baseTerm, flat.entries + ents) && Held(flat.Append(ents), start, delivered)
  {
    assert flat.entries[..|flat.entries|] == flat.entries;
    assert flat.Append(ents).entries == flat.entries + ents;
  }

  lemma HeldExtends(flat: Flat, start: nat, delivered: seq<Entry>, page: seq<Entry>)
    requires Held(flat, start, delivered) && flat.base <= start + |delivered| <= flat.Last()
    requires page <= flat.Range(start + |delivered| + 1, flat.Last() + 1)
    ensures Held(flat, start, delivered + page)
  {
  }

  /**
    Exactly once and in order: what was delivered is the log after `start`, numbered without
    gap or repeat up to `since`, all of it committed and none of it overwritten since.
   */
  predicate InOrder(flat: Flat, start: nat, delivered: seq<Entry>, since: nat, committed: nat) {
    && Follows(start, delivered) && Held(flat, start, delivered)
    && start + |delivered| == Max(since, flat.base) && start + |delivered| <= committed <= flat.Last()
  }

  /** As long as nothing delivered is compacted, the deliveries are the log from the start on. */
  lemma DeliveredIsLog(flat: Flat, start: nat, delivered: seq<Entry>, since: nat, committed: nat)
    requires InOrder(flat, start, delivered, since, committed) && flat.base <= start
    ensures start + |delivered| <= flat.Last() && delivered == flat.Range(start + 1, start + |delivered| + 1)
  {
    assert forall k | 0 <= k < |delivered| :: delivered[k] == flat.entries[start + k - flat.base];
  }

  /** The next page keeps the order. */
  lemma InOrderExtends(flat: Flat, start: nat, delivered: seq<Entry>, since: nat, committed: nat, high: nat, page: seq<Entry>)
    requires flat.Valid() && InOrder(flat, start, delivered, since, committed)
    requires start + |delivered| < high <= committed && page != []
    requires page <= flat.Range(start + |delivered| + 1, high + 1)
    ensures InOrder(flat, start, delivered + page, page[|page| - 1].index, committed)
    ensures page[|page| - 1].index == start + |delivered + page| > since
  {
    hide Held, Follows, Flat.Range;
    PageFollows(flat, start + |delivered|, high, page);
    FollowsConcat(start, delivered, page);
    HeldExtends(flat, start, delivered, page);
  }

  lemma HeldCompacted(flat: Flat, start: nat, delivered: seq<Entry>, index: nat)
    requires Held(flat, start, delivered) && flat.First() <= index <= flat.Last()
    ensures Held(Flat(index - 1, None, flat.Range(index, flat.Last() + 1)), start, delivered)
  {
  }

  /** A page read right after `last` goes on from there. */
  lemma PageFollows(flat: Flat, last: nat, high: nat, page: seq<Entry>)
    requires flat.Valid() && flat.base <= last < high <= flat.Last() && page <= flat.Range(last + 1, high + 1)
    ensures page <= flat.Range(last + 1, flat.Last() + 1) && Follows(last, page) && last + |page| <= high
    ensures page != [] ==> page[|page| - 1].index == last + |page|
  {
  }

  lemma FollowsConcat(base: nat, a: seq<Entry>, b: seq<Entry>)
    requires Follows(base, a) && Follows(base + |a|, b)
    ensures Follows(base, a + b)
  {
  }

  class RawNode {
    const log: RaftLog
    const maxCommittedSize: Option<nat>
    /** The soft state, the term and the vote; any step may change them. */
    var soft: SoftState
    var term: nat
    var vote: nat
    var prevSoft: SoftState
    var prevHard: HardState
    var records: seq<Record>
    var maxNumber: nat
    var commitSince: nat
    /** The index after which delivery began, and everything handed out to be applied since. */
    ghost const start: nat
    ghost var delivered: seq<Entry>
    /** The largest limit there has been on applying entries that are not persisted. */
    ghost var slack: nat

    /** Committed entries have been delivered exactly once and in order, and only those have been applied. */
    ghost predicate Delivery()
      reads `delivered, `commitSince, log, log.store, log.unstable
    {
      && log.Valid()
      && InOrder(log.AsFlat(), start, delivered, commitSince, log.committed)
      && log.applied <= start + |delivered| && (log.applied <= commitSince || commitSince == 0)
    }

    ghost predicate Valid()
      reads this, log, log.store, log.unstable
    {
      && Delivery() && log.unstable.snapshot == None
      && Numbered(records, maxNumber) && prevHard.commit <= log.committed && OnDisk()
    }

    /**
      Nothing has been delivered further beyond what is persisted than the limit allowed; if the
      limit has always been 0, nothing has been delivered that is not persisted.
     */
    ghost predicate OnDisk()
      reads `delivered, `slack, log
    {
      log.unpersistedLimit <= slack && start + |delivered| <= Max(start, log.persisted + slack)
    }

    constructor (log: RaftLog, term: nat, vote: nat, applied: nat, maxCommittedSize: Option<nat>)
      requires log.Valid() && log.unstable.snapshot == None && applied <= log.committed && log.applied <= log.AsFlat().base
      modifies log
      ensures Valid() && this.log == log && delivered == [] && this.term == term && this.vote == vote && prevHard == Hard()
      ensures log.applied == if applied > 0 then applied else old(log.applied)
      ensures start == Max(applied, log.AsFlat().base) && slack == log.unpersistedLimit
    {
      this.log, this.maxCommittedSize := log, maxCommittedSize;
      soft, prevSoft := SoftState(NONE, false), SoftState(NONE, false);
      this.term, this.vote, prevHard, records, maxNumber := term, vote, HardState(term, vote, log.committed), [], 0;
      commitSince, start, delivered := applied, Max(applied, log.AsFlat().base), [];
      slack := log.unpersistedLimit;
      new;
      if applied > 0 {
        log.applied := applied;
      }
    }

    function Hard(): HardState
      reads this, log
    {
      HardState(term, vote, log.committed)
    }

    // -------------------------------------------------------------- what steps do to the log

    lemma InLog()
      requires Delivery()
      ensures log.AsFlat().Valid() && log.AsFlat().base <= start + |delivered| <= log.committed <= log.AsFlat().Last()
      ensures start + |delivered| == Max(commitSince, log.AsFlat().base)
    {
    }

    /** An append message keeps everything delivered, and nothing that could be applied stops being so. */
    method HandleAppend(idx: nat, term: nat, commit: nat, entries: seq<Entry>) returns (r: Result<AppendResult, LogError>)
      requires Valid() && WellFormed(log.AsFlat(), idx, term, entries)
      modifies log, log.unstable
      ensures Valid() && log.committed >= old(log.committed) && log.UpperBound() >= old(log.UpperBound())
      ensures r == if !old(log.AsFlat()).Match(idx, term) then Ok(AppendResult(false, 0, 0))
                   else if 0 < old(log.AsFlat()).Conflict(entries) <= old(log.committed) then Err(Fatal)
                   else Ok(AppendResult(true, old(log.AsFlat()).Conflict(entries), idx + |entries|))
      ensures r.Ok? && r.value.matched ==>
                && (r.value.conflict == 0 || old(log.AsFlat()).base < r.value.conflict <= old(log.AsFlat()).Last() + 1)
                && log.AsFlat() == Spliced(old(log.AsFlat()), idx, entries)
                && (entries != [] || idx <= log.AsFlat().Last() ==> log.committed == Max(old(log.committed), Min(commit, idx + |entries|)))
                && log.persisted == (if r.value.conflict == 0 then old(log.persisted) else Min(old(log.persisted), r.value.conflict - 1))
      ensures r.Err? || !r.value.matched ==> log.AsFlat() == old(log.AsFlat()) && log.committed == old(log.committed)
    {
      hide RaftLog.Tiers, RaftLog.AsFlat, Held, Flat.Conflict, Flat.Term, Spliced, Follows, Numbered;
      InLog();
      ghost var flat := log.AsFlat();
      r := log.MaybeAppend(idx, term, commit, entries);
      if r.Ok? && r.value.matched {
        HeldSpliced(flat, start, delivered, idx, entries);
      }
    }

    /** A leader's own entries go to the end of its log. */
    method AppendOwn(entries: seq<Entry>)
      requires Valid() && Follows(log.AsFlat().Last(), entries)
      modifies log, log.unstable
      ensures Valid() && log.committed == old(log.committed)
      ensures log.AsFlat().entries == old(log.AsFlat().entries) + entries
    {
      hide RaftLog.Tiers, RaftLog.AsFlat, Held, Flat.Conflict, Flat.Term, Numbered;
      InLog();
      ghost var flat := log.AsFlat();
      log.OffsetInLog();
      var last := log.Append(entries);
      if entries != [] {
        HeldAppended(flat, start, delivered, entries);
      }
    }

    /** A heartbeat's commit index. */
    method HandleCommit(to: nat) returns (r: Result<(), LogError>)
      requires Valid()
      modifies log
      ensures Valid() && (r.Ok? <==> to <= Max(old(log.committed), log.AsFlat().Last()))
      ensures log.committed == if r.Ok? then Max(old(log.committed), to) else old(log.committed)
    {
      hide RaftLog.Tiers, RaftLog.AsFlat, Held, Follows, Numbered;
      r := log.CommitTo(to);
    }

    /** A commit by quorum or by vote. */
    method CommitAt(index: nat, term: nat) returns (r: bool)
      requires Valid()
      modifies log
      ensures Valid() && (r <==> index > old(log.committed) && log.AsFlat().Match(index, term))
      ensures log.committed == if r && index <= log.AsFlat().Last() then index else old(log.committed)
    {
      hide RaftLog.Tiers, RaftLog.AsFlat, Held, Follows, Numbered;
      r := log.MaybeCommit(index, term);
    }

    /** A node that stops leading no longer applies what it has not persisted; nothing delivered is taken back. */
    method LimitUnpersisted(limit: nat)
      requires Valid()
      modifies `slack, log
      ensures Valid() && log.unpersistedLimit == limit && slack == Max(old(slack), limit)
    {
      hide RaftLog.Tiers, RaftLog.AsFlat, InOrder, Numbered;
      log.unpersistedLimit, slack := limit, Max(slack, limit);
    }

    // -------------------------------------------------------------- delivery

    /**
      A page after `last` that may be applied: every entry of it is committed, and persisted but
      for the limit.  It is empty only if the next entry is not.
     */
    ghost predicate MayApply(page: seq<Entry>, last: nat)
      reads log
    {
      && Follows(last, page) && last + |page| <= Max(last, log.committed)
      && last + |page| <= Max(last, log.persisted + log.unpersistedLimit)
      && (page == [] <==> log.committed <= last || log.persisted + log.unpersistedLimit <= last)
    }

    /** RawNode::GetLightReady: the next page of committed entries, right after the last one delivered. */
    method GetLightReady() returns (light: LightReady)
      requires Valid()
      modifies this
      ensures Valid() && delivered == old(delivered) + light.committed && light.commitIndex == None
      ensures light.committed ==
                if start + |old(delivered)| < log.UpperBound()
                then Limited(log.size, log.AsFlat().Range(start + |old(delivered)| + 1, log.UpperBound() + 1), maxCommittedSize)
                else []
      ensures MayApply(light.committed, start + |old(delivered)|)
      ensures slack == old(slack)
      ensures soft == old(soft) && term == old(term) && vote == old(vote) && prevSoft == old(prevSoft) && prevHard == old(prevHard)
      ensures records == old(records) && maxNumber == old(maxNumber)
      ensures commitSince == if light.committed == [] then old(commitSince) else start + |delivered|
    {
      hide RaftLog.Tiers, RaftLog.AsFlat, InOrder, Limited, NextPage, Numbered, Flat.Range, Flat.Term;
      InLog();
      var page := log.NextEntriesSince(commitSince, maxCommittedSize);
      light := LightReady(page, None);
      assert delivered + [] == delivered;
      if page != [] {
        PageFollows(log.AsFlat(), start + |delivered|, log.UpperBound(), page);
        InOrderExtends(log.AsFlat(), start, delivered, commitSince, log.committed, log.UpperBound(), page);
        commitSince := page[|page| - 1].index;
        delivered := delivered + page;
      }
    }

    /** Where the unstable entries end. */
    function LastPlace(): (last: Option<Place>)
      requires Valid()
      reads this, log, log.store, log.unstable
      ensures last.Some? <==> log.unstable.entries != []
      ensures last.Some? ==> last.value.index > 0
    {
      var entries := log.unstable.entries;
      if entries == [] then None else Some(Place(entries[|entries| - 1].index, entries[|entries| - 1].term))
    }

    /**
      RawNode::GetReady: the unstable entries to store, with a numbered record of the last one.
      A new leader with unstored entries outstanding would stop the process.
     */
    method GetReady() returns (r: Option<Ready>)
      requires Valid()
      modifies this
      ensures r == None <==> soft.leads && !prevSoft.leads && exists i | 0 <= i < |old(records)| :: old(records)[i].last != None
      ensures r.Some? ==>
                var rd := r.value;
                && Valid() && rd.number == maxNumber == old(maxNumber) + 1
                && rd.ss == Changed(prevSoft, soft) && rd.hs == Changed(prevHard, Hard())
                && (rd.mustSync <==> prevHard.term != term || prevHard.vote != vote || rd.entries != [])
                && rd.entries == log.unstable.entries && delivered == old(delivered) + rd.light.committed
                && MayApply(rd.light.committed, start + |old(delivered)|)
                && records == (if soft.leads && !prevSoft.leads then [] else old(records)) + [Record(rd.number, LastPlace())]
      ensures soft == old(soft) && term == old(term) && vote == old(vote) && prevSoft == old(prevSoft) && prevHard == old(prevHard)
    {
      hide RaftLog.AsFlat, RaftLog.Tiers, InOrder, Limited, Numbered, Delivery, OnDisk, MayApply;
      var entries := log.unstable.entries;
      var last := LastPlace();
      if soft.leads && !prevSoft.leads {
        if exists i | 0 <= i < |records| :: records[i].last != None {
          return None;
        }
        records := [];
      }
      NumberedNext(records, maxNumber, last);
      maxNumber := maxNumber + 1;
      records := records + [Record(maxNumber, last)];
      var ss, hs := Changed(prevSoft, soft), Changed(prevHard, Hard());
      var mustSync := (hs.Some? && (hs.value.vote != prevHard.vote || hs.value.term != prevHard.term)) || entries != [];
      var light := GetLightReady();
      return Some(Ready(maxNumber, ss, hs, mustSync, entries, light));
    }

    /** The application stores a ready's entries; the log reads the same afterwards. */
    method StoreReady(rd: Ready) returns (r: Result<(), LogError>)
      requires Valid() && rd.entries == log.unstable.entries
      modifies log.store
      ensures Valid() && r.Ok? && log.AsFlat() == old(log.AsFlat()) && Stored()
    {
      r := log.StoreUnstable();
    }

    /** Storage has everything that is unstable. */
    ghost predicate Stored()
      requires log.Tiers()
      reads this, log, log.store, log.unstable
    {
      log.Stored()
    }

    /** RawNode::CommitReady: entries that were stored leave the unstable part. */
    method CommitReady(rd: Ready)
      requires Valid() && Stored() && records != [] && records[|records| - 1] == Record(rd.number, LastPlace())
      requires OrElse(rd.hs, prevHard).commit <= log.committed
      modifies this, log.unstable
      ensures Valid() && log.AsFlat() == old(log.AsFlat()) && log.unstable.entries == []
      ensures delivered == old(delivered) && records == old(records) && maxNumber == old(maxNumber) && commitSince == old(commitSince)
      ensures soft == old(soft) && term == old(term) && vote == old(vote)
      ensures prevSoft == OrElse(rd.ss, old(prevSoft)) && prevHard == OrElse(rd.hs, old(prevHard))
    {
      hide RaftLog.AsFlat, RaftLog.Tiers, RaftLog.Stored, InOrder, Numbered;
      if rd.ss.Some? {
        prevSoft := rd.ss.value;
      }
      if rd.hs.Some? {
        prevHard := rd.hs.value;
      }
      var record := records[|records| - 1];
      if record.last.Some? {
        log.StableEntries(record.last.value.index, record.last.value.term);
      }
    }

    /**
      RawNode::OnPersistReady drops the records a report covers and marks the last place they
      asked to be stored as persisted.  `quorum` is the index and term a leader may commit then.
     */
    method OnPersistReady(number: nat, quorum: Option<Place>)
      requires Valid()
      modifies this, log
      ensures Valid() && records == old(records)[Covered(old(records), number)..]
      ensures var place := LastStored(old(records)[..Covered(old(records), number)]);
              && (place == None ==> log.persisted == old(log.persisted))
              && (place.Some? && log.AsFlat().base < place.value.index ==>
                    log.persisted == if Persistable(place.value) then Max(old(log.persisted), place.value.index) else old(log.persisted))
      ensures log.persisted >= old(log.persisted) && log.committed >= old(log.committed)
      ensures log.committed ==
                if log.persisted > old(log.persisted) && soft.leads && quorum.Some?
                   && old(log.committed) < quorum.value.index <= log.AsFlat().Last() && log.AsFlat().Match(quorum.value.index, quorum.value.term)
                then quorum.value.index else old(log.committed)
      ensures slack == old(slack)
      ensures log.applied == old(log.applied) && delivered == old(delivered) && commitSince == old(commitSince) && maxNumber == old(maxNumber)
      ensures soft == old(soft) && term == old(term) && vote == old(vote) && prevSoft == old(prevSoft) && prevHard == old(prevHard)
    {
      hide RaftLog.AsFlat, RaftLog.Tiers, Held, Follows, Numbered, Covered, LastStored, MemoryStorage.Term, Flat.Term, MayApply;
      var place := PopCovered(number);
      if place.Some? {
        var update := log.MaybePersist(place.value.index, place.value.term);
        if update && soft.leads && quorum.Some? {
          var c := log.MaybeCommit(quorum.value.index, quorum.value.term);
        }
      }
    }

    /** Storage has the entry of this place, and the log has not replaced it since. */
    ghost predicate Persistable(place: Place)
      requires log.Tiers()
      reads this, log, log.store, log.unstable
    {
      place.index < log.unstable.offset && log.AsFlat().Match(place.index, place.term)
    }

    /** The loop over the front of the record queue. */
    method PopCovered(number: nat) returns (place: Option<Place>)
      requires Numbered(records, maxNumber)
      modifies `records
      ensures Numbered(records, maxNumber) && records == old(records)[Covered(old(records), number)..]
      ensures place == LastStored(old(records)[..Covered(old(records), number)])
    {
      hide Covered, LastStored, Numbered;
      place := None;
      Popped(records, 0, number);
      ghost var rs, k := records, 0;
      while records != []
        invariant 0 <= k <= |rs| && records == rs[k..] && place == LastStored(rs[..k])
        invariant Covered(rs, number) == k + Covered(rs[k..], number)
        decreases |records|
      {
        var record := records[0];
        if record.number > number {
          break;
        }
        records := records[1..];
        Popped(rs, k, number);
        if record.last.Some? {
          place := record.last;
        }
        k := k + 1;
      }
      Popped(rs, k, number);
    }

    /** The unstable entries end the log. */
    lemma LastPlaceInLog()
      requires Valid() && log.unstable.entries != []
      ensures var place := LastPlace().value;
              && log.AsFlat().base < place.index == log.AsFlat().Last() && log.AsFlat().Match(place.index, place.term)
    {
    }

    /** Without unstable entries everything is in storage. */
    lemma AllStable()
      requires Valid() && log.unstable.entries == []
      ensures log.Tiers() && log.unstable.offset == log.AsFlat().Last() + 1
    {
    }

    /** The first half of AdvanceAppend: what the last ready asked for is stored and persisted. */
    method PersistAll(rd: Ready, quorum: Option<Place>)
      requires Valid() && Stored() && records != [] && records[|records| - 1] == Record(rd.number, LastPlace())
      requires OrElse(rd.hs, prevHard).commit <= log.committed
      modifies this, log, log.unstable
      ensures Valid() && records == [] && log.AsFlat() == old(log.AsFlat()) && log.unstable.entries == []
      ensures old(log.unstable.entries) != [] ==> log.persisted == log.AsFlat().Last()
      ensures delivered == old(delivered) && commitSince == old(commitSince) && maxNumber == old(maxNumber)
      ensures log.applied == old(log.applied) && log.committed >= old(log.committed)
      ensures prevHard == OrElse(rd.hs, old(prevHard)) && term == old(term) && vote == old(vote)
    {
      hide RaftLog.AsFlat, RaftLog.Tiers, RaftLog.Valid, Delivery, OnDisk, InOrder, Numbered, Covered, LastStored, Flat.Term;
      if log.unstable.entries != [] {
        LastPlaceInLog();
      }
      ghost var place := LastPlace();
      CommitReady(rd);
      AllCovered(records, maxNumber);
      NewestCounts(records);
      AllStable();
      assert place.Some? ==> LastStored(records[..Covered(records, maxNumber)]) == place && Persistable(place.value);
      OnPersistReady(maxNumber, quorum);
      PersistedInLog();
    }

    lemma PersistedInLog()
      requires Valid()
      ensures log.persisted < log.unstable.offset <= log.AsFlat().Last() + 1
    {
    }

    /** RawNode::AdvanceAppend: everything outstanding is persisted, and more may be delivered. */
    method AdvanceAppend(rd: Ready, quorum: Option<Place>) returns (light: LightReady)
      requires Valid() && Stored() && records != [] && records[|records| - 1] == Record(rd.number, LastPlace())
      requires OrElse(rd.hs, prevHard) == Hard().(commit := OrElse(rd.hs, prevHard).commit) && OrElse(rd.hs, prevHard).commit <= log.committed
      modifies this, log, log.unstable
      ensures Valid() && records == [] && delivered == old(delivered) + light.committed && commitSince >= old(commitSince)
      ensures log.AsFlat() == old(log.AsFlat()) && log.applied == old(log.applied) && log.committed >= old(log.committed)
      ensures light.commitIndex == if log.committed > OrElse(rd.hs, old(prevHard)).commit then Some(log.committed) else None
      ensures prevHard == Hard() && term == old(term) && vote == old(vote)
      ensures old(log.unstable.entries) != [] ==> log.persisted == log.AsFlat().Last()
      ensures MayApply(light.committed, start + |old(delivered)|)
    {
      hide RaftLog.AsFlat, RaftLog.Tiers, RaftLog.Valid, OnDisk, Held, Follows, Numbered, Limited, Flat.Range, MayApply;
      PersistAll(rd, quorum);
      light := GetLightReady();
      if log.committed > prevHard.commit {
        light := light.(commitIndex := Some(log.committed));
        prevHard := prevHard.(commit := log.committed);
      }
    }

    /** RawNode::AdvanceApplyTo; the application applies only what it was given. */
    method AdvanceApplyTo(applied: nat)
      requires Valid() && (applied == 0 || log.applied <= applied <= commitSince)
      modifies log`applied
      ensures Valid() && log.applied == if applied == 0 then old(log.applied) else applied
    {
      hide RaftLog.AsFlat, RaftLog.Tiers, Held, Follows;
      log.AppliedTo(applied);
    }

    /** RawNode::Advance: what had been delivered before counts as applied, and that never fails. */
    method Advance(rd: Ready, quorum: Option<Place>) returns (light: LightReady)
      requires Valid() && Stored() && records != [] && records[|records| - 1] == Record(rd.number, LastPlace())
      requires OrElse(rd.hs, prevHard) == Hard().(commit := OrElse(rd.hs, prevHard).commit) && OrElse(rd.hs, prevHard).commit <= log.committed
      modifies this, log, log.unstable
      ensures Valid() && delivered == old(delivered) + light.committed
      ensures log.applied == Max(old(log.applied), old(commitSince))
      ensures light.commitIndex == if log.committed > OrElse(rd.hs, old(prevHard)).commit then Some(log.committed) else None
      ensures MayApply(light.committed, start + |old(delivered)|) && (rd.entries != [] && old(log.unstable.entries) == rd.entries ==> log.persisted == log.AsFlat().Last())
    {
      hide RaftLog.AsFlat, RaftLog.Tiers, Held, Follows;
      var applied := commitSince;
      light := AdvanceAppend(rd, quorum);
      AdvanceApplyTo(applied);
    }

    /** The application compacts what it has applied. */
    method Compact(index: nat) returns (r: Result<(), LogError>)
      requires Valid() && index <= commitSince + 1 && index <= log.unstable.offset && index <= log.store.LastIndex()
      modifies log.store
      ensures Valid() && r.Ok?
      ensures log.AsFlat().First() == Max(old(log.AsFlat().First()), index) && log.AsFlat().Last() == old(log.AsFlat().Last())
    {
      hide Held, RaftLog.AsFlat, RaftLog.Tiers;
      ghost var flat := log.AsFlat();
      r := log.CompactStore(index);
      if flat.First() < index {
        HeldCompacted(flat, start, delivered, index);
      }
    }
  }
}
