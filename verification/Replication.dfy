/** RaftCore: what a leader sends to one peer, and how the peer's answers move its window. */
module Replication {
  import opened Types
  import opened FlatLog
  import opened RaftLog
  import opened Inflights
  import opened Progress

  datatype Sent =
    | SentAppend(to: nat, prev: nat, prevTerm: nat, entries: seq<Entry>, commit: nat)
    | SentSnapshot(to: nat, index: nat)

  /** An append response as its handler reads it. */
  datatype Ack = Ack(from: nat, index: nat, commit: nat, reject: bool, hint: nat, hintTerm: nat, requestSnapshot: nat)

  /** Append messages that carry the log from `low` up to `high`, one right after the other. */
  predicate Run(flat: Flat, to: nat, commit: nat, sent: seq<Sent>, low: nat, high: nat) {
    if sent == [] then low == high
    else
      var m := sent[|sent| - 1];
      && m.SentAppend? && m.to == to && m.commit == commit && m.entries != []
      && high == m.prev + 1 + |m.entries| && flat.First() <= m.prev + 1 && high <= flat.Last() + 1
      && m.entries == flat.Range(m.prev + 1, high) && flat.Match(m.prev, m.prevTerm)
      && Run(flat, to, commit, sent[..|sent| - 1], low, m.prev + 1)
  }

  function Carried(sent: seq<Sent>): seq<Entry> {
    if sent == [] then []
    else Carried(sent[..|sent| - 1]) + (if sent[|sent| - 1].SentAppend? then sent[|sent| - 1].entries else [])
  }

  /** The entries of a run are a stretch of the log, without gap or repeat. */
  lemma {:induction false} RunIsRange(flat: Flat, to: nat, commit: nat, sent: seq<Sent>, low: nat, high: nat)
    requires Run(flat, to, commit, sent, low, high) && sent != []
    ensures flat.First() <= low < high <= flat.Last() + 1 && Carried(sent) == flat.Range(low, high)
    decreases |sent|
  {
    hide Flat.Range, Flat.Match;
    var m, before := sent[|sent| - 1], sent[..|sent| - 1];
    if before != [] {
      RunIsRange(flat, to, commit, before, low, m.prev + 1);
      RangeSplits(flat, low, m.prev + 1, high);
    }
  }

  lemma RunExtends(flat: Flat, to: nat, commit: nat, sent: seq<Sent>, low: nat, m: Sent)
    requires m.SentAppend? && m.to == to && m.commit == commit && m.entries != [] && flat.Match(m.prev, m.prevTerm)
    requires Run(flat, to, commit, sent, low, m.prev + 1) && flat.First() <= m.prev + 1 <= flat.Last()
    requires m.entries <= flat.Range(m.prev + 1, flat.Last() + 1)
    ensures Run(flat, to, commit, sent + [m], low, m.prev + 1 + |m.entries|)
  {
    hide Flat.Range, Flat.Match;
    assert (sent + [m])[..|sent|] == sent;
    PageExtends(flat, m.prev + 1, m.prev + 1, flat.Last() + 1, m.entries);
    RangeSplits(flat, m.prev + 1, m.prev + 1, flat.Last() + 1);
    assert flat.Range(m.prev + 1, m.prev + 1) + m.entries == m.entries;
  }

  /** What GetEntries answers to a leader that sends from `next` on. */
  function PageFrom(flat: Flat, size: Entry -> nat, next: nat, max: nat): (r: Result<seq<Entry>, LogError>)
    ensures r.Ok? ==> r.value == [] || (flat.First() <= next <= flat.Last() && r.value <= flat.Range(next, flat.Last() + 1))
    ensures r.Ok? && next <= flat.Last() ==> r.value != []
    ensures r.Ok? <==> next > flat.Last() || flat.First() <= next
  {
    if next > flat.Last() then Ok([])
    else if next < flat.First() then Err(Compacted)
    else Ok(Limited(size, flat.Range(next, flat.Last() + 1), Some(max)))
  }

  /** A message from `next` on holds as many entries as its limit allows, and at least one. */
  predicate FillsMessage(flat: Flat, size: Entry -> nat, next: nat, entries: seq<Entry>, max: nat) {
    && (|entries| <= 1 || max == MAX_U64 || TotalSize(size, entries) <= max)
    && (flat.First() <= next && next + |entries| <= flat.Last() && entries != [] ==>
          max != MAX_U64 && TotalSize(size, flat.Range(next, next + |entries| + 1)) > max)
  }

  lemma PageFills(flat: Flat, size: Entry -> nat, next: nat, max: nat)
    requires PageFrom(flat, size, next, max).Ok?
    ensures FillsMessage(flat, size, next, PageFrom(flat, size, next, max).value, max)
  {
    hide Limited, TotalSize;
    var page := PageFrom(flat, size, next, max).value;
    if page != [] {
      var all := flat.Range(next, flat.Last() + 1);
      PageIsGreedy(size, all, Some(max), |page|);
      assert all[..|page|] == page;
      if next + |page| <= flat.Last() {
        PageIsGreedy(size, all, Some(max), |page| + 1);
        assert all[..|page| + 1] == flat.Range(next, next + |page| + 1);
      }
    }
  }

  class RaftCore {
    const log: RaftLog
    const maxMessageSize: nat
    var messages: seq<Sent>

    constructor (log: RaftLog, maxMessageSize: nat)
      ensures this.log == log && this.maxMessageSize == maxMessageSize && messages == []
    {
      this.log, this.maxMessageSize, messages := log, maxMessageSize, [];
    }

    ghost predicate Ready(pr: Progress)
      reads this, log, log.store, log.unstable, pr, pr.inflights
    {
      log.Valid() && pr.Valid() && pr.Bounded(log.AsFlat().Last())
    }

    method GetEntries(next: nat) returns (r: Result<seq<Entry>, LogError>)
      requires log.Valid()
      ensures r == PageFrom(log.AsFlat(), log.size, next, maxMessageSize)
    {
      hide RaftLog.Tiers, RaftLog.AsFlat, Limited, Flat.Range, Flat.Term, Flat.Valid;
      var last := log.LastIndex();
      if next > last {
        return Ok([]);
      }
      r := log.Slice(next, last + 1, Some(maxMessageSize));
    }

    /** RaftCore::PrepareSendEntries. */
    method PrepareSendEntries(to: nat, pr: Progress, term: nat, entries: seq<Entry>) returns (m: Sent)
      requires Ready(pr) && !pr.IsPaused()
      requires entries != [] ==> pr.next <= entries[|entries| - 1].index <= log.AsFlat().Last()
      modifies pr, pr.inflights
      ensures Ready(pr) && m == SentAppend(to, old(pr.next) - 1, term, entries, log.committed)
      ensures pr.state == old(pr.state) && pr.matched == old(pr.matched)
      ensures pr.next == if entries == [] || pr.state != Replicate then old(pr.next) else entries[|entries| - 1].index + 1
      ensures entries != [] && pr.state == Probe ==> pr.paused
      ensures pr.inflights.Contents() == old(pr.inflights.Contents()) + (if entries != [] && pr.state == Replicate then [entries[|entries| - 1].index] else [])
      ensures pr.inflights.Bound() == old(pr.inflights.Bound())
      ensures pr.pendingRequestSnapshot == old(pr.pendingRequestSnapshot) && pr.recentActive == old(pr.recentActive)
    {
      hide RaftLog.Valid, RaftLog.AsFlat, Within;
      assert pr.inflights.Contents() + [] == pr.inflights.Contents();
      m := SentAppend(to, pr.next - 1, term, entries, log.committed);
      if entries != [] {
        pr.UpdateState(entries[|entries| - 1].index);
      }
    }

    /** RaftCore::PrepareSendSnapshot; `available` is the snapshot storage can give, if any. */
    method PrepareSendSnapshot(to: nat, pr: Progress, available: Option<nat>) returns (m: Option<Sent>)
      requires Ready(pr) && (available.Some? ==> available.value <= log.AsFlat().Last())
      modifies pr, pr.inflights
      ensures Ready(pr) && pr.matched == old(pr.matched) && pr.next == old(pr.next) && pr.inflights.Bound() == old(pr.inflights.Bound())
      ensures m == None ==> pr.inflights.Contents() == old(pr.inflights.Contents())
      ensures m == if old(pr.recentActive) && available.Some? then Some(SentSnapshot(to, available.value)) else None
      ensures pr.state == if m.Some? then Snapshot else old(pr.state)
      ensures m == None ==> pr.IsPaused() == old(pr.IsPaused()) && pr.paused == old(pr.paused)
      ensures pr.pendingRequestSnapshot == old(pr.pendingRequestSnapshot) && pr.recentActive == old(pr.recentActive)
    {
      hide RaftLog.Valid, RaftLog.AsFlat, Within;
      if !pr.recentActive || available == None {
        return None;
      }
      pr.BecomeSnapshot(available.value);
      return Some(SentSnapshot(to, available.value));
    }

    /** What an aggressive sender could still send at this point. */
    ghost predicate MoreToSend(pr: Progress, available: Option<nat>)
      requires Ready(pr)
      reads this, log, log.store, log.unstable, pr, pr.inflights
    {
      && !pr.IsPaused()
      && if pr.pendingRequestSnapshot != NONE then pr.recentActive && available.Some?
         else
           && log.AsFlat().First() <= pr.next <= log.AsFlat().Last()
           && (log.AsFlat().Term(pr.next - 1).Ok? || (pr.recentActive && available.Some?))
    }

    /** The message an append to a peer at `next` is. */
    ghost predicate IsAppend(m: Sent, to: nat, next: nat)
      requires log.Valid()
      reads this, log, log.store, log.unstable
    {
      && m.SentAppend? && m.to == to && m.prev + 1 == next && m.commit == log.committed
      && log.AsFlat().Match(m.prev, m.prevTerm) && FillsMessage(log.AsFlat(), log.size, next, m.entries, maxMessageSize)
      && Ok(m.entries) == PageFrom(log.AsFlat(), log.size, next, maxMessageSize)
    }

    /** RaftCore::MaybeSendAppend, with batching off; `sent` is the message pushed, if any. */
    method MaybeSendAppend(to: nat, pr: Progress, allowEmpty: bool, available: Option<nat>) returns (sent: Option<Sent>)
      requires Ready(pr) && (available.Some? ==> available.value <= log.AsFlat().Last())
      modifies `messages, pr, pr.inflights
      ensures Ready(pr) && pr.matched == old(pr.matched)
      ensures messages == old(messages) + (if sent.Some? then [sent.value] else [])
      ensures sent == None ==> pr.next == old(pr.next) && pr.state == old(pr.state) && pr.IsPaused() == old(pr.IsPaused())
      ensures sent.Some? && sent.value.SentSnapshot? ==> sent.value.to == to && pr.state == Snapshot && pr.next == old(pr.next)
      ensures sent.Some? && sent.value.SentAppend? ==>
                && IsAppend(sent.value, to, old(pr.next)) && (sent.value.entries == [] ==> allowEmpty)
                && pr.state == old(pr.state) && (sent.value.entries != [] && pr.state == Probe ==> pr.paused)
                && pr.next == (if pr.state == Replicate then old(pr.next) + |sent.value.entries| else old(pr.next))
      ensures pr.inflights.Bound() == old(pr.inflights.Bound())
      ensures sent == None ==> pr.inflights.Contents() == old(pr.inflights.Contents())
      ensures sent.Some? && sent.value.SentAppend? ==>
                pr.inflights.Contents() == old(pr.inflights.Contents()) + (if sent.value.entries != [] && pr.state == Replicate then [pr.next - 1] else [])
      ensures !allowEmpty ==> (sent.Some? <==> old(MoreToSend(pr, available)))
      ensures allowEmpty && sent == None ==> old(pr.IsPaused()) || !pr.recentActive || available == None
      ensures pr.pendingRequestSnapshot == old(pr.pendingRequestSnapshot) && pr.recentActive == old(pr.recentActive)
    {
      hide RaftLog.Tiers, RaftLog.AsFlat, Within, Flat.Range, Flat.Term, PageFrom;
      assert messages + [] == messages;
      if pr.IsPaused() {
        return None;
      }
      if pr.pendingRequestSnapshot != NONE {
        sent := PrepareSendSnapshot(to, pr, available);
      } else {
        sent := Prepare(to, pr, allowEmpty, available);
      }
      if sent.Some? {
        messages := messages + [sent.value];
      }
    }

    /** The part of MaybeSendAppend for a peer that has not asked for a snapshot. */
    method Prepare(to: nat, pr: Progress, allowEmpty: bool, available: Option<nat>) returns (sent: Option<Sent>)
      requires Ready(pr) && !pr.IsPaused() && pr.pendingRequestSnapshot == NONE
      requires available.Some? ==> available.value <= log.AsFlat().Last()
      modifies pr, pr.inflights
      ensures Ready(pr) && pr.matched == old(pr.matched)
      ensures sent == None ==> pr.next == old(pr.next) && pr.state == old(pr.state) && pr.IsPaused() == old(pr.IsPaused())
      ensures sent.Some? && sent.value.SentSnapshot? ==> sent.value.to == to && pr.state == Snapshot && pr.next == old(pr.next)
      ensures sent.Some? && sent.value.SentAppend? ==>
                && IsAppend(sent.value, to, old(pr.next)) && (sent.value.entries == [] ==> allowEmpty)
                && pr.state == old(pr.state) && (sent.value.entries != [] && pr.state == Probe ==> pr.paused)
                && pr.next == (if pr.state == Replicate then old(pr.next) + |sent.value.entries| else old(pr.next))
      ensures pr.inflights.Bound() == old(pr.inflights.Bound())
      ensures sent == None ==> pr.inflights.Contents() == old(pr.inflights.Contents())
      ensures sent.Some? && sent.value.SentAppend? ==>
                pr.inflights.Contents() == old(pr.inflights.Contents()) + (if sent.value.entries != [] && pr.state == Replicate then [pr.next - 1] else [])
      ensures !allowEmpty ==> (sent.Some? <==> old(MoreToSend(pr, available)))
      ensures allowEmpty && sent == None ==> old(pr.IsPaused()) || !pr.recentActive || available == None
      ensures pr.pendingRequestSnapshot == old(pr.pendingRequestSnapshot) && pr.recentActive == old(pr.recentActive)
    {
      hide RaftLog.Tiers, RaftLog.AsFlat, Within, Flat.Range, Flat.Term, PageFrom;
      var ents := GetEntries(pr.next);
      if !allowEmpty && (ents.Err? || ents.value == []) {
        return None;
      }
      var term := log.Term(pr.next - 1);
      if term.Ok? && ents.Ok? {
        PageIndices(pr.next, ents.value);
        PageFills(log.AsFlat(), log.size, pr.next, maxMessageSize);
        var m := PrepareSendEntries(to, pr, term.value, ents.value);
        return Some(m);
      } else {
        sent := PrepareSendSnapshot(to, pr, available);
      }
    }

    lemma PageIndices(next: nat, page: seq<Entry>)
      requires log.Valid() && (page != [] ==> log.AsFlat().First() <= next <= log.AsFlat().Last() && page <= log.AsFlat().Range(next, log.AsFlat().Last() + 1))
      ensures page != [] ==> page[|page| - 1].index == next + |page| - 1 <= log.AsFlat().Last()
    {
    }

    /** How many more messages an aggressive sender can send at most. */
    ghost function Effort(pr: Progress): nat
      requires Ready(pr)
      reads this, log, log.store, log.unstable, pr, pr.inflights
    {
      match pr.state
      case Snapshot => 0
      case Probe => if pr.paused then 0 else 1
      case Replicate => 1 + if pr.next <= log.AsFlat().Last() then log.AsFlat().Last() + 1 - pr.next else 0
    }

    /**
      RaftCore::SendAppendAggressively: ends, having sent one contiguous run from the old next
      index on, and perhaps a snapshot after it, with nothing left that could be sent.
     */
    method SendAppendAggressively(to: nat, pr: Progress, available: Option<nat>)
      returns (ghost appends: seq<Sent>, ghost snapshots: seq<Sent>, ghost high: nat)
      requires Ready(pr) && (available.Some? ==> available.value <= log.AsFlat().Last())
      modifies `messages, pr, pr.inflights
      ensures Ready(pr) && pr.matched == old(pr.matched) && !MoreToSend(pr, available)
      ensures messages == old(messages) + appends + snapshots
      ensures Run(log.AsFlat(), to, log.committed, appends, old(pr.next), high)
      ensures |snapshots| <= 1 && forall m | m in snapshots :: m.SentSnapshot?
      ensures old(pr.state) == Replicate ==> pr.next == high
      ensures old(pr.state) != Replicate ==> pr.next == old(pr.next) && |appends| + |snapshots| <= 1
      ensures pr.inflights.Bound() == old(pr.inflights.Bound())
      ensures |pr.inflights.Contents()| <= Max(|old(pr.inflights.Contents())|, pr.inflights.Bound())
      ensures old(pr.state) == Replicate && snapshots == [] ==> |pr.inflights.Contents()| == |old(pr.inflights.Contents())| + |appends|
    {
      hide RaftLog.Tiers, RaftLog.AsFlat, Run, Flat.Range, Flat.Term, PageFrom, Within, FillsMessage, Inflights.Valid, Inflights.Contents;
      appends, snapshots, high := [], [], pr.next;
      ghost var was := messages;
      RunStarts(to, pr.next);
      assert was == was + [] + [];
      var more := true;
      while more
        invariant Ready(pr) && pr.matched == old(pr.matched)
        invariant messages == was + appends + snapshots
        invariant Run(log.AsFlat(), to, log.committed, appends, old(pr.next), high)
        invariant snapshots == [] || (|snapshots| == 1 && snapshots[0].SentSnapshot? && pr.state == Snapshot)
        invariant old(pr.state) == Replicate ==> pr.next == high && (snapshots == [] ==> pr.state == Replicate)
        invariant old(pr.state) != Replicate ==>
                    pr.next == old(pr.next) && (appends + snapshots == [] || (|appends| + |snapshots| == 1 && pr.IsPaused()))
        invariant old(pr.state) != Replicate && appends + snapshots == [] ==> high == pr.next && pr.state == old(pr.state)
        invariant !more ==> !MoreToSend(pr, available)
        invariant pr.inflights.Bound() == old(pr.inflights.Bound())
        invariant snapshots == [] ==>
                    |pr.inflights.Contents()| == |old(pr.inflights.Contents())| + (if old(pr.state) == Replicate then |appends| else 0)
        invariant snapshots == [] && appends != [] && old(pr.state) == Replicate ==> |pr.inflights.Contents()| <= pr.inflights.Bound()
        decreases Effort(pr), more
      {
        ghost var before := pr.next;
        var sent := MaybeSendAppend(to, pr, false, available);
        more := sent.Some?;
        if more {
          if sent.value.SentSnapshot? {
            snapshots := [sent.value];
          } else {
            AppendExtends(to, appends, old(pr.next), before, sent.value);
            appends, high := appends + [sent.value], before + |sent.value.entries|;
          }
        }
      }
    }

    lemma RunStarts(to: nat, next: nat)
      requires log.Valid()
      ensures Run(log.AsFlat(), to, log.committed, [], next, next)
    {
    }

    lemma AppendExtends(to: nat, appends: seq<Sent>, low: nat, next: nat, m: Sent)
      requires log.Valid() && IsAppend(m, to, next) && m.entries != []
      requires Run(log.AsFlat(), to, log.committed, appends, low, next)
      ensures Run(log.AsFlat(), to, log.committed, appends + [m], low, next + |m.entries|) && next <= log.AsFlat().Last()
    {
      hide RaftLog.Tiers, RaftLog.AsFlat, Run, Flat.Range, PageFrom;
      RunExtends(log.AsFlat(), to, log.committed, appends, low, m);
    }

    // -------------------------------------------------------------- answers from the peer

    /** A peer's rejection of a message: the window falls back, or the peer gets a snapshot. */
    method Reject(pr: Progress, m: Ack) returns (r: bool)
      requires Ready(pr)
      modifies pr, pr.inflights
      ensures Ready(pr) && pr.matched == old(pr.matched) && pr.recentActive == old(pr.recentActive)
      ensures r <==> if old(pr.state) == Replicate
                     then m.index > old(pr.matched) || (m.index == old(pr.matched) && m.requestSnapshot != NONE)
                     else old(pr.next) - 1 == m.index || m.requestSnapshot != NONE
      ensures pr.state == if r && old(pr.state) == Replicate then Probe else old(pr.state)
      ensures pr.next ==
                if !r then old(pr.next)
                else if old(pr.state) == Replicate then pr.matched + 1
                else if m.requestSnapshot != NONE then old(pr.next)
                else Lowered(pr.matched, m.index, ProbeFrom(m))
      ensures r ==> !pr.paused
      ensures pr.pendingRequestSnapshot ==
                if r && m.requestSnapshot != NONE && (old(pr.state) == Replicate || old(pr.pendingRequestSnapshot) == NONE)
                then m.requestSnapshot else old(pr.pendingRequestSnapshot)
    {
      hide RaftLog.Tiers, RaftLog.AsFlat, Within, Inflights.Valid, Inflights.Contents, Flat.BackTo;
      var probe := m.hint;
      if m.hintTerm > 0 {
        var t;
        probe, t := log.FindConflictByTerm(m.hint, m.hintTerm);
      }
      r := pr.MaybeDecTo(m.index, probe, m.requestSnapshot);
      if r && pr.state == Replicate {
        pr.BecomeProbe();
      }
    }

    /** Where the leader looks for agreement after a hint. */
    ghost function ProbeFrom(m: Ack): nat
      requires log.Valid()
      reads this, log, log.store, log.unstable
    {
      if m.hintTerm > 0 then log.AsFlat().BackTo(m.hint, m.hintTerm) else m.hint
    }

    /**
      Raft::HandleAppendResponse for one peer.  `quorum` is the index the new acknowledgement
      lets the leader commit in its `term`; `broadcast` says whether that goes out at once.
     */
    method HandleAppendResponse(pr: Progress, m: Ack, available: Option<nat>, quorum: nat, term: nat, broadcast: bool)
      requires Ready(pr) && (available.Some? ==> available.value <= log.AsFlat().Last())
      modifies this, log, pr, pr.inflights
      ensures Ready(pr) && log.committed >= old(log.committed)
      ensures pr.matched == if m.reject then old(pr.matched) else Max(old(pr.matched), m.index)
      ensures old(messages) <= messages
      ensures !m.reject && old(pr.matched) < m.index ==> !MoreToSend(pr, available)
      ensures log.committed ==
                if !m.reject && old(pr.matched) < m.index && Quorate(old(log.committed), quorum, term) && quorum <= log.AsFlat().Last()
                then quorum else old(log.committed)
      ensures !m.reject && old(pr.matched) < m.index && old(pr.OpensAt(m.index)) && available.Some?
              && (if Quorate(old(log.committed), quorum, term) then broadcast else old(pr.IsPaused())) ==>
                |old(messages)| < |messages| && Tells(messages[|old(messages)|], m.from, log.committed)
      ensures (if m.reject then !old(IsNews(pr, m)) else old(pr.matched) >= m.index) ==> messages == old(messages)
      ensures m.reject && old(IsNews(pr, m)) && old(pr.state) != Snapshot && available.Some? ==>
                |messages| == |old(messages)| + 1 && Tells(messages[|old(messages)|], m.from, log.committed)
      ensures m.reject && old(pr.state) == Probe && m.requestSnapshot == NONE ==>
                pr.next == if m.index + 1 == old(pr.next) then Lowered(pr.matched, m.index, ProbeFrom(m)) else old(pr.next)
    {
      hide RaftLog.Tiers, RaftLog.AsFlat, Progress.Valid, MoreToSend, Lowered, RaftLog.Valid, Flat.BackTo, Inflights.Valid, Inflights.Contents, Freed;
      hide Tells, Quorate, Flat.Term;
      InflightsValid(pr);
      pr.Heard(m.commit);
      if m.reject {
        HandleRejection(pr, m, available);
      } else {
        HandleAcceptance(pr, m, available, quorum, term, broadcast);
      }
    }

    /** A message to a peer that brings it up to date, or on its way there. */
    predicate Tells(m: Sent, to: nat, commit: nat) {
      m.to == to && (m.SentAppend? ==> m.commit == commit)
    }

    /** A quorum has acknowledged an entry of the leader's term that is not committed yet. */
    ghost predicate Quorate(committed: nat, quorum: nat, term: nat)
      requires log.Tiers()
      reads this, log.store, log.unstable
    {
      quorum > committed && log.AsFlat().Match(quorum, term)
    }

    /** A rejection that is not stale: in Replicate of something not acknowledged, in Probe of the probe itself. */
    predicate IsNews(pr: Progress, m: Ack)
      reads pr
    {
      if pr.state == Replicate then m.index > pr.matched || (m.index == pr.matched && m.requestSnapshot != NONE)
      else pr.next == m.index + 1 || m.requestSnapshot != NONE
    }

    /** A rejection that is not stale makes the leader probe again at once. */
    method HandleRejection(pr: Progress, m: Ack, available: Option<nat>)
      requires Ready(pr) && (available.Some? ==> available.value <= log.AsFlat().Last())
      modifies `messages, pr, pr.inflights
      ensures Ready(pr) && pr.matched == old(pr.matched) && old(messages) <= messages
      ensures !old(IsNews(pr, m)) ==> messages == old(messages)
      ensures old(IsNews(pr, m)) && old(pr.state) != Snapshot && old(pr.recentActive) && available.Some? ==>
                |messages| == |old(messages)| + 1 && Tells(messages[|old(messages)|], m.from, log.committed)
      ensures old(pr.state) == Probe && m.requestSnapshot == NONE ==>
                pr.next == if m.index + 1 == old(pr.next) then Lowered(pr.matched, m.index, ProbeFrom(m)) else old(pr.next)
    {
      hide RaftLog.Tiers, RaftLog.AsFlat, Within, MoreToSend, Lowered, Flat.BackTo, Inflights.Valid, Inflights.Contents, Flat.Term, PageFrom, FillsMessage;
      InflightsValid(pr);
      var again := Reject(pr, m);
      if again {
        var sent := MaybeSendAppend(m.from, pr, true, available);
      }
    }

    /** An acknowledgement that is news may commit, and lets everything that fits into the window go out. */
    method HandleAcceptance(pr: Progress, m: Ack, available: Option<nat>, quorum: nat, term: nat, broadcast: bool)
      requires Ready(pr) && (available.Some? ==> available.value <= log.AsFlat().Last())
      modifies `messages, log, pr, pr.inflights
      ensures Ready(pr) && log.committed >= old(log.committed) && pr.matched == Max(old(pr.matched), m.index)
      ensures log.AsFlat() == old(log.AsFlat()) && old(messages) <= messages
      ensures log.committed ==
                if old(pr.matched) < m.index && Quorate(old(log.committed), quorum, term) && quorum <= log.AsFlat().Last()
                then quorum else old(log.committed)
      ensures old(pr.matched) >= m.index ==> messages == old(messages)
      ensures old(pr.matched) < m.index ==> !MoreToSend(pr, available)
      ensures old(pr.matched) < m.index && old(pr.OpensAt(m.index)) && old(pr.recentActive) && available.Some?
              && (if Quorate(old(log.committed), quorum, term) then broadcast else old(pr.IsPaused())) ==>
                |old(messages)| < |messages| && Tells(messages[|old(messages)|], m.from, log.committed)
    {
      hide RaftLog.Tiers, RaftLog.AsFlat, Progress.Valid, Within, Run, MoreToSend, Inflights.Valid, Inflights.Contents, Flat.Term, Freed, Tells;
      InflightsValid(pr);
      var oldPaused := pr.IsPaused();
      var moved := pr.Acknowledge(m.index);
      if !moved {
        return;
      }
      InflightsValid(pr);
      var committed := log.MaybeCommit(quorum, term);
      SendOn(pr, m.from, available, (committed && broadcast) || (!committed && oldPaused));
    }

    /** Everything that fits goes out, and before it one message even if there is nothing to send. */
    method SendOn(pr: Progress, to: nat, available: Option<nat>, tell: bool)
      requires Ready(pr) && (available.Some? ==> available.value <= log.AsFlat().Last())
      modifies `messages, pr, pr.inflights
      ensures Ready(pr) && pr.matched == old(pr.matched) && old(messages) <= messages && !MoreToSend(pr, available)
      ensures tell && old(!pr.IsPaused() && pr.recentActive) && available.Some? ==>
                |old(messages)| < |messages| && Tells(messages[|old(messages)|], to, log.committed)
    {
      hide RaftLog.Tiers, RaftLog.AsFlat, Progress.Valid, Within, Run, MoreToSend, Inflights.Valid, Inflights.Contents, Flat.Term, PageFrom, FillsMessage;
      InflightsValid(pr);
      if tell {
        var sent := MaybeSendAppend(to, pr, true, available);
      }
      ghost var appends, snapshots, high := SendAppendAggressively(to, pr, available);
    }

    lemma InflightsValid(pr: Progress)
      requires pr.Valid()
      ensures pr.inflights.Valid() && pr.matched < pr.next
    {
    }

    /** Raft::HandleHeartbeatResponse: one place is freed in a full window so that sending can go on. */
    method HandleHeartbeatResponse(pr: Progress, from: nat, commit: nat, available: Option<nat>)
      requires Ready(pr) && (available.Some? ==> available.value <= log.AsFlat().Last())
      modifies `messages, pr, pr.inflights
      ensures Ready(pr) && pr.matched == old(pr.matched) && pr.recentActive && old(messages) <= messages
      ensures pr.matched == log.AsFlat().Last() && pr.pendingRequestSnapshot == NONE ==> messages == old(messages)
      ensures pr.matched < log.AsFlat().Last() && available.Some?
              && (old(pr.state) == Probe
                  || (old(pr.state) == Replicate && 0 < old(pr.inflights.Bound()) && |old(pr.inflights.Contents())| <= old(pr.inflights.Bound()))) ==>
                |messages| == |old(messages)| + 1 && Tells(messages[|old(messages)|], from, log.committed)
    {
      hide RaftLog.Tiers, RaftLog.AsFlat, Progress.Valid, MoreToSend, PageFrom, Inflights.Contents, Inflights.Valid, FillsMessage, Flat.Term;
      InflightsValid(pr);
      pr.Heard(commit);
      pr.Nudge();
      var last := log.LastIndex();
      if pr.matched < last || pr.pendingRequestSnapshot != NONE {
        var sent := MaybeSendAppend(from, pr, true, available);
      }
    }

    /** Raft::HandleSnapshotStatus: back to probing, paused until the peer answers. */
    method HandleSnapshotStatus(pr: Progress, reject: bool)
      requires Ready(pr)
      modifies pr, pr.inflights
      ensures Ready(pr) && pr.matched == old(pr.matched)
      ensures old(pr.state) == Snapshot ==>
                pr.state == Probe && pr.paused && pr.pendingRequestSnapshot == NONE
                && pr.next == (if reject then pr.matched else Max(pr.matched, old(pr.pendingSnapshot))) + 1
      ensures old(pr.state) != Snapshot ==> pr.next == old(pr.next) && pr.state == old(pr.state)
    {
      hide RaftLog.Valid, RaftLog.AsFlat, Within;
      if pr.state != Snapshot {
        return;
      }
      if reject {
        pr.pendingSnapshot := 0;
        pr.BecomeProbe();
      } else {
        pr.BecomeProbe();
      }
      pr.paused, pr.pendingRequestSnapshot := true, NONE;
    }

    /** Raft::HandleUnreachable. */
    method HandleUnreachable(pr: Progress)
      requires Ready(pr)
      modifies pr, pr.inflights
      ensures Ready(pr) && pr.matched == old(pr.matched)
      ensures pr.state == if old(pr.state) == Replicate then Probe else old(pr.state)
      ensures pr.next == if old(pr.state) == Replicate then pr.matched + 1 else old(pr.next)
    {
      hide RaftLog.Valid, RaftLog.AsFlat, Within;
      if pr.state == Replicate {
        pr.BecomeProbe();
      }
    }

    /** Raft::AdjustMaxInflightMsgs: the window's bound changes, the messages in flight do not. */
    method AdjustMaxInflight(pr: Progress, wanted: nat)
      requires Ready(pr)
      modifies pr.inflights
      ensures Ready(pr) && pr.inflights.Contents() == old(pr.inflights.Contents()) && pr.inflights.Bound() == wanted
    {
      hide RaftLog.Valid, RaftLog.AsFlat, Within;
      pr.inflights.SetCapacity(wanted);
    }
  }
}
