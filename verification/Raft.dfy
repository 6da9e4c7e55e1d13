/**
  Raft: the handlers as they update a node in place, over the two-tier log.  Each is proved to
  do to the node what the node model says, so the safety theorems hold of it.
  The appends a leader sends on its own are separate events of the model and not repeated here.
 */
module Raft {
  import opened Types
  import opened Quorum
  import opened FlatLog
  import opened RaftLog
  import opened RaftNode
  import opened PlainLog
  import N = RaftNode

  /** What is sent: the messages after a step extend those before by exactly the given ones. */
  predicate Emits(before: seq<Msg>, after: seq<Msg>, out: set<Msg>) {
    before <= after && Elements(after[|before|..]) == out
  }

  lemma EmitsNothing(before: seq<Msg>)
    ensures Emits(before, before, {})
  {
  }

  lemma EmitsOne(before: seq<Msg>, m: Msg)
    ensures Emits(before, before + [m], {m})
  {
    assert (before + [m])[|before|..] == [m];
  }

  lemma EmitsMore(before: seq<Msg>, middle: seq<Msg>, after: seq<Msg>, a: set<Msg>, b: set<Msg>)
    requires Emits(before, middle, a) && Emits(middle, after, b)
    ensures Emits(before, after, a + b)
  {
    assert after[|before|..] == middle[|before|..] + after[|middle|..];
  }

  function RequestTo(id: nat, n: Node, v: nat, term: nat, pre: bool, force: bool): Msg {
    RequestVote(id, v, term, pre, force, n.Last(), LastTerm(n.log), n.committed, n.Term(n.committed), n.priority)
  }

  function RequestsTo(id: nat, n: Node, vs: set<nat>, term: nat, pre: bool, force: bool): set<Msg> {
    set v | v in vs :: RequestTo(id, n, v, term, pre, force)
  }

  lemma RequestsGrow(id: nat, n: Node, vs: set<nat>, v: nat, term: nat, pre: bool, force: bool)
    ensures RequestsTo(id, n, vs + {v}, term, pre, force) == RequestsTo(id, n, vs, term, pre, force) + {RequestTo(id, n, v, term, pre, force)}
    ensures RequestsTo(id, n, {}, term, pre, force) == {}
  {
  }

  lemma RequestsAre(cfg: Config, id: nat, n: Node, term: nat, pre: bool, force: bool)
    ensures RequestsTo(id, n, cfg.voters.Ids() - {id}, term, pre, force) == N.VoteRequests(cfg, id, n, term, pre, force)
  {
  }

  class Raft {
    const cfg: Config
    const id: nat
    const log: RaftLog
    var term: nat
    var vote: nat
    var role: Role
    var leader: nat
    var votes: map<nat, bool>
    var matched: map<nat, nat>
    var priority: int
    var messages: seq<Msg>

    ghost predicate Valid()
      reads this, log, log.store, log.unstable
    {
      log.Valid() && log.unstable.snapshot == None && Plain(log.AsFlat())
    }

    /** This node as a value of the model. */
    ghost function AsNode(): Node
      requires Valid()
      reads this, log, log.store, log.unstable
    {
      Node(term, vote, role, leader, votes, log.AsFlat().entries, log.committed, log.persisted, matched, priority)
    }

    /** A node over an empty log starts as the model's fresh node. */
    constructor (cfg: Config, id: nat, log: RaftLog)
      requires log.Valid() && log.unstable.snapshot == None && log.AsFlat() == Flat(0, Some(0), []) && log.committed == log.persisted == 0
      ensures Valid() && this.cfg == cfg && this.id == id && this.log == log && messages == []
      ensures Fresh(AsNode(), cfg.members)
    {
      hide RaftLog.Tiers, RaftLog.AsFlat;
      this.cfg, this.id, this.log := cfg, id, log;
      term, vote, role, leader, votes, priority, messages := 0, NONE, Follower, NONE, map[], 0, [];
      matched := map i | i in cfg.members :: 0;
    }

    // -------------------------------------------------------------- reading the log

    method TermOf(index: nat) returns (t: nat)
      requires Valid()
      ensures t == AsNode().Term(index)
    {
      hide RaftLog.Tiers, RaftLog.AsFlat;
      PlainTerm(log.AsFlat(), index);
      var r := log.Term(index);
      t := r.value;
    }

    /** RaftLog::IsUpToDate. */
    method IsUpToDate(lastIndex: nat, lastTerm: nat) returns (r: bool)
      requires Valid()
      ensures r == N.IsUpToDate(AsNode().log, lastIndex, lastTerm)
    {
      hide RaftLog.Tiers, RaftLog.AsFlat, Plain;
      var last := log.LastIndex();
      LastIsLength();
      var mine := TermOf(last);
      return lastTerm > mine || (lastTerm == mine && lastIndex >= last);
    }

    lemma LastIsLength()
      requires Valid()
      ensures log.AsFlat().Last() == |AsNode().log|
    {
    }

    // -------------------------------------------------------------- role changes

    /** Raft::Reset. */
    method Reset(newTerm: nat)
      requires Valid()
      modifies this
      ensures Valid() && AsNode() == N.Reset(cfg, id, old(AsNode()), newTerm) && messages == old(messages)
    {
      hide RaftLog.Tiers, RaftLog.AsFlat, Plain;
      if term != newTerm {
        term, vote := newTerm, NONE;
      }
      leader, votes := NONE, map[];
      ResetMatched();
    }

    /** Every peer's progress starts over; the node's own is what it has persisted. */
    method ResetMatched()
      modifies `matched
      ensures matched == map i | i in cfg.members :: if i == id then log.persisted else 0
    {
      var rest := cfg.members;
      matched := map[];
      while rest != {}
        invariant rest <= cfg.members
        invariant matched == map i | i in cfg.members - rest :: if i == id then log.persisted else 0
        decreases rest
      {
        var i :| i in rest;
        matched := matched[i := if i == id then log.persisted else 0];
        rest := rest - {i};
      }
    }

    method BecomeFollower(newTerm: nat, newLeader: nat)
      requires Valid()
      modifies this, log
      ensures Valid() && AsNode() == N.BecomeFollower(cfg, id, old(AsNode()), newTerm, newLeader) && messages == old(messages)
    {
      hide RaftLog.Tiers, RaftLog.AsFlat;
      Reset(newTerm);
      leader, role := newLeader, Follower;
      log.unpersistedLimit := 0;
    }

    method BecomePreCandidate()
      requires Valid()
      modifies this
      ensures Valid() && AsNode() == N.BecomePreCandidate(old(AsNode())) && messages == old(messages)
    {
      role, votes, leader := PreCandidate, map[], NONE;
    }

    method BecomeCandidate()
      requires Valid()
      modifies this
      ensures Valid() && AsNode() == N.BecomeCandidate(cfg, id, old(AsNode())) && messages == old(messages)
    {
      Reset(term + 1);
      vote, role := id, Candidate;
    }

    /** Raft::AppendEntry: proposals are stamped with the term and numbered after the log's end. */
    method AppendEntry(data: seq<string>)
      requires Valid()
      modifies log, log.unstable
      ensures Valid() && AsNode() == N.AppendEntry(old(AsNode()), data)
    {
      hide RaftLog.Tiers, RaftLog.AsFlat, N.Stamp, Flat.Append;
      var last := log.LastIndex();
      var entries := Stamped(last, data);
      LastIsLength();
      log.OffsetInLog();
      if entries != [] {
        AppendAtEnd(log.AsFlat(), entries);
      } else {
        assert log.AsFlat().entries + [] == log.AsFlat().entries;
      }
      var newLast := log.Append(entries);
    }

    method Stamped(last: nat, data: seq<string>) returns (entries: seq<Entry>)
      ensures entries == N.Stamp(last, term, data) && Follows(last, entries)
    {
      hide N.Stamp;
      entries := [];
      for k := 0 to |data|
        invariant entries == N.Stamp(last, term, data)[..k]
      {
        entries := entries + [Entry(last + k + 1, term, data[k])];
      }
    }

    method BecomeLeader()
      requires Valid()
      modifies this, log, log.unstable
      ensures Valid() && AsNode() == N.BecomeLeader(cfg, id, old(AsNode())) && messages == old(messages)
    {
      hide RaftLog.Tiers, RaftLog.AsFlat, N.Stamp;
      Reset(term);
      leader, role := id, Leader;
      AppendEntry([""]);
    }

    // -------------------------------------------------------------- elections

    /** The node after a step that does not stop the process, and what it sent. */
    ghost predicate Did(e: Effect, before: seq<Msg>)
      reads this, log, log.store, log.unstable
    {
      e.Effect? && Valid() && AsNode() == e.node && Emits(before, messages, e.out)
    }

    /** ProgressTracker::RecordVote. */
    method RecordVote(from: nat, granted: bool)
      requires Valid()
      modifies `votes
      ensures Valid() && AsNode() == N.RecordVote(old(AsNode()), from, granted)
    {
      if from !in votes {
        votes := votes[from := granted];
      }
    }

    /** Raft::Poll of a candidate. */
    method PollCandidate(from: nat, granted: bool)
      requires Valid()
      modifies this, log, log.unstable
      ensures Valid() && AsNode() == N.PollCandidate(cfg, id, old(AsNode()), from, granted) && messages == old(messages)
    {
      hide RaftLog.Tiers, RaftLog.AsFlat, Plain, N.BecomeFollower, N.BecomeLeader, Joint.Vote;
      RecordVote(from, granted);
      var r := JointVoteResult(cfg.voters, votes);
      match r {
        case Pending =>
        case Lost => BecomeFollower(term, NONE);
        case Won => BecomeLeader();
      }
    }

    /** The vote requests of a campaign, one to every other voter in any order. */
    method SendVoteRequests(voteTerm: nat, pre: bool, force: bool)
      requires Valid()
      modifies `messages
      ensures Valid() && AsNode() == old(AsNode())
      ensures Emits(old(messages), messages, N.VoteRequests(cfg, id, AsNode(), voteTerm, pre, force))
    {
      hide RaftLog.Tiers, RaftLog.AsFlat, Plain, Emits, RequestsTo;
      var last := log.LastIndex();
      LastIsLength();
      var lastTerm := TermOf(last);
      var commitTerm := TermOf(log.committed);
      ghost var n, before := AsNode(), messages;
      var others := cfg.voters.Ids() - {id};
      var rest := others;
      EmitsNothing(messages);
      RequestsGrow(id, n, {}, NONE, voteTerm, pre, force);
      assert others - rest == {};
      while rest != {}
        invariant rest <= others && Valid() && AsNode() == n
        invariant Emits(before, messages, RequestsTo(id, n, others - rest, voteTerm, pre, force))
        decreases rest
      {
        var v :| v in rest;
        var m := RequestVote(id, v, voteTerm, pre, force, last, lastTerm, log.committed, commitTerm, priority);
        RequestsGrow(id, n, others - rest, v, voteTerm, pre, force);
        assert others - (rest - {v}) == others - rest + {v};
        EmitsOne(messages, m);
        EmitsMore(before, messages, messages + [m], RequestsTo(id, n, others - rest, voteTerm, pre, force), {m});
        messages := messages + [m];
        rest := rest - {v};
      }
      assert others - {} == others;
      RequestsAre(cfg, id, n, voteTerm, pre, force);
    }

    /** Raft::Campaign for an election. */
    method Campaign(transfer: bool)
      requires Valid()
      modifies this, log, log.unstable
      ensures Did(N.Campaign(cfg, id, old(AsNode()), transfer), old(messages))
    {
      hide RaftLog.Tiers, RaftLog.AsFlat, Plain, N.BecomeCandidate, N.PollCandidate, N.VoteRequests, Emits;
      var campaignTerm := term + 1;
      BecomeCandidate();
      PollCandidate(id, true);
      if role == Leader {
        EmitsNothing(messages);
      } else {
        SendVoteRequests(campaignTerm, false, transfer);
      }
    }

    /** Raft::Poll of a pre-candidate: winning starts the election. */
    method PollPreCandidate(from: nat, granted: bool) returns (r: VoteResult)
      requires Valid()
      modifies this, log, log.unstable
      ensures Did(N.PollPreCandidate(cfg, id, old(AsNode()), from, granted), old(messages))
      ensures r == cfg.voters.Vote(N.RecordVote(old(AsNode()), from, granted).votes)
    {
      hide RaftLog.Tiers, RaftLog.AsFlat, Plain, N.BecomeFollower, N.Campaign, Emits, Joint.Vote;
      RecordVote(from, granted);
      r := JointVoteResult(cfg.voters, votes);
      EmitsNothing(messages);
      match r {
        case Pending =>
        case Lost => BecomeFollower(term, NONE);
        case Won => Campaign(false);
      }
    }

    /** Raft::Campaign for a pre-election. */
    method PreCampaign()
      requires Valid()
      modifies this, log, log.unstable
      ensures Did(N.PreCampaign(cfg, id, old(AsNode())), old(messages))
    {
      hide RaftLog.Tiers, RaftLog.AsFlat, Plain, N.BecomePreCandidate, N.PollPreCandidate, N.VoteRequests, N.RecordVote, Emits, Joint.Vote;
      var campaignTerm := term + 1;
      BecomePreCandidate();
      ghost var p := AsNode();
      var r := PollPreCandidate(id, true);
      if r != Won {
        ghost var before := messages;
        SendVoteRequests(campaignTerm, true, false);
        EmitsMore(old(messages), before, messages,
                  N.PollPreCandidate(cfg, id, p, id, true).out, N.VoteRequests(cfg, id, AsNode(), campaignTerm, true, false));
      }
    }

    /** Raft::Hup; `confPending` is what the scan for unapplied configuration changes finds. */
    method Hup(transfer: bool, o: Oracle)
      requires Valid()
      modifies this, log, log.unstable
      ensures Did(N.Hup(cfg, id, old(AsNode()), transfer, o), old(messages))
    {
      hide RaftLog.Tiers, RaftLog.AsFlat, Plain, N.Campaign, N.PreCampaign, Emits;
      EmitsNothing(messages);
      if role == Leader || id !in cfg.voters.Ids() || o.confPending {
        return;
      }
      if transfer || !cfg.preVote {
        Campaign(transfer);
      } else {
        PreCampaign();
      }
    }

    // -------------------------------------------------------------- commit

    /** Raft::MaybeCommit. */
    method LeaderCommit()
      requires Valid()
      modifies log
      ensures Valid() && AsNode() == N.LeaderCommit(cfg, old(AsNode()))
    {
      hide RaftLog.Tiers, RaftLog.AsFlat, Joint.Committed;
      var acks := map i | i in matched :: Index(matched[i], if i in cfg.groups then cfg.groups[i] else 0);
      assert acks == N.MatchedAcks(cfg, AsNode());
      var r := JointCommittedIndex(cfg.voters, acks, cfg.groupCommit);
      var done := CommitAt(r.0, term);
    }

    /** RaftLog::MaybeCommit on this node. */
    method CommitAt(index: nat, t: nat) returns (r: bool)
      requires Valid()
      modifies log
      ensures Valid() && AsNode() == N.MaybeCommit(old(AsNode()), index, t)
      ensures r <==> index > old(log.committed) && old(AsNode()).Term(index) == t
    {
      hide RaftLog.Tiers, RaftLog.AsFlat;
      PlainTerm(log.AsFlat(), index);
      LastIsLength();
      r := log.MaybeCommit(index, t);
    }

    /** Raft::MaybeCommitByVote. */
    method MaybeCommitByVote(commit: nat, commitTerm: nat, o: Oracle)
      requires Valid()
      modifies this, log
      ensures Valid() && AsNode() == N.MaybeCommitByVote(cfg, id, old(AsNode()), commit, commitTerm, o) && messages == old(messages)
    {
      hide RaftLog.Tiers, RaftLog.AsFlat, Plain, N.BecomeFollower;
      if commit == 0 || commitTerm == 0 {
        return;
      }
      if commit <= log.committed || role == Leader {
        return;
      }
      var moved := CommitAt(commit, commitTerm);
      if !moved || (role != Candidate && role != PreCandidate) {
        return;
      }
      if o.confPending {
        BecomeFollower(term, NONE);
      }
    }

    // -------------------------------------------------------------- message handlers

    method Send(m: Msg)
      requires Valid()
      modifies `messages
      ensures Valid() && AsNode() == old(AsNode()) && Emits(old(messages), messages, {m})
    {
      EmitsOne(messages, m);
      messages := messages + [m];
    }

    /** Raft::HandleAppendEntries; a conflict with a committed entry would stop the process. */
    method HandleAppendEntries(m: Msg) returns (ok: bool)
      requires Valid() && m.Append? && WellFormed(log.AsFlat(), m.prev, m.prevTerm, m.entries)
      modifies this, log, log.unstable
      ensures ok <==> N.HandleAppendEntries(id, old(AsNode()), m).Effect?
      ensures ok ==> Did(N.HandleAppendEntries(id, old(AsNode()), m), old(messages))
    {
      hide RaftLog.Tiers, RaftLog.AsFlat, Flat.Conflict, Flat.BackTo, Flat.Valid, N.FindConflictByTerm, N.MaybeAppend, Emits, WellFormed;
      if m.prev < log.committed {
        Send(AppendResponse(id, m.from, term, log.committed, false, 0, 0, log.committed));
        return true;
      }
      PlainTerm(log.AsFlat(), m.prev);
      LastIsLength();
      ghost var flat := log.AsFlat();
      ok := true;
      if flat.Match(m.prev, m.prevTerm) {
        AppendAlike(AsNode(), flat, m);
      }
      var r := log.MaybeAppend(m.prev, m.prevTerm, m.commit, m.entries);
      if r.Err? {
        return false;
      }
      if r.value.matched {
        Send(AppendResponse(id, m.from, term, r.value.last, false, 0, 0, log.committed));
      } else {
        var last := log.LastIndex();
        BackToAlike(flat, Min(m.prev, last), m.prevTerm);
        PlainTerm(flat, flat.BackTo(Min(m.prev, last), m.prevTerm));
        var hint, hintTerm := log.FindConflictByTerm(Min(m.prev, last), m.prevTerm);
        Send(AppendResponse(id, m.from, term, m.prev, true, hint, hintTerm.value, log.committed));
      }
    }

    /** Raft::HandleHeartbeat. */
    method HandleHeartbeat(m: Msg)
      requires Valid() && m.Heartbeat?
      modifies this, log
      ensures Did(N.HandleHeartbeat(id, old(AsNode()), m), old(messages))
    {
      hide RaftLog.Tiers, RaftLog.AsFlat, Emits;
      LastIsLength();
      var r := log.CommitTo(m.commit);
      Send(HeartbeatResponse(id, m.from, term, log.committed));
    }

    /** Raft::HandleAppendResponse as far as the node's own state goes. */
    method HandleAppendResponse(m: Msg)
      requires Valid() && m.AppendResponse?
      modifies this, log
      ensures Valid() && AsNode() == N.HandleAppendResponse(cfg, old(AsNode()), m) && messages == old(messages)
    {
      hide RaftLog.Tiers, RaftLog.AsFlat, Plain, N.LeaderCommit;
      if m.from !in matched || m.reject || matched[m.from] >= m.index {
        return;
      }
      matched := matched[m.from := m.index];
      LeaderCommit();
    }

    /** Whether a vote request is granted. */
    method Grants(m: Msg) returns (r: bool)
      requires Valid() && m.RequestVote?
      ensures var n := AsNode();
              r <==> (n.vote == m.from || (n.vote == NONE && n.leader == NONE) || (m.pre && m.term > n.term))
                     && N.IsUpToDate(n.log, m.lastIndex, m.lastTerm) && !N.Outranks(n, m)
    {
      hide RaftLog.Tiers, RaftLog.AsFlat, Plain, N.IsUpToDate;
      var canVote := vote == m.from || (vote == NONE && leader == NONE) || (m.pre && m.term > term);
      var upToDate := IsUpToDate(m.lastIndex, m.lastTerm);
      var last := log.LastIndex();
      LastIsLength();
      return canVote && upToDate && (m.lastIndex > last || priority <= m.priority);
    }

    /** The answer to a vote request; an answer without a term would stop the process. */
    method HandleRequestVote(m: Msg, o: Oracle) returns (ok: bool)
      requires Valid() && m.RequestVote?
      modifies this, log
      ensures ok <==> N.HandleRequestVote(cfg, id, old(AsNode()), m, o).Effect?
      ensures ok ==> Did(N.HandleRequestVote(cfg, id, old(AsNode()), m, o), old(messages))
    {
      hide RaftLog.Tiers, RaftLog.AsFlat, Plain, Emits, N.MaybeCommitByVote, N.IsUpToDate, N.Outranks;
      var grants := Grants(m);
      if grants {
        Send(VoteResponse(id, m.from, m.term, m.pre, false, 0, 0));
        if !m.pre {
          vote := m.from;
        }
      } else {
        if term == 0 {
          return false;
        }
        var commitTerm := TermOf(log.committed);
        Send(VoteResponse(id, m.from, term, m.pre, true, log.committed, commitTerm));
        MaybeCommitByVote(m.commit, m.commitTerm, o);
      }
      return true;
    }

    /** A message fits this node's log. */
    ghost predicate Fits(m: Msg)
      requires Valid()
      reads this, log, log.store, log.unstable
    {
      m.Append? ==> WellFormed(log.AsFlat(), m.prev, m.prevTerm, m.entries)
    }

    /** Raft::StepCandidate. */
    method StepCandidate(m: Msg, o: Oracle) returns (ok: bool)
      requires Valid() && Fits(m)
      modifies this, log, log.unstable
      ensures ok <==> N.StepCandidate(cfg, id, old(AsNode()), m, o).Effect?
      ensures ok ==> Did(N.StepCandidate(cfg, id, old(AsNode()), m, o), old(messages))
    {
      hide RaftLog.Tiers, RaftLog.AsFlat, Plain, Emits, WellFormed, N.BecomeFollower, N.HandleAppendEntries, N.HandleHeartbeat;
      hide N.PollCandidate, N.PollPreCandidate, N.MaybeCommitByVote;
      EmitsNothing(messages);
      ok := true;
      match m {
        case Append(_, _, _, _, _, _, _) =>
          LogKept(m.term, m.from);
          BecomeFollower(m.term, m.from);
          ok := HandleAppendEntries(m);
        case Heartbeat(_, _, _, _) =>
          BecomeFollower(m.term, m.from);
          HandleHeartbeat(m);
        case VoteResponse(_, _, _, pre, reject, commit, commitTerm) =>
          if pre == (role == PreCandidate) {
            if pre {
              var r := PollPreCandidate(m.from, !reject);
            } else {
              PollCandidate(m.from, !reject);
            }
            MaybeCommitByVote(commit, commitTerm, o);
          }
        case _ =>
      }
    }

    lemma LogKept(t: nat, l: nat)
      requires Valid()
      ensures N.BecomeFollower(cfg, id, AsNode(), t, l).log == AsNode().log
    {
    }

    /** Raft::StepFollower. */
    method StepFollower(m: Msg, o: Oracle) returns (ok: bool)
      requires Valid() && Fits(m)
      modifies this, log, log.unstable
      ensures ok <==> N.StepFollower(cfg, id, old(AsNode()), m, o).Effect?
      ensures ok ==> Did(N.StepFollower(cfg, id, old(AsNode()), m, o), old(messages))
    {
      hide RaftLog.Tiers, RaftLog.AsFlat, Plain, Emits, WellFormed, N.HandleAppendEntries, N.HandleHeartbeat, N.Hup, N.MaybeCommit;
      EmitsNothing(messages);
      ok := true;
      match m {
        case Append(_, _, _, _, _, _, _) =>
          leader := m.from;
          ok := HandleAppendEntries(m);
        case Heartbeat(_, _, _, _) =>
          leader := m.from;
          HandleHeartbeat(m);
        case TimeoutNow(_, _, _) => Hup(true, o);
        case ReadIndexResponse(_, _, _, index) =>
          if leader != NONE && m.from == leader {
            var r := CommitAt(index, m.term);
          }
        case _ =>
      }
    }

    /** Raft::StepLeader. */
    method StepLeader(m: Msg)
      requires Valid()
      modifies this, log
      ensures Did(N.StepLeader(cfg, old(AsNode()), m), old(messages))
    {
      hide RaftLog.Tiers, RaftLog.AsFlat, Plain, Emits, N.HandleAppendResponse;
      EmitsNothing(messages);
      if m.AppendResponse? {
        HandleAppendResponse(m);
      }
    }

    /** The second half of Raft::Step, once terms are settled. */
    method Dispatch(m: Msg, o: Oracle) returns (ok: bool)
      requires Valid() && Fits(m)
      modifies this, log, log.unstable
      ensures ok <==> N.Dispatch(cfg, id, old(AsNode()), m, o).Effect?
      ensures ok ==> Did(N.Dispatch(cfg, id, old(AsNode()), m, o), old(messages))
    {
      hide RaftLog.Tiers, RaftLog.AsFlat, Plain, Did, Fits, N.HandleRequestVote, N.StepCandidate, N.StepFollower, N.StepLeader;
      if m.RequestVote? {
        ok := HandleRequestVote(m, o);
        return;
      }
      match role {
        case PreCandidate => ok := StepCandidate(m, o);
        case Candidate => ok := StepCandidate(m, o);
        case Follower => ok := StepFollower(m, o);
        case Leader =>
          StepLeader(m);
          LeaderActs(N.StepLeader(cfg, old(AsNode()), m), old(messages));
          ok := true;
      }
    }

    lemma LeaderActs(e: Effect, before: seq<Msg>)
      requires Did(e, before)
      ensures e.Effect?
    {
    }

    /** Raft::Step on a message from a peer does what the model says, or stops where it does. */
    method Step(m: Msg, o: Oracle) returns (ok: bool)
      requires Valid() && Fits(m)
      modifies this, log, log.unstable
      ensures ok <==> N.Step(cfg, id, old(AsNode()), m, o).Effect?
      ensures ok ==> Did(N.Step(cfg, id, old(AsNode()), m, o), old(messages))
    {
      hide RaftLog.Tiers, RaftLog.AsFlat, Plain, Emits, WellFormed, N.Dispatch, N.BecomeFollower;
      EmitsNothing(messages);
      if m.term > term {
        if m.RequestVote? && !m.force && cfg.checkQuorum && leader != NONE && o.inLease {
          return true;
        }
        if !N.KeepsTerm(m) {
          var newLeader := if m.Append? || m.Heartbeat? then m.from else NONE;
          LogKept(m.term, newLeader);
          BecomeFollower(m.term, newLeader);
        }
      } else if m.term < term {
        if (cfg.checkQuorum || cfg.preVote) && (m.Heartbeat? || m.Append?) {
          Send(AppendResponse(id, m.from, term, 0, false, 0, 0, 0));
        } else if m.RequestVote? && m.pre {
          Send(VoteResponse(id, m.from, term, true, true, 0, 0));
        }
        return true;
      }
      ok := Dispatch(m, o);
    }

    /** A proposal at a leader; one without entries stops the process. */
    method Propose(data: seq<string>) returns (ok: bool)
      requires Valid() && role == Leader
      modifies log, log.unstable
      ensures ok <==> N.Handle(cfg, id, old(AsNode()), N.Propose(data), Oracle(false, false)).Effect?
      ensures ok ==> Did(N.Handle(cfg, id, old(AsNode()), N.Propose(data), Oracle(false, false)), messages)
    {
      hide RaftLog.Tiers, RaftLog.AsFlat, N.AppendEntry, Emits;
      EmitsNothing(messages);
      if data == [] {
        return false;
      }
      AppendEntry(data);
      return true;
    }

    /** Raft::SetPriority. */
    method SetPriority(p: int)
      requires Valid()
      modifies `priority
      ensures Did(N.Handle(cfg, id, old(AsNode()), N.SetPriority(p), Oracle(false, false)), messages)
    {
      EmitsNothing(messages);
      priority := p;
    }

    /** Raft::OnPersistEntries: a report that is news counts as the leader's own acknowledgement. */
    method OnPersistEntries(index: nat, t: nat)
      requires Valid()
      modifies this, log
      ensures Valid() && messages == old(messages)
      ensures AsNode() == old(AsNode())
              || (Enabled(cfg, id, old(AsNode()), Persisted(index))
                  && Effect(AsNode(), {}) == N.Handle(cfg, id, old(AsNode()), Persisted(index), Oracle(false, false)))
    {
      hide RaftLog.Tiers, RaftLog.AsFlat, N.LeaderCommit;
      log.OffsetInLog();
      LastIsLength();
      var update := log.MaybePersist(index, t);
      log.OffsetInLog();
      if update && role == Leader && id in matched && matched[id] < index {
        matched := matched[id := index];
        LeaderCommit();
      }
    }
  }
}
