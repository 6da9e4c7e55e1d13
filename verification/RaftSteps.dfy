/** Every step of a node keeps the facts of RaftHistory. */
module RaftSteps {
  import opened Types
  import opened Quorum
  import opened RaftNode
  import opened RaftHistory
  import opened RaftGrowth
  import opened RaftRecords
  import FlatLog
  import PlainLog

  ghost predicate Local(cfg: Config, h: History, id: nat, n: Node) {
    HistoryInv(cfg, h) && NodeInv(cfg, h, id, n)
  }

  ghost predicate Sound(cfg: Config, h: History, out: set<Msg>) {
    forall m | m in out :: MsgInv(cfg, h, m)
  }

  // ---------------------------------------------------------------- roles

  lemma FollowerKeeps(cfg: Config, h: History, id: nat, n: Node, term: nat, leader: nat)
    requires Local(cfg, h, id, n) && n.term <= term && (leader == NONE || term > 0)
    ensures Local(cfg, h, id, BecomeFollower(cfg, id, n, term, leader))
  {
    forall a | a in h.acks && a.node == id ensures StillHolds(h.reigns, term, n.committed, n.log, a) {
      assert StillHolds(h.reigns, n.term, n.committed, n.log, a);
    }
  }

  lemma PreCandidateKeeps(cfg: Config, h: History, id: nat, n: Node)
    requires Local(cfg, h, id, n)
    ensures Local(cfg, h, id, BecomePreCandidate(n))
  {
  }

  lemma CandidateKeeps(cfg: Config, h: History, id: nat, n: Node) returns (h': History)
    requires Local(cfg, h, id, n)
    ensures Extends(h, h', id) && Local(cfg, h', id, BecomeCandidate(cfg, id, n))
    ensures (id, n.term + 1) in h'.runs && h'.runs[(id, n.term + 1)] == n.log
    ensures (id, n.term + 1) in h'.ballots && h'.ballots[(id, n.term + 1)].candidate == id
  {
    hide HistoryInv, NodeInv, GoodLog, Extends, AckInv, IsUpToDate;
    var c := BecomeCandidate(cfg, id, n);
    var f := BecomeFollower(cfg, id, n, n.term + 1, NONE);
    CanCampaign(cfg, h, id, n);
    FollowerKeeps(cfg, h, id, n, n.term + 1, NONE);
    AddRunKeeps(cfg, h, id, c.term, n.log);
    var h1 := AddRun(h, id, c.term, n.log);
    OwnBallot(cfg, h, id, f);
    AddBallotKeeps(cfg, h1, id, f, id);
    h' := AddBallot(h1, id, c.term, id, n.log);
    ExtendsTrans(h, h1, h', id);
    CandidateStarts(cfg, h, h', id, n);
  }

  /** A node may vote for itself with the log it campaigns with. */
  lemma OwnBallot(cfg: Config, h: History, id: nat, n: Node)
    requires NodeInv(cfg, h, id, n)
    ensures var h1 := AddRun(h, id, n.term, n.log);
            && GoodLog(h1.reigns, n.log) && AckInv(h1, id, n) && (id, n.term) in h1.runs
            && IsUpToDate(n.log, |h1.runs[(id, n.term)]|, LastTerm(h1.runs[(id, n.term)]))
  {
    hide GoodLog, RecordInv, StillHolds;
  }

  lemma CanCampaign(cfg: Config, h: History, id: nat, n: Node)
    requires Local(cfg, h, id, n)
    ensures id != NONE && (id, n.term + 1) !in h.runs && (id, n.term + 1) !in h.ballots
    ensures forall t | t in h.reigns && h.reigns[t].leader == id :: t <= n.term
  {
  }

  lemma CandidateStarts(cfg: Config, h: History, h': History, id: nat, n: Node)
    requires NodeInv(cfg, h, id, BecomeFollower(cfg, id, n, n.term + 1, NONE))
    requires forall t | t in h.reigns && h.reigns[t].leader == id :: t <= n.term
    requires h' == AddBallot(AddRun(h, id, n.term + 1, n.log), id, n.term + 1, id, n.log) && id != NONE
    ensures NodeInv(cfg, h', id, BecomeCandidate(cfg, id, n))
  {
    var c := BecomeCandidate(cfg, id, n);
    assert RecordInv(h', id, c);
    assert LogInv(cfg, h', c) && AckInv(h', id, c) && CandidateInv(h', id, c);
  }

  lemma RecordVoteKeeps(cfg: Config, h: History, id: nat, n: Node, from: nat, granted: bool)
    requires Local(cfg, h, id, n) && n.role != Leader
    requires n.role == Candidate && granted ==> (from, n.term) in h.ballots && h.ballots[(from, n.term)].candidate == id
    ensures Local(cfg, h, id, RecordVote(n, from, granted))
  {
  }

  /** Election safety: a candidate with a quorum of votes is the first winner of its term. */
  lemma NoOtherLeader(cfg: Config, h: History, id: nat, n: Node)
    requires Local(cfg, h, id, n) && n.role == Candidate && cfg.voters.IsQuorum(Granted(n.votes))
    ensures n.term !in h.reigns
  {
    if n.term in h.reigns {
      assert ReignInv(cfg, h, n.term);
      var w := QuorumsMeet(cfg.voters, Granted(n.votes), h.reigns[n.term].electors);
      assert false;
    }
  }

  lemma LeaderKeeps(cfg: Config, h: History, id: nat, n: Node) returns (h': History)
    requires Local(cfg, h, id, n) && n.role == Candidate && cfg.voters.IsQuorum(Granted(n.votes)) && n.term >= 1
    ensures Extends(h, h', id) && Local(cfg, h', id, BecomeLeader(cfg, id, n))
  {
    var l := BecomeLeader(cfg, id, n);
    FirstEntry(cfg, id, n);
    var h1 := ReignStarts(cfg, h, id, n, l.log);
    LeaderStarts(cfg, h, h1, id, n, l);
    var l0 := l.(matched := l.matched[id := 0]);
    h' := SelfAckKeeps(cfg, h1, id, l0, n.persisted);
    ExtendsTrans(h, h1, h', id);
    assert l0.(matched := l0.matched[id := n.persisted]) == l;
  }

  lemma FirstEntry(cfg: Config, id: nat, n: Node)
    requires id in cfg.members
    ensures BecomeLeader(cfg, id, n).log == n.log + [Entry(|n.log| + 1, n.term, "")]
    ensures var l := BecomeLeader(cfg, id, n);
            id in l.matched && l.matched[id := 0][id := n.persisted] == l.matched
  {
  }

  lemma ReignStarts(cfg: Config, h: History, id: nat, n: Node, log: seq<Entry>) returns (h': History)
    requires Local(cfg, h, id, n) && n.role == Candidate && cfg.voters.IsQuorum(Granted(n.votes)) && n.term >= 1
    requires log == n.log + [Entry(|n.log| + 1, n.term, "")]
    ensures h' == AddReign(h, n.term, Reign(id, n.log, log, |h.reigns|, Granted(n.votes)))
    ensures Extends(h, h', id) && HistoryInv(cfg, h') && n.term !in h.reigns && GoodLog(h'.reigns, log)
  {
    NoOtherLeader(cfg, h, id, n);
    AddReignKeeps(cfg, h, id, n.term, Reign(id, n.log, log, |h.reigns|, Granted(n.votes)));
    h' := AddReign(h, n.term, Reign(id, n.log, log, |h.reigns|, Granted(n.votes)));
  }

  /** The new leader, before its own acknowledgement is counted. */
  lemma LeaderStarts(cfg: Config, h: History, h1: History, id: nat, n: Node, l: Node)
    requires Local(cfg, h, id, n) && HistoryInv(cfg, h1) && Extends(h, h1, id) && n.role == Candidate
    requires l == BecomeLeader(cfg, id, n) && l.log == n.log + [Entry(|n.log| + 1, n.term, "")]
    requires h1.reigns == h.reigns[n.term := Reign(id, n.log, l.log, |h.reigns|, Granted(n.votes))]
    requires h1.ballots == h.ballots && h1.runs == h.runs && h1.acks == h.acks && h1.decided == h.decided
    requires n.term !in h.reigns && GoodLog(h1.reigns, l.log)
    ensures NodeInv(cfg, h1, id, l.(matched := l.matched[id := 0]))
  {
    hide HistoryInv, GoodLog, Extends;
    var l0 := l.(matched := l.matched[id := 0]);
    assert l0.log[..l0.committed] == n.log[..n.committed];
    assert LogInv(cfg, h1, l0);
    assert RecordInv(h1, id, l0);
    LongerLogHolds(h, h1, id, n, l0);
  }

  /** A log that only got longer still holds what was acknowledged in earlier terms. */
  lemma LongerLogHolds(h: History, h1: History, id: nat, n: Node, l: Node)
    requires Extends(h, h1, id) && h1.acks == h.acks && AckInv(h, id, n)
    requires n.term !in h.reigns && l.term == n.term && n.log <= l.log
    ensures AckInv(h1, id, l)
  {
    forall a | a in h1.acks && a.node == id ensures StillHolds(h1.reigns, l.term, l.committed, l.log, a) {
      assert StillHolds(h.reigns, n.term, n.committed, n.log, a);
      KeptGrows(h, h1, id, a, |h.reigns|, |h1.reigns|, n.log);
    }
  }

  // ---------------------------------------------------------------- acknowledgements

  /** A node may acknowledge any prefix of its log that is its leader's, or that is committed. */
  lemma AckKeeps(cfg: Config, h: History, id: nat, n: Node, k: nat)
    requires Local(cfg, h, id, n) && n.term in h.reigns && k <= |n.log|
    requires n.log[..k] <= h.reigns[n.term].log || k <= n.committed
    ensures var h' := AddAck(h, Ack(id, n.term, n.log[..k]));
            Extends(h, h', id) && Local(cfg, h', id, n) && AckedBy(h', id, n.term, k)
  {
    var a := Ack(id, n.term, n.log[..k]);
    var h' := AddAck(h, a);
    GoodPrefix(h.reigns, n.log, k);
    if !(n.log[..k] <= h.reigns[n.term].log) {
      CommittedFaithful(cfg, h, id, n, k);
    }
    AddAckKeeps(cfg, h, a);
    NodeWithAck(cfg, h, id, n, k);
  }

  lemma NodeWithAck(cfg: Config, h: History, id: nat, n: Node, k: nat)
    requires NodeInv(cfg, h, id, n) && n.term in h.reigns && k <= |n.log|
    requires n.log[..k] <= h.reigns[n.term].log || k <= n.committed
    requires Extends(h, AddAck(h, Ack(id, n.term, n.log[..k])), id)
    ensures NodeInv(cfg, AddAck(h, Ack(id, n.term, n.log[..k])), id, n)
  {
    hide GoodLog, Chosen, Extends;
    var a := Ack(id, n.term, n.log[..k]);
    var h' := AddAck(h, a);
    assert StillHolds(h.reigns, n.term, n.committed, n.log, a) by {
      assert forall i | 0 <= i <= k :: n.log[..k][..i] <= n.log;
    }
    if n.role == Leader {
      LeaderInvGrows(cfg, h, h', id, id, n);
    }
  }

  /** A committed prefix belongs to the current leader, or to one of a later term. */
  lemma CommittedFaithful(cfg: Config, h: History, id: nat, n: Node, k: nat)
    requires Local(cfg, h, id, n) && n.term in h.reigns && k <= n.committed
    ensures Faithful(h.reigns, Ack(id, n.term, n.log[..k]), |h.reigns|)
  {
    hide HistoryInv, GoodLog;
    DecidedFacts(cfg, h);
    var p, d := n.log[..k], LastTerm(h.decided);
    assert n.log[..n.committed] <= h.decided && p <= h.decided;
    if d <= n.term {
      DecidedInLaterLeaders(cfg, h, n.term);
    } else {
      ReignFacts(cfg, h, d);
      assert forall j | 0 <= j < |p| :: p[j] == n.log[j];
      OlderInInit(h.reigns[d].log, h.reigns[d].init, d, p, n.term);
    }
  }

  /** What a later leader shares with an older term it had when it was elected. */
  lemma OlderInInit(log: seq<Entry>, init: seq<Entry>, d: nat, p: seq<Entry>, t: nat)
    requires init <= log && p <= log && t < d && TermsUpTo(p, t)
    requires |init| < |log| ==> log[|init|].term == d
    ensures p <= init
  {
    assert forall k | 0 <= k < |p| :: p[k] == log[k];
  }

  lemma SelfAckKeeps(cfg: Config, h: History, id: nat, n: Node, k: nat) returns (h': History)
    requires Local(cfg, h, id, n) && n.role == Leader && k <= |n.log|
    ensures Extends(h, h', id) && Local(cfg, h', id, n.(matched := n.matched[id := k]))
    ensures h'.reigns == h.reigns && h'.decided == h.decided
  {
    hide HistoryInv, GoodLog, Chosen;
    AckKeeps(cfg, h, id, n, k);
    h' := AddAck(h, Ack(id, n.term, n.log[..k]));
  }

  // ---------------------------------------------------------------- campaigns

  lemma PollCandidateKeeps(cfg: Config, h: History, id: nat, n: Node, from: nat, granted: bool) returns (h': History)
    requires Local(cfg, h, id, n) && n.role == Candidate && n.term >= 1
    requires granted ==> (from, n.term) in h.ballots && h.ballots[(from, n.term)].candidate == id
    ensures Extends(h, h', id) && Local(cfg, h', id, PollCandidate(cfg, id, n, from, granted))
  {
    hide HistoryInv, NodeInv;
    h' := h;
    RecordVoteKeeps(cfg, h, id, n, from, granted);
    var v := RecordVote(n, from, granted);
    WonIsQuorum(cfg.voters, v.votes);
    match cfg.voters.Vote(v.votes)
    case Pending =>
    case Lost => FollowerKeeps(cfg, h, id, v, v.term, NONE);
    case Won => h' := LeaderKeeps(cfg, h, id, v);
  }

  /** The log a campaign was started with, as vote requests describe it. */
  lemma RequestsGood(cfg: Config, h: History, id: nat, n: Node, term: nat, pre: bool, force: bool)
    requires Local(cfg, h, id, n) && term >= 1
    requires !pre ==> (id, term) in h.runs && h.runs[(id, term)] == n.log
    ensures Sound(cfg, h, VoteRequests(cfg, id, n, term, pre, force))
  {
    ReportsOwn(cfg, h, n);
  }

  /** A node's commit index and its term name a decided entry. */
  lemma ReportsOwn(cfg: Config, h: History, n: Node)
    requires LogInv(cfg, h, n)
    ensures Reports(h, n.committed, n.Term(n.committed))
  {
    if n.committed > 0 {
      assert n.log[..n.committed][n.committed - 1] == h.decided[n.committed - 1];
    }
  }

  lemma CampaignStarts(cfg: Config, h: History, id: nat, n: Node) returns (h': History, c: Node)
    requires Local(cfg, h, id, n)
    ensures c == PollCandidate(cfg, id, BecomeCandidate(cfg, id, n), id, true)
    ensures Extends(h, h', id) && Local(cfg, h', id, c)
    ensures (id, n.term + 1) in h'.runs && h'.runs[(id, n.term + 1)] == n.log
    ensures c.role != Leader ==> c.log == n.log
  {
    var h1 := CandidateKeeps(cfg, h, id, n);
    h' := PollCandidateKeeps(cfg, h1, id, BecomeCandidate(cfg, id, n), id, true);
    ExtendsTrans(h, h1, h', id);
    c := PollCandidate(cfg, id, BecomeCandidate(cfg, id, n), id, true);
  }

  lemma CampaignKeeps(cfg: Config, h: History, id: nat, n: Node, transfer: bool) returns (h': History)
    requires Local(cfg, h, id, n)
    ensures var e := Campaign(cfg, id, n, transfer);
            Extends(h, h', id) && Local(cfg, h', id, e.node) && Sound(cfg, h', e.out)
  {
    hide Local, Extends, PollCandidate, BecomeCandidate, MsgInv, VoteRequests;
    var c;
    h', c := CampaignStarts(cfg, h, id, n);
    if c.role != Leader {
      RequestsGood(cfg, h', id, c, n.term + 1, false, transfer);
    }
  }

  lemma PollPreCandidateKeeps(cfg: Config, h: History, id: nat, n: Node, from: nat, granted: bool) returns (h': History)
    requires Local(cfg, h, id, n) && n.role == PreCandidate
    ensures var e := PollPreCandidate(cfg, id, n, from, granted);
            e.Effect? && Extends(h, h', id) && Local(cfg, h', id, e.node) && Sound(cfg, h', e.out)
  {
    hide HistoryInv, NodeInv, MsgInv;
    h' := h;
    RecordVoteKeeps(cfg, h, id, n, from, granted);
    var v := RecordVote(n, from, granted);
    match cfg.voters.Vote(v.votes)
    case Pending =>
    case Lost => FollowerKeeps(cfg, h, id, v, v.term, NONE);
    case Won => h' := CampaignKeeps(cfg, h, id, v, false);
  }

  lemma PreCampaignKeeps(cfg: Config, h: History, id: nat, n: Node) returns (h': History)
    requires Local(cfg, h, id, n)
    ensures var e := PreCampaign(cfg, id, n);
            e.Effect? && Extends(h, h', id) && Local(cfg, h', id, e.node) && Sound(cfg, h', e.out)
  {
    hide HistoryInv, NodeInv, MsgInv, VoteRequests, PollPreCandidate, Extends, RecordVote;
    PreCandidateKeeps(cfg, h, id, n);
    h' := PollPreCandidateKeeps(cfg, h, id, BecomePreCandidate(n), id, true);
    var e := PollPreCandidate(cfg, id, BecomePreCandidate(n), id, true);
    RequestsGood(cfg, h', id, e.node, n.term + 1, true, false);
  }

  lemma HupKeeps(cfg: Config, h: History, id: nat, n: Node, transfer: bool, o: Oracle) returns (h': History)
    requires Local(cfg, h, id, n)
    ensures var e := Hup(cfg, id, n, transfer, o);
            e.Effect? && Extends(h, h', id) && Local(cfg, h', id, e.node) && Sound(cfg, h', e.out)
  {
    hide HistoryInv, NodeInv, MsgInv;
    h' := h;
    if !(n.role == Leader || id !in cfg.voters.Ids() || o.confPending) {
      if transfer || !cfg.preVote {
        h' := CampaignKeeps(cfg, h, id, n, transfer);
      } else {
        h' := PreCampaignKeeps(cfg, h, id, n);
      }
    }
  }

  // ---------------------------------------------------------------- commit

  /** Raising the commit index within the decided log changes nothing else. */
  lemma CommitKeeps(cfg: Config, h: History, id: nat, n: Node, c: nat)
    requires Local(cfg, h, id, n) && n.role != Leader && n.committed <= c <= |n.log| && n.log[..c] <= h.decided
    ensures Local(cfg, h, id, n.(committed := c))
  {
    forall a | a in h.acks && a.node == id ensures StillHolds(h.reigns, n.term, c, n.log, a) {
      assert StillHolds(h.reigns, n.term, n.committed, n.log, a);
    }
  }

  /** An entry whose index and term are reported as decided is decided. */
  lemma ReportedCommitKeeps(cfg: Config, h: History, id: nat, n: Node, index: nat, term: nat)
    requires Local(cfg, h, id, n) && n.role != Leader && Reports(h, index, term)
    ensures Local(cfg, h, id, MaybeCommit(n, index, term))
  {
    if index > n.committed && n.Term(index) == term && index <= |n.log| {
      DecidedGood(cfg, h);
      LogsMatch(h.reigns, n.log, h.decided, index);
      CommitKeeps(cfg, h, id, n, index);
    }
  }

  lemma CommitByVoteKeeps(cfg: Config, h: History, id: nat, n: Node, index: nat, term: nat, o: Oracle)
    requires Local(cfg, h, id, n) && Reports(h, index, term)
    ensures Local(cfg, h, id, MaybeCommitByVote(cfg, id, n, index, term, o))
  {
    if n.role != Leader {
      ReportedCommitKeeps(cfg, h, id, n, index, term);
      var n' := MaybeCommit(n, index, term);
      FollowerKeeps(cfg, h, id, n', n'.term, NONE);
    }
  }

  // ---------------------------------------------------------------- appending

  /** The scan for a conflict stops at the first entry whose term differs. */
  lemma ConflictFound(log: seq<Entry>, prev: nat, entries: seq<Entry>)
    requires Follows(prev, entries)
    ensures var c := FindConflict(log, entries);
            if c == 0 then forall k | 0 <= k < |entries| :: TermAt(log, prev + 1 + k) == entries[k].term
            else && prev < c <= prev + |entries|
                 && TermAt(log, c) != entries[c - 1 - prev].term
                 && forall k | 0 <= k < c - 1 - prev :: TermAt(log, prev + 1 + k) == entries[k].term
  {
    hide FindConflict, FlatLog.Flat.Conflict, FlatLog.Flat.Term;
    var flat := PlainLog.PlainOf(log);
    PlainLog.ConflictAlike(flat, entries);
    FlatLog.ConflictFound(flat, prev, entries);
    forall i ensures flat.Term(i) == Ok(TermAt(log, i)) {
      PlainLog.PlainTerm(flat, i);
    }
  }

  /** The message carries a slice of the leader's log that fits the receiver's log at `prev`. */
  ghost predicate Fits(reigns: map<nat, Reign>, log: seq<Entry>, owner: seq<Entry>, prev: nat, entries: seq<Entry>) {
    && GoodLog(reigns, log) && GoodLog(reigns, owner) && 0 !in reigns
    && prev + |entries| <= |owner| && entries == owner[prev..prev + |entries|]
    && TermAt(log, prev) == TermAt(owner, prev)
  }

  lemma PositiveTerm(reigns: map<nat, Reign>, log: seq<Entry>, i: nat)
    requires Owned(reigns, log) && 0 !in reigns
    ensures TermAt(log, i) > 0 <==> 1 <= i <= |log|
  {
    if 1 <= i <= |log| {
      assert OwnedAt(reigns, log, i - 1);
    }
  }

  lemma AgreeAt(reigns: map<nat, Reign>, log: seq<Entry>, owner: seq<Entry>, i: nat)
    requires Owned(reigns, log) && Owned(reigns, owner) && 0 !in reigns
    requires i <= |owner| && TermAt(log, i) == TermAt(owner, i)
    ensures i <= |log| && log[..i] == owner[..i]
  {
    PositiveTerm(reigns, log, i);
    PositiveTerm(reigns, owner, i);
    if i > 0 {
      LogsMatch(reigns, log, owner, i);
    }
  }

  /** Up to the conflict the receiver agrees with the leader; without one, up to the last new entry. */
  lemma AgreeToConflict(reigns: map<nat, Reign>, log: seq<Entry>, owner: seq<Entry>, prev: nat, entries: seq<Entry>)
    requires Fits(reigns, log, owner, prev, entries)
    ensures var c, p := FindConflict(log, entries), prev + |entries|;
            if c == 0 then p <= |log| && log[..p] == owner[..p]
            else prev < c <= p && c - 1 <= |log| && log[..c - 1] == owner[..c - 1] && TermAt(log, c) != TermAt(owner, c)
  {
    hide GoodLog, FindConflict, Owned;
    GoodIsOwned(reigns, log);
    GoodIsOwned(reigns, owner);
    SliceConsecutive(reigns, owner, prev, entries);
    ConflictFound(log, prev, entries);
    hide TermAt;
    var c := FindConflict(log, entries);
    var last := if c == 0 then prev + |entries| else c - 1;
    if last > prev {
      assert TermAt(log, prev + 1 + (last - prev - 1)) == entries[last - prev - 1].term;
    }
    AgreeAt(reigns, log, owner, last);
  }

  lemma GoodIsOwned(reigns: map<nat, Reign>, log: seq<Entry>)
    requires GoodLog(reigns, log)
    ensures Owned(reigns, log)
  {
  }

  lemma SliceConsecutive(reigns: map<nat, Reign>, owner: seq<Entry>, prev: nat, entries: seq<Entry>)
    requires GoodLog(reigns, owner) && prev + |entries| <= |owner| && entries == owner[prev..prev + |entries|]
    ensures Follows(prev, entries)
    ensures forall k | 0 <= k < |entries| :: entries[k].term == TermAt(owner, prev + 1 + k)
  {
  }

  /** What a matching append leaves: the old log, or exactly the leader's log up to the last new entry. */
  lemma SpliceResult(reigns: map<nat, Reign>, committed: nat, log: seq<Entry>, owner: seq<Entry>, prev: nat, entries: seq<Entry>)
    requires Fits(reigns, log, owner, prev, entries) && committed <= prev
    ensures CanSplice(committed, log, prev, entries) && CanSplice(0, log, prev, entries)
    ensures var s, p := Splice(log, prev, entries), prev + |entries|;
            owner[..p] <= s && (s == log || s == owner[..p])
    ensures FindConflict(log, entries) <= |Splice(log, prev, entries)|
    ensures FindConflict(log, entries) == 0 ==> Splice(log, prev, entries) == log
  {
    hide FindConflict, Fits, Splice, CanSplice;
    AgreeToConflict(reigns, log, owner, prev, entries);
    FitsSlice(reigns, log, owner, prev, entries);
    if FindConflict(log, entries) == 0 {
      SpliceNothing(log, prev, entries);
      SamePrefix(log, owner, prev + |entries|);
    } else {
      SpliceSome(committed, log, owner, prev, entries);
    }
  }

  lemma SpliceNothing(log: seq<Entry>, prev: nat, entries: seq<Entry>)
    requires FindConflict(log, entries) == 0
    ensures (forall committed :: CanSplice(committed, log, prev, entries)) && Splice(log, prev, entries) == log
  {
  }

  lemma SpliceSome(committed: nat, log: seq<Entry>, owner: seq<Entry>, prev: nat, entries: seq<Entry>)
    requires prev + |entries| <= |owner| && entries == owner[prev..prev + |entries|] && committed <= prev
    requires var c := FindConflict(log, entries); prev < c <= prev + |entries| && c - 1 <= |log| && log[..c - 1] == owner[..c - 1]
    ensures CanSplice(committed, log, prev, entries) && CanSplice(0, log, prev, entries)
    ensures Splice(log, prev, entries) == owner[..prev + |entries|] && FindConflict(log, entries) <= |Splice(log, prev, entries)|
  {
    hide FindConflict;
    SpliceSeq(log, owner, prev, entries, FindConflict(log, entries));
  }

  lemma FitsSlice(reigns: map<nat, Reign>, log: seq<Entry>, owner: seq<Entry>, prev: nat, entries: seq<Entry>)
    requires Fits(reigns, log, owner, prev, entries)
    ensures prev + |entries| <= |owner| && entries == owner[prev..prev + |entries|]
  {
  }

  lemma SamePrefix(log: seq<Entry>, owner: seq<Entry>, p: nat)
    requires p <= |log| && p <= |owner| && log[..p] == owner[..p]
    ensures owner[..p] <= log
  {
  }

  lemma SpliceSeq(log: seq<Entry>, owner: seq<Entry>, prev: nat, entries: seq<Entry>, c: nat)
    requires prev + |entries| <= |owner| && entries == owner[prev..prev + |entries|]
    requires prev < c <= prev + |entries| && c - 1 <= |log| && log[..c - 1] == owner[..c - 1]
    ensures log[..c - 1] + entries[c - 1 - prev..] == owner[..prev + |entries|]
  {
    assert entries[c - 1 - prev..] == owner[c - 1..prev + |entries|];
  }

  /** An append never removes what the receiver shares with the leader, nor anything up to `prev`. */
  lemma SpliceKeepsShared(reigns: map<nat, Reign>, log: seq<Entry>, owner: seq<Entry>, prev: nat, entries: seq<Entry>, x: seq<Entry>)
    requires Fits(reigns, log, owner, prev, entries) && x <= log && (x <= owner || |x| <= prev)
    ensures CanSplice(0, log, prev, entries) && x <= Splice(log, prev, entries)
  {
    AgreeToConflict(reigns, log, owner, prev, entries);
    var c := FindConflict(log, entries);
    if c != 0 {
      assert |x| < c;
      assert x == log[..c - 1][..|x|];
    }
  }

  /** What a follower acknowledged survives an append from its leader. */
  lemma SpliceHolds(cfg: Config, h: History, id: nat, n: Node, prev: nat, entries: seq<Entry>, log': seq<Entry>)
    requires Local(cfg, h, id, n) && n.term in h.reigns && n.committed <= prev
    requires Fits(h.reigns, n.log, h.reigns[n.term].log, prev, entries)
    requires CanSplice(0, n.log, prev, entries) && log' == Splice(n.log, prev, entries)
    ensures AckInv(h, id, n.(log := log'))
  {
    hide HistoryInv, GoodLog, Splice, CanSplice, Fits, FindConflict;
    var owner := h.reigns[n.term].log;
    StartsWithInit(cfg, h, n.term);
    OrdBounded(cfg, h, n.term);
    forall a | a in h.acks && a.node == id ensures StillHolds(h.reigns, n.term, n.committed, log', a) {
      assert StillHolds(h.reigns, n.term, n.committed, n.log, a);
      if a.term == n.term {
        SpliceKeepsShared(h.reigns, n.log, owner, prev, entries, a.prefix);
      } else {
        forall i | 0 <= i <= |a.prefix| && Carried(h.reigns, a.term, |h.reigns|, a.prefix[..i])
          ensures a.prefix[..i] <= log'
        {
          SpliceKeepsShared(h.reigns, n.log, owner, prev, entries, a.prefix[..i]);
        }
      }
    }
  }

  lemma NoTermZero(cfg: Config, h: History)
    requires HistoryInv(cfg, h)
    ensures 0 !in h.reigns
  {
    if 0 in h.reigns {
      ReignFacts(cfg, h, 0);
    }
  }

  /** An acknowledgement a node gave in its current term covers a prefix of its log. */
  lemma AckCovers(h: History, id: nat, n: Node, i: nat)
    requires AckInv(h, id, n) && AckedBy(h, id, n.term, i) && n.term in h.reigns
    ensures i <= |n.log|
    ensures n.committed < i ==> i <= |h.reigns[n.term].log| && n.log[..i] == h.reigns[n.term].log[..i]
  {
    var a :| a in h.acks && a.node == id && a.term == n.term && |a.prefix| >= i;
    assert StillHolds(h.reigns, n.term, n.committed, n.log, a);
    assert a.prefix[..i] == n.log[..i];
  }

  /** A matching append carries a slice of the leader's log. */
  lemma AppendFits(cfg: Config, h: History, id: nat, n: Node, m: Msg)
    requires Local(cfg, h, id, n) && m.Append? && MsgInv(cfg, h, m) && m.to == id && m.term == n.term
    requires n.Term(m.prev) == m.prevTerm
    ensures n.term in h.reigns && Fits(h.reigns, n.log, h.reigns[n.term].log, m.prev, m.entries)
  {
    NoTermZero(cfg, h);
    StartsWithInit(cfg, h, m.term);
    hide HistoryInv, GoodLog;
    GoodIsOwned(h.reigns, n.log);
    if m.prev > 0 && m.prevTerm == 0 && AckedBy(h, m.to, m.term, m.prev) {
      AckCovers(h, id, n, m.prev);
      PositiveTerm(h.reigns, n.log, m.prev);
    }
  }

  /** The follower's log after a matching append, before the commit index moves. */
  lemma SplicedNode(cfg: Config, h: History, id: nat, n: Node, prev: nat, entries: seq<Entry>, n1: Node)
    requires Local(cfg, h, id, n) && n.role == Follower && n.term in h.reigns && n.committed <= prev
    requires Fits(h.reigns, n.log, h.reigns[n.term].log, prev, entries)
    requires CanSplice(0, n.log, prev, entries)
    requires n1 == n.(log := Splice(n.log, prev, entries), persisted := n1.persisted)
    requires n1.persisted <= if FindConflict(n.log, entries) == 0 then n.persisted else FindConflict(n.log, entries)
    ensures Local(cfg, h, id, n1) && h.reigns[n.term].log[..prev + |entries|] <= n1.log
  {
    hide HistoryInv, Fits, CanSplice, Splice, FindConflict, ReignInv, GoodLog, LogInv, AckInv, RecordInv;
    var owner := h.reigns[n.term].log;
    SpliceResult(h.reigns, n.committed, n.log, owner, prev, entries);
    SpliceHolds(cfg, h, id, n, prev, entries, n1.log);
    FitsLength(h.reigns, n.log, owner, prev, entries);
    CommittedBound(cfg, h, n);
    SpliceKeepsShared(h.reigns, n.log, owner, prev, entries, n.log[..n.committed]);
    ReignFacts(cfg, h, n.term);
    LeaderSliceGood(cfg, h, n.term, prev + |entries|);
    ReplacedLog(cfg, h, n, n1, owner[..prev + |entries|]);
    SameRecords(h, id, n, n1);
  }

  lemma CommittedBound(cfg: Config, h: History, n: Node)
    requires LogInv(cfg, h, n)
    ensures n.committed <= |n.log| && n.persisted <= |n.log|
  {
  }

  lemma SameRecords(h: History, id: nat, n: Node, n1: Node)
    requires RecordInv(h, id, n) && n1 == n.(log := n1.log, persisted := n1.persisted)
    requires AckInv(h, id, n.(log := n1.log))
    ensures RecordInv(h, id, n1) && AckInv(h, id, n1)
  {
  }

  lemma FitsLength(reigns: map<nat, Reign>, log: seq<Entry>, owner: seq<Entry>, prev: nat, entries: seq<Entry>)
    requires Fits(reigns, log, owner, prev, entries)
    ensures prev + |entries| <= |owner|
  {
  }

  lemma ReplacedLog(cfg: Config, h: History, n: Node, n1: Node, log: seq<Entry>)
    requires LogInv(cfg, h, n) && GoodLog(h.reigns, log) && TermsUpTo(log, n.term)
    requires n1 == n.(log := n1.log, persisted := n1.persisted) && (n1.log == n.log || n1.log == log)
    requires n.log[..n.committed] <= n1.log && n1.persisted <= |n1.log|
    ensures LogInv(cfg, h, n1)
  {
    hide GoodLog;
    assert n1.log[..n1.committed] == n.log[..n.committed];
  }

  lemma LeaderSliceGood(cfg: Config, h: History, t: nat, i: nat)
    requires t in h.reigns && ReignInv(cfg, h, t) && i <= |h.reigns[t].log|
    ensures GoodLog(h.reigns, h.reigns[t].log[..i]) && TermsUpTo(h.reigns[t].log[..i], t)
  {
    GoodPrefix(h.reigns, h.reigns[t].log, i);
    var r := h.reigns[t];
    forall j | 0 <= j < |r.init| ensures r.log[j].term < t {
      assert OlderAt(h.reigns, t, j);
    }
  }

  lemma SpliceStep(cfg: Config, h: History, id: nat, n: Node, m: Msg) returns (n1: Node)
    requires Local(cfg, h, id, n) && n.role == Follower && m.Append? && MsgInv(cfg, h, m)
    requires m.to == id && m.term == n.term && n.committed <= m.prev && n.Term(m.prev) == m.prevTerm
    ensures n.term in h.reigns && m.prev + |m.entries| <= |h.reigns[n.term].log|
    ensures Local(cfg, h, id, n1) && h.reigns[n.term].log[..m.prev + |m.entries|] <= n1.log
    ensures n1 == n.(log := n1.log, persisted := n1.persisted)
    ensures MaybeAppend(n, m.prev, m.commit, m.entries) == Some(CommitTo(n1, Min(m.commit, m.prev + |m.entries|)))
  {
    hide HistoryInv, NodeInv, MsgInv, Fits, FindConflict, Splice, CanSplice;
    AppendFits(cfg, h, id, n, m);
    FitsLength(h.reigns, n.log, h.reigns[n.term].log, m.prev, m.entries);
    SpliceResult(h.reigns, n.committed, n.log, h.reigns[n.term].log, m.prev, m.entries);
    var c := FindConflict(n.log, m.entries);
    n1 := n.(log := Splice(n.log, m.prev, m.entries), persisted := if c == 0 then n.persisted else Min(n.persisted, c - 1));
    SplicedNode(cfg, h, id, n, m.prev, m.entries, n1);
  }

  /** A leader's log up to a decided index, once shared, may be committed. */
  lemma SharedCommitKeeps(cfg: Config, h: History, id: nat, n: Node, c: nat, p: nat)
    requires Local(cfg, h, id, n) && n.role != Leader && n.term in h.reigns && p <= |h.reigns[n.term].log|
    requires h.reigns[n.term].log[..p] <= n.log && c <= |h.reigns[n.term].log| && h.reigns[n.term].log[..c] <= h.decided
    ensures Local(cfg, h, id, CommitTo(n, Min(c, p)))
  {
    var k := Min(c, p);
    if n.committed < k {
      hide HistoryInv, NodeInv;
      assert n.log[..k] == h.reigns[n.term].log[..c][..k];
      CommitKeeps(cfg, h, id, n, k);
    }
  }

  lemma AcceptKeeps(cfg: Config, h: History, id: nat, n: Node, m: Msg) returns (h': History)
    requires Local(cfg, h, id, n) && n.role == Follower && m.Append? && MsgInv(cfg, h, m)
    requires m.to == id && m.term == n.term && n.committed <= m.prev && n.Term(m.prev) == m.prevTerm
    ensures MaybeAppend(n, m.prev, m.commit, m.entries).Some?
    ensures var n' := MaybeAppend(n, m.prev, m.commit, m.entries).value;
            && Extends(h, h', id) && Local(cfg, h', id, n') && n'.term == n.term
            && AckedBy(h', id, n.term, m.prev + |m.entries|)
  {
    var p := m.prev + |m.entries|;
    var n1 := SpliceStep(cfg, h, id, n, m);
    SharedCommitKeeps(cfg, h, id, n1, m.commit, p);
    hide HistoryInv, NodeInv, MsgInv, MaybeAppend, AckedBy, Extends;
    var n2 := CommitTo(n1, Min(m.commit, p));
    assert n2.log[..p] == h.reigns[n.term].log[..p];
    AckKeeps(cfg, h, id, n2, p);
    h' := AddAck(h, Ack(id, n2.term, n2.log[..p]));
  }

  lemma AppendEntriesKeeps(cfg: Config, h: History, id: nat, n: Node, m: Msg) returns (h': History)
    requires Local(cfg, h, id, n) && n.role == Follower && m.Append? && MsgInv(cfg, h, m) && m.to == id && m.term == n.term
    ensures var e := HandleAppendEntries(id, n, m);
            e.Effect? && Extends(h, h', id) && Local(cfg, h', id, e.node) && Sound(cfg, h', e.out)
  {
    hide HistoryInv, NodeInv, AppendInv, MaybeAppend, FindConflictByTerm, Extends;
    h' := h;
    ExtendsRefl(h, id);
    ResponseGood(cfg, h, id, n, m);
    if m.prev < n.committed {
      CommittedInLog(cfg, h, id, n);
      AckKeeps(cfg, h, id, n, n.committed);
      h' := AddAck(h, Ack(id, n.term, n.log[..n.committed]));
    } else if n.Term(m.prev) == m.prevTerm {
      h' := AcceptKeeps(cfg, h, id, n, m);
    }
  }

  lemma CommittedInLog(cfg: Config, h: History, id: nat, n: Node)
    requires NodeInv(cfg, h, id, n)
    ensures n.committed <= |n.log|
  {
  }

  /** Answers to an append come from a member and carry a real term. */
  lemma ResponseGood(cfg: Config, h: History, id: nat, n: Node, m: Msg)
    requires NodeInv(cfg, h, id, n) && m.Append? && MsgInv(cfg, h, m) && m.term == n.term
    ensures id in cfg.members && n.term >= 1 && n.term in h.reigns
  {
  }

  lemma HeartbeatKeeps(cfg: Config, h: History, id: nat, n: Node, m: Msg)
    requires Local(cfg, h, id, n) && n.role == Follower && m.Heartbeat? && MsgInv(cfg, h, m) && m.to == id && m.term == n.term
    ensures var e := HandleHeartbeat(id, n, m);
            e.Effect? && Local(cfg, h, id, e.node) && Sound(cfg, h, e.out)
  {
    hide HistoryInv;
    if n.committed < m.commit <= n.Last() {
      AckCovers(h, id, n, m.commit);
      CommitKeeps(cfg, h, id, n, m.commit);
    }
  }

  // ---------------------------------------------------------------- votes

  lemma GrantKeeps(cfg: Config, h: History, id: nat, n: Node, m: Msg) returns (h': History)
    requires Local(cfg, h, id, n) && m.RequestVote? && !m.pre && MsgInv(cfg, h, m) && m.term == n.term
    requires IsUpToDate(n.log, m.lastIndex, m.lastTerm) && (n.vote == m.from || n.vote == NONE)
    ensures Extends(h, h', id) && Local(cfg, h', id, n.(vote := m.from))
    ensures (id, m.term) in h'.ballots && h'.ballots[(id, m.term)].candidate == m.from
  {
    h' := h;
    if n.vote == NONE {
      MembersExist(cfg, h, m.from);
      AddBallotKeeps(cfg, h, id, n, m.from);
      h' := AddBallot(h, id, n.term, m.from, n.log);
      VotedNode(cfg, h, id, n, m.from);
    } else {
      assert n.(vote := m.from) == n;
    }
  }

  lemma MembersExist(cfg: Config, h: History, id: nat)
    requires HistoryInv(cfg, h) && id in cfg.members
    ensures id != NONE
  {
  }

  lemma VotedNode(cfg: Config, h: History, id: nat, n: Node, candidate: nat)
    requires NodeInv(cfg, h, id, n) && n.vote == NONE && candidate != NONE
    requires Extends(h, AddBallot(h, id, n.term, candidate, n.log), id)
    ensures NodeInv(cfg, AddBallot(h, id, n.term, candidate, n.log), id, n.(vote := candidate))
  {
    hide GoodLog, Extends;
    var h' := AddBallot(h, id, n.term, candidate, n.log);
    if n.role == Leader {
      assert Ackers(h', n.term, n.committed) == Ackers(h, n.term, n.committed);
      forall i | i in n.matched ensures n.matched[i] == 0 || AckedBy(h', i, n.term, n.matched[i]) {
        assert n.matched[i] == 0 || AckedBy(h, i, n.term, n.matched[i]);
      }
    }
  }

  lemma RequestVoteKeeps(cfg: Config, h: History, id: nat, n: Node, m: Msg, o: Oracle) returns (h': History)
    requires Local(cfg, h, id, n) && m.RequestVote? && MsgInv(cfg, h, m) && (m.term == n.term || (m.pre && m.term > n.term))
    requires HandleRequestVote(cfg, id, n, m, o).Effect?
    ensures var e := HandleRequestVote(cfg, id, n, m, o);
            Extends(h, h', id) && Local(cfg, h', id, e.node) && Sound(cfg, h', e.out)
  {
    hide HistoryInv, GoodLog;
    h' := h;
    var canVote := n.vote == m.from || (n.vote == NONE && n.leader == NONE) || (m.pre && m.term > n.term);
    if canVote && IsUpToDate(n.log, m.lastIndex, m.lastTerm) && !Outranks(n, m) {
      if !m.pre {
        h' := GrantKeeps(cfg, h, id, n, m);
      }
    } else {
      ReportsOwn(cfg, h, n);
      CommitByVoteKeeps(cfg, h, id, n, m.commit, m.commitTerm, o);
    }
  }

  // ---------------------------------------------------------------- leaders

  /** What a leader's match table shows a quorum to hold has been acknowledged by a quorum. */
  lemma MatchedIsChosen(cfg: Config, h: History, id: nat, n: Node, i: nat)
    requires LeaderInv(cfg, h, id, n) && i >= 1
    requires i <= cfg.voters.Committed(MatchedAcks(cfg, n), cfg.groupCommit).0
    ensures Chosen(cfg, h, n.term, i)
  {
    var acks := MatchedAcks(cfg, n);
    CommittedIsQuorum(cfg.voters, acks, cfg.groupCommit, i);
    var quorum := AckedAtLeast(cfg.voters.Ids(), acks, i);
    forall v | v in quorum ensures v in Ackers(h, n.term, i) {
      assert v in n.matched && n.matched[v] >= i;
      assert AckedBy(h, v, n.term, n.matched[v]);
    }
    QuorumGrows(cfg.voters, quorum, Ackers(h, n.term, i));
  }

  lemma LeaderCommitKeeps(cfg: Config, h: History, id: nat, n: Node) returns (h': History)
    requires Local(cfg, h, id, n) && n.role == Leader
    ensures Extends(h, h', id) && Local(cfg, h', id, LeaderCommit(cfg, n))
  {
    hide HistoryInv, GoodLog, Chosen, StillHolds, Extends;
    h' := h;
    ExtendsRefl(h, id);
    NoTermZero(cfg, h);
    var i := cfg.voters.Committed(MatchedAcks(cfg, n), cfg.groupCommit).0;
    if i > n.committed && n.Term(i) == n.term {
      MatchedIsChosen(cfg, h, id, n, i);
      DecideKeeps(cfg, h, n.term, i);
      h' := Decide(h, n.log[..i]);
      CommittedLeader(cfg, h, h', id, n, i);
    }
  }

  lemma CommittedLeader(cfg: Config, h: History, h': History, id: nat, n: Node, i: nat)
    requires NodeInv(cfg, h, id, n) && n.role == Leader && n.committed < i <= |n.log|
    requires h' == h.(decided := h'.decided) && n.log[..i] <= h'.decided && Chosen(cfg, h, n.term, i)
    ensures NodeInv(cfg, h', id, n.(committed := i))
  {
    hide GoodLog;
    forall a | a in h.acks && a.node == id ensures StillHolds(h'.reigns, n.term, i, n.log, a) {
      assert StillHolds(h.reigns, n.term, n.committed, n.log, a);
    }
    assert Ackers(h', n.term, i) == Ackers(h, n.term, i);
    forall v | v in n.matched ensures n.matched[v] == 0 || AckedBy(h', v, n.term, n.matched[v]) {
      assert n.matched[v] == 0 || AckedBy(h, v, n.term, n.matched[v]);
    }
  }

  lemma AppendResponseKeeps(cfg: Config, h: History, id: nat, n: Node, m: Msg) returns (h': History)
    requires Local(cfg, h, id, n) && n.role == Leader && m.AppendResponse? && MsgInv(cfg, h, m) && m.term == n.term
    ensures Extends(h, h', id) && Local(cfg, h', id, HandleAppendResponse(cfg, n, m))
  {
    hide HistoryInv, GoodLog, Chosen, StillHolds, Extends, LeaderCommit;
    h' := h;
    ExtendsRefl(h, id);
    if !(m.from !in n.matched || m.reject || n.matched[m.from] >= m.index) {
      h' := LeaderCommitKeeps(cfg, h, id, n.(matched := n.matched[m.from := m.index]));
    }
  }

  lemma ProposeKeeps(cfg: Config, h: History, id: nat, n: Node, data: seq<string>) returns (h': History)
    requires Local(cfg, h, id, n) && n.role == Leader
    ensures Extends(h, h', id) && Local(cfg, h', id, AppendEntry(n, data))
  {
    hide HistoryInv, GoodLog, Chosen, StillHolds, Extends;
    var more := Stamp(n.Last(), n.term, data);
    GrowReignKeeps(cfg, h, n.term, more);
    h' := GrowReign(h, n.term, more);
    GrownLeader(cfg, h, h', id, n, more);
  }

  lemma GrownLeader(cfg: Config, h: History, h': History, id: nat, n: Node, more: seq<Entry>)
    requires NodeInv(cfg, h, id, n) && n.role == Leader && h' == GrowReign(h, n.term, more) && Extends(h, h', id)
    requires forall k | 0 <= k < |more| :: more[k].term == n.term
    requires GoodLog(h'.reigns, n.log + more)
    ensures NodeInv(cfg, h', id, n.(log := n.log + more))
  {
    var n' := n.(log := n.log + more);
    hide GoodLog, Chosen;
    assert n'.log[..n'.committed] == n.log[..n.committed];
    assert Ackers(h', n.term, n.committed) == Ackers(h, n.term, n.committed);
    if n.committed > |h.reigns[n.term].init| {
      ChosenGrows(cfg, h, h', id, n.term, n.committed);
    }
    forall v | v in n.matched ensures n.matched[v] == 0 || AckedBy(h', v, n.term, n.matched[v]) {
      assert n.matched[v] == 0 || AckedBy(h, v, n.term, n.matched[v]);
    }
    GrownHolds(h, h', id, n, n');
  }

  lemma GrownHolds(h: History, h': History, id: nat, n: Node, n': Node)
    requires AckInv(h, id, n) && Extends(h, h', id) && h'.acks == h.acks
    requires n' == n.(log := n'.log) && n.log <= n'.log
    ensures AckInv(h', id, n')
  {
    forall a | a in h'.acks && a.node == id ensures StillHolds(h'.reigns, n'.term, n'.committed, n'.log, a) {
      assert StillHolds(h.reigns, n.term, n.committed, n.log, a);
      StillHoldsGrows(h, h', id, n, a);
    }
  }

  lemma PersistKeeps(cfg: Config, h: History, id: nat, n: Node, index: nat, o: Oracle) returns (h': History)
    requires Local(cfg, h, id, n) && n.persisted < index <= n.Last()
    ensures Extends(h, h', id) && Local(cfg, h', id, Handle(cfg, id, n, Persisted(index), o).node)
  {
    hide HistoryInv, GoodLog, Chosen, StillHolds, Extends, LeaderCommit;
    h' := h;
    ExtendsRefl(h, id);
    var n' := n.(persisted := index);
    assert NodeInv(cfg, h, id, n');
    if n.role == Leader && id in n.matched && n.matched[id] < index {
      var h1 := SelfAckKeeps(cfg, h, id, n', index);
      h' := LeaderCommitKeeps(cfg, h1, id, n'.(matched := n.matched[id := index]));
      ExtendsTrans(h, h1, h', id);
    }
  }

  lemma SmallerAck(h: History, node: nat, term: nat, i: nat, j: nat)
    requires AckedBy(h, node, term, i) && j <= i
    ensures AckedBy(h, node, term, j)
  {
  }

  /** Everything a leader sends is true of its reign. */
  lemma AppendGood(cfg: Config, h: History, id: nat, n: Node, to: nat, next: nat, count: nat)
    requires Local(cfg, h, id, n) && n.role == Leader && to in n.matched && 1 <= next <= Max(n.Last(), n.matched[to]) + 1
    ensures MsgInv(cfg, h, AppendFor(id, n, to, next, count))
  {
    hide HistoryInv, NodeInv, LeaderInv, AckedBy;
    LeaderTerm(cfg, h, id, n);
    LeaderFacts(cfg, h, id, n, to);
    if next - 1 > n.Last() {
      SmallerAck(h, to, n.term, n.matched[to], next - 1);
    } else if next + count <= n.Last() + 1 {
      assert |n.log[next - 1..next - 1 + count]| == count;
    }
  }

  lemma LeaderFacts(cfg: Config, h: History, id: nat, n: Node, to: nat)
    requires NodeInv(cfg, h, id, n) && n.role == Leader && to in n.matched
    ensures n.term in h.reigns && h.reigns[n.term].leader == id && h.reigns[n.term].log == n.log
    ensures n.committed <= |n.log| && n.log[..n.committed] <= h.decided
    ensures n.matched[to] == 0 || AckedBy(h, to, n.term, n.matched[to])
  {
  }

  lemma HeartbeatGood(cfg: Config, h: History, id: nat, n: Node, to: nat)
    requires Local(cfg, h, id, n) && n.role == Leader && to in n.matched
    ensures MsgInv(cfg, h, Heartbeat(id, to, n.term, Min(n.matched[to], n.committed)))
  {
    NoTermZero(cfg, h);
    hide HistoryInv, GoodLog, Chosen, StillHolds, AckedBy;
    var c := Min(n.matched[to], n.committed);
    assert n.log[..c] == n.log[..n.committed][..c];
    if c > 0 {
      SmallerAck(h, to, n.term, n.matched[to], c);
    }
  }

  lemma ReadIndexGood(cfg: Config, h: History, id: nat, n: Node, to: nat, index: nat)
    requires Local(cfg, h, id, n) && n.role == Leader && index <= n.committed && n.Term(index) == n.term
    ensures MsgInv(cfg, h, ReadIndexResponse(id, to, n.term, index))
  {
    NoTermZero(cfg, h);
    hide HistoryInv, GoodLog, Chosen, StillHolds;
    assert n.log[..n.committed][index - 1] == h.decided[index - 1];
  }

  lemma LeaderTerm(cfg: Config, h: History, id: nat, n: Node)
    requires Local(cfg, h, id, n) && n.role == Leader
    ensures n.term >= 1 && id in cfg.members
  {
    NoTermZero(cfg, h);
  }

  // ---------------------------------------------------------------- a whole step

  lemma VoteResponseKeeps(cfg: Config, h: History, id: nat, n: Node, m: Msg, o: Oracle) returns (h': History)
    requires Local(cfg, h, id, n) && (n.role == Candidate || n.role == PreCandidate)
    requires m.VoteResponse? && MsgInv(cfg, h, m) && m.to == id && (m.term == n.term || KeepsTerm(m))
    ensures var e := StepCandidate(cfg, id, n, m, o);
            e.Effect? && Extends(h, h', id) && Local(cfg, h', id, e.node) && Sound(cfg, h', e.out)
  {
    hide HistoryInv, NodeInv, Extends, PollCandidate, PollPreCandidate, MaybeCommitByVote;
    h' := h;
    ExtendsRefl(h, id);
    if m.pre == (n.role == PreCandidate) {
      if m.pre {
        h' := PollPreCandidateKeeps(cfg, h, id, n, m.from, !m.reject);
        MsgGrows(cfg, h, h', id, m);
        CommitByVoteKeeps(cfg, h', id, PollPreCandidate(cfg, id, n, m.from, !m.reject).node, m.commit, m.commitTerm, o);
      } else {
        h' := PollCandidateKeeps(cfg, h, id, n, m.from, !m.reject);
        MsgGrows(cfg, h, h', id, m);
        CommitByVoteKeeps(cfg, h', id, PollCandidate(cfg, id, n, m.from, !m.reject), m.commit, m.commitTerm, o);
      }
    }
  }

  lemma StepCandidateKeeps(cfg: Config, h: History, id: nat, n: Node, m: Msg, o: Oracle) returns (h': History)
    requires Local(cfg, h, id, n) && (n.role == Candidate || n.role == PreCandidate)
    requires MsgInv(cfg, h, m) && m.to == id && (m.term == n.term || KeepsTerm(m))
    ensures var e := StepCandidate(cfg, id, n, m, o);
            e.Effect? && Extends(h, h', id) && Local(cfg, h', id, e.node) && Sound(cfg, h', e.out)
  {
    hide HistoryInv, NodeInv, Extends, MsgInv, HandleAppendEntries, HandleHeartbeat, PollCandidate, PollPreCandidate;
    h' := h;
    ExtendsRefl(h, id);
    MessageTerm(cfg, h, m);
    if m.VoteResponse? {
      h' := VoteResponseKeeps(cfg, h, id, n, m, o);
    } else if m.Append? {
      FollowerKeeps(cfg, h, id, n, m.term, m.from);
      h' := AppendEntriesKeeps(cfg, h, id, BecomeFollower(cfg, id, n, m.term, m.from), m);
    } else if m.Heartbeat? {
      FollowerKeeps(cfg, h, id, n, m.term, m.from);
      HeartbeatKeeps(cfg, h, id, BecomeFollower(cfg, id, n, m.term, m.from), m);
    }
  }

  lemma StepFollowerKeeps(cfg: Config, h: History, id: nat, n: Node, m: Msg, o: Oracle) returns (h': History)
    requires Local(cfg, h, id, n) && n.role == Follower && MsgInv(cfg, h, m) && m.to == id && (m.term == n.term || KeepsTerm(m))
    ensures var e := StepFollower(cfg, id, n, m, o);
            e.Effect? && Extends(h, h', id) && Local(cfg, h', id, e.node) && Sound(cfg, h', e.out)
  {
    hide HistoryInv, Extends, HandleAppendEntries, HandleHeartbeat, Hup, MaybeCommit, GoodLog, StillHolds;
    h' := h;
    ExtendsRefl(h, id);
    var f := n.(leader := m.from);
    if m.Append? {
      assert Local(cfg, h, id, f);
      h' := AppendEntriesKeeps(cfg, h, id, f, m);
    } else if m.Heartbeat? {
      assert Local(cfg, h, id, f);
      HeartbeatKeeps(cfg, h, id, f, m);
    } else if m.TimeoutNow? {
      h' := HupKeeps(cfg, h, id, n, true, o);
    } else if m.ReadIndexResponse? {
      ReportedCommitKeeps(cfg, h, id, n, m.index, m.term);
    }
  }

  lemma DispatchKeeps(cfg: Config, h: History, id: nat, n: Node, m: Msg, o: Oracle) returns (h': History)
    requires Local(cfg, h, id, n) && MsgInv(cfg, h, m) && m.to == id && (m.term == n.term || (KeepsTerm(m) && m.term > n.term))
    requires Dispatch(cfg, id, n, m, o).Effect?
    ensures var e := Dispatch(cfg, id, n, m, o);
            Extends(h, h', id) && Local(cfg, h', id, e.node) && Sound(cfg, h', e.out)
  {
    hide HistoryInv, NodeInv, Extends, MsgInv, StepCandidate, StepFollower, HandleRequestVote, HandleAppendResponse;
    h' := h;
    ExtendsRefl(h, id);
    if m.RequestVote? {
      h' := RequestVoteKeeps(cfg, h, id, n, m, o);
    } else if n.role == Candidate || n.role == PreCandidate {
      h' := StepCandidateKeeps(cfg, h, id, n, m, o);
    } else if n.role == Follower {
      h' := StepFollowerKeeps(cfg, h, id, n, m, o);
    } else if m.AppendResponse? {
      h' := AppendResponseKeeps(cfg, h, id, n, m);
    }
  }

  lemma MessageTerm(cfg: Config, h: History, m: Msg)
    requires MsgInv(cfg, h, m)
    ensures m.term >= 1
  {
  }

  lemma MemberMessage(cfg: Config, h: History, id: nat, n: Node)
    requires NodeInv(cfg, h, id, n)
    ensures id in cfg.members && Reports(h, 0, 0)
  {
  }

  /** Raft::Step keeps every fact, whatever message arrives and however the environment chooses. */
  lemma StepKeeps(cfg: Config, h: History, id: nat, n: Node, m: Msg, o: Oracle) returns (h': History)
    requires Local(cfg, h, id, n) && MsgInv(cfg, h, m) && m.to == id && Step(cfg, id, n, m, o).Effect?
    ensures var e := Step(cfg, id, n, m, o);
            Extends(h, h', id) && Local(cfg, h', id, e.node) && Sound(cfg, h', e.out)
  {
    hide HistoryInv, NodeInv, Extends, Dispatch, BecomeFollower;
    h' := h;
    ExtendsRefl(h, id);
    MemberMessage(cfg, h, id, n);
    if m.term > n.term {
      if !(m.RequestVote? && !m.force && cfg.checkQuorum && n.leader != NONE && o.inLease) {
        if KeepsTerm(m) {
          h' := DispatchKeeps(cfg, h, id, n, m, o);
        } else {
          var leader := if m.Append? || m.Heartbeat? then m.from else NONE;
          FollowerKeeps(cfg, h, id, n, m.term, leader);
          FollowerTerm(cfg, id, n, m.term, leader);
          h' := DispatchKeeps(cfg, h, id, BecomeFollower(cfg, id, n, m.term, leader), m, o);
        }
      }
    } else if m.term == n.term {
      h' := DispatchKeeps(cfg, h, id, n, m, o);
    }
  }

  lemma FollowerTerm(cfg: Config, id: nat, n: Node, term: nat, leader: nat)
    ensures BecomeFollower(cfg, id, n, term, leader).term == term
  {
  }

  /** Every event keeps every fact. */
  lemma HandleKeeps(cfg: Config, h: History, id: nat, n: Node, ev: Event, o: Oracle) returns (h': History)
    requires Local(cfg, h, id, n) && Enabled(cfg, id, n, ev) && Handle(cfg, id, n, ev, o).Effect?
    requires ev.Deliver? ==> MsgInv(cfg, h, ev.m)
    ensures var e := Handle(cfg, id, n, ev, o);
            Extends(h, h', id) && Local(cfg, h', id, e.node) && Sound(cfg, h', e.out)
  {
    hide HistoryInv, NodeInv, Extends, MsgInv, Step, Hup, BecomeFollower, AppendEntry, LeaderCommit;
    h' := h;
    ExtendsRefl(h, id);
    match ev {
      case Deliver(m) => h' := StepKeeps(cfg, h, id, n, m, o);
      case ElectionTimeout => h' := HupKeeps(cfg, h, id, n, false, o);
      case Propose(data) => h' := ProposeKeeps(cfg, h, id, n, data);
      case QuorumLost => FollowerKeeps(cfg, h, id, n, n.term, NONE);
      case SetPriority(priority) => PriorityKeeps(cfg, h, id, n, priority);
      case Persisted(index) => h' := PersistKeeps(cfg, h, id, n, index, o);
      case SendAppend(to, next, count) => AppendGood(cfg, h, id, n, to, next, count);
      case SendHeartbeat(to) => HeartbeatGood(cfg, h, id, n, to);
      case SendTimeoutNow(to) => LeaderTerm(cfg, h, id, n); TimeoutGood(cfg, h, id, to, n.term);
      case AnswerReadIndex(to, index) => ReadIndexGood(cfg, h, id, n, to, index);
    }
  }

  lemma PriorityKeeps(cfg: Config, h: History, id: nat, n: Node, priority: int)
    requires NodeInv(cfg, h, id, n)
    ensures NodeInv(cfg, h, id, n.(priority := priority))
  {
  }

  lemma TimeoutGood(cfg: Config, h: History, id: nat, to: nat, term: nat)
    requires id in cfg.members && term >= 1
    ensures MsgInv(cfg, h, TimeoutNow(id, to, term))
  {
  }
}
