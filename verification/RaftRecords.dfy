/** Leader completeness, and the ways in which history is written. */
module RaftRecords {
  import opened Types
  import opened Quorum
  import opened RaftNode
  import opened RaftHistory
  import opened RaftGrowth

  // ---------------------------------------------------------------- leader completeness

  /** An up-to-date candidate holds what the voter held, if the leader behind its last entry did. */
  lemma UpToDateKeeps(reigns: map<nat, Reign>, x: seq<Entry>, voter: seq<Entry>, candidate: seq<Entry>)
    requires x != [] && x <= voter
    requires GoodLog(reigns, voter) && GoodLog(reigns, candidate)
    requires IsUpToDate(voter, |candidate|, LastTerm(candidate))
    requires LastTerm(candidate) > LastTerm(x) && LastTerm(candidate) in reigns ==> x <= reigns[LastTerm(candidate)].log
    ensures x <= candidate
  {
    assert LastTerm(x) == voter[|x| - 1].term <= LastTerm(voter);
    var c := |candidate|;
    assert OwnedAt(reigns, voter, |x| - 1);
    if LastTerm(candidate) != 0 {
      assert OwnedAt(reigns, candidate, c - 1);
    }
    if LastTerm(candidate) == LastTerm(x) {
      assert candidate[c - 1].term == voter[|x| - 1].term;
      var owner := reigns[LastTerm(x)].log;
      assert candidate[..c] == candidate && candidate <= owner;
      assert voter[..|x|] <= owner;
    } else {
      var owner := reigns[LastTerm(candidate)].log;
      assert candidate[..c] == candidate && candidate <= owner;
      assert forall k | 0 <= k < |x| :: x[k].term <= LastTerm(x);
    }
  }

  /** What one acknowledgement says once all earlier elections have carried x along. */
  lemma AckMatches(h: History, a: Ack, bound: nat, i: nat)
    requires Faithful(h.reigns, a, bound) && i <= |a.prefix| && i <= |h.reigns[a.term].log|
    requires Carried(h.reigns, a.term, bound, h.reigns[a.term].log[..i])
    ensures a.prefix[..i] == h.reigns[a.term].log[..i]
  {
    if !(a.prefix <= h.reigns[a.term].log) {
      var t :| t in h.reigns && a.term < t && h.reigns[t].ord < bound && a.prefix <= h.reigns[t].init;
      assert h.reigns[a.term].log[..i] <= h.reigns[t].init;
    }
  }

  lemma ReignFacts(cfg: Config, h: History, t: nat)
    requires HistoryInv(cfg, h) && t in h.reigns
    ensures ReignInv(cfg, h, t) && cfg.Valid()
  {
  }

  /** What an elector of a term had acknowledged and kept when it voted. */
  lemma ElectorFacts(cfg: Config, h: History, w: nat, t: nat, a: Ack)
    requires HistoryInv(cfg, h) && t in h.reigns && w in h.reigns[t].electors
    requires a in h.acks && a.node == w && a.term < t
    ensures (w, t) in h.ballots && GoodLog(h.reigns, h.ballots[(w, t)].log)
    ensures IsUpToDate(h.ballots[(w, t)].log, |h.reigns[t].init|, LastTerm(h.reigns[t].init))
    ensures Faithful(h.reigns, a, h.reigns[t].ord) && Kept(h.reigns, a, h.reigns[t].ord, h.ballots[(w, t)].log)
  {
    assert ReignInv(cfg, h, t);
    assert BallotInv(h, w, t) && VoteKeeps(h, w, t);
  }

  /** Leader completeness: what a quorum acknowledged in term t is in the first log of every later leader. */
  lemma {:induction false} Completeness(cfg: Config, h: History, t: nat, i: nat, t': nat)
    requires HistoryInv(cfg, h) && t in h.reigns && t' in h.reigns && t < t'
    requires 1 <= i <= |h.reigns[t].log| && h.reigns[t].log[i - 1].term == t && Chosen(cfg, h, t, i)
    ensures h.reigns[t].log[..i] <= h.reigns[t'].init
    decreases h.reigns[t'].ord
  {
    hide HistoryInv;
    var x, r := h.reigns[t].log[..i], h.reigns[t'];
    assert cfg.Valid() && cfg.voters.IsQuorum(r.electors) by { ReignFacts(cfg, h, t'); }
    forall u | u in h.reigns && t < u && h.reigns[u].ord < r.ord
      ensures x <= h.reigns[u].init
    {
      Completeness(cfg, h, t, i, u);
    }
    assert Carried(h.reigns, t, r.ord, x);
    var w := QuorumsMeet(cfg.voters, r.electors, Ackers(h, t, i));
    var a :| a in h.acks && a.node == w && a.term == t && |a.prefix| >= i;
    ElectorFacts(cfg, h, w, t', a);
    AckMatches(h, a, r.ord, i);
    var voter := h.ballots[(w, t')].log;
    assert x <= voter;
    CandidateKeeps(cfg, h, t', x, voter);
  }

  lemma CandidateKeeps(cfg: Config, h: History, t': nat, x: seq<Entry>, voter: seq<Entry>)
    requires HistoryInv(cfg, h) && t' in h.reigns && x != [] && x <= voter && GoodLog(h.reigns, voter)
    requires Carried(h.reigns, LastTerm(x), h.reigns[t'].ord, x)
    requires IsUpToDate(voter, |h.reigns[t'].init|, LastTerm(h.reigns[t'].init))
    ensures x <= h.reigns[t'].init
  {
    var r := h.reigns[t'];
    assert ReignInv(cfg, h, t');
    GoodPrefix(h.reigns, r.log, |r.init|);
    assert r.log[..|r.init|] == r.init;
    var last := LastTerm(r.init);
    if last > LastTerm(x) && last in h.reigns {
      assert OlderAt(h.reigns, t', |r.init| - 1);
      assert ReignInv(cfg, h, last);
    }
    UpToDateKeeps(h.reigns, x, voter, r.init);
  }

  lemma StartsWithInit(cfg: Config, h: History, t: nat)
    requires HistoryInv(cfg, h) && t in h.reigns
    ensures h.reigns[t].init <= h.reigns[t].log && GoodLog(h.reigns, h.reigns[t].log)
  {
    assert ReignInv(cfg, h, t);
  }

  lemma DecidedFacts(cfg: Config, h: History)
    requires HistoryInv(cfg, h)
    ensures DecidedInv(cfg, h)
  {
  }

  /** Whatever a quorum acknowledged and the decided log are prefixes of one another. */
  lemma DecidedComparable(cfg: Config, h: History, t: nat, i: nat)
    requires HistoryInv(cfg, h) && t in h.reigns
    requires 1 <= i <= |h.reigns[t].log| && h.reigns[t].log[i - 1].term == t && Chosen(cfg, h, t, i)
    ensures h.reigns[t].log[..i] <= h.decided || h.decided <= h.reigns[t].log[..i]
  {
    hide HistoryInv, GoodLog, Chosen;
    DecidedFacts(cfg, h);
    if h.decided != [] {
      var d := LastTerm(h.decided);
      StartsWithInit(cfg, h, t);
      StartsWithInit(cfg, h, d);
      assert h.decided == h.reigns[d].log[..|h.decided|];
      if d < t {
        Completeness(cfg, h, d, |h.decided|, t);
      } else if d > t {
        Completeness(cfg, h, t, i, d);
      }
    }
  }

  /** A leader of a term after the last decided one has the whole decided log. */
  lemma DecidedInLaterLeaders(cfg: Config, h: History, t: nat)
    requires HistoryInv(cfg, h) && t in h.reigns && LastTerm(h.decided) <= t
    ensures h.decided <= h.reigns[t].log
  {
    DecidedFacts(cfg, h);
    hide HistoryInv, GoodLog;
    if h.decided != [] {
      var d := LastTerm(h.decided);
      StartsWithInit(cfg, h, t);
      StartsWithInit(cfg, h, d);
      assert h.decided == h.reigns[d].log[..|h.decided|];
      if d < t {
        Completeness(cfg, h, d, |h.decided|, t);
      }
    }
  }

  lemma DecidedGood(cfg: Config, h: History)
    requires HistoryInv(cfg, h)
    ensures GoodLog(h.reigns, h.decided)
  {
    if h.decided != [] {
      var d := LastTerm(h.decided);
      assert ReignInv(cfg, h, d);
      GoodPrefix(h.reigns, h.reigns[d].log, |h.decided|);
      assert h.decided == h.reigns[d].log[..|h.decided|];
    }
  }

  // ---------------------------------------------------------------- carrying facts over

  /** What must be re-established when history grows: the records that are new or changed. */
  lemma HistoryGrows(cfg: Config, h: History, h': History, id: nat)
    requires HistoryInv(cfg, h) && Extends(h, h', id)
    requires forall t | t in h'.reigns && (t !in h.reigns || h'.reigns[t] != h.reigns[t]) :: ReignInv(cfg, h', t)
    requires forall v, t | (v, t) in h'.ballots && (v, t) !in h.ballots :: BallotInv(h', v, t) && VoteKeeps(h', v, t)
    requires forall a | a in h'.acks && a !in h.acks :: AckRecordInv(h', a)
    requires forall a, t | a in h'.acks && a !in h.acks && (a.node, t) in h.ballots :: t <= a.term
    requires h'.decided != h.decided ==> DecidedInv(cfg, h')
    ensures HistoryInv(cfg, h')
  {
    hide ReignInv, BallotInv, VoteKeeps, AckRecordInv;
    forall t | t in h'.reigns ensures ReignInv(cfg, h', t) {
      if t in h.reigns && h'.reigns[t] == h.reigns[t] {
        assert ReignInv(cfg, h, t);
        ReignInvGrows(cfg, h, h', id, t);
      }
    }
    forall v, t | (v, t) in h'.ballots ensures BallotInv(h', v, t) && VoteKeeps(h', v, t) {
      if (v, t) in h.ballots {
        assert BallotInv(h, v, t) && VoteKeeps(h, v, t);
        BallotGrows(h, h', id, v, t);
        VoteKeepsGrows(h, h', id, v, t);
      }
    }
    forall a | a in h'.acks ensures AckRecordInv(h', a) {
      if a in h.acks {
        assert AckRecordInv(h, a);
        AckGrows(h, h', id, a);
      }
    }
    if h'.decided == h.decided != [] {
      assert ReignGrows(h.reigns[LastTerm(h.decided)], h'.reigns[LastTerm(h.decided)]);
      ChosenGrows(cfg, h, h', id, LastTerm(h.decided), |h.decided|);
    }
  }

  lemma BallotGrows(h: History, h': History, id: nat, v: nat, t: nat)
    requires Extends(h, h', id) && (v, t) in h.ballots && BallotInv(h, v, t)
    ensures (v, t) in h'.ballots && BallotInv(h', v, t)
  {
    OwnedGrows(h, h', id, h.ballots[(v, t)].log);
  }

  lemma AckGrows(h: History, h': History, id: nat, a: Ack)
    requires Extends(h, h', id) && AckRecordInv(h, a)
    ensures AckRecordInv(h', a)
  {
    FaithfulGrows(h, h', id, a, |h.reigns|, |h'.reigns|);
    OwnedGrows(h, h', id, a.prefix);
  }

  lemma ReignInvGrows(cfg: Config, h: History, h': History, id: nat, t: nat)
    requires Extends(h, h', id) && t in h.reigns && h'.reigns[t] == h.reigns[t] && ReignInv(cfg, h, t)
    ensures ReignInv(cfg, h', t)
  {
    var r := h.reigns[t];
    OwnedGrows(h, h', id, r.log);
    forall j | 0 <= j < |r.init| ensures OlderAt(h'.reigns, t, j) {
      assert OlderAt(h.reigns, t, j);
      assert ReignGrows(h.reigns[r.init[j].term], h'.reigns[r.init[j].term]);
    }
  }

  /** A ballot's promise survives as long as its voter acknowledges nothing in earlier terms. */
  lemma VoteKeepsGrows(h: History, h': History, id: nat, v: nat, t: nat)
    requires Extends(h, h', id) && (v, t) in h.ballots && VoteKeeps(h, v, t)
    requires t !in h.reigns && t in h'.reigns ==> h'.reigns[t].ord >= |h.reigns|
    requires forall a | a in h'.acks && a !in h.acks && a.node == v :: t <= a.term
    ensures VoteKeeps(h', v, t)
  {
    if t in h.reigns {
      assert ReignGrows(h.reigns[t], h'.reigns[t]);
    }
    if t !in h'.reigns || v in h'.reigns[t].electors {
      forall a | a in h'.acks && a.node == v && a.term < t
        ensures Faithful(h'.reigns, a, BallotBound(h', t)) && Kept(h'.reigns, a, BallotBound(h', t), h'.ballots[(v, t)].log)
      {
        assert a in h.acks;
        FaithfulGrows(h, h', id, a, BallotBound(h, t), BallotBound(h', t));
        KeptGrows(h, h', id, a, BallotBound(h, t), BallotBound(h', t), h.ballots[(v, t)].log);
      }
    }
  }

  // ---------------------------------------------------------------- writing history

  function AddRun(h: History, id: nat, t: nat, log: seq<Entry>): History {
    h.(runs := h.runs[(id, t) := log])
  }

  lemma AddRunKeeps(cfg: Config, h: History, id: nat, t: nat, log: seq<Entry>)
    requires HistoryInv(cfg, h) && (id, t) !in h.runs
    ensures HistoryInv(cfg, AddRun(h, id, t, log)) && Extends(h, AddRun(h, id, t, log), id)
  {
    var h' := AddRun(h, id, t, log);
    assert Extends(h, h', id);
    HistoryGrows(cfg, h, h', id);
  }

  function AddBallot(h: History, id: nat, t: nat, candidate: nat, log: seq<Entry>): History {
    h.(ballots := h.ballots[(id, t) := Ballot(candidate, log)])
  }

  lemma NewVoteKeeps(cfg: Config, h: History, h': History, id: nat, n: Node)
    requires HistoryInv(cfg, h) && (id, n.term) !in h.ballots && AckInv(h, id, n)
    requires h'.reigns == h.reigns && h'.acks == h.acks
    requires (id, n.term) in h'.ballots && h'.ballots[(id, n.term)].log == n.log
    ensures VoteKeeps(h', id, n.term)
  {
    if n.term in h.reigns {
      assert ReignInv(cfg, h, n.term);
    } else {
      forall a | a in h'.acks && a.node == id && a.term < n.term
        ensures Faithful(h.reigns, a, |h.reigns|) && Kept(h.reigns, a, |h.reigns|, n.log)
      {
        assert AckRecordInv(h, a) && StillHolds(h.reigns, n.term, n.committed, n.log, a);
      }
    }
  }

  /** A vote is recorded with the log it was cast with. */
  lemma AddBallotKeeps(cfg: Config, h: History, id: nat, n: Node, candidate: nat)
    requires HistoryInv(cfg, h) && (id, n.term) !in h.ballots && candidate != NONE
    requires GoodLog(h.reigns, n.log) && AckInv(h, id, n)
    requires (candidate, n.term) in h.runs
    requires IsUpToDate(n.log, |h.runs[(candidate, n.term)]|, LastTerm(h.runs[(candidate, n.term)]))
    ensures HistoryInv(cfg, AddBallot(h, id, n.term, candidate, n.log))
    ensures Extends(h, AddBallot(h, id, n.term, candidate, n.log), id)
  {
    var h' := AddBallot(h, id, n.term, candidate, n.log);
    assert Extends(h, h', id);
    assert BallotInv(h', id, n.term);
    NewVoteKeeps(cfg, h, h', id, n);
    HistoryGrows(cfg, h, h', id);
  }

  function AddAck(h: History, a: Ack): History { h.(acks := h.acks + {a}) }

  lemma AddAckKeeps(cfg: Config, h: History, a: Ack)
    requires HistoryInv(cfg, h) && Faithful(h.reigns, a, |h.reigns|) && GoodLog(h.reigns, a.prefix)
    requires forall t | (a.node, t) in h.ballots :: t <= a.term
    ensures HistoryInv(cfg, AddAck(h, a)) && Extends(h, AddAck(h, a), a.node)
    ensures AckedBy(AddAck(h, a), a.node, a.term, |a.prefix|)
  {
    var h' := AddAck(h, a);
    assert Extends(h, h', a.node);
    assert AckRecordInv(h', a);
    HistoryGrows(cfg, h, h', a.node);
    assert a in h'.acks;
  }

  function AddReign(h: History, t: nat, r: Reign): History { h.(reigns := h.reigns[t := r]) }

  /** What a node must have to become leader of a term: a quorum of votes for its campaign log. */
  ghost predicate Elected(cfg: Config, h: History, id: nat, t: nat, r: Reign) {
    && t !in h.reigns && t >= 1 && id in cfg.members && r.leader == id && r.ord == |h.reigns|
    && r.log == r.init + [Entry(|r.init| + 1, t, "")]
    && GoodLog(h.reigns, r.init) && TermsUpTo(r.init, t)
    && cfg.voters.IsQuorum(r.electors) && (id, t) in h.runs && h.runs[(id, t)] == r.init
    && (forall e | e in r.electors :: (e, t) in h.ballots && h.ballots[(e, t)].candidate == id)
  }

  lemma AddReignExtends(h: History, t: nat, r: Reign)
    requires t !in h.reigns && r.ord == |h.reigns|
    ensures Extends(h, AddReign(h, t, r), r.leader) && |AddReign(h, t, r).reigns| == |h.reigns| + 1
  {
    var h' := AddReign(h, t, r);
    assert h'.reigns.Keys == h.reigns.Keys + {t} && |h'.reigns.Keys| == |h'.reigns|;
  }

  lemma OrdBounded(cfg: Config, h: History, t: nat)
    requires HistoryInv(cfg, h) && t in h.reigns
    ensures h.reigns[t].ord < |h.reigns|
  {
    assert ReignInv(cfg, h, t);
  }

  lemma NewReignOlder(cfg: Config, h: History, id: nat, t: nat, r: Reign)
    requires HistoryInv(cfg, h) && Elected(cfg, h, id, t, r)
    ensures forall j | 0 <= j < |r.init| :: OlderAt(AddReign(h, t, r).reigns, t, j)
  {
    forall j | 0 <= j < |r.init| ensures OlderAt(AddReign(h, t, r).reigns, t, j) {
      assert OwnedAt(h.reigns, r.init, j);
      OrdBounded(cfg, h, r.init[j].term);
    }
  }

  lemma NewReignGood(h: History, h': History, t: nat, r: Reign, last: Entry)
    requires GoodLog(h.reigns, r.init) && TermsUpTo(r.init, t) && Extends(h, h', r.leader)
    requires r.log == r.init + [last] && last.term == t && last.index == |r.log|
    requires t in h'.reigns && h'.reigns[t] == r
    ensures GoodLog(h'.reigns, r.log)
  {
    OwnedGrows(h, h', r.leader, r.init);
    forall j | 0 <= j < |r.log| ensures OwnedAt(h'.reigns, r.log, j) {
      if j < |r.init| {
        assert OwnedAt(h'.reigns, r.init, j);
        assert r.log[..j + 1] == r.init[..j + 1];
      }
    }
  }

  /** A new leader starts with its campaign log and one entry of its own term. */
  lemma AddReignKeeps(cfg: Config, h: History, id: nat, t: nat, r: Reign)
    requires HistoryInv(cfg, h) && Elected(cfg, h, id, t, r)
    ensures HistoryInv(cfg, AddReign(h, t, r)) && Extends(h, AddReign(h, t, r), id)
    ensures GoodLog(AddReign(h, t, r).reigns, r.log)
  {
    hide HistoryInv, Extends, GoodLog, OlderAt;
    var h' := AddReign(h, t, r);
    AddReignExtends(h, t, r);
    NewReignOlder(cfg, h, id, t, r);
    NewReignGood(h, h', t, r, Entry(|r.init| + 1, t, ""));
    assert ReignInv(cfg, h', t);
    HistoryGrows(cfg, h, h', id);
  }

  function GrowReign(h: History, t: nat, more: seq<Entry>): History
    requires t in h.reigns
  {
    h.(reigns := h.reigns[t := h.reigns[t].(log := h.reigns[t].log + more)])
  }

  lemma GrowReignExtends(h: History, t: nat, more: seq<Entry>)
    requires t in h.reigns
    ensures Extends(h, GrowReign(h, t, more), h.reigns[t].leader) && |GrowReign(h, t, more).reigns| == |h.reigns|
  {
    var h' := GrowReign(h, t, more);
    assert h'.reigns.Keys == h.reigns.Keys && |h'.reigns.Keys| == |h'.reigns| && |h.reigns.Keys| == |h.reigns|;
  }

  lemma GrownReignGood(cfg: Config, h: History, t: nat, more: seq<Entry>)
    requires t in h.reigns && ReignInv(cfg, h, t) && Extends(h, GrowReign(h, t, more), h.reigns[t].leader)
    requires forall k | 0 <= k < |more| :: more[k].term == t && more[k].index == |h.reigns[t].log| + k + 1
    ensures GoodLog(GrowReign(h, t, more).reigns, h.reigns[t].log + more)
    ensures forall j | 0 <= j < |h.reigns[t].init| :: OlderAt(GrowReign(h, t, more).reigns, t, j)
  {
    var h', r, log := GrowReign(h, t, more), h.reigns[t], h.reigns[t].log + more;
    OwnedGrows(h, h', r.leader, r.log);
    forall j | 0 <= j < |log| ensures OwnedAt(h'.reigns, log, j) {
      if j < |r.log| {
        assert OwnedAt(h'.reigns, r.log, j);
        assert log[..j + 1] == r.log[..j + 1];
      }
    }
    forall j | 0 <= j < |r.init| ensures OlderAt(h'.reigns, t, j) && r.init[j].term < t {
      assert OlderAt(h.reigns, t, j);
    }
  }

  /** A leader extends its own log with entries of its term. */
  lemma GrowReignKeeps(cfg: Config, h: History, t: nat, more: seq<Entry>)
    requires HistoryInv(cfg, h) && t in h.reigns
    requires forall k | 0 <= k < |more| :: more[k].term == t && more[k].index == |h.reigns[t].log| + k + 1
    ensures HistoryInv(cfg, GrowReign(h, t, more)) && Extends(h, GrowReign(h, t, more), h.reigns[t].leader)
    ensures GoodLog(GrowReign(h, t, more).reigns, h.reigns[t].log + more)
  {
    hide HistoryInv, Extends, GoodLog, OlderAt;
    var h' := GrowReign(h, t, more);
    GrowReignExtends(h, t, more);
    ReignFacts(cfg, h, t);
    GrownReignGood(cfg, h, t, more);
    assert ReignInv(cfg, h', t);
    HistoryGrows(cfg, h, h', h.reigns[t].leader);
  }

  function Decide(h: History, log: seq<Entry>): History {
    if |log| > |h.decided| then h.(decided := log) else h
  }

  /** A leader's quorum commit extends the decided log, or is already part of it. */
  lemma DecideKeeps(cfg: Config, h: History, t: nat, i: nat)
    requires HistoryInv(cfg, h) && t in h.reigns
    requires 1 <= i <= |h.reigns[t].log| && h.reigns[t].log[i - 1].term == t && Chosen(cfg, h, t, i)
    ensures var h' := Decide(h, h.reigns[t].log[..i]);
            HistoryInv(cfg, h') && Extends(h, h', h.reigns[t].leader) && h.reigns[t].log[..i] <= h'.decided
  {
    hide HistoryInv, GoodLog;
    DecidedComparable(cfg, h, t, i);
    var x := h.reigns[t].log[..i];
    if i > |h.decided| {
      assert Ackers(Decide(h, x), t, i) == Ackers(h, t, i);
      assert LastTerm(x) == t;
      HistoryGrows(cfg, h, Decide(h, x), h.reigns[t].leader);
    }
  }
}
