/** What every run guarantees to the code: messages its logs can take, and logs that backtracking can search. */
module RaftRuns {
  import opened Types
  import opened Quorum
  import opened RaftNode
  import opened RaftHistory
  import opened RaftRecords
  import opened RaftSteps
  import opened RaftSafety
  import FlatLog
  import opened PlainLog
  import Backtrack

  /** Owned logs have real terms that never fall. */
  lemma GoodLogSorted(reigns: map<nat, Reign>, log: seq<Entry>)
    requires GoodLog(reigns, log) && 0 !in reigns
    ensures Backtrack.Sorted(log)
  {
    hide Owned;
    forall k | 1 <= k <= |log| ensures TermAt(log, k) > 0 {
      PositiveTerm(reigns, log, k);
    }
  }

  lemma SliceFits(log: seq<Entry>, flat: FlatLog.Flat, prev: nat, count: nat)
    requires Numbered(log) && Backtrack.Sorted(log) && prev + count <= |log|
    ensures FlatLog.WellFormed(flat, prev, TermAt(log, prev), log[prev..prev + count])
  {
    var entries := log[prev..prev + count];
    forall k | 0 <= k < |entries| ensures entries[k].term > 0 {
      assert entries[k].term == TermAt(log, prev + k + 1);
    }
  }

  lemma AppendFits(cfg: Config, h: History, n: Node, m: Msg)
    requires HistoryInv(cfg, h) && m.Append? && AppendInv(h, m)
    ensures FlatLog.WellFormed(PlainOf(n.log), m.prev, m.prevTerm, m.entries)
  {
    ReignLog(cfg, h, m.term);
    hide HistoryInv, Backtrack.Sorted, Numbered, PlainOf;
    if m.entries != [] || m.prev <= |h.reigns[m.term].log| {
      SliceFits(h.reigns[m.term].log, PlainOf(n.log), m.prev, |m.entries|);
    }
  }

  lemma ReignLog(cfg: Config, h: History, t: nat)
    requires HistoryInv(cfg, h) && t in h.reigns
    ensures Numbered(h.reigns[t].log) && Backtrack.Sorted(h.reigns[t].log)
  {
    NoTermZero(cfg, h);
    ReignFacts(cfg, h, t);
    hide HistoryInv, Backtrack.Sorted, Owned, Ordered;
    GoodLogSorted(h.reigns, h.reigns[t].log);
  }

  /** Every append message of a run is one that every log of the run can take. */
  lemma MessagesFit(cfg: Config, run: seq<Cluster>, i: nat, a: nat, m: Msg)
    requires InRun(cfg, run, i, a) && m in run[i].msgs && m.Append?
    ensures FlatLog.WellFormed(PlainOf(At(cfg, run, i, a).log), m.prev, m.prevTerm, m.entries)
  {
    hide HistoryInv, NodeInv, IsRun, FlatLog.WellFormed;
    var hs := RunExplained(cfg, run);
    assert Inv(cfg, run[i], hs[i]);
    assert MsgInv(cfg, hs[i], m);
    AppendFits(cfg, hs[i], At(cfg, run, i, a), m);
  }

  /** Every log of a run is one that backtracking searches exactly. */
  lemma LogsSorted(cfg: Config, run: seq<Cluster>, i: nat, a: nat)
    requires InRun(cfg, run, i, a)
    ensures Backtrack.Sorted(At(cfg, run, i, a).log)
  {
    hide HistoryInv, IsRun, NodeInv, Backtrack.Sorted;
    var hs := RunExplained(cfg, run);
    assert Inv(cfg, run[i], hs[i]);
    NodeSorted(cfg, hs[i], a, At(cfg, run, i, a));
  }

  lemma NodeSorted(cfg: Config, h: History, id: nat, n: Node)
    requires HistoryInv(cfg, h) && NodeInv(cfg, h, id, n)
    ensures Backtrack.Sorted(n.log)
  {
    NoTermZero(cfg, h);
    hide HistoryInv, AckInv, Backtrack.Sorted, Owned, Ordered;
    GoodLogSorted(h.reigns, n.log);
  }

  // ---------------------------------------------------------------- the two ways to stop a process

  const TWO := Config(Joint({1, 2}, {}), {1, 2}, false, map[], true, false)

  const START := Node(0, NONE, Follower, NONE, map[], [], 0, 0, map[1 := 0, 2 := 0], 0)

  const PRE_VOTE := RequestVote(1, 2, 1, true, false, 0, 0, 0, 0, 0)

  lemma OneVoteIsPending()
    ensures TWO.voters.Vote(map[1 := true]) == Pending
  {
    var votes, voters := map[1 := true], {1, 2};
    assert YesVoters(voters, votes) == {1} && MissingVoters(voters, votes) == {2};
    assert MajorityVote(voters, votes) == Pending;
  }

  /** The first pre-vote of a two-node cluster asks the other node. */
  lemma FirstPreVote()
    ensures var e := Hup(TWO, 1, START, false, Oracle(false, false));
            e == Effect(START.(role := PreCandidate, votes := map[1 := true]), {PRE_VOTE})
  {
    hide Joint.Vote;
    var p := RecordVote(BecomePreCandidate(START), 1, true);
    assert p.votes == map[1 := true];
    OneVoteIsPending();
    assert TWO.voters.Ids() - {1} == {2};
    assert VoteRequests(TWO, 1, p, 1, true, false) == {PRE_VOTE};
  }

  /** The first case that stops a process does occur: a fresh node with a higher priority is asked for a pre-vote. */
  lemma TermZeroRefusalOccurs() returns (run: seq<Cluster>, n: Node)
    ensures IsRun(TWO, run) && PRE_VOTE in run[|run| - 1].msgs && 2 in run[|run| - 1].nodes && run[|run| - 1].nodes[2] == n
    ensures forall o :: Handle(TWO, 2, n, Deliver(PRE_VOTE), o) == Panic
  {
    hide Handle, Hup, Initial;
    var quiet := Oracle(false, false);
    var asking := START.(role := PreCandidate, votes := map[1 := true]);
    var s0 := Cluster(map[1 := START, 2 := START], {});
    var s1 := Cluster(map[1 := START, 2 := START.(priority := 1)], {});
    var s2 := Cluster(map[1 := asking, 2 := START.(priority := 1)], {PRE_VOTE});
    BothStart(s0);
    Prefers();
    assert NextAt(TWO, s0, s1, 2, SetPriority(1), quiet) by { assert s0.nodes[2 := START.(priority := 1)] == s1.nodes; }
    FirstPreVote();
    HandlesTimeout();
    assert NextAt(TWO, s1, s2, 1, ElectionTimeout, quiet) by { assert s1.nodes[1 := asking] == s2.nodes; }
    run, n := [s0, s1, s2], START.(priority := 1);
    assert Next(TWO, run[0], run[1]) && Next(TWO, run[1], run[2]);
    Refuses();
  }

  lemma BothStart(s: Cluster)
    requires s == Cluster(map[1 := START, 2 := START], {})
    ensures Initial(TWO, s)
  {
    var members := TWO.members;
    assert START.matched == map i | i in members :: 0;
  }

  lemma HandlesTimeout()
    ensures Handle(TWO, 1, START, ElectionTimeout, Oracle(false, false)) == Hup(TWO, 1, START, false, Oracle(false, false))
  {
  }

  lemma Prefers()
    ensures Handle(TWO, 2, START, SetPriority(1), Oracle(false, false)) == Effect(START.(priority := 1), {})
  {
  }

  lemma Refuses()
    ensures forall o :: Handle(TWO, 2, START.(priority := 1), Deliver(PRE_VOTE), o) == Panic
  {
  }

  // ---------------------------------------------------------------- a run that commits

  const ONE := Config(Joint({1}, {}), {1}, false, map[], false, false)

  const ALONE := Node(0, NONE, Follower, NONE, map[], [], 0, 0, map[1 := 0], 0)

  const ELECTED := Node(1, 1, Leader, 1, map[], [Entry(1, 1, "")], 0, 0, map[1 := 0], 0)

  const COMMITTED := ELECTED.(committed := 1, persisted := 1, matched := map[1 := 1])

  lemma OwnVoteWins()
    ensures ONE.voters.Vote(map[1 := true]) == Won
  {
    var votes, voters := map[1 := true], {1};
    assert YesVoters(voters, votes) == {1};
    assert MajorityVote(voters, votes) == Won;
  }

  lemma LoneCampaign()
    ensures Hup(ONE, 1, ALONE, false, Oracle(false, false)) == Effect(ELECTED, {})
  {
    hide Joint.Vote;
    var c := BecomeCandidate(ONE, 1, ALONE);
    assert c.matched == map[1 := 0];
    assert RecordVote(c, 1, true).votes == map[1 := true];
    OwnVoteWins();
    assert Stamp(0, 1, [""]) == [Entry(1, 1, "")];
    assert BecomeLeader(ONE, 1, RecordVote(c, 1, true)).matched == map[1 := 0];
  }

  lemma LoneCommit()
    ensures LeaderCommit(ONE, ELECTED.(persisted := 1, matched := map[1 := 1])) == COMMITTED
  {
    var n := ELECTED.(persisted := 1, matched := map[1 := 1]);
    var acks, voters := MatchedAcks(ONE, n), {1};
    assert AckOf(acks, 1) == Index(1, 0);
    forall i: nat ensures Supported(voters, acks, false, i) <==> i <= 1 {
      if i <= 1 {
        assert AckedAtLeast(voters, acks, i) == {1};
      } else {
        assert AckedAtLeast(voters, acks, i) == {};
      }
    }
    CommittedIndexUnique(voters, acks, false, (1, false), CommittedIndex(voters, acks, false));
    assert ONE.voters.Committed(acks, false).0 == 1;
  }

  /** Runs do elect leaders and commit entries, so what is proved of all runs is not empty. */
  lemma CommitOccurs() returns (run: seq<Cluster>)
    ensures IsRun(ONE, run) && 1 in run[|run| - 1].nodes && run[|run| - 1].nodes[1] == COMMITTED
  {
    hide Hup, LeaderCommit;
    var quiet := Oracle(false, false);
    var s0, s1, s2 := Cluster(map[1 := ALONE], {}), Cluster(map[1 := ELECTED], {}), Cluster(map[1 := COMMITTED], {});
    var members := ONE.members;
    assert ALONE.matched == map i | i in members :: 0;
    LoneCampaign();
    LoneCommit();
    assert NextAt(ONE, s0, s1, 1, ElectionTimeout, quiet) by { assert s0.nodes[1 := ELECTED] == s1.nodes; }
    assert ELECTED.matched[1 := 1] == map[1 := 1];
    assert NextAt(ONE, s1, s2, 1, Persisted(1), quiet) by { assert s1.nodes[1 := COMMITTED] == s2.nodes; }
    run := [s0, s1, s2];
    assert Next(ONE, run[0], run[1]) && Next(ONE, run[1], run[2]);
  }

  /** The second case does occur as well: the first leader of a run is given a proposal without entries. */
  lemma EmptyProposalOccurs() returns (run: seq<Cluster>)
    ensures IsRun(ONE, run) && 1 in run[|run| - 1].nodes && run[|run| - 1].nodes[1] == COMMITTED
    ensures Enabled(ONE, 1, COMMITTED, Propose([])) && forall o :: Handle(ONE, 1, COMMITTED, Propose([]), o) == Panic
  {
    run := CommitOccurs();
  }
}
