/**
  A cluster of nodes and the messages ever sent, which may be lost, repeated, delayed and
  reordered.  The safety properties of Figure 3 of "In Search of an Understandable Consensus
  Algorithm" (Ongaro and Ousterhout), for every run of every length.
 */
module RaftSafety {
  import opened Types
  import opened Quorum
  import opened RaftNode
  import opened RaftHistory
  import opened RaftGrowth
  import opened RaftRecords
  import opened RaftSteps

  datatype Cluster = Cluster(nodes: map<nat, Node>, msgs: set<Msg>)

  ghost predicate Initial(cfg: Config, s: Cluster) {
    && cfg.Valid() && s.nodes.Keys == cfg.members && s.msgs == {}
    && (forall id | id in s.nodes :: Fresh(s.nodes[id], cfg.members))
  }

  /** One node handles one event; a delivered message stays around and may come again. */
  ghost predicate NextAt(cfg: Config, s: Cluster, s': Cluster, id: nat, ev: Event, o: Oracle) {
    && id in s.nodes && Enabled(cfg, id, s.nodes[id], ev) && (ev.Deliver? ==> ev.m in s.msgs)
    && var e := Handle(cfg, id, s.nodes[id], ev, o);
    && e.Effect? && s' == Cluster(s.nodes[id := e.node], s.msgs + e.out)
  }

  ghost predicate Next(cfg: Config, s: Cluster, s': Cluster) {
    exists id, ev, o :: NextAt(cfg, s, s', id, ev, o)
  }

  ghost predicate IsRun(cfg: Config, run: seq<Cluster>) {
    && run != [] && Initial(cfg, run[0])
    && (forall i | 0 <= i < |run| - 1 :: Next(cfg, run[i], run[i + 1]))
  }

  ghost predicate Inv(cfg: Config, s: Cluster, h: History) {
    && HistoryInv(cfg, h) && s.nodes.Keys == cfg.members
    && (forall id | id in s.nodes :: NodeInv(cfg, h, id, s.nodes[id]))
    && Sound(cfg, h, s.msgs)
  }

  /** What persists of history, whoever acts. */
  ghost predicate Grows(h: History, h': History) {
    && (forall t | t in h.reigns :: t in h'.reigns && ReignGrows(h.reigns[t], h'.reigns[t]))
    && h.decided <= h'.decided && h.acks <= h'.acks
  }

  const NO_HISTORY := History(map[], map[], map[], {}, [])

  lemma InitialInv(cfg: Config, s: Cluster)
    requires Initial(cfg, s)
    ensures Inv(cfg, s, NO_HISTORY)
  {
    forall id | id in s.nodes ensures NodeInv(cfg, NO_HISTORY, id, s.nodes[id]) {
      assert Fresh(s.nodes[id], cfg.members);
    }
  }

  lemma NextKeeps(cfg: Config, s: Cluster, s': Cluster, h: History) returns (h': History)
    requires Inv(cfg, s, h) && Next(cfg, s, s')
    ensures Inv(cfg, s', h') && Grows(h, h')
  {
    hide HistoryInv, NodeInv, MsgInv, Extends, Handle, Enabled;
    var id, ev, o :| NextAt(cfg, s, s', id, ev, o);
    h' := HandleKeeps(cfg, h, id, s.nodes[id], ev, o);
    forall other | other in s'.nodes ensures NodeInv(cfg, h', other, s'.nodes[other]) {
      if other != id {
        NodeGrows(cfg, h, h', id, other, s.nodes[other]);
      }
    }
    forall m | m in s.msgs ensures MsgInv(cfg, h', m) {
      MsgGrows(cfg, h, h', id, m);
    }
    ExtendsGrows(h, h', id);
  }

  lemma ExtendsGrows(h: History, h': History, id: nat)
    requires Extends(h, h', id)
    ensures Grows(h, h')
  {
  }

  /** The invariant holds along the whole run, with one history that only grows. */
  ghost predicate Explains(cfg: Config, run: seq<Cluster>, hs: seq<History>) {
    && |hs| == |run|
    && (forall i | 0 <= i < |run| :: Inv(cfg, run[i], hs[i]))
    && (forall i, j | 0 <= i <= j < |run| :: Grows(hs[i], hs[j]))
  }

  lemma GrowsTrans(h0: History, h1: History, h2: History)
    requires Grows(h0, h1) && Grows(h1, h2)
    ensures Grows(h0, h2)
  {
    forall t | t in h0.reigns ensures t in h2.reigns && ReignGrows(h0.reigns[t], h2.reigns[t]) {
      assert ReignGrows(h0.reigns[t], h1.reigns[t]) && ReignGrows(h1.reigns[t], h2.reigns[t]);
    }
  }

  lemma {:induction false} RunExplained(cfg: Config, run: seq<Cluster>) returns (hs: seq<History>)
    requires IsRun(cfg, run)
    ensures Explains(cfg, run, hs)
    decreases |run|
  {
    hide Inv, Next;
    if |run| == 1 {
      InitialInv(cfg, run[0]);
      hs := [NO_HISTORY];
      GrowsRefl(NO_HISTORY);
    } else {
      var front, last := run[..|run| - 1], |run| - 1;
      assert IsRun(cfg, front) by {
        forall i | 0 <= i < |front| - 1 ensures Next(cfg, front[i], front[i + 1]) {
          assert Next(cfg, run[i], run[i + 1]);
        }
      }
      var before := RunExplained(cfg, front);
      assert Inv(cfg, front[last - 1], before[last - 1]);
      assert Next(cfg, run[last - 1], run[last - 1 + 1]);
      var h := NextKeeps(cfg, run[last - 1], run[last], before[last - 1]);
      hs := before + [h];
      ExplainsOneMore(cfg, run, before, h);
    }
  }

  lemma GrowsRefl(h: History)
    ensures Grows(h, h)
  {
  }

  lemma ExplainsOneMore(cfg: Config, run: seq<Cluster>, before: seq<History>, h: History)
    requires |run| >= 2 && Explains(cfg, run[..|run| - 1], before)
    requires Inv(cfg, run[|run| - 1], h) && Grows(before[|run| - 2], h)
    ensures Explains(cfg, run, before + [h])
  {
    hide Inv, Grows;
    var hs := before + [h];
    forall i | 0 <= i < |run| ensures Inv(cfg, run[i], hs[i]) {
      if i < |run| - 1 {
        assert Inv(cfg, run[..|run| - 1][i], before[i]);
      }
    }
    forall i, j | 0 <= i <= j < |run| ensures Grows(hs[i], hs[j]) {
      GrowsRefl(h);
      if i < j == |run| - 1 {
        GrowsTrans(before[i], before[|run| - 2], h);
      }
    }
  }

  // ---------------------------------------------------------------- the theorems

  ghost predicate InRun(cfg: Config, run: seq<Cluster>, i: nat, a: nat) {
    IsRun(cfg, run) && i < |run| && a in cfg.members
  }

  /** The node with id a after i steps; every member is present at every step. */
  ghost function At(cfg: Config, run: seq<Cluster>, i: nat, a: nat): Node
    requires InRun(cfg, run, i, a)
  {
    MembersPresent(cfg, run, i);
    run[i].nodes[a]
  }

  lemma MembersPresent(cfg: Config, run: seq<Cluster>, i: nat)
    requires IsRun(cfg, run) && i < |run|
    ensures run[i].nodes.Keys == cfg.members
  {
    var hs := RunExplained(cfg, run);
    assert Inv(cfg, run[i], hs[i]);
  }

  /** Facts of one node at one step, as seen from any later step. */
  lemma SeenFrom(cfg: Config, run: seq<Cluster>, hs: seq<History>, i: nat, k: nat, a: nat)
    requires InRun(cfg, run, i, a) && Explains(cfg, run, hs) && i <= k < |run|
    ensures var n := At(cfg, run, i, a);
            && Owned(hs[k].reigns, n.log) && n.committed <= |n.log| && n.log[..n.committed] <= hs[k].decided
            && (n.role == Leader ==> n.term in hs[k].reigns && hs[k].reigns[n.term].leader == a && n.log <= hs[k].reigns[n.term].log)
            && (n.role == Leader ==> n.term in hs[i].reigns && n.log == hs[i].reigns[n.term].log)
  {
    hide HistoryInv, StillHolds, Chosen;
    assert Inv(cfg, run[i], hs[i]) && Grows(hs[i], hs[k]);
    var n := At(cfg, run, i, a);
    assert NodeInv(cfg, hs[i], a, n);
    forall j | 0 <= j < |n.log| ensures OwnedAt(hs[k].reigns, n.log, j) {
      assert OwnedAt(hs[i].reigns, n.log, j);
      assert ReignGrows(hs[i].reigns[n.log[j].term], hs[k].reigns[n.log[j].term]);
    }
    if n.role == Leader {
      assert ReignGrows(hs[i].reigns[n.term], hs[k].reigns[n.term]);
    }
  }

  /** Election safety: at most one node is ever leader in a given term. */
  lemma ElectionSafety(cfg: Config, run: seq<Cluster>, i: nat, a: nat, j: nat, b: nat)
    requires InRun(cfg, run, i, a) && InRun(cfg, run, j, b)
    requires At(cfg, run, i, a).role == Leader && At(cfg, run, j, b).role == Leader
    requires At(cfg, run, i, a).term == At(cfg, run, j, b).term
    ensures a == b
  {
    hide IsRun, Inv;
    var hs := RunExplained(cfg, run);
    SeenFrom(cfg, run, hs, i, Max(i, j), a);
    SeenFrom(cfg, run, hs, j, Max(i, j), b);
  }

  /** Log matching: logs that ever agree on the term at an index are equal up to that index. */
  lemma LogMatching(cfg: Config, run: seq<Cluster>, i: nat, a: nat, j: nat, b: nat, k: nat)
    requires InRun(cfg, run, i, a) && InRun(cfg, run, j, b)
    requires 1 <= k <= |At(cfg, run, i, a).log| && k <= |At(cfg, run, j, b).log|
    requires At(cfg, run, i, a).log[k - 1].term == At(cfg, run, j, b).log[k - 1].term
    ensures At(cfg, run, i, a).log[..k] == At(cfg, run, j, b).log[..k]
  {
    hide IsRun, Inv, Owned;
    var hs := RunExplained(cfg, run);
    SeenFrom(cfg, run, hs, i, Max(i, j), a);
    SeenFrom(cfg, run, hs, j, Max(i, j), b);
    LogsMatch(hs[Max(i, j)].reigns, At(cfg, run, i, a).log, At(cfg, run, j, b).log, k);
  }

  /** Leader append-only: a leader's log only grows while it leads its term. */
  lemma LeaderAppendOnly(cfg: Config, run: seq<Cluster>, i: nat, j: nat, a: nat)
    requires InRun(cfg, run, i, a) && InRun(cfg, run, j, a) && i <= j
    requires At(cfg, run, i, a).role == Leader && At(cfg, run, j, a).role == Leader
    requires At(cfg, run, i, a).term == At(cfg, run, j, a).term
    ensures At(cfg, run, i, a).log <= At(cfg, run, j, a).log
  {
    hide IsRun, Inv, Owned;
    var hs := RunExplained(cfg, run);
    SeenFrom(cfg, run, hs, i, j, a);
    SeenFrom(cfg, run, hs, j, j, a);
  }

  /** State machine safety: no two nodes ever commit different entries at an index. */
  lemma StateMachineSafety(cfg: Config, run: seq<Cluster>, i: nat, a: nat, j: nat, b: nat, k: nat)
    requires InRun(cfg, run, i, a) && InRun(cfg, run, j, b)
    requires k <= At(cfg, run, i, a).committed && k <= At(cfg, run, j, b).committed
    ensures k <= |At(cfg, run, i, a).log| && k <= |At(cfg, run, j, b).log|
    ensures At(cfg, run, i, a).log[..k] == At(cfg, run, j, b).log[..k]
  {
    hide IsRun, Inv, Owned;
    var hs := RunExplained(cfg, run);
    SeenFrom(cfg, run, hs, i, Max(i, j), a);
    SeenFrom(cfg, run, hs, j, Max(i, j), b);
    var na, nb, d := At(cfg, run, i, a), At(cfg, run, j, b), hs[Max(i, j)].decided;
    assert na.log[..k] == na.log[..na.committed][..k] == d[..k];
    assert nb.log[..k] == nb.log[..nb.committed][..k] == d[..k];
  }

  /** Leader completeness: what a leader commits in its term is in the log of every leader of a later term. */
  lemma LeaderCompleteness(cfg: Config, run: seq<Cluster>, i: nat, a: nat, j: nat, b: nat)
    requires InRun(cfg, run, i, a) && InRun(cfg, run, j, b)
    requires At(cfg, run, i, a).role == Leader && At(cfg, run, j, b).role == Leader
    requires At(cfg, run, i, a).term < At(cfg, run, j, b).term
    requires var n := At(cfg, run, i, a); n.Term(n.committed) == n.term
    ensures var n := At(cfg, run, i, a);
            n.committed <= |n.log| && n.log[..n.committed] <= At(cfg, run, j, b).log
  {
    hide IsRun, HistoryInv, Owned, NodeInv;
    var hs := RunExplained(cfg, run);
    var m := Max(i, j);
    SeenFrom(cfg, run, hs, i, m, a);
    SeenFrom(cfg, run, hs, j, m, b);
    assert Inv(cfg, run[m], hs[m]) && Inv(cfg, run[i], hs[i]) && Inv(cfg, run[j], hs[j]);
    CompletenessSeen(cfg, hs[i], hs[j], hs[m], a, At(cfg, run, i, a), At(cfg, run, j, b));
  }

  lemma CompletenessSeen(cfg: Config, hi: History, hj: History, h: History, a: nat, n: Node, l: Node)
    requires HistoryInv(cfg, hi) && HistoryInv(cfg, hj) && HistoryInv(cfg, h) && Grows(hi, h) && Grows(hj, h)
    requires NodeInv(cfg, hi, a, n) && n.role == Leader && n.Term(n.committed) == n.term && n.committed <= |n.log|
    requires n.term in h.reigns && n.log <= h.reigns[n.term].log && n.term < l.term
    requires l.term in hj.reigns && l.log == hj.reigns[l.term].log
    ensures n.log[..n.committed] <= l.log
  {
    hide HistoryInv, NodeInv, GoodLog, Chosen;
    OwnCommitChosen(cfg, hi, a, n);
    GrowsChosen(cfg, hi, h, n.term, n.committed);
    assert ReignGrows(hj.reigns[l.term], h.reigns[l.term]);
    Completeness(cfg, h, n.term, n.committed, l.term);
    StartsWithInit(cfg, hj, l.term);
    assert n.log[..n.committed] == h.reigns[n.term].log[..n.committed];
  }

  lemma OwnCommitChosen(cfg: Config, h: History, id: nat, n: Node)
    requires HistoryInv(cfg, h) && NodeInv(cfg, h, id, n) && n.role == Leader && n.Term(n.committed) == n.term
    ensures 1 <= n.committed && Chosen(cfg, h, n.term, n.committed)
  {
    NoTermZero(cfg, h);
    ReignFacts(cfg, h, n.term);
    hide HistoryInv, GoodLog, Chosen, StillHolds;
    forall j | 0 <= j < |h.reigns[n.term].init| ensures n.log[j].term < n.term {
      assert OlderAt(h.reigns, n.term, j);
    }
  }

  lemma GrowsChosen(cfg: Config, h: History, h': History, term: nat, index: nat)
    requires Grows(h, h') && Chosen(cfg, h, term, index)
    ensures Chosen(cfg, h', term, index)
  {
    QuorumGrows(cfg.voters, Ackers(h, term, index), Ackers(h', term, index));
  }

  // ---------------------------------------------------------------- cursors and panics

  ghost predicate Rises(n: Node, e: Effect) {
    e.Effect? ==> e.node.term >= n.term && e.node.committed >= n.committed
  }

  lemma HupRises(cfg: Config, id: nat, n: Node, transfer: bool, o: Oracle)
    ensures Rises(n, Hup(cfg, id, n, transfer, o)) && Rises(n, Campaign(cfg, id, n, transfer))
  {
  }

  lemma CommitByVoteRises(cfg: Config, id: nat, n: Node, commit: nat, commitTerm: nat, o: Oracle)
    ensures var n' := MaybeCommitByVote(cfg, id, n, commit, commitTerm, o);
            n'.term >= n.term && n'.committed >= n.committed
  {
  }

  lemma PollRises(cfg: Config, id: nat, n: Node, from: nat, granted: bool, o: Oracle)
    ensures Rises(n, PollPreCandidate(cfg, id, n, from, granted)) && Rises(n, Effect(PollCandidate(cfg, id, n, from, granted), {}))
  {
    hide Campaign;
    HupRises(cfg, id, RecordVote(n, from, granted), false, o);
  }

  lemma CandidateRises(cfg: Config, id: nat, n: Node, m: Msg, o: Oracle)
    requires m.term >= n.term
    ensures Rises(n, StepCandidate(cfg, id, n, m, o))
  {
    hide PollPreCandidate, PollCandidate, MaybeCommitByVote;
    if m.VoteResponse? {
      PollRises(cfg, id, n, m.from, !m.reject, o);
      var e := PollPreCandidate(cfg, id, n, m.from, !m.reject);
      if e.Effect? {
        CommitByVoteRises(cfg, id, e.node, m.commit, m.commitTerm, o);
      }
      CommitByVoteRises(cfg, id, PollCandidate(cfg, id, n, m.from, !m.reject), m.commit, m.commitTerm, o);
    }
  }

  lemma DispatchRises(cfg: Config, id: nat, n: Node, m: Msg, o: Oracle)
    requires m.term >= n.term
    ensures Rises(n, Dispatch(cfg, id, n, m, o))
  {
    hide StepCandidate, StepFollower, StepLeader, HandleRequestVote;
    CandidateRises(cfg, id, n, m, o);
    FollowerRises(cfg, id, n, m, o);
    LeaderRises(cfg, n, m);
    if m.RequestVote? {
      VoteRises(cfg, id, n, m, o);
    }
  }

  lemma FollowerRises(cfg: Config, id: nat, n: Node, m: Msg, o: Oracle)
    ensures Rises(n, StepFollower(cfg, id, n, m, o))
  {
    hide Hup, FindConflict, FindConflictByTerm, Splice, CanSplice;
    HupRises(cfg, id, n, true, o);
  }

  lemma LeaderRises(cfg: Config, n: Node, m: Msg)
    ensures Rises(n, StepLeader(cfg, n, m))
  {
  }

  lemma VoteRises(cfg: Config, id: nat, n: Node, m: Msg, o: Oracle)
    requires m.RequestVote?
    ensures Rises(n, HandleRequestVote(cfg, id, n, m, o))
  {
    hide MaybeCommitByVote;
    CommitByVoteRises(cfg, id, n, m.commit, m.commitTerm, o);
  }

  /** No event lowers a node's term or commit index. */
  lemma NothingLowered(cfg: Config, id: nat, n: Node, ev: Event, o: Oracle)
    requires Enabled(cfg, id, n, ev)
    ensures Rises(n, Handle(cfg, id, n, ev, o))
  {
    hide Hup, Dispatch;
    HupRises(cfg, id, n, false, o);
    if ev.Deliver? && ev.m.term >= n.term {
      DispatchRises(cfg, id, n, ev.m, o);
      var leader := if ev.m.Append? || ev.m.Heartbeat? then ev.m.from else NONE;
      DispatchRises(cfg, id, BecomeFollower(cfg, id, n, ev.m.term, leader), ev.m, o);
    }
  }

  /** Commit indices only rise, and what a node has committed never changes. */
  lemma CommittedIsForever(cfg: Config, run: seq<Cluster>, i: nat, j: nat, a: nat)
    requires InRun(cfg, run, i, a) && InRun(cfg, run, j, a) && i <= j
    ensures var n, n' := At(cfg, run, i, a), At(cfg, run, j, a);
            && n.term <= n'.term && n.committed <= n'.committed <= |n'.log| && n.committed <= |n.log|
            && n'.log[..n.committed] == n.log[..n.committed]
  {
    hide Inv;
    CursorsRise(cfg, run, i, j, a);
    StateMachineSafety(cfg, run, i, a, j, a, At(cfg, run, i, a).committed);
    StateMachineSafety(cfg, run, j, a, j, a, At(cfg, run, j, a).committed);
  }

  lemma {:induction false} CursorsRise(cfg: Config, run: seq<Cluster>, i: nat, j: nat, a: nat)
    requires InRun(cfg, run, i, a) && InRun(cfg, run, j, a) && i <= j
    ensures At(cfg, run, i, a).term <= At(cfg, run, j, a).term
    ensures At(cfg, run, i, a).committed <= At(cfg, run, j, a).committed
    decreases j - i
  {
    hide Inv, Handle;
    if i < j {
      CursorsRise(cfg, run, i, j - 1, a);
      assert Next(cfg, run[j - 1], run[j - 1 + 1]);
      var id, ev, o :| NextAt(cfg, run[j - 1], run[j], id, ev, o);
      NothingLowered(cfg, id, run[j - 1].nodes[id], ev, o);
    }
  }

  /**
    The two ways to stop a process: a node that never left term 0 is asked for a pre-vote by a
    node of lower priority with an empty log, and would have to refuse in term 0; or a leader
    is given a proposal without entries.
   */
  ghost predicate Stops(n: Node, ev: Event) {
    || (ev.Deliver? && ev.m.RequestVote? && ev.m.pre && n.term == 0 && ev.m.lastIndex == 0 && n.priority > ev.m.priority)
    || (ev.Propose? && ev.data == [])
  }

  lemma TermZeroIsEmpty(cfg: Config, h: History, id: nat, n: Node)
    requires Local(cfg, h, id, n) && n.term == 0
    ensures n.log == [] && n.leader == NONE
  {
    NoTermZero(cfg, h);
    hide HistoryInv, StillHolds;
    PositiveTerm(h.reigns, n.log, 1);
    assert TermAt(n.log, 1) <= 0;
  }

  lemma DispatchPanics(cfg: Config, h: History, id: nat, n: Node, m: Msg, o: Oracle)
    requires Local(cfg, h, id, n) && MsgInv(cfg, h, m) && m.to == id && (m.term == n.term || (KeepsTerm(m) && m.term > n.term))
    ensures Dispatch(cfg, id, n, m, o).Panic? <==> Stops(n, Deliver(m))
  {
    hide HistoryInv, NodeInv, StepCandidate, StepFollower;
    if m.RequestVote? {
      if n.term == 0 {
        TermZeroIsEmpty(cfg, h, id, n);
      }
    } else if n.role == Candidate || n.role == PreCandidate {
      var h' := StepCandidateKeeps(cfg, h, id, n, m, o);
    } else if n.role == Follower {
      var h' := StepFollowerKeeps(cfg, h, id, n, m, o);
    }
  }

  lemma StepPanics(cfg: Config, h: History, id: nat, n: Node, m: Msg, o: Oracle)
    requires Local(cfg, h, id, n) && MsgInv(cfg, h, m) && m.to == id
    ensures Step(cfg, id, n, m, o).Panic? <==> Stops(n, Deliver(m))
  {
    hide HistoryInv, NodeInv, Dispatch, BecomeFollower;
    if n.term == 0 {
      TermZeroIsEmpty(cfg, h, id, n);
    }
    if m.term > n.term && !KeepsTerm(m) {
      var leader := if m.Append? || m.Heartbeat? then m.from else NONE;
      FollowerKeeps(cfg, h, id, n, m.term, leader);
      FollowerTerm(cfg, id, n, m.term, leader);
      DispatchPanics(cfg, h, id, BecomeFollower(cfg, id, n, m.term, leader), m, o);
    } else if m.term >= n.term {
      DispatchPanics(cfg, h, id, n, m, o);
    }
  }

  /** In every run, whatever happens next stops a process exactly in those two cases. */
  lemma PanicsExactly(cfg: Config, run: seq<Cluster>, i: nat, a: nat, ev: Event, o: Oracle)
    requires InRun(cfg, run, i, a) && Enabled(cfg, a, At(cfg, run, i, a), ev) && (ev.Deliver? ==> ev.m in run[i].msgs)
    ensures Handle(cfg, a, At(cfg, run, i, a), ev, o).Panic? <==> Stops(At(cfg, run, i, a), ev)
  {
    hide HistoryInv, NodeInv, Step, Hup;
    var hs := RunExplained(cfg, run);
    assert Inv(cfg, run[i], hs[i]);
    var n := At(cfg, run, i, a);
    if ev.Deliver? {
      StepPanics(cfg, hs[i], a, n, ev.m, o);
    } else if ev.ElectionTimeout? {
      var h' := HupKeeps(cfg, hs[i], a, n, false, o);
    }
  }
}
