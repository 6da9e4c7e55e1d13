/**
  No run gets stuck: whatever has happened, there is a way on that elects a leader and commits
  its whole log.  Messages may be lost and nodes may be silent for ever, so this is as much as
  can be promised; it is what makes the safety properties worth having.
 */
module RaftProgress {
  import opened Types
  import opened Quorum
  import opened RaftNode
  import opened RaftHistory
  import opened RaftRecords
  import opened RaftSafety
  import opened RaftEffects
  import RaftRuns
  import Backtrack
  import FlatLog
  import PlainLog

  /** No lease and no configuration change to apply. */
  const QUIET := Oracle(false, false)

  ghost function Final(run: seq<Cluster>): Cluster
    requires run != []
  {
    run[|run| - 1]
  }

  /** One more step of a run. */
  lemma Act(cfg: Config, run: seq<Cluster>, id: nat, ev: Event) returns (r: seq<Cluster>)
    requires IsRun(cfg, run) && id in Final(run).nodes && Enabled(cfg, id, Final(run).nodes[id], ev)
    requires ev.Deliver? ==> ev.m in Final(run).msgs
    requires Handle(cfg, id, Final(run).nodes[id], ev, QUIET).Effect?
    ensures IsRun(cfg, r) && run <= r && r != []
    ensures var e := Handle(cfg, id, Final(run).nodes[id], ev, QUIET);
            Final(r) == Cluster(Final(run).nodes[id := e.node], Final(run).msgs + e.out)
  {
    hide Initial, Handle, Enabled;
    var s := Final(run);
    var e := Handle(cfg, id, s.nodes[id], ev, QUIET);
    var s' := Cluster(s.nodes[id := e.node], s.msgs + e.out);
    r := run + [s'];
    assert NextAt(cfg, s, s', id, ev, QUIET);
    forall i | 0 <= i < |r| - 1 ensures Next(cfg, r[i], r[i + 1]) {
      if i < |run| - 1 {
        assert Next(cfg, run[i], run[i + 1]);
      }
    }
  }

  lemma Members(cfg: Config, run: seq<Cluster>)
    requires IsRun(cfg, run)
    ensures run != [] && cfg.Valid() && Final(run).nodes.Keys == cfg.members && cfg.voters.Ids() <= Final(run).nodes.Keys
  {
    MembersPresent(cfg, run, |run| - 1);
  }

  // ---------------------------------------------------------------- quiet voters

  /** No voter leads or prefers itself. */
  ghost predicate Calm(cfg: Config, s: Cluster, ids: set<nat>) {
    forall v | v in ids :: v in s.nodes && s.nodes[v].role != Leader && s.nodes[v].priority == 0
  }

  lemma {:induction false} CalmDown(cfg: Config, run: seq<Cluster>, done: set<nat>) returns (r: seq<Cluster>)
    requires IsRun(cfg, run) && done <= cfg.voters.Ids() && Calm(cfg, Final(run), done)
    ensures IsRun(cfg, r) && run <= r && r != [] && Calm(cfg, Final(r), cfg.voters.Ids())
    ensures forall v | v in Final(run).nodes :: v in Final(r).nodes && Final(r).nodes[v].log == Final(run).nodes[v].log
    decreases cfg.voters.Ids() - done
  {
    hide IsRun;
    var todo := cfg.voters.Ids() - done;
    Members(cfg, run);
    if todo == {} {
      r := run;
      assert forall v | v in cfg.voters.Ids() :: v in done || v in todo;
    } else {
      var v :| v in todo;
      r := Act(cfg, run, v, SetPriority(0));
      if Final(r).nodes[v].role == Leader {
        r := Act(cfg, r, v, QuorumLost);
      }
      r := CalmDown(cfg, r, done + {v});
    }
  }

  // ---------------------------------------------------------------- the best log

  /** A log that a voter with the other log accepts. */
  predicate AtLeast(a: seq<Entry>, b: seq<Entry>) {
    LastTerm(a) > LastTerm(b) || (LastTerm(a) == LastTerm(b) && |a| >= |b|)
  }

  ghost predicate Best(s: Cluster, ids: set<nat>, c: nat) {
    c in s.nodes && forall v | v in ids :: v in s.nodes && AtLeast(s.nodes[c].log, s.nodes[v].log)
  }

  lemma {:induction false} PickBest(s: Cluster, ids: set<nat>) returns (c: nat)
    requires ids != {} && ids <= s.nodes.Keys
    ensures c in ids && Best(s, ids, c)
    decreases ids
  {
    var a :| a in ids;
    c := a;
    var rest := ids - {a};
    if rest != {} {
      var d := PickBest(s, rest);
      if !AtLeast(s.nodes[a].log, s.nodes[d].log) {
        c := d;
      }
    }
    forall v | v in ids ensures AtLeast(s.nodes[c].log, s.nodes[v].log) {
      assert v == a || v in rest;
    }
  }

  // ---------------------------------------------------------------- catching up with the terms

  /** A voter would vote for c if c stood now. */
  ghost predicate Ready(cfg: Config, s: Cluster, c: nat, v: nat)
    requires c in s.nodes && v in s.nodes
  {
    Grants(cfg, s.nodes[v], RequestTo(c, s.nodes[c], v, false, false), QUIET)
  }

  ghost predicate AllReady(cfg: Config, s: Cluster, c: nat) {
    c in s.nodes && forall v | v in cfg.voters.Ids() && v != c :: v in s.nodes && Ready(cfg, s, c, v)
  }

  /** All is quiet, and c has the best log. */
  ghost predicate Set(cfg: Config, s: Cluster, c: nat) {
    c in cfg.voters.Ids() && Calm(cfg, s, cfg.voters.Ids()) && Best(s, cfg.voters.Ids(), c)
  }

  /** Only a later term can keep a voter from being ready. */
  lemma NotReady(cfg: Config, s: Cluster, c: nat, v: nat)
    requires Set(cfg, s, c) && v in cfg.voters.Ids() && !Ready(cfg, s, c, v)
    ensures s.nodes[v].term > s.nodes[c].term
  {
  }

  lemma TwoVoters(cfg: Config, c: nat, v: nat)
    requires c in cfg.voters.Ids() && v in cfg.voters.Ids() && v != c
    ensures !cfg.voters.IsQuorum({c})
  {
    var i, o := cfg.voters.incoming, cfg.voters.outgoing;
    assert {c} * i <= {c} && {c} * o <= {c};
    SubsetCardinality({c} * i, {c});
    SubsetCardinality({c} * o, {c});
    if v in i {
      if c in i {
        SubsetCardinality({c, v}, i);
      } else {
        assert {c} * i == {};
      }
    } else {
      if c in o {
        SubsetCardinality({c, v}, o);
      } else {
        assert {c} * o == {};
      }
    }
  }

  /** The same nodes but for one that keeps its log and its quiet. */
  lemma StaysSet(cfg: Config, s: Cluster, s': Cluster, c: nat, id: nat)
    requires Set(cfg, s, c) && id in s.nodes && id in s'.nodes && s'.nodes == s.nodes[id := s'.nodes[id]]
    requires s'.nodes[id].log == s.nodes[id].log && s'.nodes[id].role != Leader && s'.nodes[id].priority == s.nodes[id].priority
    ensures Set(cfg, s', c)
  {
  }

  /** With pre-votes, a candidate that is behind learns the later term from a refusal. */
  lemma LearnTerm(cfg: Config, run: seq<Cluster>, c: nat, v: nat) returns (r: seq<Cluster>)
    requires IsRun(cfg, run) && Set(cfg, Final(run), c) && cfg.preVote
    requires v in cfg.voters.Ids() && v != c && !Ready(cfg, Final(run), c, v)
    ensures IsRun(cfg, r) && run <= r && r != [] && Set(cfg, Final(r), c)
    ensures Final(r).nodes[c].term == Final(run).nodes[v].term > Final(run).nodes[c].term
    ensures Final(r).nodes.Keys == Final(run).nodes.Keys
    ensures forall w | w in Final(run).nodes && w != c :: Final(r).nodes[w].term == Final(run).nodes[w].term
    ensures Final(r).nodes[c].log == Final(run).nodes[c].log
  {
    hide IsRun, Handle, Set, Calm, Best, Step;
    Members(cfg, run);
    var s := Final(run);
    SetFacts(cfg, s, c, v);
    NotReady(cfg, s, c, v);
    TwoVoters(cfg, c, v);
    TimeoutStands(cfg, c, s.nodes[c], QUIET);
    r := Act(cfg, run, c, ElectionTimeout);
    StaysSet(cfg, s, Final(r), c, c);
    var m := RequestTo(c, s.nodes[c], v, true, false);
    assert m in Final(r).msgs && Final(r).nodes[v] == s.nodes[v];
    VoteRefused(cfg, v, s.nodes[v], m, QUIET);
    HandlesDeliver(cfg, v, s.nodes[v], m);
    var s1 := Final(r);
    r := Act(cfg, r, v, Deliver(m));
    StaysSet(cfg, s1, Final(r), c, v);
    var e := Step(cfg, v, s.nodes[v], m, QUIET);
    var a :| a in e.out;
    var s2 := Final(r);
    LaterTermAdopted(cfg, c, s2.nodes[c], a, QUIET);
    HandlesDeliver(cfg, c, s2.nodes[c], a);
    r := Act(cfg, r, c, Deliver(a));
    StaysSet(cfg, s2, Final(r), c, c);
  }

  lemma SetFacts(cfg: Config, s: Cluster, c: nat, v: nat)
    requires Set(cfg, s, c) && v in cfg.voters.Ids()
    ensures c in cfg.voters.Ids() && v in s.nodes && s.nodes[v].role != Leader && s.nodes[v].priority == 0 && c in s.nodes && s.nodes[c].role != Leader
  {
  }

  lemma HandlesDeliver(cfg: Config, id: nat, n: Node, m: Msg)
    requires m.to == id
    ensures Enabled(cfg, id, n, Deliver(m)) && Handle(cfg, id, n, Deliver(m), QUIET) == Step(cfg, id, n, m, QUIET)
  {
  }

  /** No voter is ahead of `top`. */
  ghost predicate UpTo(cfg: Config, s: Cluster, top: nat) {
    forall v | v in cfg.voters.Ids() :: v in s.nodes && s.nodes[v].term <= top
  }

  lemma {:induction false} CatchUp(cfg: Config, run: seq<Cluster>, c: nat, top: nat) returns (r: seq<Cluster>)
    requires IsRun(cfg, run) && Set(cfg, Final(run), c) && UpTo(cfg, Final(run), top)
    ensures IsRun(cfg, r) && run <= r && r != [] && Set(cfg, Final(r), c) && AllReady(cfg, Final(r), c)
    ensures Final(r).nodes[c].log == Final(run).nodes[c].log
    decreases top - (if c in Final(run).nodes then Final(run).nodes[c].term else 0)
  {
    hide IsRun, Handle, Set, Calm, Best, Step;
    Members(cfg, run);
    var s := Final(run);
    SetVoter(cfg, s, c);
    if AllReady(cfg, s, c) {
      r := run;
    } else {
      var v :| v in cfg.voters.Ids() && v != c && !Ready(cfg, s, c, v);
      NotReady(cfg, s, c, v);
      SetFacts(cfg, s, c, v);
      if cfg.preVote {
        r := LearnTerm(cfg, run, c, v);
      } else {
        TwoVoters(cfg, c, v);
        TimeoutStands(cfg, c, s.nodes[c], QUIET);
        r := Act(cfg, run, c, ElectionTimeout);
        StaysSet(cfg, s, Final(r), c, c);
      }
      r := CatchUp(cfg, r, c, top);
    }
  }

  lemma SetVoter(cfg: Config, s: Cluster, c: nat)
    requires Set(cfg, s, c)
    ensures c in cfg.voters.Ids() && c in s.nodes
  {
  }

  // ---------------------------------------------------------------- elections

  function Ayes(got: set<nat>): (votes: map<nat, bool>)
    ensures votes.Keys == got
  {
    map v | v in got :: true
  }

  lemma AyesGrow(votes: map<nat, bool>, got: set<nat>, v: nat)
    requires votes == Ayes(got) && v !in got
    ensures WithAnswer(votes, v, true) == Ayes(got + {v}) && Granted(Ayes(got + {v})) == got + {v}
  {
  }

  lemma AyesOne(c: nat)
    ensures Ayes({c}) == map[c := true]
  {
  }

  lemma EveryoneIsQuorum(cfg: Config)
    ensures cfg.voters.IsQuorum(cfg.voters.Ids())
  {
    var j := cfg.voters;
    assert j.Ids() * j.incoming == j.incoming && j.Ids() * j.outgoing == j.outgoing;
  }

  /** Grants alone leave every election open. */
  lemma AyesHopeful(cfg: Config, got: set<nat>)
    requires got <= cfg.voters.Ids()
    ensures !Hopeless(cfg.voters, Ayes(got))
  {
    var more := Ayes(cfg.voters.Ids());
    assert Granted(more) == cfg.voters.Ids();
    EveryoneIsQuorum(cfg);
    assert Completes(Ayes(got), more);
  }

  /** Every other voter has been asked. */
  ghost predicate Asking(cfg: Config, s: Cluster, c: nat, n: Node, pre: bool) {
    forall v | v in cfg.voters.Ids() && v != c :: RequestTo(c, n, v, pre, false) in s.msgs
  }

  /** Every voter in the set is quiet and would vote for the candidate that c was as n. */
  ghost predicate Willing(cfg: Config, s: Cluster, c: nat, n: Node, ids: set<nat>) {
    forall v | v in ids :: v in s.nodes && s.nodes[v].role != Leader && Grants(cfg, s.nodes[v], RequestTo(c, n, v, false, false), QUIET)
  }

  /** c as a pre-candidate with these grants. */
  ghost predicate PreStanding(cfg: Config, s: Cluster, c: nat, n: Node, got: set<nat>) {
    && c in s.nodes && s.nodes[c] == n.(role := PreCandidate, votes := Ayes(got), leader := NONE)
    && c in got && got <= cfg.voters.Ids() && !cfg.voters.IsQuorum(got) && Asking(cfg, s, c, n, true)
  }

  /** c as a candidate with these grants. */
  ghost predicate Standing(cfg: Config, s: Cluster, c: nat, n: Node, got: set<nat>) {
    && c in s.nodes && c in got && got <= cfg.voters.Ids() && !cfg.voters.IsQuorum(got) && Asking(cfg, s, c, n, false)
    && var k := s.nodes[c];
       && k.role == Candidate && k.term == n.term + 1 && k.votes == Ayes(got) && k.log == n.log && k.persisted == n.persisted
  }

  /** One voter is asked for its pre-vote and grants it; no node changes. */
  lemma AskPreVote(cfg: Config, run: seq<Cluster>, c: nat, n: Node, v: nat) returns (r: seq<Cluster>)
    requires IsRun(cfg, run) && v in Final(run).nodes && Grants(cfg, Final(run).nodes[v], RequestTo(c, n, v, false, false), QUIET)
    requires RequestTo(c, n, v, true, false) in Final(run).msgs
    ensures IsRun(cfg, r) && run <= r && r != [] && Final(r).nodes == Final(run).nodes && Final(run).msgs <= Final(r).msgs
    ensures VoteResponse(v, c, n.term + 1, true, false, 0, 0) in Final(r).msgs
  {
    hide IsRun, Handle, Step, Grants;
    Members(cfg, run);
    var s := Final(run);
    var m := RequestTo(c, n, v, true, false);
    SameGrants(cfg, s.nodes[v], c, n, v);
    VoteGranted(cfg, v, s.nodes[v], m, QUIET);
    HandlesDeliver(cfg, v, s.nodes[v], m);
    r := Act(cfg, run, v, Deliver(m));
  }

  /** What the pre-candidate does with it. */
  lemma PreVoteCounts(cfg: Config, s: Cluster, s': Cluster, c: nat, n: Node, got: set<nat>, v: nat)
    requires PreStanding(cfg, s, c, n, got) && v in cfg.voters.Ids() && v !in got && !cfg.voters.IsQuorum({c})
    requires var e := Step(cfg, c, s.nodes[c], VoteResponse(v, c, n.term + 1, true, false, 0, 0), QUIET);
             e.Effect? ==> s' == Cluster(s.nodes[c := e.node], s.msgs + e.out)
    ensures Step(cfg, c, s.nodes[c], VoteResponse(v, c, n.term + 1, true, false, 0, 0), QUIET).Effect?
    ensures if cfg.voters.IsQuorum(got + {v}) then Standing(cfg, s', c, n, {c}) else PreStanding(cfg, s', c, n, got + {v})
  {
    hide Step, Joint.IsQuorum, Hopeless, Granted, Completes, Ayes, Joint.Ids;
    PreAnswerDecides(cfg, c, s.nodes[c], VoteResponse(v, c, n.term + 1, true, false, 0, 0), QUIET);
    AyesGrow(s.nodes[c].votes, got, v);
    AyesHopeful(cfg, got + {v});
    AyesOne(c);
  }

  lemma PreVoteOf(cfg: Config, run: seq<Cluster>, c: nat, n: Node, got: set<nat>, v: nat) returns (r: seq<Cluster>)
    requires IsRun(cfg, run) && PreStanding(cfg, Final(run), c, n, got) && !cfg.voters.IsQuorum({c})
    requires Willing(cfg, Final(run), c, n, cfg.voters.Ids() - {c}) && v in cfg.voters.Ids() && v !in got
    ensures IsRun(cfg, r) && run <= r && r != [] && Willing(cfg, Final(r), c, n, cfg.voters.Ids() - {c})
    ensures if cfg.voters.IsQuorum(got + {v}) then Standing(cfg, Final(r), c, n, {c}) else PreStanding(cfg, Final(r), c, n, got + {v})
  {
    hide IsRun, Handle, Step, Grants, Joint.IsQuorum, Standing, Joint.Ids, Ayes;
    Members(cfg, run);
    var r1 := AskPreVote(cfg, run, c, n, v);
    var s, a := Final(r1), VoteResponse(v, c, n.term + 1, true, false, 0, 0);
    var e := Step(cfg, c, s.nodes[c], a, QUIET);
    PreVoteCounts(cfg, s, if e.Effect? then Cluster(s.nodes[c := e.node], s.msgs + e.out) else s, c, n, got, v);
    HandlesDeliver(cfg, c, s.nodes[c], a);
    r := Act(cfg, r1, c, Deliver(a));
  }

  /** Pre-votes are collected until a quorum is in favour. */
  lemma {:induction false} CollectPreVotes(cfg: Config, run: seq<Cluster>, c: nat, n: Node, got: set<nat>) returns (r: seq<Cluster>)
    requires IsRun(cfg, run) && PreStanding(cfg, Final(run), c, n, got) && !cfg.voters.IsQuorum({c})
    requires Willing(cfg, Final(run), c, n, cfg.voters.Ids() - {c})
    ensures IsRun(cfg, r) && run <= r && r != [] && Standing(cfg, Final(r), c, n, {c})
    ensures Willing(cfg, Final(r), c, n, cfg.voters.Ids() - {c})
    decreases cfg.voters.Ids() - got
  {
    hide IsRun, Willing, Joint.IsQuorum, Asking, Standing, Joint.Ids;
    Members(cfg, run);
    var v := NextVoter(cfg, got);
    r := PreVoteOf(cfg, run, c, n, got, v);
    if !cfg.voters.IsQuorum(got + {v}) {
      r := CollectPreVotes(cfg, r, c, n, got + {v});
    }
  }

  lemma SameGrants(cfg: Config, voter: Node, c: nat, n: Node, v: nat)
    ensures Grants(cfg, voter, RequestTo(c, n, v, true, false), QUIET) == Grants(cfg, voter, RequestTo(c, n, v, false, false), QUIET)
  {
  }

  /** As long as there is no quorum, someone has not been asked. */
  lemma NextVoter(cfg: Config, got: set<nat>) returns (v: nat)
    requires got <= cfg.voters.Ids() && !cfg.voters.IsQuorum(got)
    ensures v in cfg.voters.Ids() && v !in got
  {
    EveryoneIsQuorum(cfg);
    var rest := cfg.voters.Ids() - got;
    assert cfg.voters.Ids() == got + rest;
    assert rest == {} ==> got + rest == got;
    v :| v in rest;
  }

  /** The outcome of an election: c leads, and no other voter leads or is ahead. */
  ghost predicate Reigns(cfg: Config, s: Cluster, c: nat) {
    && c in cfg.voters.Ids() && c in s.nodes && s.nodes[c].role == Leader && s.nodes[c].term > 0
    && LastTerm(s.nodes[c].log) == s.nodes[c].term && s.nodes[c].persisted < |s.nodes[c].log|
    && s.nodes[c].matched.Keys == cfg.members
    && forall v | v in cfg.voters.Ids() && v != c ::
         && v in s.nodes && s.nodes[v].role != Leader && s.nodes[v].term <= s.nodes[c].term
  }

  /** The leader has heard from nobody yet but itself. */
  ghost predicate Unheard(cfg: Config, n: Node, c: nat) {
    forall v | v in n.matched :: n.matched[v] == if v == c then n.persisted else 0
  }

  /** The voters that have granted their vote to the candidate of the next term. */
  ghost predicate Voted(s: Cluster, c: nat, n: Node, got: set<nat>) {
    forall v | v in got && v != c :: v in s.nodes && s.nodes[v].role != Leader && s.nodes[v].term == n.term + 1
  }

  /** c leads the term after that of n. */
  ghost predicate LeadsFrom(cfg: Config, s: Cluster, c: nat, n: Node) {
    && Reigns(cfg, s, c) && Unheard(cfg, s.nodes[c], c) && s.nodes[c].log == n.log + [Entry(|n.log| + 1, n.term + 1, "")]
  }

  /** One voter is asked for its vote and grants it. */
  lemma AskVote(cfg: Config, run: seq<Cluster>, c: nat, n: Node, v: nat) returns (r: seq<Cluster>)
    requires IsRun(cfg, run) && v in Final(run).nodes && Grants(cfg, Final(run).nodes[v], RequestTo(c, n, v, false, false), QUIET)
    requires RequestTo(c, n, v, false, false) in Final(run).msgs && Final(run).nodes[v].role != Leader
    ensures IsRun(cfg, r) && run <= r && r != [] && v in Final(r).nodes
    ensures Final(r).nodes == Final(run).nodes[v := Final(r).nodes[v]] && Final(run).msgs <= Final(r).msgs
    ensures Final(r).nodes[v].role != Leader && Final(r).nodes[v].term == n.term + 1
    ensures VoteResponse(v, c, n.term + 1, false, false, 0, 0) in Final(r).msgs
  {
    hide IsRun, Handle, Step, Grants;
    Members(cfg, run);
    var s := Final(run);
    var m := RequestTo(c, n, v, false, false);
    GrantTerm(cfg, s.nodes[v], c, n, v);
    VoteGranted(cfg, v, s.nodes[v], m, QUIET);
    HandlesDeliver(cfg, v, s.nodes[v], m);
    r := Act(cfg, run, v, Deliver(m));
  }

  /** What the candidate does with it. */
  lemma VoteCounts(cfg: Config, k: Node, c: nat, n: Node, got: set<nat>, v: nat)
    requires k.role == Candidate && k.term == n.term + 1 && k.votes == Ayes(got) && got <= cfg.voters.Ids() && v in cfg.voters.Ids() && v !in got
    ensures var e := Step(cfg, c, k, VoteResponse(v, c, n.term + 1, false, false, 0, 0), QUIET);
            && e.Effect? && e.node.term == k.term
            && if cfg.voters.IsQuorum(got + {v}) then Leads(cfg, c, k, e.node)
               else e.node == k.(votes := Ayes(got + {v}))
  {
    hide Step, Joint.IsQuorum, Hopeless, Granted, Completes, Leads, Ayes;
    AnswerDecides(cfg, c, k, VoteResponse(v, c, n.term + 1, false, false, 0, 0), QUIET);
    AyesGrow(k.votes, got, v);
    AyesHopeful(cfg, got + {v});
  }

  lemma VoteOf(cfg: Config, run: seq<Cluster>, c: nat, n: Node, got: set<nat>, v: nat) returns (r: seq<Cluster>)
    requires IsRun(cfg, run) && Standing(cfg, Final(run), c, n, got) && n.persisted <= |n.log|
    requires Willing(cfg, Final(run), c, n, cfg.voters.Ids() - got) && Voted(Final(run), c, n, got) && v in cfg.voters.Ids() - got
    ensures IsRun(cfg, r) && run <= r && r != []
    ensures if cfg.voters.IsQuorum(got + {v}) then LeadsFrom(cfg, Final(r), c, n)
            else && Standing(cfg, Final(r), c, n, got + {v}) && Voted(Final(r), c, n, got + {v})
                 && Willing(cfg, Final(r), c, n, cfg.voters.Ids() - (got + {v}))
  {
    hide IsRun, Handle, Step, Grants, Joint.IsQuorum, Joint.Ids, Reigns, Ayes, Standing, Willing, Voted, Asking, Leads, LeadsFrom;
    Members(cfg, run);
    var s := Final(run);
    ToAsk(cfg, s, c, n, got, v);
    var r1 := AskVote(cfg, run, c, n, v);
    var a := VoteResponse(v, c, n.term + 1, false, false, 0, 0);
    VoteCounts(cfg, s.nodes[c], c, n, got, v);
    HandlesDeliver(cfg, c, s.nodes[c], a);
    r := Act(cfg, r1, c, Deliver(a));
    if cfg.voters.IsQuorum(got + {v}) {
      Crowned(cfg, s, Final(r1), Final(r), c, n, got, v);
    } else {
      StillStanding(cfg, s, Final(r1), Final(r), c, n, got, v);
    }
  }

  /** Votes are collected until a quorum has granted them. */
  lemma {:induction false} CollectVotes(cfg: Config, run: seq<Cluster>, c: nat, n: Node, got: set<nat>) returns (r: seq<Cluster>)
    requires IsRun(cfg, run) && Standing(cfg, Final(run), c, n, got) && n.persisted <= |n.log|
    requires Willing(cfg, Final(run), c, n, cfg.voters.Ids() - got) && Voted(Final(run), c, n, got)
    ensures IsRun(cfg, r) && run <= r && r != [] && LeadsFrom(cfg, Final(r), c, n)
    decreases cfg.voters.Ids() - got
  {
    hide IsRun, Willing, Joint.IsQuorum, Asking, LeadsFrom, Voted, Joint.Ids;
    Members(cfg, run);
    var v := NextVoter(cfg, got);
    r := VoteOf(cfg, run, c, n, got, v);
    if !cfg.voters.IsQuorum(got + {v}) {
      r := CollectVotes(cfg, r, c, n, got + {v});
    }
  }

  lemma GrantTerm(cfg: Config, voter: Node, c: nat, n: Node, v: nat)
    requires Grants(cfg, voter, RequestTo(c, n, v, false, false), QUIET)
    ensures voter.term <= n.term + 1
  {
  }

  /** A voter that c has not heard from yet, and c itself. */
  lemma ToAsk(cfg: Config, s: Cluster, c: nat, n: Node, got: set<nat>, v: nat)
    requires Standing(cfg, s, c, n, got) && Willing(cfg, s, c, n, cfg.voters.Ids() - got) && v in cfg.voters.Ids() - got
    ensures v in s.nodes && s.nodes[v].role != Leader && Grants(cfg, s.nodes[v], RequestTo(c, n, v, false, false), QUIET)
    ensures v != c && RequestTo(c, n, v, false, false) in s.msgs && c in s.nodes && got <= cfg.voters.Ids()
    ensures s.nodes[c].role == Candidate && s.nodes[c].term == n.term + 1 && s.nodes[c].votes == Ayes(got)
  {
    hide Grants, Joint.IsQuorum, Joint.Ids, Ayes;
  }

  lemma StillStanding(cfg: Config, s: Cluster, s1: Cluster, s2: Cluster, c: nat, n: Node, got: set<nat>, v: nat)
    requires Standing(cfg, s, c, n, got) && Voted(s, c, n, got) && s.msgs <= s2.msgs
    requires Willing(cfg, s, c, n, cfg.voters.Ids() - got) && v in cfg.voters.Ids() - got && !cfg.voters.IsQuorum(got + {v})
    requires v in s1.nodes && s1.nodes == s.nodes[v := s1.nodes[v]] && s1.nodes[v].role != Leader && s1.nodes[v].term == n.term + 1
    requires s2.nodes == s1.nodes[c := s.nodes[c].(votes := Ayes(got + {v}))]
    ensures Standing(cfg, s2, c, n, got + {v}) && Voted(s2, c, n, got + {v}) && Willing(cfg, s2, c, n, cfg.voters.Ids() - (got + {v}))
  {
    hide Grants, Joint.IsQuorum, Joint.Ids, Ayes;
  }

  lemma Crowned(cfg: Config, s: Cluster, s1: Cluster, s2: Cluster, c: nat, n: Node, got: set<nat>, v: nat)
    requires cfg.Valid() && cfg.voters.Ids() <= s.nodes.Keys && Standing(cfg, s, c, n, got) && n.persisted <= |n.log|
    requires Willing(cfg, s, c, n, cfg.voters.Ids() - got) && v in cfg.voters.Ids() - got
    requires Voted(s, c, n, got)
    requires v in s1.nodes && s1.nodes == s.nodes[v := s1.nodes[v]] && s1.nodes[v].role != Leader && s1.nodes[v].term == n.term + 1
    requires c in s2.nodes && s2.nodes == s1.nodes[c := s2.nodes[c]] && Leads(cfg, c, s.nodes[c], s2.nodes[c]) && s2.nodes[c].term == n.term + 1
    ensures LeadsFrom(cfg, s2, c, n)
  {
    hide Grants, Joint.IsQuorum, Asking;
    forall w | w in cfg.voters.Ids() && w != c
      ensures w in s2.nodes && s2.nodes[w].role != Leader && s2.nodes[w].term <= s2.nodes[c].term
    {
      if w !in got {
        GrantTerm(cfg, s.nodes[w], c, n, w);
      }
    }
  }

  /** From quiet to a new leader of the term after c's. */
  lemma Elect(cfg: Config, run: seq<Cluster>, c: nat) returns (r: seq<Cluster>)
    requires IsRun(cfg, run) && Set(cfg, Final(run), c) && AllReady(cfg, Final(run), c)
    ensures IsRun(cfg, r) && run <= r && r != [] && Reigns(cfg, Final(r), c) && Unheard(cfg, Final(r).nodes[c], c)
    ensures |Final(r).nodes[c].log| == |Final(run).nodes[c].log| + 1
  {
    hide IsRun, Handle, Step, Grants, Joint.IsQuorum, Best, Joint.Ids;
    Members(cfg, run);
    var s := Final(run);
    var n := s.nodes[c];
    CursorsInLog(cfg, run, c);
    TimeoutStands(cfg, c, n, QUIET);
    r := Act(cfg, run, c, ElectionTimeout);
    if cfg.voters.IsQuorum({c}) {
      Alone(cfg, c);
    } else {
      if cfg.preVote {
        AyesOne(c);
        r := CollectPreVotes(cfg, r, c, n, {c});
      } else {
        AyesOne(c);
      }
      r := CollectVotes(cfg, r, c, n, {c});
    }
  }

  lemma Alone(cfg: Config, c: nat)
    requires c in cfg.voters.Ids() && cfg.voters.IsQuorum({c})
    ensures forall v | v in cfg.voters.Ids() :: v == c
  {
    forall v | v in cfg.voters.Ids() ensures v == c {
      if v != c {
        TwoVoters(cfg, c, v);
      }
    }
  }

  lemma CursorsInLog(cfg: Config, run: seq<Cluster>, c: nat)
    requires IsRun(cfg, run) && c in cfg.members
    ensures c in Final(run).nodes
    ensures var n := Final(run).nodes[c]; n.persisted <= |n.log| && n.committed <= |n.log|
  {
    hide HistoryInv, RecordInv, AckInv, GoodLog;
    var hs := RunExplained(cfg, run);
    assert Inv(cfg, run[|run| - 1], hs[|run| - 1]);
  }

  // ---------------------------------------------------------------- replication

  /** The leader's log has everything that any voter has committed. */
  lemma LeaderHasCommitted(cfg: Config, run: seq<Cluster>, c: nat, v: nat)
    requires IsRun(cfg, run) && Reigns(cfg, Final(run), c) && v in cfg.voters.Ids() && v != c
    ensures var l, n := Final(run).nodes[c], Final(run).nodes[v];
            && n.committed <= |l.log| && n.committed <= |n.log| && TermAt(n.log, n.committed) == TermAt(l.log, n.committed)
            && Numbered(l.log) && Backtrack.Sorted(l.log)
  {
    hide HistoryInv, NodeInv, IsRun, Backtrack.Sorted, RaftHistory.Numbered, TermAt;
    Members(cfg, run);
    var i := |run| - 1;
    var hs := RunExplained(cfg, run);
    assert Inv(cfg, run[i], hs[i]);
    DecidedBefore(cfg, run[i], hs[i], c);
    HasCommitted(cfg, hs[i], c, run[i].nodes[c], v, run[i].nodes[v]);
  }

  lemma HasCommitted(cfg: Config, h: History, c: nat, l: Node, v: nat, n: Node)
    requires HistoryInv(cfg, h) && NodeInv(cfg, h, c, l) && l.role == Leader && NodeInv(cfg, h, v, n) && LastTerm(h.decided) <= l.term
    ensures n.committed <= |l.log| && n.committed <= |n.log| && TermAt(n.log, n.committed) == TermAt(l.log, n.committed)
    ensures RaftHistory.Numbered(l.log) && Backtrack.Sorted(l.log)
  {
    hide HistoryInv, RecordInv, AckInv, GoodLog, Backtrack.Sorted, RaftHistory.Numbered;
    DecidedInLaterLeaders(cfg, h, l.term);
    RaftRuns.ReignLog(cfg, h, l.term);
    assert n.log[..n.committed] <= l.log;
    if n.committed > 0 {
      assert n.log[n.committed - 1] == n.log[..n.committed][n.committed - 1] == l.log[n.committed - 1];
    }
  }

  /** Whatever is decided was acknowledged by a voter, which is not ahead of the leader. */
  lemma DecidedBefore(cfg: Config, s: Cluster, h: History, c: nat)
    requires Inv(cfg, s, h) && Reigns(cfg, s, c)
    ensures LastTerm(h.decided) <= s.nodes[c].term
  {
    DecidedFacts(cfg, h);
    hide HistoryInv, LogInv, RecordInv, LeaderInv, CandidateInv, Kept;
    if h.decided != [] {
      var d := LastTerm(h.decided);
      var ackers := Ackers(h, d, |h.decided|);
      var w := QuorumMember(cfg, ackers);
      var a :| a in h.acks && a.term == d && a.node == w;
      assert NodeInv(cfg, h, w, s.nodes[w]);
      assert StillHolds(h.reigns, s.nodes[w].term, s.nodes[w].committed, s.nodes[w].log, a);
    }
  }

  lemma QuorumMember(cfg: Config, q: set<nat>) returns (w: nat)
    requires cfg.voters.IsQuorum(q) && cfg.voters.incoming != {}
    ensures w in q && w in cfg.voters.Ids()
  {
    assert q * cfg.voters.incoming != {};
    w :| w in q * cfg.voters.incoming;
  }

  /** The leader has the acknowledgement of its whole log from these voters. */
  ghost predicate AckedAll(l: Node, ids: set<nat>) {
    forall v | v in ids :: v in l.matched && l.matched[v] == |l.log|
  }

  /** The rest of the log goes to one voter, which takes it and acknowledges it. */
  lemma ReplicateTo(cfg: Config, run: seq<Cluster>, c: nat, v: nat) returns (r: seq<Cluster>)
    requires IsRun(cfg, run) && Reigns(cfg, Final(run), c) && v in cfg.voters.Ids() && v != c && Final(run).nodes[c].matched[v] == 0
    ensures IsRun(cfg, r) && run <= r && r != [] && Reigns(cfg, Final(r), c)
    ensures var l := Final(run).nodes[c];
            Final(r).nodes[c] == l.(matched := l.matched[v := |l.log|], committed := Final(r).nodes[c].committed)
  {
    hide IsRun, Handle, Step, Joint.Ids, Backtrack.Sorted, FlatLog.WellFormed, RaftHistory.Numbered;
    Members(cfg, run);
    var s := Final(run);
    var l, n := s.nodes[c], s.nodes[v];
    LeaderHasCommitted(cfg, run, c, v);
    var prev, count := n.committed, |l.log| - n.committed;
    var m := Append(c, v, l.term, prev, TermAt(l.log, prev), l.log[prev..prev + count], l.committed);
    Sends(cfg, c, l, v, prev, count);
    var r1 := Act(cfg, run, c, SendAppend(v, prev + 1, count));
    RaftRuns.SliceFits(l.log, PlainLog.PlainOf(n.log), prev, count);
    AppendAdopted(cfg, v, n, m, QUIET);
    HandlesDeliver(cfg, v, n, m);
    assert Final(r1).nodes == s.nodes;
    var r2 := Act(cfg, r1, v, Deliver(m));
    var a := AppendResponse(v, c, l.term, |l.log|, false, 0, 0, Final(r2).nodes[v].committed);
    AcknowledgementKeepsLeading(cfg, c, l, a, QUIET);
    HandlesDeliver(cfg, c, l, a);
    r := Act(cfg, r2, c, Deliver(a));
  }

  lemma Sends(cfg: Config, c: nat, l: Node, v: nat, prev: nat, count: nat)
    requires l.role == Leader && v in l.matched && v != c && prev + count == |l.log|
    ensures Enabled(cfg, c, l, SendAppend(v, prev + 1, count))
    ensures Handle(cfg, c, l, SendAppend(v, prev + 1, count), QUIET)
              == Effect(l, {Append(c, v, l.term, prev, TermAt(l.log, prev), l.log[prev..prev + count], l.committed)})
  {
  }

  lemma {:induction false} ReplicateToAll(cfg: Config, run: seq<Cluster>, c: nat, todo: set<nat>) returns (r: seq<Cluster>)
    requires IsRun(cfg, run) && Reigns(cfg, Final(run), c) && todo <= cfg.voters.Ids() - {c}
    requires forall v | v in todo :: v in Final(run).nodes[c].matched && Final(run).nodes[c].matched[v] == 0
    ensures IsRun(cfg, r) && run <= r && r != [] && Reigns(cfg, Final(r), c) && AckedAll(Final(r).nodes[c], todo)
    ensures var l := Final(run).nodes[c];
            Final(r).nodes[c] == l.(matched := Final(r).nodes[c].matched, committed := Final(r).nodes[c].committed)
    ensures forall v | v in Final(run).nodes[c].matched && v !in todo ::
              v in Final(r).nodes[c].matched && Final(r).nodes[c].matched[v] == Final(run).nodes[c].matched[v]
    decreases todo
  {
    hide IsRun, Reigns;
    Members(cfg, run);
    assert c in Final(run).nodes by { ReignFacts(cfg, Final(run), c); }
    if todo == {} {
      r := run;
    } else {
      var v :| v in todo;
      var r1 := ReplicateTo(cfg, run, c, v);
      r := ReplicateToAll(cfg, r1, c, todo - {v});
    }
  }

  lemma ReignFacts(cfg: Config, s: Cluster, c: nat)
    requires Reigns(cfg, s, c)
    ensures c in s.nodes
  {
  }

  // ---------------------------------------------------------------- the theorem

  /** An index that every voter has acknowledged is reached, and one that none has is not. */
  lemma AllReached(cfg: Config, matched: map<nat, nat>, last: nat)
    requires cfg.Valid() && forall v | v in cfg.voters.Ids() :: v in matched && matched[v] == last
    ensures Reached(cfg, matched, last) && !Reached(cfg, matched, last + 1)
  {
    var acks: Acks := map v | v in matched :: Index(matched[v], if v in cfg.groups then cfg.groups[v] else 0);
    AllSupported(cfg.voters.incoming, acks, cfg.groupCommit, last);
    if cfg.voters.outgoing != {} {
      AllSupported(cfg.voters.outgoing, acks, cfg.groupCommit, last);
    }
  }

  lemma AllSupported(voters: set<nat>, acks: Acks, useGroups: bool, last: nat)
    requires voters != {} && forall v | v in voters :: AckOf(acks, v).index == last
    ensures Supported(voters, acks, useGroups, last) && !Supported(voters, acks, useGroups, last + 1)
  {
    assert AckedAtLeast(voters, acks, last) == voters;
    CeilingUnsupported(voters, acks, useGroups, last + 1);
  }

  /** A voter leads, no voter is ahead of it, and its whole log is committed, down to an entry of its term. */
  ghost predicate Leading(cfg: Config, s: Cluster, c: nat) {
    && c in cfg.voters.Ids() && c in s.nodes && s.nodes[c].role == Leader
    && s.nodes[c].log != [] && LastTerm(s.nodes[c].log) == s.nodes[c].term && s.nodes[c].committed == |s.nodes[c].log|
    && forall v | v in cfg.voters.Ids() :: v in s.nodes && s.nodes[v].term <= s.nodes[c].term
  }

  /**
    From every state of every run there is a way on to a leader that has committed its whole log,
    with an entry of its own new term at the end: with any voters, joint or not, with or without
    pre-votes, leases and group commit, whatever the terms, logs, votes and roles are now.
    Indices are 64-bit numbers, so the logs must leave room for the entry.
   */
  lemma NeverStuck(cfg: Config, run: seq<Cluster>) returns (r: seq<Cluster>, c: nat)
    requires IsRun(cfg, run) && forall v | v in Final(run).nodes :: |Final(run).nodes[v].log| + 1 < MAX_U64
    ensures IsRun(cfg, r) && run <= r && r != [] && Leading(cfg, Final(r), c)
  {
    hide IsRun, Handle, Best, AllReady, Reigns, Unheard, Leading;
    Members(cfg, run);
    r := CalmDown(cfg, run, {});
    Members(cfg, r);
    c := PickBest(Final(r), cfg.voters.Ids());
    var top := TopTerm(Final(r), cfg.voters.Ids());
    r := CatchUp(cfg, r, c, top);
    r := Elect(cfg, r, c);
    r := CommitAll(cfg, r, c);
  }

  /** A new leader sends its log to every voter, persists it and commits it. */
  lemma CommitAll(cfg: Config, run: seq<Cluster>, c: nat) returns (r: seq<Cluster>)
    requires IsRun(cfg, run) && Reigns(cfg, Final(run), c) && Unheard(cfg, Final(run).nodes[c], c)
    requires |Final(run).nodes[c].log| < MAX_U64
    ensures IsRun(cfg, r) && run <= r && r != [] && Leading(cfg, Final(r), c)
  {
    hide IsRun, Handle, Reached;
    Members(cfg, run);
    r := ReplicateToAll(cfg, run, c, cfg.voters.Ids() - {c});
    Members(cfg, r);
    var l := Final(r).nodes[c];
    var last := |l.log|;
    CursorsInLog(cfg, r, c);
    AllReached(cfg, l.matched[c := last], last);
    PersistenceCommits(cfg, c, l, last, QUIET, last);
    r := Act(cfg, r, c, Persisted(last));
  }

  lemma {:induction false} TopTerm(s: Cluster, ids: set<nat>) returns (top: nat)
    requires ids <= s.nodes.Keys
    ensures forall v | v in ids :: s.nodes[v].term <= top
    decreases ids
  {
    if ids == {} {
      top := 0;
    } else {
      var v :| v in ids;
      var t := TopTerm(s, ids - {v});
      top := Max(t, s.nodes[v].term);
      assert forall w | w in ids :: w == v || w in ids - {v};
    }
  }

  /** In particular every cluster, of any voters, can elect its first leader and commit its first entry. */
  lemma StartsUp(cfg: Config) returns (r: seq<Cluster>, c: nat)
    requires cfg.Valid()
    ensures IsRun(cfg, r) && r != [] && Leading(cfg, Final(r), c)
  {
    var members := cfg.members;
    var fresh_ := Node(0, NONE, Follower, NONE, map[], [], 0, 0, map i | i in members :: 0, 0);
    var s := Cluster(map i | i in members :: fresh_, {});
    assert Initial(cfg, s);
    r, c := NeverStuck(cfg, [s]);
  }

  const THREE := Config(Joint({1, 2, 3}, {}), {1, 2, 3}, false, map[], true, true)

  /** With three voters a leader needs the votes of its peers, and their acknowledgements. */
  lemma ThreeVotersCommit() returns (r: seq<Cluster>, c: nat)
    ensures IsRun(THREE, r) && r != [] && Leading(THREE, Final(r), c)
    ensures !THREE.voters.IsQuorum({c})
  {
    assert 1 in THREE.voters.Ids() && 2 in THREE.voters.Ids();
    r, c := StartsUp(THREE);
    TwoVoters(THREE, c, if c == 1 then 2 else 1);
  }
}
