/** What a step does to a node, told without the functions that compute it: who votes, who wins, what commits. */
module RaftEffects {
  import opened Types
  import opened Quorum
  import opened RaftNode
  import Backtrack
  import FlatLog
  import PlainLog

  // ---------------------------------------------------------------- votes

  /** A node with a live leader leaves requests of later terms alone while its lease lasts. */
  predicate Sheltered(cfg: Config, n: Node, m: Msg, o: Oracle)
    requires m.RequestVote?
  {
    m.term > n.term && !m.force && cfg.checkQuorum && n.leader != NONE && o.inLease
  }

  /**
    When a vote or pre-vote is granted: the request is not of an older term, the vote of its
    term is not given to anyone else, the candidate's log is at least as good, and the voter
    does not prefer itself.
   */
  predicate Grants(cfg: Config, n: Node, m: Msg, o: Oracle)
    requires m.RequestVote?
  {
    && m.term >= n.term && !Sheltered(cfg, n, m, o)
    && (m.term > n.term || n.vote == m.from || (n.vote == NONE && n.leader == NONE))
    && (m.lastTerm > LastTerm(n.log) || (m.lastTerm == LastTerm(n.log) && m.lastIndex >= |n.log|))
    && (m.lastIndex > |n.log| || n.priority <= m.priority)
  }

  /** A grant carries the request's term and, for a real vote, is recorded. */
  lemma VoteGranted(cfg: Config, id: nat, n: Node, m: Msg, o: Oracle)
    requires m.RequestVote? && Grants(cfg, n, m, o)
    ensures var e := Step(cfg, id, n, m, o);
            && e.Effect? && e.out == {VoteResponse(id, m.from, m.term, m.pre, false, 0, 0)}
            && (m.pre ==> e.node == n)
            && (!m.pre ==> e.node.term == m.term && e.node.vote == m.from)
            && e.node.log == n.log && e.node.committed == n.committed && e.node.persisted == n.persisted && e.node.priority == n.priority
            && (!m.pre && m.term == n.term ==> e.node == n.(vote := m.from))
            && (!m.pre && m.term > n.term ==> e.node.role == Follower && e.node.leader == NONE)
  {
  }

  /** Any other request gets no grant and no vote, and a refusal unless it is ignored. */
  lemma VoteRefused(cfg: Config, id: nat, n: Node, m: Msg, o: Oracle)
    requires m.RequestVote? && !Grants(cfg, n, m, o)
    ensures var e := Step(cfg, id, n, m, o);
            var keeps := m.pre || m.term <= n.term || Sheltered(cfg, n, m, o);
            && (n.term > 0 ==> e.Effect?) && (Sheltered(cfg, n, m, o) ==> e == Effect(n, {}))
            && (e.Effect? ==>
              && (forall r | r in e.out :: r.VoteResponse? && r.reject && r.to == m.from && r.term == e.node.term && r.pre == m.pre)
              && (e.out == {} <==> Sheltered(cfg, n, m, o) || (m.term < n.term && !m.pre))
              && e.node.vote == (if keeps then n.vote else NONE) && e.node.term == (if keeps then n.term else m.term)
              && e.node.log == n.log && e.node.committed >= n.committed && e.node.priority == n.priority
              && (e.node.role == Leader ==> n.role == Leader))
  {
    hide HandleRequestVote;
    if m.term >= n.term && !Sheltered(cfg, n, m, o) {
      RefusedSettled(cfg, id, if m.term > n.term && !m.pre then BecomeFollower(cfg, id, n, m.term, NONE) else n, m, o);
    }
  }

  lemma RefusedSettled(cfg: Config, id: nat, n: Node, m: Msg, o: Oracle)
    requires m.RequestVote? && m.term >= n.term && (m.pre || m.term == n.term)
    requires !Grants(cfg, n, m, Oracle(false, o.confPending))
    ensures var e := HandleRequestVote(cfg, id, n, m, o);
            && (n.term > 0 ==> e.Effect?)
            && (e.Effect? ==>
              && (exists r :: r in e.out)
              && (forall r | r in e.out :: r.VoteResponse? && r.reject && r.to == m.from && r.term == e.node.term && r.pre == m.pre)
              && e.node.vote == n.vote && e.node.log == n.log && e.node.committed >= n.committed && e.node.priority == n.priority
              && e.node.term == n.term && (e.node.role == Leader ==> n.role == Leader))
  {
    var e := HandleRequestVote(cfg, id, n, m, o);
    assert e.Effect? ==> VoteResponse(id, m.from, n.term, m.pre, true, n.committed, n.Term(n.committed)) in e.out;
  }

  /**
    A request that is refused still tells how far its sender has committed: a node that does not
    lead and has the very entry commits up to it.
   */
  lemma RefusalFastForwards(cfg: Config, id: nat, n: Node, m: Msg, o: Oracle)
    requires m.RequestVote? && m.term >= n.term && !Sheltered(cfg, n, m, o) && !Grants(cfg, n, m, o) && m.commitTerm > 0
    ensures var e := Step(cfg, id, n, m, o);
            var leads := n.role == Leader && (m.pre || m.term == n.term);
            e.Effect? ==>
              e.node.committed == if !leads && m.commit > n.committed && TermAt(n.log, m.commit) == m.commitTerm then m.commit else n.committed
  {
  }

  // ---------------------------------------------------------------- campaigns

  /** The request that a campaign sends to a voter. */
  function RequestTo(id: nat, n: Node, v: nat, pre: bool, force: bool): Msg {
    RequestVote(id, v, n.term + 1, pre, force, |n.log|, LastTerm(n.log), n.committed, TermAt(n.log, n.committed), n.priority)
  }

  /** A node that is no quorum of its own asks every other voter, and no one else. */
  predicate AsksAll(cfg: Config, id: nat, n: Node, out: set<Msg>, pre: bool, force: bool) {
    && (forall v | v in cfg.voters.Ids() && v != id :: RequestTo(id, n, v, pre, force) in out)
    && (forall m | m in out :: m.RequestVote? && m.to in cfg.voters.Ids() && m.to != id && m == RequestTo(id, n, m.to, pre, force))
  }

  /** A candidate of the next term that has voted for itself and asks the others. */
  predicate Stands(cfg: Config, id: nat, n: Node, e: Effect, force: bool) {
    && e.Effect? && e.node.role == Candidate && e.node.term == n.term + 1 && e.node.vote == id && e.node.leader == NONE
    && e.node.votes == map[id := true] && e.node.log == n.log && e.node.committed == n.committed && e.node.persisted == n.persisted
    && e.node.priority == n.priority && AsksAll(cfg, id, n, e.out, false, force)
  }

  /** A leader of the next term without anyone else's vote. */
  predicate LeadsAlone(cfg: Config, id: nat, n: Node, e: Effect) {
    e.Effect? && e.out == {} && e.node.term == n.term + 1 && e.node.vote == id && Leads(cfg, id, n, e.node)
  }

  /** A new leader: an empty entry of its term ends the log, and it knows of nobody's log but its own. */
  predicate Leads(cfg: Config, id: nat, n: Node, l: Node) {
    && l.role == Leader && l.leader == id && l.log == n.log + [Entry(|n.log| + 1, l.term, "")]
    && l.committed == n.committed && l.persisted == n.persisted && l.votes == map[] && l.priority == n.priority
    && l.matched.Keys == cfg.members && forall i | i in l.matched :: l.matched[i] == if i == id then n.persisted else 0
  }

  lemma OwnVote(cfg: Config, id: nat)
    requires id in cfg.voters.Ids()
    ensures cfg.voters.Vote(map[id := true]) == if cfg.voters.IsQuorum({id}) then Won else Pending
  {
    var votes := map[id := true];
    assert Granted(votes) == {id};
    WonIsQuorum(cfg.voters, votes);
    if cfg.voters.Vote(votes) == Lost {
      var more := map v | v in cfg.voters.Ids() :: true;
      assert Completes(votes, more);
      AllGrant(cfg.voters, more);
      LostIsHopeless(cfg.voters, votes);
    }
  }

  lemma AllGrant(joint: Joint, votes: map<nat, bool>)
    requires forall v | v in joint.Ids() :: v in votes && votes[v]
    ensures joint.Vote(votes) == Won
  {
    assert YesVoters(joint.incoming, votes) == joint.incoming && YesVoters(joint.outgoing, votes) == joint.outgoing;
  }

  lemma Asked(cfg: Config, id: nat, n: Node, c: Node, pre: bool, force: bool)
    requires c.log == n.log && c.committed == n.committed && c.priority == n.priority
    ensures AsksAll(cfg, id, n, VoteRequests(cfg, id, c, n.term + 1, pre, force), pre, force)
  {
    var out := VoteRequests(cfg, id, c, n.term + 1, pre, force);
    forall v | v in cfg.voters.Ids() && v != id ensures RequestTo(id, n, v, pre, force) in out {
      assert v in cfg.voters.Ids() - {id};
    }
  }

  lemma Stood(cfg: Config, id: nat, n: Node, transfer: bool)
    requires id in cfg.voters.Ids()
    ensures var e := Campaign(cfg, id, n, transfer);
            if cfg.voters.IsQuorum({id}) then LeadsAlone(cfg, id, n, e) else Stands(cfg, id, n, e, transfer)
  {
    hide Joint.Vote, Joint.IsQuorum, AsksAll, VoteRequests;
    OwnVote(cfg, id);
    var c := BecomeCandidate(cfg, id, n);
    assert RecordVote(c, id, true).votes == map[id := true];
    Asked(cfg, id, n, RecordVote(c, id, true), false, transfer);
    assert Stamp(|n.log|, n.term + 1, [""]) == [Entry(|n.log| + 1, n.term + 1, "")];
  }

  /**
    An election timeout of a voter that does not lead, with no configuration change to apply:
    it stands for election at once, or asks for pre-votes first and keeps its term and vote.
   */
  lemma TimeoutStands(cfg: Config, id: nat, n: Node, o: Oracle)
    requires id in cfg.voters.Ids() && n.role != Leader && !o.confPending
    ensures var e := Handle(cfg, id, n, ElectionTimeout, o);
            if cfg.voters.IsQuorum({id}) then LeadsAlone(cfg, id, n, e)
            else if cfg.preVote then
              && e.Effect? && e.node == n.(role := PreCandidate, votes := map[id := true], leader := NONE)
              && AsksAll(cfg, id, n, e.out, true, false)
            else Stands(cfg, id, n, e, false)
  {
    hide Joint.Vote, Joint.IsQuorum, Campaign, AsksAll, VoteRequests;
    OwnVote(cfg, id);
    Stood(cfg, id, n, false);
    var p := BecomePreCandidate(n);
    assert RecordVote(p, id, true).votes == map[id := true];
    Stood(cfg, id, RecordVote(p, id, true), false);
    Asked(cfg, id, n, RecordVote(p, id, true), true, false);
    var requests := VoteRequests(cfg, id, RecordVote(p, id, true), n.term + 1, true, false);
    assert {} + requests == requests;
  }

  /** Otherwise nothing happens. */
  lemma TimeoutIgnored(cfg: Config, id: nat, n: Node, o: Oracle)
    requires id !in cfg.voters.Ids() || n.role == Leader || o.confPending
    ensures Handle(cfg, id, n, ElectionTimeout, o) == Effect(n, {})
  {
  }

  /** A follower told by its leader to take over stands at once, and its requests break through leases. */
  lemma TransferStands(cfg: Config, id: nat, n: Node, m: Msg, o: Oracle)
    requires m.TimeoutNow? && m.term == n.term && n.role == Follower && id in cfg.voters.Ids() && !o.confPending
    ensures var e := Step(cfg, id, n, m, o);
            if cfg.voters.IsQuorum({id}) then LeadsAlone(cfg, id, n, e) else Stands(cfg, id, n, e, true)
  {
    hide Joint.Vote, Joint.IsQuorum, Campaign;
    Stood(cfg, id, n, true);
  }

  /** The answers so far and one more; a second answer of the same voter does not count. */
  function WithAnswer(votes: map<nat, bool>, from: nat, granted: bool): (r: map<nat, bool>)
    ensures Completes(votes, r) && from in r && (from !in votes ==> r[from] == granted) && r.Keys == votes.Keys + {from}
  {
    if from in votes then votes else votes[from := granted]
  }

  /** No answers still to come can make a quorum. */
  ghost predicate Hopeless(joint: Joint, votes: map<nat, bool>) {
    forall more | Completes(votes, more) :: !joint.IsQuorum(Granted(more))
  }

  lemma Decided(joint: Joint, votes: map<nat, bool>)
    ensures joint.Vote(votes) == Won <==> joint.IsQuorum(Granted(votes))
    ensures joint.Vote(votes) == Lost <==> Hopeless(joint, votes)
  {
    hide Joint.Vote, Joint.IsQuorum, Granted, Completes;
    WonIsQuorum(joint, votes);
    LostIsHopeless(joint, votes);
    forall more | Completes(votes, more) ensures joint.Vote(more) == Won <==> joint.IsQuorum(Granted(more)) {
      WonIsQuorum(joint, more);
    }
  }

  /** An answer tells of a commit that the node can follow: it has the very entry. */
  predicate Reports(n: Node, m: Msg)
    requires m.VoteResponse?
  {
    m.commitTerm > 0 && m.commit > n.committed && TermAt(n.log, m.commit) == m.commitTerm
  }

  /**
    An answer to a candidate: it leads as soon as a quorum has granted its vote, gives up as soon
    as that has become impossible, and waits otherwise.
   */
  lemma AnswerDecides(cfg: Config, id: nat, n: Node, m: Msg, o: Oracle)
    requires n.role == Candidate && m.VoteResponse? && !m.pre && m.term == n.term
    ensures var e, votes := Step(cfg, id, n, m, o), WithAnswer(n.votes, m.from, !m.reject);
            && e.Effect? && e.out == {} && e.node.term == n.term && e.node.vote == n.vote
            && (cfg.voters.IsQuorum(Granted(votes)) ==> Leads(cfg, id, n, e.node))
            && (Hopeless(cfg.voters, votes) ==> e.node.role == Follower && e.node.leader == NONE && e.node.log == n.log)
            && (!cfg.voters.IsQuorum(Granted(votes)) && !Hopeless(cfg.voters, votes) ==>
                  && e.node.committed == (if Reports(n, m) then m.commit else n.committed)
                  && (if Reports(n, m) && o.confPending then e.node.role == Follower && e.node.log == n.log
                      else e.node == n.(votes := votes, committed := e.node.committed)))
  {
    hide Joint.IsQuorum, Granted, Hopeless, PollCandidate, MaybeCommitByVote;
    Polled(cfg, id, n, m.from, !m.reject);
    Forwarded(cfg, id, PollCandidate(cfg, id, n, m.from, !m.reject), m, o);
  }

  lemma Polled(cfg: Config, id: nat, n: Node, from: nat, granted: bool)
    requires n.role == Candidate
    ensures var p, votes := PollCandidate(cfg, id, n, from, granted), WithAnswer(n.votes, from, granted);
            && p.term == n.term && p.vote == n.vote
            && (cfg.voters.IsQuorum(Granted(votes)) ==> Leads(cfg, id, n, p))
            && (Hopeless(cfg.voters, votes) ==> p.role == Follower && p.leader == NONE && p.log == n.log)
            && (!cfg.voters.IsQuorum(Granted(votes)) && !Hopeless(cfg.voters, votes) ==> p == n.(votes := votes))
  {
    hide Joint.Vote, Joint.IsQuorum, Granted, Hopeless, Completes;
    var votes := WithAnswer(n.votes, from, granted);
    Decided(cfg.voters, votes);
    assert RecordVote(n, from, granted).votes == votes;
    assert Stamp(|n.log|, n.term, [""]) == [Entry(|n.log| + 1, n.term, "")];
  }

  /** What the report in an answer does to a node that has counted the answer. */
  lemma Forwarded(cfg: Config, id: nat, p: Node, m: Msg, o: Oracle)
    requires m.VoteResponse?
    ensures var q := MaybeCommitByVote(cfg, id, p, m.commit, m.commitTerm, o);
            && (p.role == Leader ==> q == p)
            && (p.role == Follower ==> q == p.(committed := q.committed))
            && (p.role == Candidate ==>
                  && q.term == p.term && q.vote == p.vote && q.committed == (if Reports(p, m) then m.commit else p.committed)
                  && (if Reports(p, m) && o.confPending then q.role == Follower && q.log == p.log else q == p.(committed := q.committed)))
  {
  }

  /** An answer to a pre-candidate: it stands as soon as a quorum is in favour. */
  lemma PreAnswerDecides(cfg: Config, id: nat, n: Node, m: Msg, o: Oracle)
    requires n.role == PreCandidate && m.VoteResponse? && m.pre && !m.reject && m.term >= n.term && id in cfg.voters.Ids()
    requires m.commit == 0
    ensures var e, votes := Step(cfg, id, n, m, o), WithAnswer(n.votes, m.from, true);
            && (cfg.voters.IsQuorum(Granted(votes)) ==>
                  if cfg.voters.IsQuorum({id}) then LeadsAlone(cfg, id, n, e) else Stands(cfg, id, n, e, false))
            && (Hopeless(cfg.voters, votes) ==> e.Effect? && e.out == {} && e.node.role == Follower && e.node.term == n.term)
            && (!cfg.voters.IsQuorum(Granted(votes)) && !Hopeless(cfg.voters, votes) ==> e == Effect(n.(votes := votes), {}))
  {
    hide Joint.Vote, Joint.IsQuorum, Granted, Hopeless, Completes, Campaign;
    var votes := WithAnswer(n.votes, m.from, true);
    Decided(cfg.voters, votes);
    assert RecordVote(n, m.from, true).votes == votes;
    Stood(cfg, id, RecordVote(n, m.from, true), false);
  }

  /** A refusal of a pre-vote, in the node's own term: it gives up as soon as no quorum can be in favour any more. */
  lemma PreRefusalCounts(cfg: Config, id: nat, n: Node, m: Msg, o: Oracle)
    requires n.role == PreCandidate && m.VoteResponse? && m.pre && m.reject && m.term == n.term && !o.confPending
    requires !cfg.voters.IsQuorum(Granted(WithAnswer(n.votes, m.from, false)))
    ensures var e, votes := Step(cfg, id, n, m, o), WithAnswer(n.votes, m.from, false);
            && e.Effect? && e.out == {} && e.node.term == n.term && e.node.vote == n.vote && e.node.log == n.log
            && e.node.committed == (if Reports(n, m) then m.commit else n.committed)
            && (if Hopeless(cfg.voters, votes) then e.node.role == Follower && e.node.leader == NONE
                else e.node == n.(votes := votes, committed := e.node.committed))
  {
    hide Joint.Vote, Joint.IsQuorum, Granted, Hopeless, Completes, Campaign;
    var votes := WithAnswer(n.votes, m.from, false);
    Decided(cfg.voters, votes);
    assert RecordVote(n, m.from, false).votes == votes;
  }

  /** Answers that a node has not asked for, in its role and term, change nothing. */
  lemma StrayAnswersIgnored(cfg: Config, id: nat, n: Node, m: Msg, o: Oracle)
    requires m.term == n.term
    requires || (m.VoteResponse? && (n.role == Follower || n.role == Leader || m.pre != (n.role == PreCandidate)))
             || (m.AppendResponse? && n.role != Leader) || m.HeartbeatResponse?
             || ((m.TimeoutNow? || m.ReadIndexResponse?) && n.role != Follower)
    ensures Step(cfg, id, n, m, o) == Effect(n, {})
  {
  }

  // ---------------------------------------------------------------- commit

  /** Each half of the voters supports an index, given what the members have acknowledged. */
  predicate Reached(cfg: Config, matched: map<nat, nat>, i: nat) {
    var acks := map v | v in matched :: Index(matched[v], if v in cfg.groups then cfg.groups[v] else 0);
    && (cfg.voters.incoming != {} ==> Supported(cfg.voters.incoming, acks, cfg.groupCommit, i))
    && (cfg.voters.outgoing != {} ==> Supported(cfg.voters.outgoing, acks, cfg.groupCommit, i))
  }

  /** Without groups that is acknowledgement by a quorum. */
  lemma ReachedIsQuorum(cfg: Config, matched: map<nat, nat>, i: nat)
    requires !cfg.groupCommit
    ensures Reached(cfg, matched, i) <==> cfg.voters.IsQuorum(set v | v in cfg.voters.Ids() && (i == 0 || (v in matched && matched[v] >= i)))
  {
    hide Majority, AckedAtLeast;
    var all := set v | v in cfg.voters.Ids() && (i == 0 || (v in matched && matched[v] >= i));
    HalfReached(cfg, matched, i, cfg.voters.incoming, all);
    HalfReached(cfg, matched, i, cfg.voters.outgoing, all);
  }

  lemma HalfReached(cfg: Config, matched: map<nat, nat>, i: nat, half: set<nat>, all: set<nat>)
    requires half <= cfg.voters.Ids() && all == set v | v in cfg.voters.Ids() && (i == 0 || (v in matched && matched[v] >= i))
    ensures var acks: Acks := map v | v in matched :: Index(matched[v], if v in cfg.groups then cfg.groups[v] else 0);
            AckedAtLeast(half, acks, i) == all * half
  {
  }

  /** The commit rule: the largest index reached, if it is new and of the leader's own term. */
  function Committable(n: Node, reached: nat): nat {
    if reached > n.committed && TermAt(n.log, reached) == n.term then reached else n.committed
  }

  lemma LeaderCommits(cfg: Config, n: Node, i: nat)
    requires n.term > 0 && i < MAX_U64 && Reached(cfg, n.matched, i) && !Reached(cfg, n.matched, i + 1)
    ensures LeaderCommit(cfg, n) == n.(committed := Committable(n, i))
  {
    hide Supported, Joint.Committed;
    var acks := MatchedAcks(cfg, n);
    CommittedExactly(cfg.voters, acks, cfg.groupCommit, i);
    CommittedExactly(cfg.voters, acks, cfg.groupCommit, i + 1);
    assert cfg.voters.Committed(acks, cfg.groupCommit).0 == i;
  }

  /** A leader that hears a new acknowledgement commits what it completes, and nothing else changes. */
  lemma AcknowledgementCommits(cfg: Config, id: nat, n: Node, m: Msg, o: Oracle, i: nat)
    requires n.role == Leader && n.term > 0 && m.AppendResponse? && m.term == n.term
    requires !m.reject && m.from in n.matched && n.matched[m.from] < m.index
    requires var matched := n.matched[m.from := m.index]; i < MAX_U64 && Reached(cfg, matched, i) && !Reached(cfg, matched, i + 1)
    ensures Step(cfg, id, n, m, o) == Effect(n.(matched := n.matched[m.from := m.index], committed := Committable(n, i)), {})
  {
    hide Reached, LeaderCommit;
    LeaderCommits(cfg, n.(matched := n.matched[m.from := m.index]), i);
  }

  /** Its own entries count once they are persisted. */
  lemma PersistenceCommits(cfg: Config, id: nat, n: Node, index: nat, o: Oracle, i: nat)
    requires n.role == Leader && n.term > 0 && n.persisted < index <= |n.log| && id in n.matched && n.matched[id] < index
    requires var matched := n.matched[id := index]; i < MAX_U64 && Reached(cfg, matched, i) && !Reached(cfg, matched, i + 1)
    ensures Handle(cfg, id, n, Persisted(index), o)
              == Effect(n.(persisted := index, matched := n.matched[id := index], committed := Committable(n, i)), {})
  {
    hide Reached, LeaderCommit;
    LeaderCommits(cfg, n.(persisted := index, matched := n.matched[id := index]), i);
  }

  /** Whatever it commits, it goes on leading with the log it has. */
  lemma AcknowledgementKeepsLeading(cfg: Config, id: nat, n: Node, m: Msg, o: Oracle)
    requires n.role == Leader && m.AppendResponse? && m.term == n.term
    requires !m.reject && m.from in n.matched && n.matched[m.from] < m.index
    ensures var e := Step(cfg, id, n, m, o);
            && e.Effect? && e.out == {} && e.node == n.(matched := n.matched[m.from := m.index], committed := e.node.committed)
            && n.committed <= e.node.committed <= Max(n.committed, |n.log|)
  {
  }

  /** A rejection, an old acknowledgement and one of a stranger change nothing a leader has committed or knows. */
  lemma OtherAnswersIgnored(cfg: Config, id: nat, n: Node, m: Msg, o: Oracle)
    requires n.role == Leader && m.AppendResponse? && m.term == n.term
    requires m.reject || m.from !in n.matched || n.matched[m.from] >= m.index
    ensures Step(cfg, id, n, m, o) == Effect(n, {})
  {
  }

  // ---------------------------------------------------------------- followers

  /** A message of a leader reaches a node that does not lead in that term. */
  predicate Heard(n: Node, m: Msg) { m.term > n.term || (m.term == n.term && n.role != Leader) }

  /** A heartbeat makes its sender the leader, and commits what it reports if the log goes that far. */
  lemma HeartbeatCommits(cfg: Config, id: nat, n: Node, m: Msg, o: Oracle)
    requires m.Heartbeat? && Heard(n, m)
    ensures var e := Step(cfg, id, n, m, o);
            && e.Effect? && e.node.role == Follower && e.node.term == m.term && e.node.leader == m.from
            && e.node.vote == (if m.term > n.term then NONE else n.vote)
            && e.node.committed == (if m.commit <= |n.log| then Max(n.committed, m.commit) else n.committed)
            && e.node.log == n.log && e.out == {HeartbeatResponse(id, m.from, m.term, e.node.committed)}
  {
  }

  /**
    An append that fits makes its sender the leader, is in the log afterwards, leaves the log
    before it as it was, commits what it reports of itself, and is acknowledged to its end.
   */
  lemma AppendAdopted(cfg: Config, id: nat, n: Node, m: Msg, o: Oracle)
    requires m.Append? && Heard(n, m) && n.committed <= m.prev && TermAt(n.log, m.prev) == m.prevTerm && m.prev <= |n.log|
    requires FlatLog.WellFormed(PlainLog.PlainOf(n.log), m.prev, m.prevTerm, m.entries)
    ensures var e, last := Step(cfg, id, n, m, o), m.prev + |m.entries|;
            && e.Effect? && e.node.role == Follower && e.node.term == m.term && e.node.leader == m.from
            && e.node.vote == (if m.term > n.term then NONE else n.vote)
            && |e.node.log| >= last && e.node.log[..m.prev] == n.log[..m.prev]
            && (forall k | 0 <= k < |m.entries| :: TermAt(e.node.log, m.prev + 1 + k) == m.entries[k].term)
            && (e.node.log == n.log || |e.node.log| == last)
            && e.node.committed == Max(n.committed, Min(m.commit, last))
            && e.out == {AppendResponse(id, m.from, m.term, last, false, 0, 0, e.node.committed)}
  {
    hide FlatLog.WellFormed, MaybeAppend, FlatLog.Spliced, FlatLog.Flat.Conflict;
    var f := if m.term > n.term || n.role != Follower then BecomeFollower(cfg, id, n, m.term, m.from) else n.(leader := m.from);
    Adopted(f, m);
  }

  /**
    An append that does not fit is refused, with a hint: the largest index, not after the one in
    question, at which the follower's term is not above the leader's.
   */
  lemma AppendRefused(cfg: Config, id: nat, n: Node, m: Msg, o: Oracle)
    requires m.Append? && Heard(n, m) && n.committed <= m.prev && TermAt(n.log, m.prev) != m.prevTerm
    ensures var e := Step(cfg, id, n, m, o);
            && e.Effect? && e.node.role == Follower && e.node.term == m.term && e.node.leader == m.from
            && e.node.log == n.log && e.node.committed == n.committed
            && exists hint: nat | hint <= Min(m.prev, |n.log|) ::
                 && e.out == {AppendResponse(id, m.from, m.term, m.prev, true, hint, TermAt(n.log, hint), n.committed)}
                 && TermAt(n.log, hint) <= m.prevTerm && forall i | hint < i <= Min(m.prev, |n.log|) :: TermAt(n.log, i) > m.prevTerm
  {
    hide FindConflictByTerm;
    var hint := FindConflictByTerm(n.log, Min(m.prev, |n.log|), m.prevTerm);
    Backtrack.ConflictByTerm(n.log, Min(m.prev, |n.log|), m.prevTerm);
    assert Step(cfg, id, n, m, o).out == {AppendResponse(id, m.from, m.term, m.prev, true, hint, TermAt(n.log, hint), n.committed)};
  }

  /** An append from before the commit index is answered with the commit index. */
  lemma OldAppendAnswered(cfg: Config, id: nat, n: Node, m: Msg, o: Oracle)
    requires m.Append? && Heard(n, m) && m.prev < n.committed
    ensures var e := Step(cfg, id, n, m, o);
            && e.Effect? && e.node.role == Follower && e.node.term == m.term && e.node.leader == m.from
            && e.node.log == n.log && e.node.committed == n.committed
            && e.out == {AppendResponse(id, m.from, m.term, n.committed, false, 0, 0, n.committed)}
  {
  }

  lemma Adopted(n: Node, m: Msg)
    requires m.Append? && n.committed <= m.prev <= |n.log| && TermAt(n.log, m.prev) == m.prevTerm
    requires FlatLog.WellFormed(PlainLog.PlainOf(n.log), m.prev, m.prevTerm, m.entries)
    ensures var r, last := MaybeAppend(n, m.prev, m.commit, m.entries), m.prev + |m.entries|;
            && r.Some? && |r.value.log| >= last && r.value.log[..m.prev] == n.log[..m.prev]
            && (forall k | 0 <= k < |m.entries| :: TermAt(r.value.log, m.prev + 1 + k) == m.entries[k].term)
            && (r.value.log == n.log || |r.value.log| == last)
            && r.value.committed == Max(n.committed, Min(m.commit, last))
            && r.value == n.(log := r.value.log, committed := r.value.committed, persisted := r.value.persisted)
  {
    hide FlatLog.Spliced, FlatLog.Flat.Conflict, MaybeAppend, FlatLog.WellFormed;
    var flat := PlainLog.PlainOf(n.log);
    PlainLog.PlainTerm(flat, m.prev);
    PlainLog.AppendAlike(n, flat, m);
    WellFormedFollows(flat, m);
    FlatLog.ConflictFound(flat, m.prev, m.entries);
    var s := FlatLog.Spliced(flat, m.prev, m.entries);
    FlatLog.SplicedLast(flat, m.prev, m.prevTerm, m.entries);
    FlatLog.ConflictInRange(flat, m.prev, m.prevTerm, m.entries);
    if flat.Conflict(m.entries) == 0 {
      FlatLog.NoCutWhenAgreeing(flat, m.prev, m.entries);
    }
    FlatLog.SpliceKeeps(flat, m.prev, m.entries, m.prev);
    forall k | 0 <= k < |m.entries| ensures TermAt(s.entries, m.prev + 1 + k) == m.entries[k].term {
      if flat.Conflict(m.entries) != 0 {
        FlatLog.SplicedMatches(flat, m.prev, m.entries, k);
      }
      PlainLog.PlainTerm(s, m.prev + 1 + k);
    }
  }

  lemma WellFormedFollows(flat: FlatLog.Flat, m: Msg)
    requires m.Append? && FlatLog.WellFormed(flat, m.prev, m.prevTerm, m.entries)
    ensures Follows(m.prev, m.entries)
  {
  }

  /** The answer to a read-index request commits its index if the follower has the entry of the leader's term there. */
  lemma ReadIndexCommits(cfg: Config, id: nat, n: Node, m: Msg, o: Oracle)
    requires m.ReadIndexResponse? && m.term == n.term > 0 && n.role == Follower && n.leader == m.from != NONE
    ensures Step(cfg, id, n, m, o) ==
              Effect(if m.index > n.committed && TermAt(n.log, m.index) == m.term then n.(committed := m.index) else n, {})
  {
  }

  // ---------------------------------------------------------------- the rest

  /** A message of an older term changes nothing; a stale leader, or pre-candidate, is told of the newer term. */
  lemma StaleAnswered(cfg: Config, id: nat, n: Node, m: Msg, o: Oracle)
    requires m.term < n.term
    ensures var e := Step(cfg, id, n, m, o);
            && e.Effect? && e.node == n
            && (e.out != {} <==> (m.RequestVote? && m.pre) || ((m.Append? || m.Heartbeat?) && (cfg.checkQuorum || cfg.preVote)))
            && (forall r | r in e.out :: r.to == m.from && r.term == n.term && (r.VoteResponse? ==> r.reject && r.pre))
  {
  }

  /** Learning of a later term ends leading and standing, and frees the vote. */
  lemma LaterTermAdopted(cfg: Config, id: nat, n: Node, m: Msg, o: Oracle)
    requires m.term > n.term && (m.VoteResponse? || m.AppendResponse? || m.HeartbeatResponse? || m.ReadIndexResponse?)
    requires m.VoteResponse? ==> !m.pre || m.reject
    ensures var e := Step(cfg, id, n, m, o);
            && e.Effect? && e.out == {} && e.node.role == Follower && e.node.term == m.term
            && e.node.vote == NONE && e.node.leader == NONE && e.node.log == n.log && e.node.priority == n.priority
  {
  }

  /** Persistence at a node that does not lead is noted, and nothing else. */
  lemma PersistenceNoted(cfg: Config, id: nat, n: Node, index: nat, o: Oracle)
    requires n.role != Leader && n.persisted < index <= |n.log|
    ensures Handle(cfg, id, n, Persisted(index), o) == Effect(n.(persisted := index), {})
  {
  }

  /** A leader that has lost its quorum follows nobody, in the same term and with the same vote and log. */
  lemma LeaderStepsDown(cfg: Config, id: nat, n: Node, o: Oracle)
    requires n.role == Leader
    ensures var e := Handle(cfg, id, n, QuorumLost, o);
            && e.Effect? && e.out == {} && e.node.role == Follower && e.node.leader == NONE && e.node.term == n.term
            && e.node.vote == n.vote && e.node.log == n.log && e.node.committed == n.committed
  {
  }

  /** What a leader sends: a stretch of its log with the term before it, and no more of its commit index than the peer can check. */
  lemma LeaderSends(cfg: Config, id: nat, n: Node, to: nat, next: nat, count: nat, o: Oracle)
    requires n.role == Leader && to in n.matched && to != id && 1 <= next && next + count <= |n.log| + 1
    ensures var e := Handle(cfg, id, n, SendAppend(to, next, count), o);
            && e.Effect? && e.node == n
            && e.out == {Append(id, to, n.term, next - 1, TermAt(n.log, next - 1), n.log[next - 1..next - 1 + count], n.committed)}
    ensures Handle(cfg, id, n, SendHeartbeat(to), o) == Effect(n, {Heartbeat(id, to, n.term, Min(n.matched[to], n.committed))})
  {
  }

  /** Proposals go to the end of the leader's log, in order, under its term. */
  lemma ProposalAppended(cfg: Config, id: nat, n: Node, data: seq<string>, o: Oracle)
    requires n.role == Leader && data != []
    ensures var e := Handle(cfg, id, n, Propose(data), o);
            && e.Effect? && e.out == {} && e.node == n.(log := e.node.log)
            && |e.node.log| == |n.log| + |data| && e.node.log[..|n.log|] == n.log
            && forall k | 0 <= k < |data| :: e.node.log[|n.log| + k] == Entry(|n.log| + k + 1, n.term, data[k])
  {
  }
}
