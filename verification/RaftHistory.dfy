/**
  What a run of the protocol leaves behind, and the facts that tie it to nodes and messages.

  A reign is the tenure of the leader elected in one term; a ballot is a vote cast; a run is
  a campaign; an acknowledgement is a log prefix that a node has reported to a leader; the
  decided log is the longest log prefix any leader has committed.
 */
module RaftHistory {
  import opened Types
  import opened Quorum
  import opened RaftNode

  /** `ord` numbers the elections in the order they happened, which is not the order of terms. */
  datatype Reign = Reign(leader: nat, init: seq<Entry>, log: seq<Entry>, ord: nat, electors: set<nat>)

  datatype Ballot = Ballot(candidate: nat, log: seq<Entry>)

  datatype Ack = Ack(node: nat, term: nat, prefix: seq<Entry>)

  datatype History = History(
    reigns: map<nat, Reign>,
    ballots: map<(nat, nat), Ballot>,
    runs: map<(nat, nat), seq<Entry>>,
    acks: set<Ack>,
    decided: seq<Entry>)

  // ---------------------------------------------------------------- logs

  /** The entry at position j was written by the leader of its term, together with all before it. */
  ghost predicate OwnedAt(reigns: map<nat, Reign>, log: seq<Entry>, j: nat)
    requires j < |log|
  {
    log[j].term in reigns && log[..j + 1] <= reigns[log[j].term].log
  }

  ghost predicate Owned(reigns: map<nat, Reign>, log: seq<Entry>) {
    forall j {:trigger OwnedAt(reigns, log, j)} | 0 <= j < |log| :: OwnedAt(reigns, log, j)
  }

  ghost predicate Ordered(log: seq<Entry>) {
    forall i, j | 0 <= i < j < |log| :: log[i].term <= log[j].term
  }

  ghost predicate Numbered(log: seq<Entry>) {
    forall j | 0 <= j < |log| :: log[j].index == j + 1
  }

  ghost predicate GoodLog(reigns: map<nat, Reign>, log: seq<Entry>) {
    Owned(reigns, log) && Ordered(log) && Numbered(log)
  }

  ghost predicate TermsUpTo(log: seq<Entry>, term: nat) {
    forall j | 0 <= j < |log| :: log[j].term <= term
  }

  // ---------------------------------------------------------------- acknowledgements

  ghost predicate AckedBy(h: History, node: nat, term: nat, index: nat) {
    exists a | a in h.acks :: a.node == node && a.term == term && |a.prefix| >= index
  }

  ghost function Ackers(h: History, term: nat, index: nat): set<nat> {
    set a | a in h.acks && a.term == term && |a.prefix| >= index :: a.node
  }

  /** A quorum has acknowledged `index` to the leader of `term`. */
  ghost predicate Chosen(cfg: Config, h: History, term: nat, index: nat) {
    cfg.voters.IsQuorum(Ackers(h, term, index))
  }

  /** All leaders of later terms among the first `bound` elections started with this log. */
  ghost predicate Carried(reigns: map<nat, Reign>, term: nat, bound: nat, log: seq<Entry>) {
    forall t | t in reigns && term < t && reigns[t].ord < bound :: log <= reigns[t].init
  }

  /** What was acknowledged is the leader's, or belongs to a leader of a later term. */
  ghost predicate Faithful(reigns: map<nat, Reign>, a: Ack, bound: nat) {
    && a.term in reigns
    && (a.prefix <= reigns[a.term].log ||
        exists t | t in reigns :: a.term < t && reigns[t].ord < bound && a.prefix <= reigns[t].init)
  }

  /** The log still holds what was acknowledged, up to what later leaders have kept. */
  ghost predicate Kept(reigns: map<nat, Reign>, a: Ack, bound: nat, log: seq<Entry>) {
    forall i | 0 <= i <= |a.prefix| ::
      Carried(reigns, a.term, bound, a.prefix[..i]) ==> a.prefix[..i] <= log
  }

  // ---------------------------------------------------------------- history

  /** An entry a leader started with comes from an earlier term and an earlier election. */
  ghost predicate OlderAt(reigns: map<nat, Reign>, t: nat, j: nat)
    requires t in reigns && j < |reigns[t].init|
  {
    var older := reigns[t].init[j].term;
    older < t && older in reigns && reigns[older].ord < reigns[t].ord
  }

  ghost predicate ReignInv(cfg: Config, h: History, t: nat)
    requires t in h.reigns
  {
    var r := h.reigns[t];
    && t >= 1 && r.leader in cfg.members && r.ord < |h.reigns|
    && GoodLog(h.reigns, r.log) && r.init <= r.log
    && (forall j {:trigger OlderAt(h.reigns, t, j)} | 0 <= j < |r.init| :: OlderAt(h.reigns, t, j))
    && (forall j | |r.init| <= j < |r.log| :: r.log[j].term == t)
    && cfg.voters.IsQuorum(r.electors)
    && (r.leader, t) in h.runs && h.runs[(r.leader, t)] == r.init
    && (forall e | e in r.electors :: (e, t) in h.ballots && h.ballots[(e, t)].candidate == r.leader)
  }

  ghost predicate BallotInv(h: History, voter: nat, t: nat)
    requires (voter, t) in h.ballots
  {
    var b := h.ballots[(voter, t)];
    && b.candidate != NONE
    && GoodLog(h.reigns, b.log)
    && (b.candidate, t) in h.runs
    && IsUpToDate(b.log, |h.runs[(b.candidate, t)]|, LastTerm(h.runs[(b.candidate, t)]))
  }

  /** How many elections a ballot could know of, if it helped elect a leader or still may. */
  ghost function BallotBound(h: History, t: nat): nat {
    if t in h.reigns then h.reigns[t].ord else |h.reigns|
  }

  /** A vote was cast with everything acknowledged earlier still in the voter's log. */
  ghost predicate VoteKeeps(h: History, voter: nat, t: nat)
    requires (voter, t) in h.ballots
  {
    (t !in h.reigns || voter in h.reigns[t].electors) ==>
      forall a | a in h.acks && a.node == voter && a.term < t ::
        Faithful(h.reigns, a, BallotBound(h, t)) && Kept(h.reigns, a, BallotBound(h, t), h.ballots[(voter, t)].log)
  }

  ghost predicate AckRecordInv(h: History, a: Ack) {
    Faithful(h.reigns, a, |h.reigns|) && GoodLog(h.reigns, a.prefix)
  }

  ghost predicate DecidedInv(cfg: Config, h: History) {
    h.decided != [] ==>
      && LastTerm(h.decided) in h.reigns
      && h.decided <= h.reigns[LastTerm(h.decided)].log
      && Chosen(cfg, h, LastTerm(h.decided), |h.decided|)
  }

  ghost predicate HistoryInv(cfg: Config, h: History) {
    && cfg.Valid()
    && (forall t {:trigger ReignInv(cfg, h, t)} | t in h.reigns :: ReignInv(cfg, h, t))
    && (forall v, t {:trigger BallotInv(h, v, t)} {:trigger VoteKeeps(h, v, t)} | (v, t) in h.ballots ::
          BallotInv(h, v, t) && VoteKeeps(h, v, t))
    && (forall a {:trigger AckRecordInv(h, a)} | a in h.acks :: AckRecordInv(h, a))
    && DecidedInv(cfg, h)
  }

  // ---------------------------------------------------------------- nodes

  ghost predicate LeaderInv(cfg: Config, h: History, id: nat, n: Node) {
    && n.term in h.reigns && h.reigns[n.term].leader == id && h.reigns[n.term].log == n.log
    && (forall i | i in n.matched :: n.matched[i] == 0 || AckedBy(h, i, n.term, n.matched[i]))
    && (n.committed > |h.reigns[n.term].init| ==> Chosen(cfg, h, n.term, n.committed))
  }

  ghost predicate CandidateInv(h: History, id: nat, n: Node) {
    && n.term >= 1
    && (id, n.term) in h.runs && h.runs[(id, n.term)] == n.log
    && (forall v | v in Granted(n.votes) :: (v, n.term) in h.ballots && h.ballots[(v, n.term)].candidate == id)
  }

  /** What the node has put on record. */
  ghost predicate RecordInv(h: History, id: nat, n: Node) {
    && (n.vote != NONE ==> (id, n.term) in h.ballots && h.ballots[(id, n.term)].candidate == n.vote)
    && (n.vote == NONE ==> (id, n.term) !in h.ballots)
    && (n.term == 0 ==> n.leader == NONE)
    && (forall t | (id, t) in h.ballots :: t <= n.term)
    && (forall t | (id, t) in h.runs :: t <= n.term)
    && (forall t | t in h.reigns && h.reigns[t].leader == id :: t < n.term || (t == n.term && n.role != Candidate))
  }

  /** What the node acknowledged is still in its log: all of it in the same term, later on what leaders kept. */
  ghost predicate StillHolds(reigns: map<nat, Reign>, term: nat, committed: nat, log: seq<Entry>, a: Ack) {
    && a.term <= term && a.term in reigns
    && Kept(reigns, a, |reigns|, log)
    && (a.term == term ==> a.prefix <= log && (a.prefix <= reigns[a.term].log || |a.prefix| <= committed))
  }

  ghost predicate AckInv(h: History, id: nat, n: Node) {
    forall a {:trigger StillHolds(h.reigns, n.term, n.committed, n.log, a)} | a in h.acks && a.node == id ::
      StillHolds(h.reigns, n.term, n.committed, n.log, a)
  }

  ghost predicate LogInv(cfg: Config, h: History, n: Node) {
    && GoodLog(h.reigns, n.log) && TermsUpTo(n.log, n.term)
    && n.committed <= |n.log| && n.persisted <= |n.log|
    && n.log[..n.committed] <= h.decided
    && n.matched.Keys == cfg.members
  }

  ghost predicate NodeInv(cfg: Config, h: History, id: nat, n: Node) {
    && id in cfg.members
    && LogInv(cfg, h, n)
    && RecordInv(h, id, n)
    && AckInv(h, id, n)
    && (n.role == Leader ==> LeaderInv(cfg, h, id, n))
    && (n.role == Candidate ==> CandidateInv(h, id, n))
  }

  // ---------------------------------------------------------------- messages

  /** (index, term) names a decided entry, or nothing. */
  ghost predicate Reports(h: History, index: nat, term: nat) {
    index <= |h.decided| && TermAt(h.decided, index) == term
  }

  ghost predicate AppendInv(h: History, m: Msg)
    requires m.Append?
  {
    && m.term in h.reigns && h.reigns[m.term].leader == m.from
    && var log := h.reigns[m.term].log;
    && m.commit <= |log| && log[..m.commit] <= h.decided
    && ((m.prev + |m.entries| <= |log| && m.prevTerm == TermAt(log, m.prev) && m.entries == log[m.prev..m.prev + |m.entries|])
        || (m.prev > 0 && m.prevTerm == 0 && m.entries == [] && AckedBy(h, m.to, m.term, m.prev)))
  }

  ghost predicate MsgInv(cfg: Config, h: History, m: Msg) {
    && m.term >= 1 && m.from in cfg.members
    && match m
       case RequestVote(from, to, term, pre, _, lastIndex, lastTerm, commit, commitTerm, _) =>
         && Reports(h, commit, commitTerm)
         && (!pre ==> (from, term) in h.runs && lastIndex == |h.runs[(from, term)]| && lastTerm == LastTerm(h.runs[(from, term)]))
       case VoteResponse(from, to, term, pre, reject, commit, commitTerm) =>
         && Reports(h, commit, commitTerm)
         && (!pre && !reject ==> (from, term) in h.ballots && h.ballots[(from, term)].candidate == to)
       case Append(_, _, _, _, _, _, _) => AppendInv(h, m)
       case AppendResponse(from, _, term, index, reject, _, _, _) =>
         !reject && index > 0 ==> AckedBy(h, from, term, index)
       case Heartbeat(from, to, term, commit) =>
         && term in h.reigns && h.reigns[term].leader == from
         && commit <= |h.reigns[term].log| && h.reigns[term].log[..commit] <= h.decided
         && (commit > 0 ==> AckedBy(h, to, term, commit))
       case ReadIndexResponse(_, _, term, index) => Reports(h, index, term)
       case _ => true
  }

  // ---------------------------------------------------------------- growth

  ghost predicate ReignGrows(r: Reign, r': Reign) {
    r'.leader == r.leader && r'.init == r.init && r'.ord == r.ord && r'.electors == r.electors && r.log <= r'.log
  }

  /** History only grows, and whatever is new was done by `id`. */
  ghost predicate Extends(h: History, h': History, id: nat) {
    && h.reigns.Keys <= h'.reigns.Keys && |h.reigns| <= |h'.reigns|
    && (forall t | t in h.reigns :: ReignGrows(h.reigns[t], h'.reigns[t]))
    && (forall t | t in h.reigns && h.reigns[t].leader != id :: h'.reigns[t] == h.reigns[t])
    && (forall t | t in h'.reigns && t !in h.reigns :: h'.reigns[t].leader == id && h'.reigns[t].ord >= |h.reigns|)
    && (forall k | k in h.ballots :: k in h'.ballots && h'.ballots[k] == h.ballots[k])
    && (forall v, t | (v, t) in h'.ballots && (v, t) !in h.ballots :: v == id)
    && (forall k | k in h.runs :: k in h'.runs && h'.runs[k] == h.runs[k])
    && (forall c, t | (c, t) in h'.runs && (c, t) !in h.runs :: c == id)
    && h.acks <= h'.acks
    && (forall a | a in h'.acks && a !in h.acks :: a.node == id)
    && h.decided <= h'.decided
  }
}
