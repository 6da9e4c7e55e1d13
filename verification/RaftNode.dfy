/**
  One Raft node as a value, and what each message or local event does to it.
  The voter set is fixed and there are no snapshots, so the log starts at index 1.
  Timers, priorities and the scan for unapplied configuration changes are choices of the
  environment (`Oracle`).  When a leader sends is a choice as well: a leader may emit, at
  any moment, any append, heartbeat or read-index answer its state allows.
 */
module RaftNode {
  import opened Types
  import opened Quorum

  datatype Config = Config(
    voters: Joint,
    members: set<nat>,
    groupCommit: bool,
    groups: map<nat, nat>,
    preVote: bool,
    checkQuorum: bool)
  {
    ghost predicate Valid() {
      voters.incoming != {} && voters.Ids() <= members && NONE !in members
    }
  }

  datatype Role = Follower | PreCandidate | Candidate | Leader

  datatype Node = Node(
    term: nat,
    vote: nat,
    role: Role,
    leader: nat,
    votes: map<nat, bool>,
    log: seq<Entry>,
    committed: nat,
    persisted: nat,
    matched: map<nat, nat>,
    priority: int)
  {
    function Last(): nat { |log| }

    function Term(index: nat): nat { TermAt(log, index) }
  }

  datatype Msg =
    | RequestVote(from: nat, to: nat, term: nat, pre: bool, force: bool,
                  lastIndex: nat, lastTerm: nat, commit: nat, commitTerm: nat, priority: int)
    | VoteResponse(from: nat, to: nat, term: nat, pre: bool, reject: bool, commit: nat, commitTerm: nat)
    | Append(from: nat, to: nat, term: nat, prev: nat, prevTerm: nat, entries: seq<Entry>, commit: nat)
    | AppendResponse(from: nat, to: nat, term: nat, index: nat, reject: bool, hint: nat, hintTerm: nat, commit: nat)
    | Heartbeat(from: nat, to: nat, term: nat, commit: nat)
    | HeartbeatResponse(from: nat, to: nat, term: nat, commit: nat)
    | TimeoutNow(from: nat, to: nat, term: nat)
    | ReadIndexResponse(from: nat, to: nat, term: nat, index: nat)

  datatype Oracle = Oracle(inLease: bool, confPending: bool)

  /** The new node and the messages it emits, or the process stops. */
  datatype Effect = Effect(node: Node, out: set<Msg>) | Panic

  // ---------------------------------------------------------------- the log

  function FindConflict(log: seq<Entry>, entries: seq<Entry>): nat {
    if entries == [] then 0
    else if TermAt(log, entries[0].index) != entries[0].term then entries[0].index
    else FindConflict(log, entries[1..])
  }

  function FindConflictByTerm(log: seq<Entry>, index: nat, term: nat): (r: nat)
    ensures r <= index
  {
    if index > 0 && TermAt(log, index) > term then FindConflictByTerm(log, index - 1, term) else index
  }

  predicate IsUpToDate(log: seq<Entry>, lastIndex: nat, lastTerm: nat) {
    lastTerm > LastTerm(log) || (lastTerm == LastTerm(log) && lastIndex >= |log|)
  }

  /** Raises the commit index; an index past the end of the log is refused. */
  function CommitTo(n: Node, to: nat): Node {
    if n.committed >= to || n.Last() < to then n else n.(committed := to)
  }

  /** Commits up to `index` if the entry there has the given term. */
  function MaybeCommit(n: Node, index: nat, term: nat): Node {
    if index > n.committed && n.Term(index) == term then CommitTo(n, index) else n
  }

  /** Replacing from the conflict on touches nothing committed and leaves no gap. */
  predicate CanSplice(committed: nat, log: seq<Entry>, prev: nat, entries: seq<Entry>) {
    var c := FindConflict(log, entries);
    c == 0 || (committed < c && prev < c <= |log| + 1 && c <= prev + 1 + |entries|)
  }

  /** The log once the entries of a matching append have replaced what conflicts with them. */
  function Splice(log: seq<Entry>, prev: nat, entries: seq<Entry>): seq<Entry>
    requires CanSplice(0, log, prev, entries)
  {
    var c := FindConflict(log, entries);
    if c == 0 then log else log[..c - 1] + entries[c - 1 - prev..]
  }

  function MaybeAppend(n: Node, prev: nat, commit: nat, entries: seq<Entry>): Option<Node> {
    if !CanSplice(n.committed, n.log, prev, entries) then None
    else
      var c := FindConflict(n.log, entries);
      var n' := n.(log := Splice(n.log, prev, entries), persisted := if c == 0 then n.persisted else Min(n.persisted, c - 1));
      Some(CommitTo(n', Min(commit, prev + |entries|)))
  }

  // ---------------------------------------------------------------- role changes

  function Reset(cfg: Config, id: nat, n: Node, term: nat): Node {
    n.(term := term,
       vote := if n.term != term then NONE else n.vote,
       leader := NONE,
       votes := map[],
       matched := map i | i in cfg.members :: if i == id then n.persisted else 0)
  }

  function BecomeFollower(cfg: Config, id: nat, n: Node, term: nat, leader: nat): Node {
    Reset(cfg, id, n, term).(leader := leader, role := Follower)
  }

  function BecomePreCandidate(n: Node): Node {
    n.(role := PreCandidate, votes := map[], leader := NONE)
  }

  function BecomeCandidate(cfg: Config, id: nat, n: Node): Node {
    Reset(cfg, id, n, n.term + 1).(vote := id, role := Candidate)
  }

  /** Proposals become entries of a term, numbered after `last`. */
  function Stamp(last: nat, term: nat, data: seq<string>): (entries: seq<Entry>)
    ensures |entries| == |data|
    ensures forall k | 0 <= k < |data| :: entries[k] == Entry(last + k + 1, term, data[k])
    decreases |data|
  {
    if data == [] then [] else [Entry(last + 1, term, data[0])] + Stamp(last + 1, term, data[1..])
  }

  function AppendEntry(n: Node, data: seq<string>): Node {
    n.(log := n.log + Stamp(n.Last(), n.term, data))
  }

  function BecomeLeader(cfg: Config, id: nat, n: Node): Node {
    AppendEntry(Reset(cfg, id, n, n.term).(leader := id, role := Leader), [""])
  }

  // ---------------------------------------------------------------- elections

  /** The first answer of a peer counts. */
  function RecordVote(n: Node, from: nat, granted: bool): Node {
    if from in n.votes then n else n.(votes := n.votes[from := granted])
  }

  /** Counts one more answer to a real campaign. */
  function PollCandidate(cfg: Config, id: nat, n: Node, from: nat, granted: bool): Node {
    var n := RecordVote(n, from, granted);
    match cfg.voters.Vote(n.votes)
    case Pending => n
    case Lost => BecomeFollower(cfg, id, n, n.term, NONE)
    case Won => BecomeLeader(cfg, id, n)
  }

  function VoteRequests(cfg: Config, id: nat, n: Node, term: nat, pre: bool, force: bool): set<Msg> {
    set v | v in cfg.voters.Ids() - {id} ::
      RequestVote(id, v, term, pre, force, n.Last(), LastTerm(n.log), n.committed, n.Term(n.committed), n.priority)
  }

  function Campaign(cfg: Config, id: nat, n: Node, transfer: bool): Effect {
    var c := PollCandidate(cfg, id, BecomeCandidate(cfg, id, n), id, true);
    Effect(c, if c.role == Leader then {} else VoteRequests(cfg, id, c, n.term + 1, false, transfer))
  }

  /** Counts one more answer to a pre-vote campaign; winning starts the real one. */
  function PollPreCandidate(cfg: Config, id: nat, n: Node, from: nat, granted: bool): Effect {
    var n := RecordVote(n, from, granted);
    match cfg.voters.Vote(n.votes)
    case Pending => Effect(n, {})
    case Lost => Effect(BecomeFollower(cfg, id, n, n.term, NONE), {})
    case Won => Campaign(cfg, id, n, false)
  }

  function PreCampaign(cfg: Config, id: nat, n: Node): Effect {
    var p := BecomePreCandidate(n);
    var e := PollPreCandidate(cfg, id, p, id, true);
    if e.Effect? && cfg.voters.Vote(RecordVote(p, id, true).votes) != Won then
      e.(out := e.out + VoteRequests(cfg, id, e.node, n.term + 1, true, false))
    else e
  }

  function Hup(cfg: Config, id: nat, n: Node, transfer: bool, o: Oracle): Effect {
    if n.role == Leader || id !in cfg.voters.Ids() || o.confPending then Effect(n, {})
    else if transfer || !cfg.preVote then Campaign(cfg, id, n, transfer)
    else PreCampaign(cfg, id, n)
  }

  // ---------------------------------------------------------------- commit

  function MatchedAcks(cfg: Config, n: Node): Acks {
    map i | i in n.matched :: Index(n.matched[i], if i in cfg.groups then cfg.groups[i] else 0)
  }

  /** A leader commits what a quorum has acknowledged, if it is of its own term. */
  ghost function LeaderCommit(cfg: Config, n: Node): Node {
    MaybeCommit(n, cfg.voters.Committed(MatchedAcks(cfg, n), cfg.groupCommit).0, n.term)
  }

  /** Fast-forwards the commit index from what a vote request or refusal reports. */
  function MaybeCommitByVote(cfg: Config, id: nat, n: Node, commit: nat, commitTerm: nat, o: Oracle): Node {
    if commit == 0 || commitTerm == 0 || commit <= n.committed || n.role == Leader then n
    else
      var n' := MaybeCommit(n, commit, commitTerm);
      if n' != n && (n.role == Candidate || n.role == PreCandidate) && o.confPending
      then BecomeFollower(cfg, id, n', n'.term, NONE)
      else n'
  }

  // ---------------------------------------------------------------- message handlers

  function AppendReply(id: nat, n: Node, to: nat, index: nat): Msg {
    AppendResponse(id, to, n.term, index, false, 0, 0, n.committed)
  }

  function HandleAppendEntries(id: nat, n: Node, m: Msg): Effect
    requires m.Append?
  {
    if m.prev < n.committed then
      Effect(n, {AppendReply(id, n, m.from, n.committed)})
    else if n.Term(m.prev) == m.prevTerm then
      match MaybeAppend(n, m.prev, m.commit, m.entries)
      case None => Panic
      case Some(n') => Effect(n', {AppendReply(id, n', m.from, m.prev + |m.entries|)})
    else
      var hint := FindConflictByTerm(n.log, Min(m.prev, n.Last()), m.prevTerm);
      Effect(n, {AppendResponse(id, m.from, n.term, m.prev, true, hint, n.Term(hint), n.committed)})
  }

  function HandleHeartbeat(id: nat, n: Node, m: Msg): Effect
    requires m.Heartbeat?
  {
    var n' := CommitTo(n, m.commit);
    Effect(n', {HeartbeatResponse(id, m.from, n'.term, n'.committed)})
  }

  ghost function HandleAppendResponse(cfg: Config, n: Node, m: Msg): Node
    requires m.AppendResponse?
  {
    if m.from !in n.matched || m.reject || n.matched[m.from] >= m.index then n
    else LeaderCommit(cfg, n.(matched := n.matched[m.from := m.index]))
  }

  /** A node with a higher priority, and a log at least as long, refuses its vote. */
  predicate Outranks(n: Node, m: Msg)
    requires m.RequestVote?
  {
    m.lastIndex <= n.Last() && n.priority > m.priority
  }

  /** Answers a vote or pre-vote request. */
  function HandleRequestVote(cfg: Config, id: nat, n: Node, m: Msg, o: Oracle): Effect
    requires m.RequestVote?
  {
    var canVote := n.vote == m.from || (n.vote == NONE && n.leader == NONE) || (m.pre && m.term > n.term);
    if canVote && IsUpToDate(n.log, m.lastIndex, m.lastTerm) && !Outranks(n, m) then
      Effect(if m.pre then n else n.(vote := m.from),
             {VoteResponse(id, m.from, m.term, m.pre, false, 0, 0)})
    else if n.term == 0 then
      Panic
    else
      Effect(MaybeCommitByVote(cfg, id, n, m.commit, m.commitTerm, o),
             {VoteResponse(id, m.from, n.term, m.pre, true, n.committed, n.Term(n.committed))})
  }

  function StepCandidate(cfg: Config, id: nat, n: Node, m: Msg, o: Oracle): Effect {
    match m
    case Append(_, _, _, _, _, _, _) =>
      HandleAppendEntries(id, BecomeFollower(cfg, id, n, m.term, m.from), m)
    case Heartbeat(_, _, _, _) =>
      HandleHeartbeat(id, BecomeFollower(cfg, id, n, m.term, m.from), m)
    case VoteResponse(_, _, _, pre, reject, commit, commitTerm) =>
      if pre != (n.role == PreCandidate) then Effect(n, {})
      else
        var e := if pre then PollPreCandidate(cfg, id, n, m.from, !reject)
                 else Effect(PollCandidate(cfg, id, n, m.from, !reject), {});
        if e.Panic? then e else e.(node := MaybeCommitByVote(cfg, id, e.node, commit, commitTerm, o))
    case _ => Effect(n, {})
  }

  function StepFollower(cfg: Config, id: nat, n: Node, m: Msg, o: Oracle): Effect {
    match m
    case Append(_, _, _, _, _, _, _) => HandleAppendEntries(id, n.(leader := m.from), m)
    case Heartbeat(_, _, _, _) => HandleHeartbeat(id, n.(leader := m.from), m)
    case TimeoutNow(_, _, _) => Hup(cfg, id, n, true, o)
    case ReadIndexResponse(_, _, _, index) =>
      if n.leader == NONE || m.from != n.leader then Effect(n, {})
      else Effect(MaybeCommit(n, index, m.term), {})
    case _ => Effect(n, {})
  }

  ghost function StepLeader(cfg: Config, n: Node, m: Msg): Effect {
    match m
    case AppendResponse(_, _, _, _, _, _, _, _) => Effect(HandleAppendResponse(cfg, n, m), {})
    case _ => Effect(n, {})
  }

  /** Once terms are settled: votes are answered in every role, the rest by role. */
  ghost function Dispatch(cfg: Config, id: nat, n: Node, m: Msg, o: Oracle): Effect {
    if m.RequestVote? then HandleRequestVote(cfg, id, n, m, o)
    else match n.role
      case PreCandidate | Candidate => StepCandidate(cfg, id, n, m, o)
      case Follower => StepFollower(cfg, id, n, m, o)
      case Leader => StepLeader(cfg, n, m)
  }

  /** Messages that never change the receiver's term. */
  predicate KeepsTerm(m: Msg) {
    (m.RequestVote? && m.pre) || (m.VoteResponse? && m.pre && !m.reject)
  }

  /** Raft::Step on a message from a peer. */
  ghost function Step(cfg: Config, id: nat, n: Node, m: Msg, o: Oracle): Effect {
    if m.term > n.term then
      if m.RequestVote? && !m.force && cfg.checkQuorum && n.leader != NONE && o.inLease then Effect(n, {})
      else if KeepsTerm(m) then Dispatch(cfg, id, n, m, o)
      else
        var leader := if m.Append? || m.Heartbeat? then m.from else NONE;
        Dispatch(cfg, id, BecomeFollower(cfg, id, n, m.term, leader), m, o)
    else if m.term < n.term then
      if (cfg.checkQuorum || cfg.preVote) && (m.Heartbeat? || m.Append?) then
        Effect(n, {AppendResponse(id, m.from, n.term, 0, false, 0, 0, 0)})
      else if m.RequestVote? && m.pre then
        Effect(n, {VoteResponse(id, m.from, n.term, true, true, 0, 0)})
      else Effect(n, {})
    else Dispatch(cfg, id, n, m, o)
  }

  // ---------------------------------------------------------------- local events

  datatype Event =
    | Deliver(m: Msg)
    | ElectionTimeout
    | Propose(data: seq<string>)
    | QuorumLost
    | SetPriority(priority: int)
    | Persisted(index: nat)
    | SendAppend(to: nat, next: nat, count: nat)
    | SendHeartbeat(to: nat)
    | SendTimeoutNow(to: nat)
    | AnswerReadIndex(to: nat, index: nat)

  /** The append for a peer whose next index is `next`; past the end it is empty, of term 0. */
  function AppendFor(id: nat, n: Node, to: nat, next: nat, count: nat): Msg
    requires 1 <= next
  {
    var entries := if next + count <= n.Last() + 1 then n.log[next - 1..next - 1 + count] else [];
    Append(id, to, n.term, next - 1, n.Term(next - 1), entries, n.committed)
  }

  /** When the environment may trigger an event; `Deliver` also needs the message to exist. */
  predicate Enabled(cfg: Config, id: nat, n: Node, ev: Event) {
    match ev
    case Deliver(m) => m.to == id
    case ElectionTimeout => true
    case Propose(data) => n.role == Leader
    case QuorumLost => n.role == Leader
    case SetPriority(priority) => true
    case Persisted(index) => n.persisted < index <= n.Last()
    case SendAppend(to, next, count) =>
      && n.role == Leader && to in n.matched && to != id
      && 1 <= next <= Max(n.Last(), n.matched[to]) + 1
    case SendHeartbeat(to) => n.role == Leader && to in n.matched && to != id
    case SendTimeoutNow(to) => n.role == Leader && to in n.matched && to != id
    case AnswerReadIndex(to, index) =>
      n.role == Leader && to in n.matched && to != id && index <= n.committed && n.Term(index) == n.term
  }

  ghost function Handle(cfg: Config, id: nat, n: Node, ev: Event, o: Oracle): Effect
    requires Enabled(cfg, id, n, ev)
  {
    match ev
    case Deliver(m) => Step(cfg, id, n, m, o)
    case ElectionTimeout => Hup(cfg, id, n, false, o)
    case Propose(data) => if data == [] then Panic else Effect(AppendEntry(n, data), {})
    case QuorumLost => Effect(BecomeFollower(cfg, id, n, n.term, NONE), {})
    case SetPriority(priority) => Effect(n.(priority := priority), {})
    case Persisted(index) =>
      var n' := n.(persisted := index);
      if n.role == Leader && id in n.matched && n.matched[id] < index
      then Effect(LeaderCommit(cfg, n'.(matched := n.matched[id := index])), {})
      else Effect(n', {})
    case SendAppend(to, next, count) => Effect(n, {AppendFor(id, n, to, next, count)})
    case SendHeartbeat(to) => Effect(n, {Heartbeat(id, to, n.term, Min(n.matched[to], n.committed))})
    case SendTimeoutNow(to) => Effect(n, {TimeoutNow(id, to, n.term)})
    case AnswerReadIndex(to, index) => Effect(n, {ReadIndexResponse(id, to, n.term, index)})
  }

  /** The state of a node that has just been created with an empty log. */
  predicate Fresh(n: Node, members: set<nat>) {
    && n.term == 0 && n.vote == NONE && n.role == Follower && n.leader == NONE
    && n.votes == map[] && n.log == [] && n.committed == 0 && n.persisted == 0
    && n.matched == (map i | i in members :: 0) && n.priority == 0
  }
}
