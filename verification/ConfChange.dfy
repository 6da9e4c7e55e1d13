/** Membership changes: one voter at a time, or any number of them through a joint configuration. */
module ConfChange {
  import opened Quorum

  // ---------------------------------------------------------------- data

  /** TrackerConfiguration. */
  datatype Config = Config(voters: Joint, learners: set<nat>, learnersNext: set<nat>, autoLeave: bool) {
    predicate IsJoint() { voters.outgoing != {} }
  }

  const EMPTY := Config(Joint({}, {}), {}, {}, false)

  datatype Kind = AddNode | RemoveNode | AddLearnerNode

  /** ConfChangeSingle. */
  datatype Change = Change(kind: Kind, id: nat)

  datatype MapOp = Add | Remove

  /** One pending change of the progress map. */
  datatype MapChange = MapChange(id: nat, op: MapOp)

  datatype ConfError =
    | NoProgress | InLearnersAndVoters | LearnerNextNotOutgoing | LearnersNextMustBeEmpty | AutoLeaveMustBeFalse
    | AlreadyJoint | ZeroVoters | NotJoint | RemovedAllVoters | SimpleInJoint | MultipleVotersChanged

  /** A configuration together with the ids that have a progress. */
  datatype Draft = Draft(cfg: Config, keys: set<nat>)

  // ---------------------------------------------------------------- what one change means

  function AsVoter(d: Draft, id: nat): Draft {
    var c := d.cfg;
    Draft(c.(voters := c.voters.(incoming := c.voters.incoming + {id}), learners := c.learners - {id}, learnersNext := c.learnersNext - {id}),
          d.keys + {id})
  }

  function AsLearner(d: Draft, id: nat): Draft {
    var c := d.cfg;
    if id in c.learners then d
    else if id in c.voters.outgoing then
      Draft(c.(voters := c.voters.(incoming := c.voters.incoming - {id}), learnersNext := c.learnersNext + {id}), d.keys + {id})
    else
      Draft(c.(voters := c.voters.(incoming := c.voters.incoming - {id}), learners := c.learners + {id}, learnersNext := c.learnersNext - {id}),
            d.keys + {id})
  }

  function Without(d: Draft, id: nat): Draft {
    var c := d.cfg;
    Draft(c.(voters := c.voters.(incoming := c.voters.incoming - {id}), learners := c.learners - {id}, learnersNext := c.learnersNext - {id}),
          if id in c.voters.outgoing then d.keys else d.keys - {id})
  }

  function One(d: Draft, cc: Change): Draft {
    if cc.id == 0 then d
    else match cc.kind
      case AddNode => AsVoter(d, cc.id)
      case RemoveNode => Without(d, cc.id)
      case AddLearnerNode => AsLearner(d, cc.id)
  }

  function All(d: Draft, ccs: seq<Change>): Draft {
    if ccs == [] then d else One(All(d, ccs[..|ccs| - 1]), ccs[|ccs| - 1])
  }

  // ---------------------------------------------------------------- invariants

  /** What CheckInvariants tests. */
  predicate Checks(d: Draft) {
    && d.cfg.voters.Ids() + d.cfg.learners + d.cfg.learnersNext <= d.keys
    && d.cfg.learners !! d.cfg.voters.outgoing && d.cfg.learners !! d.cfg.voters.incoming
    && d.cfg.learnersNext <= d.cfg.voters.outgoing
    && (!d.cfg.IsJoint() ==> d.cfg.learnersNext == {} && !d.cfg.autoLeave)
  }

  /** What holds while changes are applied: no id has two roles, and exactly the members have a progress. */
  predicate Roles(d: Draft) {
    && d.cfg.learners !! d.cfg.voters.Ids()
    && d.cfg.learnersNext <= d.cfg.voters.outgoing && d.cfg.learnersNext !! d.cfg.voters.incoming
    && d.keys == d.cfg.voters.Ids() + d.cfg.learners && 0 !in d.keys
  }

  /** The full invariant of a configuration between changes. */
  predicate Closed(d: Draft) {
    && Roles(d) && (d.cfg.IsJoint() ==> d.cfg.voters.incoming != {}) && (!d.cfg.IsJoint() ==> !d.cfg.autoLeave)
  }

  lemma OneKeepsRoles(d: Draft, cc: Change)
    requires Roles(d)
    ensures Roles(One(d, cc)) && One(d, cc).cfg.voters.outgoing == d.cfg.voters.outgoing && One(d, cc).cfg.autoLeave == d.cfg.autoLeave
  {
  }

  lemma {:induction false} AllKeepsRoles(d: Draft, ccs: seq<Change>)
    requires Roles(d)
    ensures Roles(All(d, ccs)) && All(d, ccs).cfg.voters.outgoing == d.cfg.voters.outgoing && All(d, ccs).cfg.autoLeave == d.cfg.autoLeave
  {
    if ccs != [] {
      AllKeepsRoles(d, ccs[..|ccs| - 1]);
      OneKeepsRoles(All(d, ccs[..|ccs| - 1]), ccs[|ccs| - 1]);
    }
  }

  lemma {:induction false} AllConcat(d: Draft, a: seq<Change>, b: seq<Change>)
    ensures All(d, a + b) == All(All(d, a), b)
    decreases |b|
  {
    if b == [] {
      assert a + b == a;
    } else {
      assert (a + b)[..|a + b| - 1] == a + b[..|b| - 1];
      AllConcat(d, a, b[..|b| - 1]);
    }
  }

  // ---------------------------------------------------------------- what a list of changes means

  /** The changes do not name the id. */
  predicate Unnamed(ccs: seq<Change>, id: nat) { forall j | 0 <= j < |ccs| :: ccs[j].id != id }

  /** Two drafts treat an id alike. */
  predicate SameRole(d: Draft, e: Draft, id: nat) {
    && (id in d.cfg.voters.incoming <==> id in e.cfg.voters.incoming)
    && (id in d.cfg.learners <==> id in e.cfg.learners) && (id in d.cfg.learnersNext <==> id in e.cfg.learnersNext)
    && (id in d.keys <==> id in e.keys)
  }

  /** An id that no change names keeps its role. */
  lemma {:induction false} UnnamedKeepsRole(d: Draft, ccs: seq<Change>, id: nat)
    requires Unnamed(ccs, id)
    ensures SameRole(d, All(d, ccs), id)
  {
    if ccs != [] {
      UnnamedKeepsRole(d, ccs[..|ccs| - 1], id);
    }
  }

  /** What the last change that names an id makes of it; an outgoing voter stays tracked, and learns only later. */
  predicate HasRole(d: Draft, kind: Kind, id: nat, outgoing: bool) {
    match kind
    case AddNode => id in d.cfg.voters.incoming && id !in d.cfg.learners && id !in d.cfg.learnersNext && id in d.keys
    case RemoveNode =>
      id !in d.cfg.voters.incoming && id !in d.cfg.learners && id !in d.cfg.learnersNext && (id in d.keys <==> outgoing)
    case AddLearnerNode =>
      id !in d.cfg.voters.incoming && (id in d.cfg.learners <==> !outgoing) && (id in d.cfg.learnersNext <==> outgoing) && id in d.keys
  }

  /** The last change that names an id decides its role, whatever the changes before it and around it are. */
  lemma LastChangeDecides(d: Draft, ccs: seq<Change>, k: nat, id: nat)
    requires Roles(d) && id != 0 && k < |ccs| && ccs[k].id == id && Unnamed(ccs[k + 1..], id)
    ensures HasRole(All(d, ccs), ccs[k].kind, id, id in d.cfg.voters.outgoing)
  {
    hide All;
    var before, after := All(d, ccs[..k]), All(d, ccs[..k + 1]);
    AllKeepsRoles(d, ccs[..k]);
    AllNext(d, ccs, k);
    assert ccs == ccs[..k + 1] + ccs[k + 1..];
    AllConcat(d, ccs[..k + 1], ccs[k + 1..]);
    UnnamedKeepsRole(after, ccs[k + 1..], id);
  }

  lemma AllNext(d: Draft, ccs: seq<Change>, k: nat)
    requires k < |ccs|
    ensures All(d, ccs[..k + 1]) == One(All(d, ccs[..k]), ccs[k])
  {
    assert ccs[..k + 1][..k] == ccs[..k];
  }

  // ---------------------------------------------------------------- the three operations

  datatype Op = Simple(ccs: seq<Change>) | EnterJoint(autoLeave: bool, ccs: seq<Change>) | LeaveJoint

  function Doubled(d: Draft): Draft {
    d.(cfg := d.cfg.(voters := d.cfg.voters.(outgoing := d.cfg.voters.incoming)))
  }

  function Merged(d: Draft): Draft {
    var c := d.cfg;
    var learners := c.learners + c.learnersNext;
    Draft(Config(Joint(c.voters.incoming, {}), learners, {}, false),
          d.keys - (c.voters.outgoing - c.voters.incoming - learners))
  }

  /** The configuration an operation aims at. */
  function Target(d: Draft, op: Op): Draft {
    match op
    case Simple(ccs) => All(d, ccs)
    case EnterJoint(autoLeave, ccs) =>
      var t := All(Doubled(d), ccs);
      t.(cfg := t.cfg.(autoLeave := autoLeave))
    case LeaveJoint => Merged(d)
  }

  function Differing(a: set<nat>, b: set<nat>): nat { |a - b| + |b - a| }

  /** When an operation is accepted, but for the invariant checks before and after it. */
  predicate Admits(d: Draft, op: Op) {
    match op
    case Simple(ccs) =>
      && !d.cfg.IsJoint() && Target(d, op).cfg.voters.incoming != {}
      && Differing(d.cfg.voters.incoming, Target(d, op).cfg.voters.incoming) <= 1
    case EnterJoint(autoLeave, ccs) =>
      !d.cfg.IsJoint() && d.cfg.voters.incoming != {} && Target(d, op).cfg.voters.incoming != {}
    case LeaveJoint => d.cfg.IsJoint()
  }

  predicate Accepts(d: Draft, op: Op) { Checks(d) && Admits(d, op) && Checks(Target(d, op)) }

  /**
    Closed configurations stay closed under every admitted operation.  The checks before and
    after the operation never refuse one, and leaving a joint configuration never fails.
   */
  lemma ChangesStayClosed(d: Draft, op: Op)
    requires Closed(d)
    ensures Accepts(d, op) <==> Admits(d, op)
    ensures Accepts(d, op) ==> Closed(Target(d, op))
    ensures Accepts(d, LeaveJoint) <==> d.cfg.IsJoint()
  {
    hide All;
    match op
    case Simple(ccs) => AllKeepsRoles(d, ccs);
    case EnterJoint(autoLeave, ccs) =>
      if !d.cfg.IsJoint() {
        AllKeepsRoles(Doubled(d), ccs);
      }
    case LeaveJoint =>
  }

  /** What an accepted change makes of an id it names, and of one it does not name. */
  lemma TargetRoles(d: Draft, op: Op, k: nat, id: nat)
    requires Closed(d) && Accepts(d, op) && !op.LeaveJoint? && id != 0
    ensures k < |op.ccs| && op.ccs[k].id == id && Unnamed(op.ccs[k + 1..], id) ==>
              HasRole(Target(d, op), op.ccs[k].kind, id, op.EnterJoint? && id in d.cfg.voters.incoming)
    ensures Unnamed(op.ccs, id) ==> SameRole(d, Target(d, op), id)
    ensures Target(d, op).cfg.voters.outgoing == if op.EnterJoint? then d.cfg.voters.incoming else {}
    ensures Target(d, op).cfg.autoLeave == (op.EnterJoint? && op.autoLeave)
  {
    hide All, Accepts;
    var from := if op.EnterJoint? then Doubled(d) else d;
    assert !d.cfg.IsJoint() by { NotJointBefore(d, op); }
    AllKeepsRoles(from, op.ccs);
    if k < |op.ccs| && op.ccs[k].id == id && Unnamed(op.ccs[k + 1..], id) {
      LastChangeDecides(from, op.ccs, k, id);
    }
    if Unnamed(op.ccs, id) {
      UnnamedKeepsRole(from, op.ccs, id);
    }
  }

  lemma NotJointBefore(d: Draft, op: Op)
    requires Accepts(d, op) && !op.LeaveJoint?
    ensures !d.cfg.IsJoint()
  {
  }

  /** Leaving the joint configuration and making a change commute. */
  lemma MergedCommutes(d: Draft, cc: Change)
    requires Roles(d)
    ensures Merged(One(d, cc)) == One(Merged(d), cc)
  {
  }

  lemma {:induction false} MergedAll(d: Draft, ccs: seq<Change>)
    requires Roles(d)
    ensures Merged(All(d, ccs)) == All(Merged(d), ccs)
  {
    hide One, Merged, Roles;
    if ccs != [] {
      var front := ccs[..|ccs| - 1];
      MergedAll(d, front);
      AllKeepsRoles(d, front);
      MergedCommutes(All(d, front), ccs[|ccs| - 1]);
    }
  }

  /**
    Going through a joint configuration ends where making the changes at once would: every voter
    set may change, in any number of voters, and what was delayed until the end is made up for.
   */
  lemma JointMeansAtOnce(d: Draft, autoLeave: bool, ccs: seq<Change>)
    requires Closed(d) && Accepts(d, EnterJoint(autoLeave, ccs))
    ensures var joint := Target(d, EnterJoint(autoLeave, ccs));
            Accepts(joint, LeaveJoint) && Target(joint, LeaveJoint) == All(d, ccs)
  {
    hide All, Accepts, Closed;
    ChangesStayClosed(d, EnterJoint(autoLeave, ccs));
    DoubledFacts(d, autoLeave, ccs);
    AllKeepsRoles(Doubled(d), ccs);
    ChangesStayClosed(Target(d, EnterJoint(autoLeave, ccs)), LeaveJoint);
    MergedAll(Doubled(d), ccs);
  }

  lemma DoubledFacts(d: Draft, autoLeave: bool, ccs: seq<Change>)
    requires Closed(d) && Accepts(d, EnterJoint(autoLeave, ccs))
    ensures Roles(Doubled(d)) && Doubled(d).cfg.IsJoint() && Merged(Doubled(d)) == d
  {
  }

  /** Leaving: the incoming voters stay, next learners become learners, and everyone else is forgotten. */
  lemma LeaveRoles(d: Draft, id: nat)
    requires Closed(d) && Accepts(d, LeaveJoint)
    ensures var t := Target(d, LeaveJoint);
            && (id in t.cfg.voters.Ids() <==> id in d.cfg.voters.incoming)
            && (id in t.cfg.learners <==> id in d.cfg.learners || id in d.cfg.learnersNext) && id !in t.cfg.learnersNext
            && (id in t.keys <==> id in t.cfg.voters.incoming || id in t.cfg.learners)
            && !t.cfg.IsJoint() && !t.cfg.autoLeave
  {
  }

  /** One change at a time is never too many: it is refused only if it leaves no voter. */
  lemma OneChangeAccepted(d: Draft, cc: Change)
    requires Closed(d) && !d.cfg.IsJoint()
    ensures Accepts(d, Simple([cc])) <==> All(d, [cc]).cfg.voters.incoming != {}
  {
    hide Accepts, Closed, All, One;
    ChangesStayClosed(d, Simple([cc]));
    OneVoterChanges(d, cc);
  }

  lemma OneVoterChanges(d: Draft, cc: Change)
    ensures Differing(d.cfg.voters.incoming, All(d, [cc]).cfg.voters.incoming) <= 1
  {
    var a, b := d.cfg.voters.incoming, All(d, [cc]).cfg.voters.incoming;
    assert [cc][..0] == [];
    assert All(d, [cc]) == One(d, cc);
    assert a - b <= {cc.id} && b - a <= {cc.id} && (a - b) * (b - a) == {};
    SubsetCardinality((a - b) + (b - a), {cc.id});
  }

  /** Any number of changes is accepted through a joint configuration, unless they leave no voter or there was none. */
  lemma EnterJointAccepted(d: Draft, autoLeave: bool, ccs: seq<Change>)
    requires Closed(d) && !d.cfg.IsJoint()
    ensures Accepts(d, EnterJoint(autoLeave, ccs)) <==> d.cfg.voters.incoming != {} && All(d, ccs).cfg.voters.incoming != {}
  {
    hide Accepts, All;
    ChangesStayClosed(d, EnterJoint(autoLeave, ccs));
    MergedAll(Doubled(d), ccs);
    assert Merged(Doubled(d)) == d;
  }

  /** The change of voters that is accepted at once: one voter more, one less, or none. */
  lemma DifferingIs(a: set<nat>, b: set<nat>)
    ensures Differing(a, b) <= 1 <==> exists x :: a - {x} == b - {x}
  {
    if Differing(a, b) <= 1 {
      var x := if a - b != {} then (var y :| y in a - b; y) else if b - a != {} then (var y :| y in b - a; y) else 0;
      assert a - b <= {x} && b - a <= {x} by {
        Lone(a - b, x);
        Lone(b - a, x);
      }
      assert a - {x} == b - {x};
    } else {
      forall x ensures a - {x} != b - {x} {
        if a - {x} == b - {x} {
          forall y | y in (a - b) + (b - a) ensures y == x {
            assert y in a - {x} <==> y in b - {x};
          }
          assert (a - b) + (b - a) <= {x} && (a - b) * (b - a) == {};
          SubsetCardinality((a - b) + (b - a), {x});
        }
      }
    }
  }

  lemma Lone(s: set<nat>, x: nat)
    requires |s| <= 1 && (s != {} ==> x in s)
    ensures s <= {x}
  {
    forall y | y in s ensures y == x {
      SubsetCardinality({x, y}, s);
    }
  }

  /** Whatever the tracker was like, an accepted configuration gives no id two roles and every member a progress. */
  lemma AcceptedIsSound(d: Draft, op: Op, id: nat)
    requires Accepts(d, op)
    ensures var t := Target(d, op);
            && (id in t.cfg.learners ==> id !in t.cfg.voters.incoming && id !in t.cfg.voters.outgoing)
            && (id in t.cfg.learnersNext ==> id in t.cfg.voters.outgoing)
            && (id in t.cfg.voters.incoming || id in t.cfg.voters.outgoing || id in t.cfg.learners ==> id in t.keys)
  {
    hide Target, Admits;
  }

  /** A run of accepted operations. */
  predicate IsRun(run: seq<Draft>, ops: seq<Op>) {
    && |run| == |ops| + 1
    && forall i | 0 <= i < |ops| :: Accepts(run[i], ops[i]) && run[i + 1] == Target(run[i], ops[i])
  }

  /** Every configuration reachable from the empty one is closed. */
  lemma {:induction false} ReachableClosed(run: seq<Draft>, ops: seq<Op>, i: nat)
    requires IsRun(run, ops) && run[0] == Draft(EMPTY, {}) && i <= |ops|
    ensures Closed(run[i])
  {
    if i > 0 {
      ReachableClosed(run, ops, i - 1);
      ChangesStayClosed(run[i - 1], ops[i - 1]);
    }
  }

  // ---------------------------------------------------------------- overlap

  /** Majorities of two voter sets that differ by at most one voter meet. */
  lemma AdjacentMajoritiesMeet(a: set<nat>, b: set<nat>, p: set<nat>, q: set<nat>)
    requires Differing(a, b) <= 1
    requires |p * a| >= Majority(|a|) && |q * b| >= Majority(|b|)
    ensures p * q * a * b != {}
  {
    var all := a + b;
    assert a + b == a + (b - a) && a + b == b + (a - b);
    assert |all| == |a| + |b - a| == |b| + |a - b|;
    Pigeonhole(p * a, q * b, all);
    assert (p * a) * (q * b) == p * q * a * b;
  }

  /** Every quorum of one configuration meets every quorum of the other, in a voter of both. */
  ghost predicate Overlap(a: Joint, b: Joint) {
    forall p, q | a.IsQuorum(p) && b.IsQuorum(q) :: p * q * a.Ids() * b.Ids() != {}
  }

  /** A step between configurations is an adjacent voter set, or the old voters as outgoing ones. */
  lemma AcceptedShape(d: Draft, op: Op)
    requires Closed(d) && Accepts(d, op)
    ensures var a, b := d.cfg.voters, Target(d, op).cfg.voters;
            && b.incoming != {}
            && (Differing(a.incoming, b.incoming) <= 1 || b.outgoing == a.incoming)
  {
    match op
    case Simple(ccs) =>
    case EnterJoint(autoLeave, ccs) => AllKeepsRoles(Doubled(d), ccs);
    case LeaveJoint =>
      assert d.cfg.voters.incoming - d.cfg.voters.incoming == {};
  }

  lemma QuorumsOverlap(a: Joint, b: Joint, p: set<nat>, q: set<nat>)
    requires a.incoming != {} && b.incoming != {} && a.IsQuorum(p) && b.IsQuorum(q)
    requires Differing(a.incoming, b.incoming) <= 1 || b.outgoing == a.incoming
    ensures p * q * a.Ids() * b.Ids() != {}
  {
    if Differing(a.incoming, b.incoming) <= 1 {
      AdjacentMajoritiesMeet(a.incoming, b.incoming, p, q);
      var v :| v in p * q * a.incoming * b.incoming;
      assert v in p * q * a.Ids() * b.Ids();
    } else {
      MajoritiesMeet(a.incoming, p, q);
      var v :| v in p * q * a.incoming;
      assert v in p * q * a.Ids() * b.Ids();
    }
  }

  lemma AcceptedOverlaps(d: Draft, op: Op)
    requires Closed(d) && d.cfg.voters.incoming != {} && Accepts(d, op)
    ensures Overlap(d.cfg.voters, Target(d, op).cfg.voters)
  {
    hide Closed, Accepts, Target, Differing, Joint.IsQuorum, Joint.Ids;
    AcceptedShape(d, op);
    forall p, q | d.cfg.voters.IsQuorum(p) && Target(d, op).cfg.voters.IsQuorum(q)
      ensures p * q * d.cfg.voters.Ids() * Target(d, op).cfg.voters.Ids() != {}
    {
      QuorumsOverlap(d.cfg.voters, Target(d, op).cfg.voters, p, q);
    }
  }

  /**
    Whatever the old configuration had committed survives: votes that win under the new
    configuration include a voter that has acknowledged it.
   */
  lemma CommittedSurvives(d: Draft, op: Op, acks: Acks, useGroups: bool, votes: map<nat, bool>) returns (v: nat)
    requires Closed(d) && d.cfg.voters.incoming != {} && Accepts(d, op)
    requires Target(d, op).cfg.voters.Vote(votes) == Won
    ensures v in votes && votes[v] && v in d.cfg.voters.Ids() && v in Target(d, op).cfg.voters.Ids()
    ensures AckOf(acks, v).index >= d.cfg.voters.Committed(acks, useGroups).0
  {
    var old_, new_ := d.cfg.voters, Target(d, op).cfg.voters;
    AcceptedOverlaps(d, op);
    WonIsQuorum(new_, votes);
    var i := old_.Committed(acks, useGroups).0;
    CommittedIsQuorum(old_, acks, useGroups, i);
    var p, q := AckedAtLeast(old_.Ids(), acks, i), Granted(votes);
    assert old_.IsQuorum(p) && new_.IsQuorum(q);
    v :| v in p * q * old_.Ids() * new_.Ids();
  }
}
