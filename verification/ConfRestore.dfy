/** Printing a configuration as a ConfState, and restoring it into an empty tracker. */
module ConfRestore {
  import opened Types
  import opened Quorum
  import opened ConfChange
  import opened ConfChanger

  datatype ConfState = ConfState(voters: seq<nat>, outgoing: seq<nat>, learners: seq<nat>, learnersNext: seq<nat>, autoLeave: bool)

  /** A list names every id of a set once, in some order. */
  predicate Enumerates(ids: seq<nat>, s: set<nat>) { Distinct(ids) && Elements(ids) == s }

  predicate Prints(cs: ConfState, cfg: Config) {
    && Enumerates(cs.voters, cfg.voters.incoming) && Enumerates(cs.outgoing, cfg.voters.outgoing)
    && Enumerates(cs.learners, cfg.learners) && Enumerates(cs.learnersNext, cfg.learnersNext)
    && cs.autoLeave == cfg.autoLeave
  }

  lemma EmptyListed(ids: seq<nat>, s: set<nat>)
    requires Enumerates(ids, s)
    ensures ids == [] <==> s == {}
  {
    if ids != [] {
      assert ids[0] in Elements(ids);
    }
  }

  // ---------------------------------------------------------------- printing

  method Listed(s: set<nat>) returns (ids: seq<nat>)
    ensures Enumerates(ids, s)
  {
    ids := [];
    var rest := s;
    while rest != {}
      invariant rest <= s && Enumerates(ids, s - rest)
      decreases rest
    {
      var id :| id in rest;
      assert Elements(ids + [id]) == Elements(ids) + {id};
      ids, rest := ids + [id], rest - {id};
    }
  }

  /** TrackerConfiguration::ToConfState. */
  method ToConfState(cfg: Config) returns (cs: ConfState)
    ensures Prints(cs, cfg)
  {
    var voters := Listed(cfg.voters.incoming);
    var outgoing := Listed(cfg.voters.outgoing);
    var learners := Listed(cfg.learners);
    var learnersNext := Listed(cfg.learnersNext);
    cs := ConfState(voters, outgoing, learners, learnersNext, cfg.autoLeave);
  }

  // ---------------------------------------------------------------- runs of one kind of change

  function Each(kind: Kind, ids: seq<nat>): seq<Change> { seq(|ids|, i requires 0 <= i < |ids| => Change(kind, ids[i])) }

  lemma EachLast(kind: Kind, ids: seq<nat>)
    requires ids != []
    ensures var n := |ids| - 1;
            && Each(kind, ids) != [] && Each(kind, ids)[..n] == Each(kind, ids[..n]) && Each(kind, ids)[n] == Change(kind, ids[n])
            && Elements(ids) == Elements(ids[..n]) + {ids[n]}
    ensures Distinct(ids) ==> Distinct(ids[..|ids| - 1]) && ids[|ids| - 1] !in Elements(ids[..|ids| - 1])
  {
    var n := |ids| - 1;
    assert ids == ids[..n] + [ids[n]];
  }

  lemma {:induction false} AddAll(d: Draft, ids: seq<nat>)
    requires 0 !in Elements(ids) && Elements(ids) !! d.cfg.learners + d.cfg.learnersNext
    ensures All(d, Each(AddNode, ids)) ==
              Draft(d.cfg.(voters := d.cfg.voters.(incoming := d.cfg.voters.incoming + Elements(ids))), d.keys + Elements(ids))
    decreases |ids|
  {
    if ids != [] {
      var n := |ids| - 1;
      EachLast(AddNode, ids);
      AddAll(d, ids[..n]);
    }
  }

  lemma {:induction false} RemoveAll(d: Draft, ids: seq<nat>)
    requires 0 !in Elements(ids) && Elements(ids) <= d.cfg.voters.outgoing && d.cfg.learners == d.cfg.learnersNext == {}
    ensures All(d, Each(RemoveNode, ids)) ==
              Draft(d.cfg.(voters := d.cfg.voters.(incoming := d.cfg.voters.incoming - Elements(ids))), d.keys)
    decreases |ids|
  {
    if ids != [] {
      EachLast(RemoveNode, ids);
      RemoveAll(d, ids[..|ids| - 1]);
    }
  }

  lemma {:induction false} LearnAll(d: Draft, ids: seq<nat>)
    requires 0 !in Elements(ids) && Elements(ids) !! d.cfg.voters.Ids() && d.cfg.learnersNext == {} && d.cfg.learners <= d.keys
    ensures All(d, Each(AddLearnerNode, ids)) == Draft(d.cfg.(learners := d.cfg.learners + Elements(ids)), d.keys + Elements(ids))
    decreases |ids|
  {
    if ids != [] {
      EachLast(AddLearnerNode, ids);
      LearnAll(d, ids[..|ids| - 1]);
    }
  }

  lemma {:induction false} LearnNextAll(d: Draft, ids: seq<nat>)
    requires 0 !in Elements(ids) && Elements(ids) <= d.cfg.voters.outgoing <= d.keys
    requires Elements(ids) !! d.cfg.voters.incoming + d.cfg.learners
    ensures All(d, Each(AddLearnerNode, ids)) == d.(cfg := d.cfg.(learnersNext := d.cfg.learnersNext + Elements(ids)))
    decreases |ids|
  {
    if ids != [] {
      EachLast(AddLearnerNode, ids);
      LearnNextAll(d, ids[..|ids| - 1]);
    }
  }

  // ---------------------------------------------------------------- the round trip

  /** A configuration with exactly its members tracked. */
  function Members(cfg: Config): Draft { Draft(cfg, cfg.voters.Ids() + cfg.learners) }

  function JustVoters(voters: set<nat>): Draft { Draft(Config(Joint(voters, {}), {}, {}, false), voters) }

  /** The state a closed configuration with voters was printed to. */
  predicate Restorable(cs: ConfState, cfg: Config) {
    Prints(cs, cfg) && Closed(Members(cfg)) && cfg.voters.incoming != {}
  }

  function Incoming(cs: ConfState): seq<Change> {
    Each(RemoveNode, cs.outgoing) + Each(AddNode, cs.voters) + Each(AddLearnerNode, cs.learners) + Each(AddLearnerNode, cs.learnersNext)
  }

  lemma AllConcat4(d: Draft, a: seq<Change>, b: seq<Change>, c: seq<Change>, e: seq<Change>)
    ensures All(d, a + b + c + e) == All(All(All(All(d, a), b), c), e)
  {
    AllConcat(d, a + b + c, e);
    AllConcat(d, a + b, c);
    AllConcat(d, a, b);
  }

  /** The incoming changes turn the old voters, or nothing at all, into the printed configuration. */
  lemma IncomingRebuilds(cs: ConfState, cfg: Config)
    requires Restorable(cs, cfg)
    ensures var d := Doubled(JustVoters(cfg.voters.outgoing));
            All(d, Incoming(cs)) == Members(cfg.(autoLeave := false))
  {
    hide All, Each;
    var d0 := Doubled(JustVoters(cfg.voters.outgoing));
    AllConcat4(d0, Each(RemoveNode, cs.outgoing), Each(AddNode, cs.voters), Each(AddLearnerNode, cs.learners), Each(AddLearnerNode, cs.learnersNext));
    RemoveAll(d0, cs.outgoing);
    var d1 := All(d0, Each(RemoveNode, cs.outgoing));
    assert d1 == d0.(cfg := d0.cfg.(voters := Joint({}, cfg.voters.outgoing)));
    AddAll(d1, cs.voters);
    var d2 := All(d1, Each(AddNode, cs.voters));
    assert d2 == Draft(Config(cfg.voters, {}, {}, false), cfg.voters.Ids());
    LearnAll(d2, cs.learners);
    var d3 := All(d2, Each(AddLearnerNode, cs.learners));
    LearnNextAll(d3, cs.learnersNext);
  }

  /** Adding a voter that is not one yet is a simple change. */
  lemma AddVoter(voters: set<nat>, id: nat)
    requires id !in voters && id != 0 && 0 !in voters
    ensures Accepts(JustVoters(voters), Op.Simple([Change(AddNode, id)]))
    ensures Target(JustVoters(voters), Op.Simple([Change(AddNode, id)])) == JustVoters(voters + {id})
  {
    var d := JustVoters(voters);
    assert All(d, [Change(AddNode, id)][..0]) == d;
    assert All(d, [Change(AddNode, id)]) == AsVoter(d, id) == JustVoters(voters + {id});
    assert voters + {id} - voters == {id} && voters - (voters + {id}) == {};
  }

  lemma {:induction false} StaysVoter(d: Draft, ccs: seq<Change>, v: nat)
    requires v in d.cfg.voters.incoming && forall i | 0 <= i < |ccs| :: ccs[i].kind == AddNode || ccs[i].id != v
    ensures v in All(d, ccs).cfg.voters.incoming
  {
    if ccs != [] {
      StaysVoter(d, ccs[..|ccs| - 1], v);
    }
  }

  /** Outside a joint configuration every step of the rebuilding has voters. */
  lemma PrefixHasVoters(cs: ConfState, cfg: Config, k: nat)
    requires Restorable(cs, cfg) && !cfg.IsJoint() && 0 < k <= |Incoming(cs)|
    ensures All(JustVoters({}), Incoming(cs)[..k]).cfg.voters.incoming != {}
  {
    hide All;
    var list := Incoming(cs);
    NoOutgoing(cs, cfg);
    var v := cs.voters[0];
    var first, rest := [Change(AddNode, v)], list[..k][1..];
    assert list[..k] == first + rest;
    AllConcat(JustVoters({}), first, rest);
    assert v in cfg.voters.incoming by { assert v in Elements(cs.voters); }
    AddVoter({}, v);
    assert {} + {v} == {v};
    forall i | 0 <= i < |rest| ensures rest[i].kind == AddNode || rest[i].id != v {
      assert rest[i] == list[i + 1];
    }
    StaysVoter(JustVoters({v}), rest, v);
  }

  lemma NoOutgoing(cs: ConfState, cfg: Config)
    requires Restorable(cs, cfg) && !cfg.IsJoint()
    ensures cs.voters != [] && Incoming(cs) == Each(AddNode, cs.voters) + Each(AddLearnerNode, cs.learners)
    ensures Incoming(cs)[0] == Change(AddNode, cs.voters[0])
    ensures forall i | 0 <= i < |Incoming(cs)| :: Incoming(cs)[i].kind == AddNode || Incoming(cs)[i].id in cfg.learners
  {
    EmptyListed(cs.outgoing, cfg.voters.outgoing);
    EmptyListed(cs.learnersNext, cfg.learnersNext);
    EmptyListed(cs.voters, cfg.voters.incoming);
    forall i | 0 <= i < |Incoming(cs)| ensures Incoming(cs)[i].kind == AddNode || Incoming(cs)[i].id in cfg.learners {
      if i >= |cs.voters| {
        assert Incoming(cs)[i] == Each(AddLearnerNode, cs.learners)[i - |cs.voters|];
        assert cs.learners[i - |cs.voters|] in Elements(cs.learners);
      }
    }
  }

  // ---------------------------------------------------------------- restoring

  method PushAll(list: seq<Change>, kind: Kind, ids: seq<nat>) returns (r: seq<Change>)
    ensures r == list + Each(kind, ids)
  {
    r := list;
    for k := 0 to |ids|
      invariant r == list + Each(kind, ids)[..k]
    {
      r := r + [Change(kind, ids[k])];
    }
  }

  /** ToConfChangeSingle. */
  method ToConfChangeSingle(cs: ConfState) returns (outgoing: seq<Change>, incoming: seq<Change>)
    ensures outgoing == Each(AddNode, cs.outgoing) && incoming == Incoming(cs)
  {
    outgoing := PushAll([], AddNode, cs.outgoing);
    incoming := PushAll([], RemoveNode, cs.outgoing);
    incoming := PushAll(incoming, AddNode, cs.voters);
    incoming := PushAll(incoming, AddLearnerNode, cs.learners);
    incoming := PushAll(incoming, AddLearnerNode, cs.learnersNext);
  }

  /** The fallback of Restore: the changes go to a copy one by one, and each must leave voters. */
  method ApplyEach<P>(tracker: ProgressTracker<P>, incoming: seq<Change>, blank: P) returns (r: Result<(), ConfError>)
    modifies tracker
    ensures r.Ok? <==> Checks(old(tracker.State())) && Checks(All(old(tracker.State()), incoming))
                       && forall k | 0 < k <= |incoming| :: All(old(tracker.State()), incoming[..k]).cfg.voters.incoming != {}
    ensures tracker.State() == if r.Ok? then All(old(tracker.State()), incoming) else old(tracker.State())
  {
    var p := CheckAndCopy(tracker);
    if p.Err? {
      return Err(p.error);
    }
    var copy := p.value;
    ghost var d := copy.State();
    var k := 0;
    while k < |incoming|
      invariant 0 <= k <= |incoming| && copy.State() == All(d, incoming[..k]) && Tracked(copy.State())
      invariant forall j | 0 < j <= k :: All(d, incoming[..j]).cfg.voters.incoming != {}
      invariant unchanged(tracker)
    {
      var a := copy.Apply([incoming[k]]);
      AllConcat(d, incoming[..k], [incoming[k]]);
      assert incoming[..k + 1] == incoming[..k] + [incoming[k]];
      if a.Err? {
        return Err(a.error);
      }
      k := k + 1;
    }
    assert incoming[..k] == incoming;
    var c := copy.CheckInvariants();
    if c.Err? {
      return Err(c.error);
    }
    tracker.ApplyConf(copy.cfg, copy.changes, blank);
    return Ok(());
  }

  /**
    Restore.  A closed configuration with voters comes back from its printed form into an
    empty tracker, joint or not, whatever the order of the printed lists, and exactly its
    members are tracked.  A closed tracker stays closed in any case.
   */
  method Restore<P>(tracker: ProgressTracker<P>, cs: ConfState, blank: P, ghost cfg: Config) returns (r: Result<(), ConfError>)
    modifies tracker
    ensures old(tracker.State()) == Draft(EMPTY, {}) && Restorable(cs, cfg) ==> r.Ok? && tracker.State() == Members(cfg)
    ensures old(Closed(tracker.State())) ==> Closed(tracker.State())
  {
    hide Accepts, Target, Closed, Checks, All, Restorable;
    var outgoing, incoming := ToConfChangeSingle(cs);
    if outgoing == [] {
      RestorePlain(tracker.State(), cs, cfg);
      var e := ConfChanger.EnterJoint(tracker, false, incoming);
      if e.Err? {
        assert incoming[..|incoming|] == incoming;
        r := ApplyEach(tracker, incoming, blank);
      } else {
        tracker.ApplyConf(e.value.conf, e.value.changes, blank);
        r := Ok(());
      }
      return;
    }
    var k := 0;
    while k < |outgoing|
      invariant 0 <= k <= |outgoing|
      invariant old(Closed(tracker.State())) ==> Closed(tracker.State())
      invariant old(tracker.State()) == Draft(EMPTY, {}) && Restorable(cs, cfg) ==>
                  tracker.State() == JustVoters(Elements(cs.outgoing[..k]))
    {
      NextVoter(cs, cfg, k);
      StepClosed(tracker.State(), Op.Simple([outgoing[k]]));
      var e := ConfChanger.Simple(tracker, [outgoing[k]]);
      if e.Err? {
        return Err(e.error);
      }
      tracker.ApplyConf(e.value.conf, e.value.changes, blank);
      k := k + 1;
    }
    assert cs.outgoing[..k] == cs.outgoing;
    RestoreJoint(cs, cfg);
    StepClosed(tracker.State(), Op.EnterJoint(cs.autoLeave, incoming));
    var e := ConfChanger.EnterJoint(tracker, cs.autoLeave, incoming);
    if e.Err? {
      return Err(e.error);
    }
    tracker.ApplyConf(e.value.conf, e.value.changes, blank);
    return Ok(());
  }

  /** Printing a tracker's configuration and restoring it elsewhere gives the same configuration and members. */
  method RoundTrip<P>(tracker: ProgressTracker<P>, blank: P) returns (copy: ProgressTracker<P>)
    requires Closed(tracker.State()) && tracker.conf.voters.incoming != {}
    ensures fresh(copy) && copy.State() == tracker.State()
  {
    var cs := ToConfState(tracker.conf);
    copy := new ProgressTracker();
    var r := Restore(copy, cs, blank, tracker.conf);
  }

  lemma StepClosed(d: Draft, op: Op)
    ensures Closed(d) && Accepts(d, op) ==> Closed(Target(d, op))
  {
    if Closed(d) {
      ChangesStayClosed(d, op);
    }
  }

  /** The joint path adds the outgoing voters first, one simple change each. */
  lemma NextVoter(cs: ConfState, cfg: Config, k: nat)
    requires k < |cs.outgoing|
    ensures Restorable(cs, cfg) ==>
              var d, op := JustVoters(Elements(cs.outgoing[..k])), Op.Simple([Each(AddNode, cs.outgoing)[k]]);
              Accepts(d, op) && Target(d, op) == JustVoters(Elements(cs.outgoing[..k + 1]))
  {
    if Restorable(cs, cfg) {
      var id, before := cs.outgoing[k], Elements(cs.outgoing[..k]);
      assert cs.outgoing[..k + 1] == cs.outgoing[..k] + [id];
      assert Elements(cs.outgoing[..k + 1]) == before + {id};
      assert id in Elements(cs.outgoing) && before <= Elements(cs.outgoing);
      AddVoter(before, id);
    }
  }

  /** Then it enters the joint configuration. */
  lemma RestoreJoint(cs: ConfState, cfg: Config)
    requires cs.outgoing != []
    ensures Restorable(cs, cfg) ==>
              var d, op := JustVoters(Elements(cs.outgoing)), Op.EnterJoint(cs.autoLeave, Incoming(cs));
              Accepts(d, op) && Target(d, op) == Members(cfg)
  {
    if Restorable(cs, cfg) {
      EmptyListed(cs.outgoing, cfg.voters.outgoing);
      IncomingRebuilds(cs, cfg);
      var d, op := JustVoters(cfg.voters.outgoing), Op.EnterJoint(cs.autoLeave, Incoming(cs));
      hide All, Incoming;
      assert Target(d, op) == Members(cfg);
      ChangesStayClosed(d, op);
    }
  }

  /** The plain path cannot enter a joint configuration from an empty tracker, and applies the changes instead. */
  lemma RestorePlain(d: Draft, cs: ConfState, cfg: Config)
    ensures d == Draft(EMPTY, {}) ==> !Accepts(d, Op.EnterJoint(false, Incoming(cs)))
    ensures d == Draft(EMPTY, {}) && Restorable(cs, cfg) && cs.outgoing == [] ==>
              && All(d, Incoming(cs)) == Members(cfg) && Checks(d) && Checks(Members(cfg))
              && forall k | 0 < k <= |Incoming(cs)| :: All(d, Incoming(cs)[..k]).cfg.voters.incoming != {}
    ensures Closed(d) && Accepts(d, Op.EnterJoint(false, Incoming(cs))) ==> Closed(Target(d, Op.EnterJoint(false, Incoming(cs))))
    ensures Closed(d) && (Incoming(cs) != [] ==> All(d, Incoming(cs)).cfg.voters.incoming != {}) ==> Closed(All(d, Incoming(cs)))
  {
    StepClosed(d, Op.EnterJoint(false, Incoming(cs)));
    if d == Draft(EMPTY, {}) && Restorable(cs, cfg) && cs.outgoing == [] {
      EmptyListed(cs.outgoing, cfg.voters.outgoing);
      IncomingRebuilds(cs, cfg);
      forall k | 0 < k <= |Incoming(cs)| ensures All(d, Incoming(cs)[..k]).cfg.voters.incoming != {} {
        PrefixHasVoters(cs, cfg, k);
      }
    }
    if Closed(d) {
      AllKeepsRoles(d, Incoming(cs));
    }
  }
}
