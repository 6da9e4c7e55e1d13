/** ConfChanger and ProgressTracker: changes worked out on a copy, then applied to the tracker. */
module ConfChanger {
  import opened Types
  import opened ConfChange

  // ---------------------------------------------------------------- the overlay on the progress map

  /** The ids with a progress once the changes are made, one after the other. */
  function Overlaid(base: set<nat>, changes: seq<MapChange>): set<nat> {
    if changes == [] then base
    else
      var n := |changes| - 1;
      var ids := Overlaid(base, changes[..n]);
      if changes[n].op == Add then ids + {changes[n].id} else ids - {changes[n].id}
  }

  lemma OverlaidPush(base: set<nat>, changes: seq<MapChange>, c: MapChange)
    ensures Overlaid(base, changes + [c]) ==
              if c.op == Add then Overlaid(base, changes) + {c.id} else Overlaid(base, changes) - {c.id}
  {
    assert (changes + [c])[..|changes|] == changes;
  }

  /** Every member has a progress; the least that the changes rely on. */
  predicate Tracked(d: Draft) {
    d.cfg.voters.Ids() + d.cfg.learners + d.cfg.learnersNext <= d.keys
  }

  /** A copy of the configuration under change, over the progress map it started from. */
  class ConfCopy {
    const base: set<nat>
    var cfg: Config
    var changes: seq<MapChange>

    ghost function State(): Draft
      reads this
    {
      Draft(cfg, Overlaid(base, changes))
    }

    constructor (cfg: Config, base: set<nat>)
      ensures State() == Draft(cfg, base) && this.base == base
    {
      this.base, this.cfg, this.changes := base, cfg, [];
    }

    /** IncrChangeMap::Contains: the last pending change decides. */
    method Contains(id: nat) returns (r: bool)
      ensures r <==> id in State().keys
    {
      var i := |changes|;
      assert changes[..i] == changes;
      while i > 0
        invariant 0 <= i <= |changes|
        invariant id in Overlaid(base, changes) <==> id in Overlaid(base, changes[..i])
      {
        assert changes[..i][..i - 1] == changes[..i - 1];
        if changes[i - 1].id == id {
          return changes[i - 1].op == Add;
        }
        i := i - 1;
      }
      return id in base;
    }

    method Push(c: MapChange)
      modifies `changes
      ensures State() == old(State()).(keys := if c.op == Add then old(State()).keys + {c.id} else old(State()).keys - {c.id})
    {
      OverlaidPush(base, changes, c);
      changes := changes + [c];
    }

    method InitProgress(id: nat, isLearner: bool)
      modifies this
      ensures State().keys == old(State()).keys + {id}
      ensures cfg == if isLearner then old(cfg).(learners := old(cfg).learners + {id})
                     else old(cfg).(voters := old(cfg).voters.(incoming := old(cfg).voters.incoming + {id}))
    {
      if !isLearner {
        cfg := cfg.(voters := cfg.voters.(incoming := cfg.voters.incoming + {id}));
      } else {
        cfg := cfg.(learners := cfg.learners + {id});
      }
      Push(MapChange(id, Add));
    }

    method MakeVoter(id: nat)
      requires Tracked(State())
      modifies this
      ensures State() == AsVoter(old(State()), id)
    {
      var has := Contains(id);
      if !has {
        InitProgress(id, false);
        return;
      }
      cfg := cfg.(voters := cfg.voters.(incoming := cfg.voters.incoming + {id}));
      Drop(id);
    }

    /** Erases an id from both learner sets. */
    method Drop(id: nat)
      modifies `cfg
      ensures cfg == old(cfg).(learners := old(cfg).learners - {id}, learnersNext := old(cfg).learnersNext - {id})
    {
      cfg := cfg.(learners := cfg.learners - {id}, learnersNext := cfg.learnersNext - {id});
    }

    method MakeLearner(id: nat)
      requires Tracked(State())
      modifies this
      ensures State() == AsLearner(old(State()), id)
    {
      var has := Contains(id);
      if !has {
        InitProgress(id, true);
        return;
      }
      if id in cfg.learners {
        return;
      }
      cfg := cfg.(voters := cfg.voters.(incoming := cfg.voters.incoming - {id}));
      Drop(id);
      if id in cfg.voters.outgoing {
        cfg := cfg.(learnersNext := cfg.learnersNext + {id});
      } else {
        cfg := cfg.(learners := cfg.learners + {id});
      }
    }

    method RemoveMember(id: nat)
      requires Tracked(State())
      modifies this
      ensures State() == Without(old(State()), id)
    {
      var has := Contains(id);
      if !has {
        return;
      }
      cfg := cfg.(voters := cfg.voters.(incoming := cfg.voters.incoming - {id}));
      Drop(id);
      if id !in cfg.voters.outgoing {
        Push(MapChange(id, Remove));
      }
    }

    /** ConfChanger::Apply: the changes one after the other; a configuration without voters is refused. */
    method Apply(ccs: seq<Change>) returns (r: Result<(), ConfError>)
      requires Tracked(State())
      modifies this
      ensures State() == All(old(State()), ccs) && Tracked(State())
      ensures r == if cfg.voters.incoming == {} then Err(RemovedAllVoters) else Ok(())
    {
      var k := 0;
      ghost var before := State();
      while k < |ccs|
        invariant 0 <= k <= |ccs| && Tracked(State()) && State() == All(before, ccs[..k])
      {
        assert ccs[..k + 1][..k] == ccs[..k];
        var cc := ccs[k];
        if cc.id != 0 {
          match cc.kind
          case AddNode => MakeVoter(cc.id);
          case RemoveNode => RemoveMember(cc.id);
          case AddLearnerNode => MakeLearner(cc.id);
        }
        k := k + 1;
      }
      assert ccs[..k] == ccs;
      return if cfg.voters.incoming == {} then Err(RemovedAllVoters) else Ok(());
    }

    /** Every id of a set has a progress. */
    method HasAll(ids: set<nat>) returns (r: bool)
      ensures r <==> ids <= State().keys
    {
      var rest := ids;
      while rest != {}
        invariant rest <= ids && ids - rest <= State().keys
        decreases rest
      {
        var id :| id in rest;
        var has := Contains(id);
        if !has {
          return false;
        }
        rest := rest - {id};
      }
      return true;
    }

    /** CheckInvariants. */
    method CheckInvariants() returns (r: Result<(), ConfError>)
      ensures r.Ok? <==> Checks(State())
    {
      var v := HasAll(cfg.voters.Ids());
      var l := HasAll(cfg.learners);
      var n := HasAll(cfg.learnersNext);
      if !v || !l || !n {
        return Err(NoProgress);
      }
      if cfg.learners * cfg.voters.outgoing != {} || cfg.learners * cfg.voters.incoming != {} {
        return Err(InLearnersAndVoters);
      }
      if cfg.learnersNext - cfg.voters.outgoing != {} {
        return Err(LearnerNextNotOutgoing);
      }
      assert forall id | id in cfg.learners :: id !in cfg.learners * cfg.voters.outgoing && id !in cfg.learners * cfg.voters.incoming;
      assert forall id | id in cfg.learnersNext :: id !in cfg.learnersNext - cfg.voters.outgoing;
      if !cfg.IsJoint() {
        if cfg.learnersNext != {} {
          return Err(LearnersNextMustBeEmpty);
        }
        if cfg.autoLeave {
          return Err(AutoLeaveMustBeFalse);
        }
      }
      return Ok(());
    }
  }

  // ---------------------------------------------------------------- the tracker

  /** ProgressTracker: the configuration and one progress per member. */
  class ProgressTracker<P> {
    var conf: Config
    var progress: map<nat, P>

    ghost function State(): Draft
      reads this
    {
      Draft(conf, progress.Keys)
    }

    constructor ()
      ensures State() == Draft(EMPTY, {})
    {
      conf, progress := EMPTY, map[];
    }

    /** ProgressTracker::ApplyConf: new members start afresh, the others keep their progress. */
    method ApplyConf(conf: Config, changes: seq<MapChange>, blank: P)
      modifies this
      ensures State() == Draft(conf, Overlaid(old(progress).Keys, changes))
      ensures forall id | id in old(progress) && (forall c | c in changes :: c.id != id) :: id in progress && progress[id] == old(progress)[id]
      ensures forall id | id in progress :: progress[id] == blank || (id in old(progress) && progress[id] == old(progress)[id])
    {
      this.conf := conf;
      var k := 0;
      while k < |changes|
        invariant 0 <= k <= |changes| && this.conf == conf
        invariant progress.Keys == Overlaid(old(progress).Keys, changes[..k])
        invariant forall id | id in progress :: progress[id] == blank || (id in old(progress) && progress[id] == old(progress)[id])
        invariant forall id | id in old(progress) && (forall c | c in changes[..k] :: c.id != id) ::
                    id in progress && progress[id] == old(progress)[id]
      {
        var c := changes[k];
        assert changes[..k + 1] == changes[..k] + [c];
        OverlaidPush(old(progress).Keys, changes[..k], c);
        if c.op == Add {
          if c.id !in progress {
            progress := progress[c.id := blank];
          }
        } else {
          progress := progress - {c.id};
        }
        k := k + 1;
      }
      assert changes[..k] == changes;
    }
  }

  /** An accepted change: the new configuration and the changes of the progress map. */
  datatype Accepted = Accepted(conf: Config, changes: seq<MapChange>)

  /** The result of a change is the operation's target if it is accepted, and an error otherwise. */
  ghost predicate Outcome(d: Draft, op: Op, r: Result<Accepted, ConfError>) {
    && (r.Ok? <==> Accepts(d, op))
    && (r.Ok? ==> Draft(r.value.conf, Overlaid(d.keys, r.value.changes)) == Target(d, op))
  }

  /** ConfChanger::CheckAndCopy. */
  method CheckAndCopy<P>(tracker: ProgressTracker<P>) returns (r: Result<ConfCopy, ConfError>)
    ensures r.Ok? <==> Checks(tracker.State())
    ensures r.Ok? ==> fresh(r.value) && r.value.State() == tracker.State() && r.value.base == tracker.progress.Keys
  {
    var copy := new ConfCopy(tracker.conf, tracker.progress.Keys);
    var c := copy.CheckInvariants();
    return if c.Ok? then Ok(copy) else Err(c.error);
  }

  /** ConfChanger::EnterJoint. */
  method EnterJoint<P>(tracker: ProgressTracker<P>, autoLeave: bool, ccs: seq<Change>) returns (r: Result<Accepted, ConfError>)
    ensures Outcome(tracker.State(), Op.EnterJoint(autoLeave, ccs), r)
  {
    if tracker.conf.IsJoint() {
      return Err(AlreadyJoint);
    }
    var p := CheckAndCopy(tracker);
    if p.Err? {
      return Err(p.error);
    }
    var copy := p.value;
    if copy.cfg.voters.incoming == {} {
      return Err(ZeroVoters);
    }
    copy.cfg := copy.cfg.(voters := copy.cfg.voters.(outgoing := copy.cfg.voters.outgoing + copy.cfg.voters.incoming));
    assert copy.State() == Doubled(tracker.State());
    var a := copy.Apply(ccs);
    if a.Err? {
      return Err(a.error);
    }
    copy.cfg := copy.cfg.(autoLeave := autoLeave);
    var c := copy.CheckInvariants();
    return if c.Ok? then Ok(Accepted(copy.cfg, copy.changes)) else Err(c.error);
  }

  /** ConfChanger::Simple. */
  method Simple<P>(tracker: ProgressTracker<P>, ccs: seq<Change>) returns (r: Result<Accepted, ConfError>)
    ensures Outcome(tracker.State(), Op.Simple(ccs), r)
  {
    if tracker.conf.IsJoint() {
      return Err(SimpleInJoint);
    }
    var p := CheckAndCopy(tracker);
    if p.Err? {
      return Err(p.error);
    }
    var copy := p.value;
    var a := copy.Apply(ccs);
    if a.Err? {
      return Err(a.error);
    }
    if Differing(tracker.conf.voters.incoming, copy.cfg.voters.incoming) > 1 {
      return Err(MultipleVotersChanged);
    }
    var c := copy.CheckInvariants();
    return if c.Ok? then Ok(Accepted(copy.cfg, copy.changes)) else Err(c.error);
  }

  /** ConfChanger::LeaveJoint. */
  method LeaveJoint<P>(tracker: ProgressTracker<P>) returns (r: Result<Accepted, ConfError>)
    ensures Outcome(tracker.State(), Op.LeaveJoint, r)
  {
    if !tracker.conf.IsJoint() {
      return Err(NotJoint);
    }
    var p := CheckAndCopy(tracker);
    if p.Err? {
      return Err(p.error);
    }
    var copy := p.value;
    copy.cfg := copy.cfg.(learners := copy.cfg.learners + copy.cfg.learnersNext, learnersNext := {});
    var outgoing := copy.cfg.voters.outgoing;
    var rest := outgoing;
    ghost var keys := copy.State().keys;
    ghost var left := copy.cfg;
    while rest != {}
      invariant rest <= outgoing && copy.cfg == left
      invariant copy.State().keys == keys - (outgoing - rest - left.voters.incoming - left.learners)
      decreases rest
    {
      var id :| id in rest;
      if id !in copy.cfg.voters.incoming && id !in copy.cfg.learners {
        copy.Push(MapChange(id, Remove));
      }
      rest := rest - {id};
    }
    copy.cfg := copy.cfg.(voters := copy.cfg.voters.(outgoing := {}), autoLeave := false);
    assert copy.State() == Merged(tracker.State());
    var c := copy.CheckInvariants();
    return if c.Ok? then Ok(Accepted(copy.cfg, copy.changes)) else Err(c.error);
  }

  /** Raft::ApplyConfChange: the tracker takes on an accepted change, and a closed one stays closed. */
  method ApplyConfChange<P>(tracker: ProgressTracker<P>, op: Op, blank: P) returns (r: Result<(), ConfError>)
    modifies tracker
    ensures r.Ok? <==> Accepts(old(tracker.State()), op)
    ensures tracker.State() == if r.Ok? then Target(old(tracker.State()), op) else old(tracker.State())
    ensures old(Closed(tracker.State())) ==> Closed(tracker.State()) && (r.Ok? <==> Admits(old(tracker.State()), op))
  {
    hide Accepts, Admits, Target, Closed;
    if Closed(tracker.State()) {
      ChangesStayClosed(tracker.State(), op);
    }
    var a: Result<Accepted, ConfError>;
    match op {
      case Simple(ccs) => a := Simple(tracker, ccs);
      case EnterJoint(autoLeave, ccs) => a := EnterJoint(tracker, autoLeave, ccs);
      case LeaveJoint => a := LeaveJoint(tracker);
    }
    if a.Err? {
      return Err(a.error);
    }
    tracker.ApplyConf(a.value.conf, a.value.changes, blank);
    return Ok(());
  }
}
