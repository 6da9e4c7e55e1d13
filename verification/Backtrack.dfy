/** How a probing leader finds the place where a follower's log parts from its own. */
module Backtrack {
  import opened Types
  import opened RaftNode
  import opened Progress

  /** Terms are real and never fall along a log. */
  predicate Sorted(log: seq<Entry>) {
    forall i, j | 1 <= i <= j <= |log| :: 0 < TermAt(log, i) <= TermAt(log, j)
  }

  predicate Agree(leader: seq<Entry>, follower: seq<Entry>, i: nat) {
    i <= |leader| && i <= |follower| && TermAt(leader, i) == TermAt(follower, i)
  }

  /** The largest index at which the logs agree; index 0 always agrees. */
  ghost predicate IsAgreement(leader: seq<Entry>, follower: seq<Entry>, a: nat) {
    Agree(leader, follower, a) && forall i: nat | Agree(leader, follower, i) :: i <= a
  }

  /** What a follower answers to a probe at `prev`. */
  datatype Reply = Matched(index: nat) | Committed(index: nat) | Rejected(hint: nat, hintTerm: nat)

  function Answer(log: seq<Entry>, committed: nat, prev: nat, prevTerm: nat): Reply {
    if prev < committed then Committed(committed)
    else if TermAt(log, prev) == prevTerm then Matched(prev)
    else
      var hint := FindConflictByTerm(log, Min(prev, |log|), prevTerm);
      Rejected(hint, TermAt(log, hint))
  }

  /** Where the leader probes after a rejection of `prev`: its own look-back from the hint, then MaybeDecTo. */
  function NextProbe(log: seq<Entry>, matched: nat, prev: nat, hint: nat, hintTerm: nat): nat {
    var probe := if hintTerm > 0 then FindConflictByTerm(log, hint, hintTerm) else hint;
    Lowered(matched, prev, probe) - 1
  }

  lemma {:induction false} ConflictByTerm(log: seq<Entry>, index: nat, term: nat)
    ensures var r := FindConflictByTerm(log, index, term);
            TermAt(log, r) <= term && forall i | r < i <= index :: TermAt(log, i) > term
  {
    if index > 0 && TermAt(log, index) > term {
      ConflictByTerm(log, index - 1, term);
    }
  }

  /** One round lowers the probe, stays at or above the agreement, and next time accepts or meets an older term. */
  lemma RejectionStep(leader: seq<Entry>, follower: seq<Entry>, committed: nat, matched: nat, prev: nat, a: nat)
    requires Sorted(leader) && Sorted(follower) && IsAgreement(leader, follower, a)
    requires matched <= a <= prev <= |leader|
    ensures var r := Answer(follower, committed, prev, TermAt(leader, prev));
            && (r.Committed? <==> prev < committed)
            && (r.Matched? <==> committed <= prev == a)
            && (r.Rejected? ==>
                  var next := NextProbe(leader, matched, prev, r.hint, r.hintTerm);
                  a <= next < prev && (next == a || TermAt(leader, next) < TermAt(leader, prev)))
  {
    var t := TermAt(leader, prev);
    assert prev > a ==> !Agree(leader, follower, prev);
    assert a > 0 ==> TermAt(leader, a) <= t;
    var r := Answer(follower, committed, prev, t);
    if r.Rejected? {
      var hint := r.hint;
      ConflictByTerm(follower, Min(prev, |follower|), t);
      assert a <= hint;
      assert a > 0 ==> TermAt(leader, a) == TermAt(follower, a) <= r.hintTerm;
      ConflictByTerm(leader, hint, r.hintTerm);
      HintOlder(leader, follower, prev, hint, a);
    }
  }

  /** A hint with the rejected term itself is the agreement, or an older entry of the leader's. */
  lemma HintOlder(leader: seq<Entry>, follower: seq<Entry>, prev: nat, hint: nat, a: nat)
    requires Sorted(leader) && Sorted(follower) && IsAgreement(leader, follower, a)
    requires a < prev <= |leader| && a <= hint <= Min(prev, |follower|) && TermAt(follower, hint) <= TermAt(leader, prev)
    ensures var j := if TermAt(follower, hint) > 0 then FindConflictByTerm(leader, hint, TermAt(follower, hint)) else hint;
            a <= j <= hint && (Min(j, prev - 1) == a || TermAt(leader, Min(j, prev - 1)) < TermAt(leader, prev))
  {
    ConflictByTerm(leader, hint, TermAt(follower, hint));
    var j := if TermAt(follower, hint) > 0 then FindConflictByTerm(leader, hint, TermAt(follower, hint)) else hint;
    assert a > 0 ==> TermAt(leader, a) == TermAt(follower, a) <= TermAt(follower, hint);
    assert a <= j;
    var k := Min(j, prev - 1);
    assert k > 0 ==> TermAt(leader, k) <= TermAt(leader, j) <= TermAt(follower, hint);
    if TermAt(leader, k) == TermAt(leader, prev) && k > 0 {
      assert TermAt(leader, k) == TermAt(follower, hint);
      assert hint == prev ==> Agree(leader, follower, prev);
      assert TermAt(leader, hint) == TermAt(leader, prev);
      assert Agree(leader, follower, hint);
    }
  }

  /** The dialogue between a leader that probes and a follower: its last reply and the number of rejections. */
  datatype Ending = Ending(reply: Reply, rejections: nat)

  ghost function Dialogue(leader: seq<Entry>, follower: seq<Entry>, committed: nat, matched: nat, prev: nat, a: nat): Ending
    requires Sorted(leader) && Sorted(follower) && IsAgreement(leader, follower, a)
    requires matched <= a <= prev <= |leader|
    decreases prev
  {
    var r := Answer(follower, committed, prev, TermAt(leader, prev));
    RejectionStep(leader, follower, committed, matched, prev, a);
    if r.Rejected? then
      var rest := Dialogue(leader, follower, committed, matched, NextProbe(leader, matched, prev, r.hint, r.hintTerm), a);
      rest.(rejections := rest.rejections + 1)
    else Ending(r, 0)
  }

  /**
    Backtracking is exact.  It ends at the largest agreeing index, unless the follower has
    committed beyond it, and then with an answer at the follower's commit index.  It never
    takes more rejections than the leader has terms, nor than there are entries to give up.
   */
  lemma {:induction false} BacktrackExact(leader: seq<Entry>, follower: seq<Entry>, committed: nat, matched: nat, prev: nat, a: nat)
    requires Sorted(leader) && Sorted(follower) && IsAgreement(leader, follower, a)
    requires matched <= a <= prev <= |leader|
    ensures var e := Dialogue(leader, follower, committed, matched, prev, a);
            && e.reply == (if committed <= a then Matched(a) else Committed(committed))
            && e.rejections <= TermAt(leader, prev) && e.rejections <= prev - a
    decreases prev
  {
    hide Sorted, IsAgreement, Answer, NextProbe;
    RejectionStep(leader, follower, committed, matched, prev, a);
    var r := Answer(follower, committed, prev, TermAt(leader, prev));
    if r.Rejected? {
      var next := NextProbe(leader, matched, prev, r.hint, r.hintTerm);
      RejectionStep(leader, follower, committed, matched, next, a);
      BacktrackExact(leader, follower, committed, matched, next, a);
      RealTerm(leader, prev);
    } else {
      CommitAnswer(follower, committed, prev, TermAt(leader, prev));
    }
  }

  lemma RealTerm(log: seq<Entry>, i: nat)
    requires Sorted(log) && i <= |log|
    ensures i > 0 ==> TermAt(log, i) > 0
  {
  }

  lemma CommitAnswer(log: seq<Entry>, committed: nat, prev: nat, prevTerm: nat)
    ensures var r := Answer(log, committed, prev, prevTerm);
            (r.Committed? ==> r.index == committed) && (r.Matched? ==> r.index == prev)
  {
  }

  /** The largest agreeing index exists and is unique. */
  lemma {:induction false} AgreementExists(leader: seq<Entry>, follower: seq<Entry>, top: nat) returns (a: nat)
    requires forall i: nat | Agree(leader, follower, i) :: i <= top
    ensures IsAgreement(leader, follower, a) && forall b | IsAgreement(leader, follower, b) :: b == a
    decreases top
  {
    if Agree(leader, follower, top) {
      a := top;
    } else {
      assert Agree(leader, follower, 0);
      a := AgreementExists(leader, follower, top - 1);
    }
  }

  /**
    `Answer` is what HandleAppendEntries replies to a probe, whatever entries it carries: a
    matching one is acknowledged up to its last entry, unless it cannot be spliced in.
   */
  lemma AnswerIsReply(id: nat, n: Node, m: Msg)
    requires m.Append?
    ensures var e, r := HandleAppendEntries(id, n, m), Answer(n.log, n.committed, m.prev, m.prevTerm);
            match r
            case Rejected(hint, hintTerm) =>
              e == Effect(n, {AppendResponse(id, m.from, n.term, m.prev, true, hint, hintTerm, n.committed)})
            case Committed(index) => e == Effect(n, {AppendReply(id, n, m.from, index)})
            case Matched(index) =>
              && (e.Effect? <==> CanSplice(n.committed, n.log, m.prev, m.entries))
              && (e.Effect? ==> e.out == {AppendReply(id, e.node, m.from, index + |m.entries|)})
  {
  }
}
