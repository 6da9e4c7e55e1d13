/** Progress: what a leader knows about one peer, and the window of messages in flight to it. */
module Progress {
  import opened Types
  import opened Inflights

  datatype State = Probe | Replicate | Snapshot

  /** Strictly rising values between two bounds. */
  predicate Within(low: nat, s: seq<nat>, high: nat) {
    && (forall i | 0 <= i < |s| :: low < s[i] < high)
    && (forall i, j | 0 <= i < j < |s| :: s[i] < s[j])
  }

  lemma WithinExtends(low: nat, s: seq<nat>, high: nat, x: nat)
    requires Within(low, s, high) && low < high <= x
    ensures Within(low, s + [x], x + 1)
  {
  }

  /** After everything up to `to` is freed, the rest lies above `to`. */
  lemma WithinFreed(low: nat, s: seq<nat>, high: nat, to: nat)
    requires Within(low, s, high)
    ensures Within(low, s[Freed(s, to)..], high)
    ensures Within(to, s[Freed(s, to)..], high)
  {
    hide Freed;
    var n := Freed(s, to);
    WithinDrop(low, s, high, n);
    if n < |s| {
      WithinAbove(low, s[n..], high, to);
    }
  }

  lemma WithinDrop(low: nat, s: seq<nat>, high: nat, n: nat)
    requires Within(low, s, high) && n <= |s|
    ensures Within(low, s[n..], high)
  {
  }

  lemma WithinAbove(low: nat, s: seq<nat>, high: nat, to: nat)
    requires Within(low, s, high) && s != [] && to < s[0]
    ensures Within(to, s, high)
  {
  }

  lemma WithinWiden(low: nat, s: seq<nat>, high: nat, high': nat)
    requires Within(low, s, high) && high <= high'
    ensures Within(low, s, high')
  {
  }

  /** Freeing up to the oldest message frees exactly that one. */
  lemma FreedOne(low: nat, s: seq<nat>, high: nat)
    requires Within(low, s, high) && s != []
    ensures Freed(s, s[0]) == 1 && Within(low, s[1..], high)
  {
    FreedIs(s, s[0], 1);
  }

  /** Where probing goes on after the rejection of a probe at `rejected`. */
  function Lowered(matched: nat, rejected: nat, hint: nat): nat { Max(Min(rejected, hint + 1), matched + 1) }

  class Progress {
    var matched: nat
    var next: nat
    var state: State
    var paused: bool
    var pendingSnapshot: nat
    var pendingRequestSnapshot: nat
    var recentActive: bool
    var committedIndex: nat
    const inflights: Inflights

    /** The replication window. */
    ghost predicate Valid()
      reads this, inflights
    {
      && inflights.Valid() && matched < next
      && (if state == Replicate then Within(matched, inflights.Contents(), next) else inflights.Contents() == [])
    }

    /** Nothing past the end of the leader's log is promised, except what the peer itself has acknowledged. */
    predicate Bounded(last: nat)
      reads this
    {
      next <= Max(last, matched) + 1 && pendingSnapshot <= last
    }

    /** A progress is in order unless it starts at index 0. */
    constructor (next: nat, maxInflight: nat)
      ensures Valid() <==> next > 0
      ensures matched == 0 && this.next == next && state == Probe && !paused && !recentActive
      ensures pendingSnapshot == pendingRequestSnapshot == committedIndex == 0 && fresh(inflights)
    {
      matched, this.next, state, paused, recentActive := 0, next, Probe, false, false;
      pendingSnapshot, pendingRequestSnapshot, committedIndex := 0, 0, 0;
      inflights := new Inflights(maxInflight);
    }

    /** Progress::Reset: everything is forgotten; a new leader starts probing right after its log. */
    method Reset(next: nat)
      requires inflights.Valid()
      modifies this, inflights
      ensures Valid() <==> next > 0
      ensures matched == 0 && this.next == next && state == Probe && !paused && !recentActive
      ensures pendingSnapshot == pendingRequestSnapshot == 0 && inflights.Valid() && inflights.Contents() == []
    {
      matched, this.next, state, paused, recentActive := 0, next, Probe, false, false;
      pendingSnapshot, pendingRequestSnapshot := 0, 0;
      inflights.Reset();
    }

    method ResetState(state: State)
      requires inflights.Valid()
      modifies `paused, `pendingSnapshot, `state, inflights
      ensures inflights.Valid() && inflights.Contents() == [] && inflights.Bound() == old(inflights.Bound())
      ensures !paused && pendingSnapshot == 0 && this.state == state
    {
      paused, pendingSnapshot, this.state := false, 0, state;
      inflights.Reset();
    }

    method BecomeProbe()
      requires inflights.Valid()
      modifies this, inflights
      ensures Valid() && state == Probe && !paused && pendingSnapshot == 0
      ensures matched == old(matched) && next == (if old(state) == Snapshot then Max(matched, old(pendingSnapshot)) else matched) + 1
      ensures pendingRequestSnapshot == old(pendingRequestSnapshot) && recentActive == old(recentActive) && committedIndex == old(committedIndex)
      ensures inflights.Bound() == old(inflights.Bound())
    {
      var pending := if state == Snapshot then pendingSnapshot else 0;
      ResetState(Probe);
      next := Max(matched + 1, pending + 1);
    }

    method BecomeReplicate()
      requires inflights.Valid()
      modifies this, inflights
      ensures Valid() && state == Replicate && !paused && pendingSnapshot == 0 && inflights.Contents() == []
      ensures matched == old(matched) && next == matched + 1
      ensures pendingRequestSnapshot == old(pendingRequestSnapshot) && recentActive == old(recentActive) && committedIndex == old(committedIndex)
      ensures inflights.Bound() == old(inflights.Bound())
    {
      ResetState(Replicate);
      next := matched + 1;
    }

    method BecomeSnapshot(index: nat)
      requires Valid()
      modifies this, inflights
      ensures Valid() && state == Snapshot && !paused && pendingSnapshot == index
      ensures matched == old(matched) && next == old(next)
      ensures pendingRequestSnapshot == old(pendingRequestSnapshot) && recentActive == old(recentActive) && committedIndex == old(committedIndex)
      ensures inflights.Bound() == old(inflights.Bound())
    {
      ResetState(Snapshot);
      pendingSnapshot := index;
    }

    predicate IsSnapshotCaughtUp()
      reads this
    {
      state == Snapshot && matched >= pendingSnapshot
    }

    method UpdateCommitted(index: nat)
      modifies `committedIndex
      ensures committedIndex == Max(old(committedIndex), index)
    {
      if index > committedIndex {
        committedIndex := index;
      }
    }

    /** Progress::MaybeUpdate; the inflights up to `n` are still to be freed. */
    method MaybeUpdate(n: nat) returns (r: bool)
      modifies `matched, `next, `paused
      ensures r <==> old(matched) < n
      ensures matched == Max(old(matched), n) && next == Max(old(next), n + 1)
      ensures paused == (old(paused) && !r)
    {
      r := matched < n;
      if r {
        matched, paused := n, false;
      }
      if next < n + 1 {
        next := n + 1;
      }
    }

    /** Whether the peer can be sent to once it has acknowledged `index`, which is news. */
    predicate OpensAt(index: nat)
      requires inflights.Valid()
      reads this, inflights
    {
      match state
      case Probe => inflights.Bound() > 0
      case Replicate => |inflights.Contents()| - Freed(inflights.Contents(), index) < inflights.Bound()
      case Snapshot => pendingSnapshot <= index
    }

    /** A peer's acknowledgement of `index`: the window moves up, and what is covered leaves the queue. */
    method Acknowledge(index: nat) returns (r: bool)
      requires Valid()
      modifies this, inflights
      ensures Valid() && (r <==> old(matched) < index)
      ensures !r ==> matched == old(matched) && next == old(next) && state == old(state) && pendingSnapshot == old(pendingSnapshot)
      ensures r ==> matched == index && pendingSnapshot <= old(pendingSnapshot)
      ensures r && old(state) == Probe ==> state == Replicate && next == index + 1
      ensures r && old(state) == Replicate ==>
                && state == Replicate && next == Max(old(next), index + 1)
                && inflights.Contents() == old(inflights.Contents())[Freed(old(inflights.Contents()), index)..]
      ensures r && old(state) == Snapshot ==>
                if index < old(pendingSnapshot) then state == Snapshot && next == Max(old(next), index + 1)
                else state == Probe && next == index + 1
      ensures r ==> (IsPaused() <==> !old(OpensAt(index)))
      ensures pendingRequestSnapshot == old(pendingRequestSnapshot) && recentActive == old(recentActive)
      ensures inflights.Bound() == old(inflights.Bound())
    {
      hide Inflights.Valid, Inflights.Contents, Within;
      r := MaybeUpdate(index);
      if !r {
        return;
      }
      match state {
        case Probe => BecomeReplicate();
        case Replicate =>
          WithinFreed(old(matched), inflights.Contents(), old(next), index);
          WithinWiden(index, inflights.Contents()[Freed(inflights.Contents(), index)..], old(next), next);
          inflights.FreeTo(index);
        case Snapshot =>
          if IsSnapshotCaughtUp() {
            BecomeProbe();
          }
      }
    }

    /** The peer is alive and reports its commit index. */
    method Heard(commit: nat)
      requires Valid()
      modifies `recentActive, `committedIndex
      ensures Valid() && recentActive && committedIndex == Max(old(committedIndex), commit)
    {
      recentActive := true;
      UpdateCommitted(commit);
    }

    /** What a heartbeat response does: sending may go on, and a full window loses its oldest message. */
    method Nudge()
      requires Valid()
      modifies this, inflights
      ensures Valid() && !paused && matched == old(matched) && next == old(next) && state == old(state)
      ensures pendingRequestSnapshot == old(pendingRequestSnapshot) && recentActive == old(recentActive) && pendingSnapshot == old(pendingSnapshot)
      ensures inflights.Contents() == if state == Replicate && old(inflights.Full()) && old(inflights.Contents()) != []
                                      then old(inflights.Contents())[1..] else old(inflights.Contents())
      ensures inflights.Bound() == old(inflights.Bound())
    {
      hide Inflights.Valid, Inflights.Contents;
      paused := false;
      if state == Replicate && inflights.Full() {
        if inflights.count > 0 {
          FreedOne(matched, inflights.Contents(), next);
        }
        inflights.FreeFirstOne();
      }
    }

    predicate IsPaused()
      requires inflights.Valid()
      reads this, inflights
    {
      match state
      case Probe => paused
      case Replicate => inflights.Full()
      case Snapshot => true
    }

    /** Progress::UpdateState after sending up to `last`; the queue has room because the peer is not paused. */
    method UpdateState(last: nat)
      requires Valid() && !IsPaused() && next <= last
      modifies this, inflights
      ensures Valid() && matched == old(matched) && state == old(state)
      ensures old(state) == Probe ==> paused && next == old(next)
      ensures old(state) == Replicate ==>
                next == last + 1 && inflights.Contents() == old(inflights.Contents()) + [last] && paused == old(paused)
      ensures pendingRequestSnapshot == old(pendingRequestSnapshot) && pendingSnapshot == old(pendingSnapshot)
      ensures recentActive == old(recentActive) && committedIndex == old(committedIndex)
      ensures inflights.Bound() == old(inflights.Bound())
    {
      match state {
        case Probe => paused := true;
        case Replicate =>
          WithinExtends(matched, inflights.Contents(), next, last);
          next := last + 1;
          inflights.Add(last);
      }
    }

    /** Progress::MaybeDecTo.  In Replicate the inflights are left for the caller, which goes back to probing. */
    method MaybeDecTo(rejected: nat, hint: nat, requestSnapshot: nat) returns (r: bool)
      requires Valid()
      modifies `next, `paused, `pendingRequestSnapshot
      ensures r <==> if old(state) == Replicate then rejected > matched || (rejected == matched && requestSnapshot != NONE)
                     else old(next) - 1 == rejected || requestSnapshot != NONE
      ensures next == if r && requestSnapshot == NONE
                      then (if state == Replicate then matched + 1 else Lowered(matched, rejected, hint))
                      else old(next)
      ensures paused == if r && state != Replicate then false else old(paused)
      ensures pendingRequestSnapshot ==
                if r && requestSnapshot != NONE && (state == Replicate || old(pendingRequestSnapshot) == NONE)
                then requestSnapshot else old(pendingRequestSnapshot)
      ensures matched < next && (state != Replicate ==> Valid())
    {
      if state == Replicate {
        if rejected < matched || (rejected == matched && requestSnapshot == NONE) {
          return false;
        }
        if requestSnapshot == NONE {
          next := matched + 1;
        } else {
          pendingRequestSnapshot := requestSnapshot;
        }
        return true;
      }
      if (next == 0 || next - 1 != rejected) && requestSnapshot == NONE {
        return false;
      }
      if requestSnapshot == NONE {
        next := Min(rejected, hint + 1);
        if next < matched + 1 {
          next := matched + 1;
        }
      } else if pendingRequestSnapshot == NONE {
        pendingRequestSnapshot := requestSnapshot;
      }
      paused := false;
      return true;
    }
  }
}
