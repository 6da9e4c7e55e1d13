/** Inflights: a ring buffer that refines a bounded queue through wrap-around, growth and delayed shrinking. */
module Inflights {
  import opened Types

  /** How many values at the front are not above `to`. */
  function Freed(s: seq<nat>, to: nat): (n: nat)
    ensures n <= |s|
    ensures forall i | 0 <= i < n :: s[i] <= to
    ensures n < |s| ==> to < s[n]
  {
    if s == [] || to < s[0] then 0
    else
      assert forall i | 0 < i < |s| :: s[i] == s[1..][i - 1];
      1 + Freed(s[1..], to)
  }

  lemma FreedIs(s: seq<nat>, to: nat, n: nat)
    requires n <= |s| && (forall i | 0 <= i < n :: s[i] <= to) && (n < |s| ==> to < s[n])
    ensures n == Freed(s, to)
  {
  }

  /** A ring of `count` values from `start` on; once it wraps, the buffer is as long as the capacity. */
  predicate Fits(buffer: seq<nat>, start: nat, capacity: nat, count: nat) {
    && count <= capacity && |buffer| <= capacity && (start < capacity || start == 0)
    && (start + count <= capacity ==> start + count <= |buffer|)
    && (start + count > capacity ==> |buffer| == capacity)
  }

  function Rotated(start: nat, capacity: nat, i: nat): nat
    requires start < capacity && i <= capacity
  {
    if start + i < capacity then start + i else start + i - capacity
  }

  /** The values of a ring, oldest first. */
  function Ring(buffer: seq<nat>, start: nat, capacity: nat, count: nat): (s: seq<nat>)
    requires Fits(buffer, start, capacity, count)
    ensures |s| == count && forall i | 0 <= i < count :: s[i] == buffer[Rotated(start, capacity, i)]
  {
    seq(count, i requires 0 <= i < count => buffer[Rotated(start, capacity, i)])
  }

  lemma RingDrops(buffer: seq<nat>, start: nat, capacity: nat, count: nat, i: nat)
    requires Fits(buffer, start, capacity, count) && start < capacity && i <= count
    ensures var s := Rotated(start, capacity, i);
            Fits(buffer, s, capacity, count - i) && Ring(buffer, s, capacity, count - i) == Ring(buffer, start, capacity, count)[i..]
  {
  }

  class Inflights {
    var start: nat
    var count: nat
    var buffer: seq<nat>
    var capacity: nat
    var incoming: Option<nat>
    /** Whether the buffer has storage yet; it gets it on the first addition. */
    var reserved: bool

    predicate Valid()
      reads this
    {
      && Fits(buffer, start, capacity, count)
      && (incoming.Some? ==> 0 < count && incoming.value < capacity)
      && (!reserved ==> buffer == [] && start == 0)
    }

    /** The queue, oldest first. */
    function Contents(): (s: seq<nat>)
      requires Valid()
      reads this
      ensures |s| == count
    {
      Ring(buffer, start, capacity, count)
    }

    /** The bound of the queue: the capacity asked for last. */
    function Bound(): nat
      reads this
    {
      if incoming.Some? then incoming.value else capacity
    }

    constructor (capacity: nat)
      ensures Valid() && Contents() == [] && Bound() == capacity
    {
      start, count, buffer, this.capacity, incoming, reserved := 0, 0, [], capacity, None, false;
    }

    predicate Full()
      requires Valid()
      reads this
      ensures Full() <==> |Contents()| >= Bound()
    {
      count == capacity || (incoming.Some? && count >= incoming.value)
    }

    /** Inflights::Add; adding to a full queue would stop the process. */
    method Add(inflight: nat)
      requires Valid() && !Full()
      modifies this
      ensures Valid() && Contents() == old(Contents()) + [inflight] && Bound() == old(Bound())
    {
      if !reserved {
        assert count == 0 && start == 0 && incoming == None;
        buffer, reserved := [], capacity > 0;
      }
      var next := start + count;
      if next >= capacity {
        next := next - capacity;
      }
      assert next <= |buffer|;
      if next == |buffer| {
        buffer := buffer + [inflight];
      } else {
        buffer := buffer[next := inflight];
      }
      count := count + 1;
    }

    method Reset()
      requires Valid()
      modifies this
      ensures Valid() && Contents() == [] && Bound() == old(Bound())
    {
      count, start, buffer, reserved := 0, 0, [], false;
      if incoming.Some? {
        capacity, incoming := incoming.value, None;
      }
    }

    /** Inflights::FreeTo drops the longest prefix that is not above `to`. */
    method FreeTo(to: nat)
      requires Valid()
      modifies this
      ensures Valid() && Contents() == old(Contents())[Freed(old(Contents()), to)..] && Bound() == old(Bound())
    {
      if count == 0 || to < buffer[start] {
        return;
      }
      var i, idx := Leading(to);
      RingDrops(buffer, start, capacity, count, i);
      count, start := count - i, idx;
      if count == 0 && incoming.Some? {
        start, capacity, buffer, reserved, incoming := 0, incoming.value, [], incoming.value > 0, None;
      }
    }

    /** The loop of FreeTo: how many values to free, and where the next one is. */
    method Leading(to: nat) returns (i: nat, idx: nat)
      requires Valid() && count > 0
      ensures i == Freed(Contents(), to) && idx == Rotated(start, capacity, i)
    {
      ghost var s := Contents();
      i, idx := 0, start;
      while i < count
        invariant 0 <= i <= count && idx == Rotated(start, capacity, i)
        invariant forall j | 0 <= j < i :: s[j] <= to
      {
        assert s[i] == buffer[idx];
        if to < buffer[idx] {
          break;
        }
        idx := idx + 1;
        if idx >= capacity {
          idx := idx - capacity;
        }
        i := i + 1;
      }
      FreedIs(s, to, i);
    }

    method FreeFirstOne()
      requires Valid()
      modifies this
      ensures Valid() && Bound() == old(Bound())
      ensures Contents() == if old(count) == 0 then [] else old(Contents())[Freed(old(Contents()), old(Contents())[0])..]
    {
      if count > 0 {
        FreeTo(buffer[start]);
      }
    }

    /** Inflights::SetCapacity: growth takes effect at once, shrinking when the queue is empty; nothing is lost. */
    method SetCapacity(wanted: nat)
      requires Valid()
      modifies this
      ensures Valid() && Contents() == old(Contents()) && Bound() == wanted
    {
      if capacity == wanted {
        incoming := None;
        return;
      }
      if capacity < wanted {
        if start + count <= capacity {
        } else {
          var wrapped := count - (capacity - start);
          buffer, start := buffer[start..] + buffer[..wrapped], 0;
        }
        capacity, incoming := wanted, None;
        return;
      }
      if count == 0 {
        capacity, incoming, start := wanted, None, 0;
        if reserved {
          buffer, reserved := [], wanted > 0;
        }
      } else {
        incoming := Some(wanted);
      }
    }
  }
}
