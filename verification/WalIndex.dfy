/** WALIndex and SegmentManager: where each entry's record is, and the segments that hold the bytes. */
module WalIndex {
  import opened Types
  import opened Record
  import opened WalReplay

  datatype IndexEntry = IndexEntry(segment: nat, offset: nat, length: nat, term: nat)

  class WalIndex {
    var firstIndex: nat
    var entries: seq<IndexEntry>

    /** The entry of an index: WALIndex::Lookup. */
    function Lookup(index: nat): Option<IndexEntry>
      reads this
    {
      if entries == [] || index < firstIndex || index > firstIndex + |entries| - 1 then None
      else Some(entries[index - firstIndex])
    }

    constructor ()
      ensures firstIndex == 1 && entries == []
    {
      firstIndex, entries := 1, [];
    }

    /**
      WALIndex::Insert.  Only the next index is recorded under its own number; an older one
      inside the range is recorded under the next, and any other is dropped.
     */
    method Insert(index: nat, e: IndexEntry)
      modifies this
      ensures old(entries) == [] ==> firstIndex == index && entries == [e]
      ensures old(entries) != [] ==>
                firstIndex == old(firstIndex)
                && entries == old(entries) + (if firstIndex <= index <= firstIndex + |old(entries)| then [e] else [])
      ensures old(entries) == [] || index == old(firstIndex) + |old(entries)| ==>
                Lookup(index) == Some(e) && forall i: nat | i != index :: Lookup(i) == old(Lookup(i))
    {
      if entries == [] {
        firstIndex := index;
      }
      var expected := firstIndex + |entries|;
      if index != expected {
        if index < firstIndex {
          return;
        }
        if index > expected {
          return;
        }
      }
      entries := entries + [e];
    }

    /** WALIndex::TruncateFrom. */
    method TruncateFrom(index: nat)
      modifies this
      ensures firstIndex == old(firstIndex)
      ensures entries == if index <= firstIndex then [] else old(entries)[..Min(index - firstIndex, |old(entries)|)]
      ensures forall i: nat :: Lookup(i) == if i < index then old(Lookup(i)) else None
    {
      if entries == [] || index > firstIndex + |entries| - 1 {
        return;
      }
      if index <= firstIndex {
        entries := [];
        return;
      }
      entries := entries[..index - firstIndex];
    }

    /** WALIndex::TruncateBefore. */
    method TruncateBefore(index: nat)
      modifies this
      ensures forall i: nat :: Lookup(i) == if i >= index then old(Lookup(i)) else None
      ensures old(entries) != [] ==> firstIndex == Max(old(firstIndex), index)
      ensures old(entries) == [] ==> firstIndex == old(firstIndex)
    {
      if entries == [] || index <= firstIndex {
        return;
      }
      if index > firstIndex + |entries| {
        entries, firstIndex := [], index;
        return;
      }
      entries, firstIndex := entries[index - firstIndex..], index;
    }
  }

  // ---------------------------------------------------------------- segments

  /** A segment as the bytes written to it; the contents of its 32-byte header do not matter. */
  datatype Segment = Segment(firstIndex: nat, bytes: seq<Byte>)

  type Segments = map<nat, Segment>

  function SegmentFrom(segs: Segments, id: nat, top: nat, index: nat, best: Option<nat>): Option<nat>
    decreases top + 1 - id
  {
    if id > top then best
    else if id !in segs then SegmentFrom(segs, id + 1, top, index, best)
    else if segs[id].firstIndex > index then best
    else SegmentFrom(segs, id + 1, top, index, Some(id))
  }

  function SegmentFor(segs: Segments, top: nat, index: nat): Option<nat> { SegmentFrom(segs, 1, top, index, None) }

  /** Every segment from `low` to `s` starts at or before the index, and the one after `s`, if any, starts later. */
  predicate Straddles(segs: Segments, low: nat, s: nat, index: nat) {
    && (forall id | id in segs && low <= id <= s :: segs[id].firstIndex <= index)
    && (forall id | id in segs && id > s && (forall j | j in segs :: j <= s || j >= id) :: segs[id].firstIndex > index)
  }

  /** A segment is found for an index exactly if the starts of the segments straddle it there. */
  lemma {:induction false} SegmentForIs(segs: Segments, id: nat, top: nat, index: nat, best: Option<nat>, s: nat)
    requires s in segs && (forall i | i in segs :: i <= top)
    requires id <= s || (best == Some(s) && forall j | j in segs :: j <= s || j >= id)
    requires best.Some? ==> best.value < id
    ensures SegmentFrom(segs, id, top, index, best) == Some(s) <==> Straddles(segs, id, s, index)
    decreases top + 1 - id
  {
    if id <= top {
      if id !in segs {
        SegmentForIs(segs, id + 1, top, index, best, s);
      } else if segs[id].firstIndex <= index {
        if id <= s {
          SegmentForIs(segs, id + 1, top, index, Some(id), s);
        } else {
          SegmentOnwards(segs, id + 1, top, index, Some(id));
        }
      }
    }
  }

  lemma {:induction false} SegmentOnwards(segs: Segments, id: nat, top: nat, index: nat, best: Option<nat>)
    requires best.Some? && best.value < id
    ensures var r := SegmentFrom(segs, id, top, index, best); r.Some? && r.value >= best.value
    decreases top + 1 - id
  {
    if id <= top {
      if id !in segs {
        SegmentOnwards(segs, id + 1, top, index, best);
      } else if segs[id].firstIndex <= index {
        SegmentOnwards(segs, id + 1, top, index, Some(id));
      }
    }
  }

  /** A new last segment hides the one before it from the indices its label does not exceed, and no other. */
  lemma RolledLookup(segs: Segments, top: nat, new_: Segment, index: nat, s: nat)
    requires top in segs && s in segs && forall id | id in segs :: 0 < id <= top
    ensures SegmentFor(segs[top + 1 := new_], top + 1, index) == Some(s) <==>
              SegmentFor(segs, top, index) == Some(s) && (s == top ==> index < new_.firstIndex)
  {
    hide SegmentFrom;
    var rolled := segs[top + 1 := new_];
    SegmentForIs(segs, 1, top, index, None, s);
    SegmentForIs(rolled, 1, top + 1, index, None, s);
    StraddlesRolled(segs, top, new_, index, s);
  }

  lemma StraddlesRolled(segs: Segments, top: nat, new_: Segment, index: nat, s: nat)
    requires top in segs && s in segs && forall id | id in segs :: 0 < id <= top
    ensures Straddles(segs[top + 1 := new_], 1, s, index) <==> Straddles(segs, 1, s, index) && (s == top ==> index < new_.firstIndex)
  {
    var rolled := segs[top + 1 := new_];
    assert forall id | id in segs :: rolled[id] == segs[id];
    assert top + 1 in rolled && (s < top ==> top in rolled);
  }

  /** The first indices that label the segments rise with their ids. */
  predicate Rising(segs: Segments) {
    forall a, b | a in segs && b in segs && a < b :: segs[a].firstIndex < segs[b].firstIndex
  }

  /** The id right after another one. */
  lemma {:induction false} NextId(segs: Segments, a: nat, b: nat) returns (n: nat)
    requires b in segs && a < b
    ensures n in segs && a < n <= b && forall j | j in segs :: j <= a || j >= n
    decreases b - a
  {
    if a + 1 in segs {
      n := a + 1;
    } else {
      n := NextId(segs, a + 1, b);
    }
  }

  /** Every segment is the one found for its own label if and only if the labels rise. */
  lemma FoundByOwnLabel(segs: Segments, top: nat)
    requires forall id | id in segs :: 0 < id <= top
    ensures (forall s | s in segs :: SegmentFor(segs, top, segs[s].firstIndex) == Some(s)) <==> Rising(segs)
  {
    hide SegmentFrom;
    forall s | s in segs
      ensures SegmentFor(segs, top, segs[s].firstIndex) == Some(s) <==> Straddles(segs, 1, s, segs[s].firstIndex)
    {
      SegmentForIs(segs, 1, top, segs[s].firstIndex, None, s);
    }
    if forall s | s in segs :: SegmentFor(segs, top, segs[s].firstIndex) == Some(s) {
      forall a, b | a in segs && b in segs && a < b ensures segs[a].firstIndex < segs[b].firstIndex {
        var n := NextId(segs, a, b);
        assert Straddles(segs, 1, a, segs[a].firstIndex) && Straddles(segs, 1, b, segs[b].firstIndex);
      }
    }
  }

  /** Looking a segment up depends on ids and labels only. */
  lemma {:induction false} SegmentFromSame(a: Segments, b: Segments, id: nat, top: nat, index: nat, best: Option<nat>)
    requires a.Keys == b.Keys && forall i | i in a :: a[i].firstIndex == b[i].firstIndex
    ensures SegmentFrom(a, id, top, index, best) == SegmentFrom(b, id, top, index, best)
    decreases top + 1 - id
  {
    if id <= top {
      if id !in a {
        SegmentFromSame(a, b, id + 1, top, index, best);
      } else if a[id].firstIndex <= index {
        SegmentFromSame(a, b, id + 1, top, index, Some(id));
      }
    }
  }

  /** A segment that is found exists. */
  lemma {:induction false} SegmentFromExists(segs: Segments, id: nat, top: nat, index: nat, best: Option<nat>)
    requires best.Some? ==> best.value in segs
    ensures var r := SegmentFrom(segs, id, top, index, best); r.Some? ==> r.value in segs
    decreases top + 1 - id
  {
    if id <= top {
      if id !in segs {
        SegmentFromExists(segs, id + 1, top, index, best);
      } else if segs[id].firstIndex <= index {
        SegmentFromExists(segs, id + 1, top, index, Some(id));
      }
    }
  }

  class SegmentManager {
    var segments: Segments
    var current: nat

    /** The current segment is the one with the highest id. */
    predicate Valid()
      reads this
    {
      && (segments != map[] ==> current in segments)
      && forall id | id in segments :: 0 < id <= current && |segments[id].bytes| >= SEGMENT_HEADER
    }

    constructor ()
      ensures Valid() && segments == map[] && current == 0
    {
      segments, current := map[], 0;
    }

    /** SegmentManager::Initialize: the segments that are there, the highest of them current. */
    constructor Found(segments: Segments, current: nat)
      requires segments != map[] ==> current in segments
      requires forall id | id in segments :: 0 < id <= current && |segments[id].bytes| >= SEGMENT_HEADER
      ensures Valid() && this.segments == segments && this.current == current
    {
      this.segments, this.current := segments, current;
    }

    /** SegmentManager::RollToNewSegment. */
    method RollToNewSegment(firstIndex: nat)
      requires Valid()
      modifies this
      ensures Valid() && current == old(current) + 1 && current !in old(segments)
      ensures segments == old(segments)[current := Segment(firstIndex, Zeros(SEGMENT_HEADER))]
    {
      current := current + 1;
      segments := segments[current := Segment(firstIndex, Zeros(SEGMENT_HEADER))];
    }

    /** SegmentManager::GetCurrentSegment: the first segment is made on demand. */
    method GetCurrentSegment(hint: nat)
      requires Valid()
      modifies this
      ensures Valid() && current in segments
      ensures old(segments) != map[] ==> segments == old(segments) && current == old(current)
      ensures old(segments) == map[] ==> current == old(current) + 1 && segments == map[current := Segment(hint, Zeros(SEGMENT_HEADER))]
    {
      if segments == map[] {
        RollToNewSegment(hint);
      }
    }

    method AppendBytes(data: seq<Byte>)
      requires Valid() && current in segments
      modifies `segments
      ensures Valid() && segments == old(segments)[current := Segment(old(segments)[current].firstIndex, old(segments)[current].bytes + data)]
    {
      var s := segments[current];
      segments := segments[current := Segment(s.firstIndex, s.bytes + data)];
    }

    method Truncate(id: nat, offset: nat)
      requires Valid() && id in segments && SEGMENT_HEADER <= offset <= |segments[id].bytes|
      modifies `segments
      ensures Valid() && segments == old(segments)[id := Segment(old(segments)[id].firstIndex, old(segments)[id].bytes[..offset])]
    {
      segments := segments[id := Segment(segments[id].firstIndex, segments[id].bytes[..offset])];
    }

    /** SegmentManager::RemoveSegment; if it was the current one, the next highest takes over. */
    method RemoveSegment(id: nat)
      requires Valid()
      modifies this
      ensures Valid() && segments == old(segments) - {id} && current <= old(current)
    {
      if id !in segments {
        assert segments - {id} == segments;
        return;
      }
      segments := segments - {id};
      if current == id {
        current := Highest(current);
      }
    }

    /** The highest id that is left, below `top`; 0 if there is none. */
    function Highest(top: nat): (r: nat)
      requires forall id | id in segments :: id <= top
      reads this
      ensures r <= top && forall id | id in segments :: id <= r
      ensures segments != map[] ==> r in segments
    {
      if top == 0 || top in segments then
        assert top == 0 ==> forall id | id in segments :: id == 0;
        assert segments != map[] ==> exists id :: id in segments;
        top
      else Highest(top - 1)
    }

    /** SegmentManager::GetSegmentForIndex: segments in order of ids, up to the first one that starts later. */
    method GetSegmentForIndex(index: nat) returns (r: Option<nat>)
      requires Valid()
      ensures r == SegmentFor(segments, current, index)
    {
      r := None;
      var id := 1;
      while id <= current
        invariant 1 <= id <= current + 1
        invariant SegmentFor(segments, current, index) == SegmentFrom(segments, id, current, index, r)
      {
        if id in segments {
          if segments[id].firstIndex > index {
            return;
          }
          r := Some(id);
        }
        id := id + 1;
      }
    }

    /** Every segment after the given one is removed. */
    method RemoveAfter(last: nat)
      requires Valid() && last in segments
      modifies this
      ensures Valid() && current == last && segments == old(segments) - (set id | id in old(segments) && id > last)
    {
      var id, top := last + 1, current;
      while id <= top
        invariant last < id <= top + 1 && Valid() && current <= top
        invariant segments == old(segments) - (set i | i in old(segments) && last < i < id)
      {
        RemoveSegment(id);
        id := id + 1;
      }
      assert last in segments && forall i | i in segments :: i <= last;
      assert forall i | i in old(segments) :: i <= top;
    }
  }
}
