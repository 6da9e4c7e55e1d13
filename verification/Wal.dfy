/** WAL: entries appended through a write buffer, and an index that says where their records are. */
module Wal {
  import opened Types
  import opened FlatLog
  import opened Record
  import opened WalReplay
  import opened WalIndex
  import opened WalEntries

  // ---------------------------------------------------------------- agreement between index and bytes

  /** The place named by an index entry holds exactly this entry's record. */
  predicate Holds(c: Codec, segs: Segments, ie: IndexEntry, e: Entry) {
    && ie.segment in segs && SEGMENT_HEADER <= ie.offset && ie.offset + ie.length <= |segs[ie.segment].bytes|
    && segs[ie.segment].bytes[ie.offset..ie.offset + ie.length] == BytesOf(c, e) && ie.term == e.term
  }

  predicate Before(a: IndexEntry, b: IndexEntry) {
    a.segment < b.segment || (a.segment == b.segment && a.offset + a.length <= b.offset)
  }

  predicate AllBefore(ies: seq<IndexEntry>, ie: IndexEntry) { forall k | 0 <= k < |ies| :: Before(ies[k], ie) }

  /** Every live index maps to its record, and records lie in the order of their indices. */
  predicate Agrees(c: Codec, segs: Segments, ies: seq<IndexEntry>, es: seq<Entry>) {
    && |ies| == |es|
    && (forall k {:trigger ies[k]} | 0 <= k < |ies| :: Holds(c, segs, ies[k], es[k]))
    && (forall j, k | 0 <= j < k < |ies| :: Before(ies[j], ies[k]))
  }

  /** Writing after the end of the last segment disturbs nothing. */
  lemma AgreesAppended(c: Codec, segs: Segments, ies: seq<IndexEntry>, es: seq<Entry>, id: nat, data: seq<Byte>)
    requires Agrees(c, segs, ies, es) && id in segs
    ensures Agrees(c, segs[id := Segment(segs[id].firstIndex, segs[id].bytes + data)], ies, es)
  {
    var segs' := segs[id := Segment(segs[id].firstIndex, segs[id].bytes + data)];
    forall k | 0 <= k < |ies| ensures Holds(c, segs', ies[k], es[k]) {
      assert Holds(c, segs, ies[k], es[k]);
      if ies[k].segment == id {
        assert (segs[id].bytes + data)[ies[k].offset..ies[k].offset + ies[k].length]
            == segs[id].bytes[ies[k].offset..ies[k].offset + ies[k].length];
      }
    }
  }

  /** Neither does a new segment. */
  lemma AgreesRolled(c: Codec, segs: Segments, ies: seq<IndexEntry>, es: seq<Entry>, id: nat, s: Segment)
    requires Agrees(c, segs, ies, es) && id !in segs
    ensures Agrees(c, segs[id := s], ies, es)
  {
    forall k | 0 <= k < |ies| ensures Holds(c, segs[id := s], ies[k], es[k]) {
      assert Holds(c, segs, ies[k], es[k]);
    }
  }

  /** A record written at the end of the last segment may be indexed there. */
  lemma AgreesPushed(c: Codec, segs: Segments, ies: seq<IndexEntry>, es: seq<Entry>, ie: IndexEntry, e: Entry)
    requires Agrees(c, segs, ies, es) && Holds(c, segs, ie, e)
    requires AllBefore(ies, ie)
    ensures Agrees(c, segs, ies + [ie], es + [e])
  {
  }

  /** Cutting the log at an entry keeps the entries before it. */
  lemma AgreesTruncated(c: Codec, segs: Segments, ies: seq<IndexEntry>, es: seq<Entry>, k: nat)
    requires Agrees(c, segs, ies, es) && k < |ies| && ies[k].segment in segs && ies[k].offset <= |segs[ies[k].segment].bytes|
    ensures var id := ies[k].segment;
            var cut := segs[id := Segment(segs[id].firstIndex, segs[id].bytes[..ies[k].offset])];
            Agrees(c, cut - (set i | i in cut && i > id), ies[..k], es[..k])
  {
    var id := ies[k].segment;
    var cut := segs[id := Segment(segs[id].firstIndex, segs[id].bytes[..ies[k].offset])];
    var left := cut - (set i | i in cut && i > id);
    forall j | 0 <= j < k ensures Holds(c, left, ies[..k][j], es[..k][j]) {
      assert Holds(c, segs, ies[j], es[j]) && Before(ies[j], ies[k]);
      if ies[j].segment == id {
        assert segs[id].bytes[..ies[k].offset][ies[j].offset..ies[j].offset + ies[j].length]
            == segs[id].bytes[ies[j].offset..ies[j].offset + ies[j].length];
      }
    }
  }

  /** An entry at the end of the last segment comes after everything indexed. */
  lemma EndIsLast(c: Codec, segs: Segments, ies: seq<IndexEntry>, es: seq<Entry>, id: nat, ie: IndexEntry)
    requires Agrees(c, segs, ies, es) && ie.segment == id
    requires id in segs && (forall i | i in segs :: i <= id) && ie.offset >= |segs[id].bytes|
    ensures AllBefore(ies, ie)
  {
    forall k | 0 <= k < |ies| ensures Before(ies[k], ie) {
      assert Holds(c, segs, ies[k], es[k]);
    }
  }

  lemma PlaceOf(c: Codec, segs: Segments, ies: seq<IndexEntry>, es: seq<Entry>, k: nat)
    requires Agrees(c, segs, ies, es) && k < |ies|
    ensures |ies| == |es| && ies[k].segment in segs
    ensures SEGMENT_HEADER <= ies[k].offset && ies[k].offset + ies[k].length <= |segs[ies[k].segment].bytes|
  {
    assert Holds(c, segs, ies[k], es[k]);
  }

  lemma AgreesPlaces(c: Codec, segs: Segments, ies: seq<IndexEntry>, es: seq<Entry>)
    requires Agrees(c, segs, ies, es)
    ensures forall k | 0 <= k < |ies| :: ies[k].segment in segs
  {
    forall k | 0 <= k < |ies| ensures ies[k].segment in segs {
      assert Holds(c, segs, ies[k], es[k]);
    }
  }

  lemma AgreesLength(c: Codec, segs: Segments, ies: seq<IndexEntry>, es: seq<Entry>)
    requires Agrees(c, segs, ies, es)
    ensures |ies| == |es|
  {
  }

  /** No segment is labelled with an index before the log's first. */
  predicate Labelled(segs: Segments, first: nat) { forall id | id in segs :: segs[id].firstIndex >= first }

  lemma LabelledKeeps(f: Files, first: nat, data: seq<Byte>)
    requires f.Valid() && Labelled(f.segments, first)
    ensures Labelled(f.Opened(first).Extended(data).segments, first)
  {
  }

  // ---------------------------------------------------------------- the write buffer

  /** The buffer is the records of its entries, each where it is said to be. */
  predicate Buffered(c: Codec, buffer: seq<Byte>, pending: seq<Pending>, us: seq<Entry>) {
    && |pending| == |us|
    && (forall k {:trigger pending[k]} | 0 <= k < |us| ::
          && pending[k].index == us[k].index && pending[k].term == us[k].term
          && pending[k].offset + pending[k].length <= |buffer|
          && buffer[pending[k].offset..pending[k].offset + pending[k].length] == BytesOf(c, us[k]))
    && (forall j, k | 0 <= j < k < |us| :: pending[j].offset + pending[j].length <= pending[k].offset)
  }

  lemma BufferPushed(c: Codec, buffer: seq<Byte>, pending: seq<Pending>, us: seq<Entry>, e: Entry)
    requires Buffered(c, buffer, pending, us)
    ensures Buffered(c, buffer + BytesOf(c, e), pending + [Pending(e.index, e.term, |buffer|, |BytesOf(c, e)|)], us + [e])
  {
    hide BytesOf;
    var buffer', pending', us' := buffer + BytesOf(c, e), pending + [Pending(e.index, e.term, |buffer|, |BytesOf(c, e)|)], us + [e];
    forall k | 0 <= k < |us'|
      ensures pending'[k].offset + pending'[k].length <= |buffer'|
      ensures buffer'[pending'[k].offset..pending'[k].offset + pending'[k].length] == BytesOf(c, us'[k])
    {
      if k < |us| {
        assert buffer'[pending[k].offset..pending[k].offset + pending[k].length] == buffer[pending[k].offset..pending[k].offset + pending[k].length];
      }
    }
  }

  lemma BufferedLength(c: Codec, buffer: seq<Byte>, pending: seq<Pending>, us: seq<Entry>)
    requires Buffered(c, buffer, pending, us)
    ensures |pending| == |us|
  {
  }

  lemma PendingAt(c: Codec, buffer: seq<Byte>, pending: seq<Pending>, us: seq<Entry>, k: nat)
    requires Buffered(c, buffer, pending, us) && k < |us|
    ensures |pending| == |us| && pending[k].index == us[k].index
  {
  }

  lemma NothingBuffered(c: Codec)
    ensures Buffered(c, [], [], [])
  {
  }

  /** Indexing one more record of a buffer that has been written. */
  lemma FlushOne(c: Codec, before: seq<Byte>, segs: Segments, ies: seq<IndexEntry>, es: seq<Entry>,
                 buffer: seq<Byte>, pending: seq<Pending>, us: seq<Entry>, id: nat, k: nat)
    requires Buffered(c, buffer, pending, us) && k < |us| && id in segs && segs[id].bytes == before + buffer && |before| >= SEGMENT_HEADER
    requires Agrees(c, segs, ies, es)
    requires AllBefore(ies, Located(pending[k], id, |before|))
    ensures Agrees(c, segs, ies + [Located(pending[k], id, |before|)], es + [us[k]])
    ensures k + 1 < |us| ==> AllBefore(ies + [Located(pending[k], id, |before|)], Located(pending[k + 1], id, |before|))
  {
    var p := pending[k];
    assert (before + buffer)[|before| + p.offset..|before| + p.offset + p.length] == buffer[p.offset..p.offset + p.length];
    AgreesPushed(c, segs, ies, es, Located(p, id, |before|), us[k]);
  }

  // ---------------------------------------------------------------- the log

  predicate Consecutive(es: seq<Entry>) {
    forall k {:trigger es[k]} | 0 <= k < |es| :: es[k].index == es[0].index + k
  }

  lemma OneConsecutive(e: Entry)
    ensures Consecutive([e])
  {
  }

  lemma ConsecutiveSplits(es: seq<Entry>, k: nat)
    requires Consecutive(es) && k <= |es|
    ensures Consecutive(es[..k]) && Consecutive(es[k..])
  {
  }

  lemma ConsecutiveJoins(a: seq<Entry>, b: seq<Entry>)
    requires Consecutive(a) && Consecutive(b) && (a != [] && b != [] ==> b[0].index == a[0].index + |a|)
    ensures Consecutive(a + b)
  {
  }

  lemma IndexOf(a: seq<Entry>, b: seq<Entry>, k: nat)
    requires Consecutive(a + b) && k < |b|
    ensures b[k].index == (a + b)[0].index + |a| + k
  {
    assert (a + b)[|a| + k] == b[k];
  }

  lemma FromFirst(a: seq<Entry>, b: seq<Entry>, first: nat)
    requires Consecutive(a + b) && (a + b != [] ==> (a + b)[0].index == first)
    ensures forall k | 0 <= k < |b| :: b[k].index >= first
  {
    forall k | 0 <= k < |b| ensures b[k].index >= first {
      IndexOf(a, b, k);
    }
  }

  lemma NoneLocated(ies: seq<IndexEntry>, pending: seq<Pending>, segment: nat, start: nat)
    ensures ies + LocatedAll(pending[..0], segment, start) == ies
  {
  }

  lemma LocatedNext(ies: seq<IndexEntry>, pending: seq<Pending>, k: nat, segment: nat, start: nat)
    requires k < |pending|
    ensures ies + LocatedAll(pending[..k + 1], segment, start) == ies + LocatedAll(pending[..k], segment, start) + [Located(pending[k], segment, start)]
  {
  }

  // ---------------------------------------------------------------- recovery

  /** The segments after recovery has replayed those in the list: each is cut where its scan ends. */
  ghost predicate Replayed(crc: Checksum, segs: Segments, now: Segments, visited: seq<nat>)
    requires Headed(segs)
  {
    now.Keys == segs.Keys && forall id | id in segs :: now[id] == if id in visited then Settled(crc, segs[id]) else segs[id]
  }

  lemma ReplayedFacts(c: Codec, firstIndex: nat, segs: Segments, now: Segments, visited: seq<nat>, s: nat)
    requires Headed(segs) && Replayed(c.crc, segs, now, visited) && s in segs
    ensures Headed(now) && now.Keys == segs.Keys && forall i | i in segs :: now[i].firstIndex == segs[i].firstIndex
    ensures LivesIn(c, firstIndex, s, now[s].bytes) == LivesIn(c, firstIndex, s, segs[s].bytes)
    ensures Replayed(c.crc, segs, now[s := Settled(c.crc, now[s])], visited + [s])
  {
    hide Settled, LivesIn;
    forall i | i in segs ensures now[i].firstIndex == segs[i].firstIndex && SEGMENT_HEADER <= |now[i].bytes| {
      SettledSame(c, firstIndex, i, segs[i]);
      SettledHeaded(c.crc, segs[i]);
    }
    SettledSame(c, firstIndex, s, segs[s]);
  }

  lemma NotContinued(a: seq<Live>, b: seq<Live>, expected: nat)
    requires a <= b
    ensures Continues(b, expected) ==> Continues(a, expected)
  {
  }

  lemma SameLookup(a: Segments, b: Segments, top: nat, index: nat)
    requires a.Keys == b.Keys && forall i | i in a :: a[i].firstIndex == b[i].firstIndex
    ensures SegmentFor(a, top, index) == SegmentFor(b, top, index)
  {
    SegmentFromSame(a, b, 1, top, index, None);
  }

  lemma SettledHeaded(crc: Checksum, s: Segment)
    requires SEGMENT_HEADER <= |s.bytes|
    ensures SEGMENT_HEADER <= |Settled(crc, s).bytes|
  {
    ScanChains(crc, s.bytes, SEGMENT_HEADER);
  }

  lemma NothingRecovered(c: Codec, firstIndex: nat, segs: Segments, top: nat)
    requires Headed(segs)
    ensures Recovered(c, firstIndex, segs, top, 0) == [] && Visits(segs, top, 0) == []
    ensures Continues([], firstIndex) && Places([]) == []
  {
  }

  /** Reads the record at an offset, if there is an intact one. */
  method ReadRecord(crc: Checksum, bytes: seq<Byte>, offset: nat) returns (f: Option<Found>)
    requires offset <= |bytes|
    ensures f.Some? <==> RecordAt(crc, bytes, offset)
    ensures f.Some? ==> f.value == FoundAt(crc, bytes, offset)
  {
    hide Parses, ParsedRec, Deserialize;
    if offset + HEADER > |bytes| {
      return None;
    }
    var header := Deserialize(bytes[offset..offset + HEADER]);
    if header.length == 0 && header.kind == 0 {
      return None;
    }
    var total := header.TotalSize();
    if offset + total > |bytes| {
      return None;
    }
    var parser := new RecordParser(crc, bytes[offset..offset + total]);
    if !parser.valid {
      return None;
    }
    RecordProgress(crc, bytes, offset);
    return Some(Found(offset, total, Rec(parser.header.kind, parser.payload)));
  }

  class Wal {
    const codec: Codec
    const index: WalIndex
    const manager: SegmentManager
    const bufferSize: nat
    const segmentSize: nat
    var buffer: seq<Byte>
    var pending: seq<Pending>
    var firstIndex: nat
    var snapshotIndex: nat
    /** The entries the index covers, and those still in the buffer. */
    ghost var stored: seq<Entry>
    ghost var unflushed: seq<Entry>

    /** The index agrees with the bytes, the buffer continues where the index ends and does not overflow. */
    ghost predicate Valid()
      reads this, index, manager
    {
      && manager.Valid() && Agrees(codec, manager.segments, index.entries, stored)
      && Consecutive(stored + unflushed) && (stored != [] ==> stored[0].index == index.firstIndex)
      && Buffered(codec, buffer, pending, unflushed) && (buffer == [] <==> unflushed == []) && |buffer| <= bufferSize
    }

    /**
      What is on disk is what the index says: replaying the segments in order would find exactly
      the indexed entries, where the index has them, and the buffer holds exactly the rest.
     */
    ghost predicate Durable()
      reads this, index, manager
    {
      && firstIndex == snapshotIndex + 1 && (stored + unflushed != [] ==> (stored + unflushed)[0].index == firstIndex)
      && Faithful(codec, firstIndex, Now(), index.entries, stored) && Labelled(manager.segments, firstIndex)
      && Packed(codec, buffer, pending, unflushed) && forall k | 0 <= k < |unflushed| :: Legible(codec, unflushed[k])
    }

    constructor (codec: Codec, bufferSize: nat, segmentSize: nat, firstIndex: nat, snapshotIndex: nat)
      ensures Valid() && stored == [] && unflushed == []
      ensures firstIndex == snapshotIndex + 1 ==> Durable()
      ensures this.codec == codec && fresh(index) && fresh(manager) && this.segmentSize == segmentSize
      ensures this.firstIndex == firstIndex && LastIndex() == snapshotIndex
    {
      this.codec, this.bufferSize, this.segmentSize := codec, bufferSize, segmentSize;
      this.firstIndex, this.snapshotIndex := firstIndex, snapshotIndex;
      index := new WalIndex();
      manager := new SegmentManager();
      buffer, pending, stored, unflushed := [], [], [], [];
    }

    /** A log over segments that are already there, before recovery. */
    constructor Open(codec: Codec, bufferSize: nat, segmentSize: nat, firstIndex: nat, snapshotIndex: nat, files: Files)
      requires files.Valid() && forall id | id in files.segments :: 0 < id <= files.current && SEGMENT_HEADER <= |files.segments[id].bytes|
      ensures Valid() && stored == [] && unflushed == [] && index.entries == [] && Now() == files && buffer == [] && pending == []
      ensures this.codec == codec && fresh(index) && fresh(manager) && this.segmentSize == segmentSize
      ensures this.firstIndex == firstIndex && this.snapshotIndex == snapshotIndex
    {
      this.codec, this.bufferSize, this.segmentSize := codec, bufferSize, segmentSize;
      this.firstIndex, this.snapshotIndex := firstIndex, snapshotIndex;
      index := new WalIndex();
      manager := new SegmentManager.Found(files.segments, files.current);
      buffer, pending, stored, unflushed := [], [], [], [];
    }

    function LastIndex(): nat
      reads this, index
    {
      if index.entries == [] then snapshotIndex else index.firstIndex + |index.entries| - 1
    }

    ghost function Now(): Files
      reads manager
    {
      Files(manager.segments, manager.current)
    }

    /** The last entry of the index lies in the current segment. */
    ghost predicate EndsHere()
      reads this, index, manager
    {
      index.entries != [] && index.entries[|index.entries| - 1].segment == manager.current
    }

    /** Bytes go to the end of the current segment, which is made if there is none. */
    method Write(hint: nat, data: seq<Byte>) returns (start: nat, ghost before: seq<Byte>)
      requires manager.Valid() && Agrees(codec, manager.segments, index.entries, stored)
      modifies manager
      ensures manager.Valid() && Agrees(codec, manager.segments, index.entries, stored)
      ensures manager.current in manager.segments && manager.segments[manager.current].bytes == before + data
      ensures Now() == old(Now()).Opened(hint).Extended(data)
      ensures |before| == start == old(Now()).Opened(hint).Size() >= SEGMENT_HEADER
      ensures forall p: Pending :: AllBefore(index.entries, Located(p, manager.current, start))
    {
      hide Agrees;
      if manager.segments == map[] {
        AgreesRolled(codec, map[], index.entries, stored, manager.current + 1, Segment(hint, Zeros(SEGMENT_HEADER)));
        assert map[][manager.current + 1 := Segment(hint, Zeros(SEGMENT_HEADER))] == map[manager.current + 1 := Segment(hint, Zeros(SEGMENT_HEADER))];
      }
      manager.GetCurrentSegment(hint);
      before := manager.segments[manager.current].bytes;
      start := |manager.segments[manager.current].bytes|;
      forall p: Pending ensures AllBefore(index.entries, Located(p, manager.current, start)) {
        EndIsLast(codec, manager.segments, index.entries, stored, manager.current, Located(p, manager.current, start));
      }
      AgreesAppended(codec, manager.segments, index.entries, stored, manager.current, data);
      manager.AppendBytes(data);
    }

    /** The same where there is a segment. */
    method WriteHere(data: seq<Byte>) returns (start: nat, ghost before: seq<Byte>)
      requires manager.Valid() && Agrees(codec, manager.segments, index.entries, stored) && manager.current in manager.segments
      modifies manager
      ensures manager.Valid() && Agrees(codec, manager.segments, index.entries, stored)
      ensures Now() == old(Now()).Extended(data) && manager.segments[manager.current].bytes == before + data
      ensures |before| == start == old(Now()).Size() >= SEGMENT_HEADER
      ensures forall p: Pending :: AllBefore(index.entries, Located(p, manager.current, start))
    {
      hide Agrees, AllBefore, Located;
      start, before := Write(0, data);
    }

    /** The loop of FlushWriteBuffer: each buffered record is indexed where it was written. */
    method IndexPending(start: nat, ghost before: seq<Byte>)
      requires manager.Valid() && manager.current in manager.segments
      requires manager.segments[manager.current].bytes == before + buffer && |before| == start >= SEGMENT_HEADER
      requires Agrees(codec, manager.segments, index.entries, stored) && Buffered(codec, buffer, pending, unflushed)
      requires Consecutive(stored + unflushed) && (stored != [] ==> stored[0].index == index.firstIndex)
      requires forall p: Pending :: AllBefore(index.entries, Located(p, manager.current, start))
      modifies index
      ensures Agrees(codec, manager.segments, index.entries, stored + unflushed)
      ensures stored + unflushed != [] ==> (stored + unflushed)[0].index == index.firstIndex
      ensures unflushed != [] ==> EndsHere()
      ensures index.entries == old(index.entries) + LocatedAll(pending, manager.current, start)
    {
      hide Agrees, Buffered, AllBefore, Consecutive, WalIndex.Lookup, SegmentManager.Valid, Located, LocatedAll;
      var k := 0;
      BufferedLength(codec, buffer, pending, unflushed);
      assert stored + unflushed[..0] == stored;
      NoneLocated(index.entries, pending, manager.current, start);
      while k < |pending|
        invariant 0 <= k <= |pending| && Agrees(codec, manager.segments, index.entries, stored + unflushed[..k])
        invariant stored + unflushed[..k] != [] ==> (stored + unflushed)[0].index == index.firstIndex
        invariant k < |pending| ==> AllBefore(index.entries, Located(pending[k], manager.current, start))
        invariant k > 0 ==> EndsHere()
        invariant index.entries == old(index.entries) + LocatedAll(pending[..k], manager.current, start)
      {
        AgreesLength(codec, manager.segments, index.entries, stored + unflushed[..k]);
        PendingAt(codec, buffer, pending, unflushed, k);
        IndexOf(stored, unflushed, k);
        FlushOne(codec, before, manager.segments, index.entries, stored + unflushed[..k], buffer, pending, unflushed, manager.current, k);
        assert stored + unflushed[..k + 1] == stored + unflushed[..k] + [unflushed[k]];
        ghost var ies := index.entries;
        index.Insert(pending[k].index, Located(pending[k], manager.current, start));
        assert index.entries == ies + [Located(pending[k], manager.current, start)];
        LocatedIn(pending[k], manager.current, start);
        LocatedNext(old(index.entries), pending, k, manager.current, start);
        k := k + 1;
      }
      assert unflushed[..k] == unflushed && pending[..k] == pending;
    }

    /** The segments once the buffer has been written. */
    ghost function Flushed(): (f: Files)
      requires manager.Valid()
      reads this, manager
      ensures f.Valid()
    {
      if buffer == [] then Now() else Now().Opened(firstIndex).Extended(buffer)
    }

    /** Flushing keeps the files faithful. */
    lemma FlushKeeps()
      requires Valid() && Durable() && buffer != []
      ensures var f := Now().Opened(firstIndex);
              && Faithful(codec, firstIndex, f.Extended(buffer), index.entries + LocatedAll(pending, f.current, f.Size()), stored + unflushed)
              && Labelled(f.Extended(buffer).segments, firstIndex)
    {
      hide Agrees, Buffered, Faithful, Packed, Legible, LocatedAll, Files.Opened, Files.Extended;
      FaithfulOpened(codec, firstIndex, Now(), index.entries, stored, firstIndex);
      FromFirst(stored, unflushed, firstIndex);
      LabelledKeeps(Now(), firstIndex, buffer);
      FaithfulFlushed(codec, firstIndex, Now().Opened(firstIndex), index.entries, stored, buffer, pending, unflushed);
    }

    /** WAL::FlushWriteBuffer: the buffer goes to the current segment, and its entries into the index. */
    method FlushWriteBuffer()
      requires Valid()
      modifies this, index, manager
      ensures Valid() && unflushed == [] && buffer == [] && stored == old(stored + unflushed)
      ensures Now() == old(Flushed())
      ensures old(unflushed) == [] ==> index.entries == old(index.entries) && index.firstIndex == old(index.firstIndex)
      ensures old(unflushed) != [] ==> EndsHere()
      ensures firstIndex == old(firstIndex) && snapshotIndex == old(snapshotIndex)
      ensures old(Durable()) ==> Durable()
    {
      hide Agrees, Consecutive, Buffered, AllBefore, WalIndex.Lookup, Located, Files.Opened, Files.Extended, Faithful, Packed, Legible, LocatedAll;
      assert stored + [] == stored && (stored + unflushed) + [] == stored + unflushed;
      if buffer == [] {
        return;
      }
      if Durable() {
        FlushKeeps();
      }
      PackedNothing(codec);
      var start; ghost var before;
      start, before := Write(firstIndex, buffer);
      IndexPending(start, before);
      NothingBuffered(codec);
      pending, buffer := [], [];
      stored, unflushed := stored + unflushed, [];
    }

    /** WAL::MaybeRollSegmentForAppend: a full segment is flushed to and left behind. */
    method MaybeRollSegment(first: nat)
      requires Valid() && manager.current in manager.segments
      modifies this, index, manager
      ensures Valid() && manager.current in manager.segments && stored + unflushed == old(stored + unflushed)
      ensures old(unflushed) == [] ==> unflushed == [] && index.entries == old(index.entries) && index.firstIndex == old(index.firstIndex)
      ensures Now() == if old(Now()).Size() < segmentSize then old(Now()) else old(Flushed()).Rolled(first)
      ensures firstIndex == old(firstIndex) && snapshotIndex == old(snapshotIndex)
      ensures old(Durable()) && first >= firstIndex ==> Durable()
    {
      hide Agrees, Consecutive, Buffered, Faithful, Packed, Legible;
      if |manager.segments[manager.current].bytes| < segmentSize {
        return;
      }
      FlushWriteBuffer();
      assert stored + [] == stored;
      if Durable() {
        FaithfulRolled(codec, firstIndex, Now(), index.entries, stored, first);
      }
      AgreesRolled(codec, manager.segments, index.entries, stored, manager.current + 1, Segment(first, Zeros(SEGMENT_HEADER)));
      manager.RollToNewSegment(first);
    }

    /** WAL::GetCurrentSegmentForAppend. */
    method GetCurrentSegment(hint: nat)
      requires Valid()
      modifies this, index, manager
      ensures Valid() && manager.current in manager.segments && stored + unflushed == old(stored + unflushed)
      ensures old(unflushed) == [] ==> unflushed == [] && index.entries == old(index.entries) && index.firstIndex == old(index.firstIndex)
      ensures old(unflushed) == [] ==>
                var f := old(Now()).Opened(hint);
                Now() == if f.Size() < segmentSize then f else f.Rolled(hint)
      ensures firstIndex == old(firstIndex) && snapshotIndex == old(snapshotIndex)
      ensures old(Durable()) && hint >= firstIndex ==> Durable()
    {
      hide Agrees, Consecutive, Buffered, Faithful, Packed, Legible;
      if Durable() {
        FaithfulOpened(codec, firstIndex, Now(), index.entries, stored, hint);
      }
      if manager.segments == map[] {
        AgreesRolled(codec, map[], index.entries, stored, manager.current + 1, Segment(hint, Zeros(SEGMENT_HEADER)));
        assert map[][manager.current + 1 := Segment(hint, Zeros(SEGMENT_HEADER))] == map[manager.current + 1 := Segment(hint, Zeros(SEGMENT_HEADER))];
      }
      manager.GetCurrentSegment(hint);
      MaybeRollSegment(hint);
    }

    method BuildRecord(e: Entry) returns (record: seq<Byte>)
      ensures record == BytesOf(codec, e) && record != []
    {
      var builder := new RecordBuilder(ENTRY_KIND, codec.encode(e));
      var bytes := builder.Build(codec.crc);
      record := bytes[..];
    }

    /** The entry goes on from the end of the log. */
    ghost predicate Next(e: Entry)
      reads this
    {
      stored + unflushed != [] ==> e.index == (stored + unflushed)[0].index + |stored + unflushed|
    }

    /** Nothing about the entry keeps it from being recovered. */
    ghost predicate Keepable(e: Entry)
      reads this
    {
      Legible(codec, e) && (stored + unflushed == [] ==> e.index == firstIndex)
    }

    lemma KeepableIndex(e: Entry)
      requires Durable() && Keepable(e) && Next(e)
      ensures e.index >= firstIndex
    {
    }

    /** The buffer is emptied, and there is a segment with room. */
    method FlushAndOpen(hint: nat)
      requires Valid()
      modifies this, index, manager
      ensures Valid() && unflushed == [] && stored == old(stored + unflushed) && manager.current in manager.segments
      ensures firstIndex == old(firstIndex) && snapshotIndex == old(snapshotIndex) && (old(Durable()) && hint >= firstIndex ==> Durable())
      ensures manager.current >= old(manager.current) && (Now().Size() < segmentSize || Now().Size() == SEGMENT_HEADER)
    {
      hide Valid, Durable;
      FlushWriteBuffer();
      assert stored + [] == stored;
      GetCurrentSegment(hint);
      assert stored + [] == stored;
    }

    /** A record that does not fit into the buffer goes to the segment directly. */
    method WriteDirect(e: Entry, record: seq<Byte>)
      requires Valid() && Next(e) && record == BytesOf(codec, e)
      modifies this, index, manager
      ensures Valid() && unflushed == [] && stored == old(stored + unflushed) + [e] && manager.current in manager.segments
      ensures EndsHere()
      ensures firstIndex == old(firstIndex) && snapshotIndex == old(snapshotIndex)
      ensures old(Durable() && Keepable(e)) ==> Durable()
      ensures manager.current >= old(manager.current)
      ensures index.entries[|index.entries| - 1].offset < segmentSize || index.entries[|index.entries| - 1].offset == SEGMENT_HEADER
    {
      hide Valid, Durable, Legible, BytesOf, Files.Size, EndsHere;
      if Durable() && Keepable(e) {
        KeepableIndex(e);
      }
      FlushAndOpen(e.index);
      assert stored + [] == stored;
      WriteOpened(e, record);
    }

    /** The record goes to the end of the current segment. */
    method WriteOpened(e: Entry, record: seq<Byte>)
      requires Valid() && unflushed == [] && Next(e) && record == BytesOf(codec, e) && manager.current in manager.segments
      modifies `stored, index, manager
      ensures Valid() && stored == old(stored) + [e] && manager.current in manager.segments && EndsHere()
      ensures manager.current == old(manager.current)
      ensures old(Durable() && Keepable(e)) ==> Durable()
      ensures index.entries[|index.entries| - 1].offset == old(Now().Size())
    {
      hide Agrees, Consecutive, Buffered, AllBefore, BytesOf, Faithful, Packed, Legible, Located;
      if Durable() && Keepable(e) {
        KeepableIndex(e);
        FaithfulEntry(codec, firstIndex, Now(), index.entries, stored, e);
      }
      var start; ghost var before;
      start, before := WriteHere(record);
      IndexDirect(e, record, start, before);
    }

    /** The record just written at the end of the current segment is indexed. */
    method IndexDirect(e: Entry, record: seq<Byte>, start: nat, ghost before: seq<Byte>)
      requires Valid() && unflushed == [] && Next(e) && record == BytesOf(codec, e) && manager.current in manager.segments
      requires manager.segments[manager.current].bytes == before + record && |before| == start >= SEGMENT_HEADER
      requires forall p: Pending :: AllBefore(index.entries, Located(p, manager.current, start))
      modifies `stored, index
      ensures Valid() && stored == old(stored) + [e] && EndsHere()
      ensures index.entries == old(index.entries) + [IndexEntry(manager.current, start, |record|, e.term)]
    {
      hide Agrees, Consecutive, Buffered, AllBefore, WalIndex.Lookup, BytesOf;
      var ie := Located(Pending(e.index, e.term, 0, |record|), manager.current, start);
      AgreesLength(codec, manager.segments, index.entries, stored);
      assert manager.segments[ie.segment].bytes[ie.offset..ie.offset + ie.length] == record;
      AgreesPushed(codec, manager.segments, index.entries, stored, ie, e);
      assert stored + [] == stored;
      ConsecutiveJoins(stored, [e]);
      ghost var ies := index.entries;
      index.Insert(e.index, ie);
      assert index.entries == ies + [ie];
      stored := stored + [e];
      assert stored + [] == stored;
    }

    method Push(e: Entry, record: seq<Byte>)
      requires Valid() && Next(e) && record == BytesOf(codec, e) && record != [] && |buffer| + |record| <= bufferSize
      modifies `buffer, `pending, `unflushed
      ensures Valid() && stored + unflushed == old(stored + unflushed) + [e] && unflushed != []
      ensures old(Durable() && Keepable(e)) ==> Durable()
    {
      hide Agrees, Consecutive, Buffered, BytesOf, Faithful, Packed, Legible, Labelled, SegmentManager.Valid;
      if Durable() && Keepable(e) {
        PackedPushed(codec, buffer, pending, unflushed, e);
      }
      BufferPushed(codec, buffer, pending, unflushed, e);
      ConsecutiveJoins(stored + unflushed, [e]);
      assert stored + (unflushed + [e]) == stored + unflushed + [e];
      pending := pending + [Pending(e.index, e.term, |buffer|, |record|)];
      buffer, unflushed := buffer + record, unflushed + [e];
    }

    /** Any other record goes to the buffer, which is flushed first if it has no room. */
    method WriteBuffered(e: Entry, record: seq<Byte>)
      requires Valid() && Next(e) && record == BytesOf(codec, e) && record != [] && |record| <= bufferSize && manager.current in manager.segments
      modifies this, index, manager
      ensures Valid() && stored + unflushed == old(stored + unflushed) + [e] && manager.current in manager.segments
      ensures unflushed == [] ==> EndsHere()
      ensures firstIndex == old(firstIndex) && snapshotIndex == old(snapshotIndex)
      ensures old(Durable() && Keepable(e)) ==> Durable()
      ensures manager.current == old(manager.current)
    {
      hide Valid, Durable, BytesOf;
      if |buffer| + |record| > bufferSize {
        FlushWriteBuffer();
        assert stored + [] == stored;
      }
      Push(e, record);
      var s := manager.segments[manager.current];
      var available := if |s.bytes| < segmentSize then segmentSize - |s.bytes| else 0;
      if |buffer| >= bufferSize || |buffer| >= available {
        FlushWriteBuffer();
        assert stored + [] == stored;
      }
    }

    /** One round of the loop of WAL::Append. */
    method AppendOne(e: Entry)
      requires Valid() && Next(e) && manager.current in manager.segments
      modifies this, index, manager
      ensures Valid() && stored + unflushed == old(stored + unflushed) + [e] && manager.current in manager.segments
      ensures unflushed == [] ==> EndsHere()
      ensures firstIndex == old(firstIndex) && snapshotIndex == old(snapshotIndex)
      ensures old(Durable() && Keepable(e)) ==> Durable()
      ensures if old(Now()).Size() >= segmentSize then manager.current > old(manager.current) else manager.current >= old(manager.current)
    {
      hide Valid, Durable, BytesOf, Legible;
      if Durable() && Keepable(e) {
        KeepableIndex(e);
      }
      var record := BuildRecord(e);
      MaybeRollSegment(e.index);
      if |record| > bufferSize {
        WriteDirect(e, record);
        assert stored + [] == stored;
      } else {
        WriteBuffered(e, record);
      }
    }

    /** An indexed entry can be cut away if the segment found for its index is the one that holds it. */
    ghost predicate MayCutAt(i: nat)
      reads index, manager
    {
      index.Lookup(i).Some? && SegmentFor(manager.segments, manager.current, i) == Some(index.Lookup(i).value.segment)
    }

    /** WAL::TruncateSuffixFrom: cuts bytes and index at an entry and removes the segments after it. */
    method TruncateSuffixFrom(i: nat) returns (r: Result<(), LogError>)
      requires Valid() && unflushed == []
      modifies `stored, index, manager
      ensures Valid() && (r.Ok? <==> old(MayCutAt(i)))
      ensures r.Err? ==> stored == old(stored) && manager.segments == old(manager.segments)
      ensures r.Ok? ==> old(index.firstIndex) <= i < old(index.firstIndex) + |old(stored)| && stored == old(stored)[..i - old(index.firstIndex)]
      ensures r.Ok? ==> index.firstIndex == old(index.firstIndex) && manager.current in manager.segments
      ensures old(Durable()) ==> Durable()
    {
      AgreesLength(codec, manager.segments, index.entries, stored);
      hide Agrees, Consecutive, Buffered, Durable;
      var info := index.Lookup(i);
      if info == None {
        return Err(Fatal);
      }
      var segment := manager.GetSegmentForIndex(i);
      if segment == None || segment.value != info.value.segment {
        return Err(Fatal);
      }
      Cut(i, info.value);
      return Ok(());
    }

    method Cut(i: nat, at: IndexEntry)
      requires Valid() && unflushed == []
      requires index.firstIndex <= i < index.firstIndex + |index.entries| && at == index.entries[i - index.firstIndex]
      modifies `stored, index, manager
      ensures Valid() && manager.current in manager.segments
      ensures |old(stored)| == |old(index.entries)| && stored == old(stored)[..i - old(index.firstIndex)]
      ensures index.firstIndex == old(index.firstIndex)
      ensures old(Durable()) ==> Durable()
    {
      hide Agrees, Consecutive, Buffered, Holds, WalIndex.Lookup, Faithful, Packed, Legible;
      ghost var k := i - index.firstIndex;
      if Durable() {
        FaithfulCut(codec, firstIndex, Now(), index.entries, stored, k);
      }
      PlaceOf(codec, manager.segments, index.entries, stored, k);
      assert stored + [] == stored && stored[..k] + [] == stored[..k];
      AgreesTruncated(codec, manager.segments, index.entries, stored, k);
      ConsecutiveSplits(stored, k);
      manager.Truncate(at.segment, at.offset);
      manager.RemoveAfter(at.segment);
      index.TruncateFrom(i);
      assert old(index.entries)[..0] == [];
      stored := stored[..k];
    }

    /**
      WAL::Append.  Entries go to the end of the log or replace its suffix, through buffer
      flushes, oversize records and segment rolls, and the index agrees with the bytes after it.
     */
    method Append(entries: seq<Entry>) returns (r: Result<(), LogError>)
      requires Valid() && unflushed == [] && Consecutive(entries)
      modifies this, index, manager
      ensures Valid() && unflushed == []
      ensures r.Ok? <==> entries == [] || entries[0].index == old(LastIndex()) + 1
                         || (old(firstIndex) <= entries[0].index <= old(LastIndex()) && old(MayCutAt(entries[0].index)))
      ensures r.Err? || entries == [] ==> stored == old(stored)
      ensures r.Ok? && entries != [] ==> EndsHere()
      ensures r.Ok? && entries != [] && entries[0].index == old(LastIndex()) + 1 ==> stored == old(stored) + entries
      ensures r.Ok? && entries != [] && entries[0].index <= old(LastIndex()) ==>
                && old(index.firstIndex) <= entries[0].index < old(index.firstIndex) + |old(stored)|
                && stored == old(stored)[..entries[0].index - old(index.firstIndex)] + entries
      ensures old(Durable()) && (forall k | 0 <= k < |entries| :: Legible(codec, entries[k])) ==> Durable()
    {
      hide Valid, WalIndex.Lookup, SegmentFor, Durable, Legible;
      if entries == [] {
        return Ok(());
      }
      r := MakeRoom(entries[0]);
      if r.Ok? {
        AppendAll(entries);
      }
    }

    /** The entry is the next one, or the suffix from its index on is cut away. */
    method MakeRoom(e: Entry) returns (r: Result<(), LogError>)
      requires Valid() && unflushed == []
      modifies `stored, index, manager
      ensures Valid() && (r.Ok? ==> Next(e))
      ensures r.Ok? <==> e.index == old(LastIndex()) + 1 || (old(firstIndex) <= e.index <= old(LastIndex()) && old(MayCutAt(e.index)))
      ensures r.Err? || e.index == old(LastIndex()) + 1 ==> stored == old(stored)
      ensures r.Ok? && e.index <= old(LastIndex()) ==>
                old(index.firstIndex) <= e.index < old(index.firstIndex) + |old(stored)| && stored == old(stored)[..e.index - old(index.firstIndex)]
      ensures old(Durable()) ==> Durable() && (r.Ok? && stored == [] ==> e.index == firstIndex)
    {
      hide Agrees, Buffered, Consecutive, MayCutAt, SegmentManager.Valid, Durable;
      AgreesLength(codec, manager.segments, index.entries, stored);
      assert stored + [] == stored;
      if Durable() {
        DurableFirst();
      }
      var expected := LastIndex() + 1;
      if e.index != expected {
        if firstIndex <= e.index < expected {
          r := TruncateSuffixFrom(e.index);
          assert stored + [] == stored;
          return;
        }
        return Err(Fatal);
      }
      return Ok(());
    }

    /** The log starts at its first index. */
    lemma DurableFirst()
      requires Valid() && Durable() && unflushed == []
      ensures if index.entries == [] then LastIndex() + 1 == firstIndex else index.firstIndex == firstIndex
    {
      hide Buffered, Consecutive, Faithful, Packed;
      assert stored + [] == stored;
      AgreesLength(codec, manager.segments, index.entries, stored);
    }

    /** The loop of WAL::Append, and the flush at its end. */
    method AppendAll(entries: seq<Entry>)
      requires Valid() && unflushed == [] && entries != [] && Consecutive(entries) && Next(entries[0])
      modifies this, index, manager
      ensures Valid() && unflushed == [] && stored == old(stored) + entries && EndsHere()
      ensures firstIndex == old(firstIndex) && snapshotIndex == old(snapshotIndex)
      ensures old(Durable()) && (forall k | 0 <= k < |entries| :: Legible(codec, entries[k])) && (old(stored) == [] ==> entries[0].index == firstIndex) ==> Durable()
    {
      hide Valid, Durable, Legible;
      ghost var keep := Durable() && (forall k | 0 <= k < |entries| :: Legible(codec, entries[k])) && (stored == [] ==> entries[0].index == firstIndex);
      if keep {
        KeepableIndex(entries[0]);
      }
      GetCurrentSegment(entries[0].index);
      var k := 0;
      assert stored + unflushed == old(stored) + entries[..0];
      while k < |entries|
        invariant 0 <= k <= |entries| && Valid() && manager.current in manager.segments
        invariant stored + unflushed == old(stored) + entries[..k] && (k > 0 && unflushed == [] ==> EndsHere())
        invariant firstIndex == old(firstIndex) && snapshotIndex == old(snapshotIndex) && (keep ==> Durable())
      {
        assert entries[..k + 1] == entries[..k] + [entries[k]];
        assert k > 0 && old(stored) == [] ==> (stored + unflushed)[0] == entries[0];
        AppendOne(entries[k]);
        k := k + 1;
      }
      FlushWriteBuffer();
      assert entries[..k] == entries;
    }

    /** A record that is no entry's goes to the current segment, or to a new one if that is full. */
    method WriteHardState(payload: seq<Byte>)
      requires Valid()
      modifies this, index, manager
      ensures Valid() && unflushed == [] && stored == old(stored + unflushed)
      ensures var f := old(Flushed()).Opened(old(firstIndex));
              Now() == (if f.Size() < segmentSize then f else f.Rolled(old(firstIndex))).Extended(Built(codec.crc, Rec(HARD_STATE_KIND, payload)))
      ensures var f := old(Flushed()).Opened(old(firstIndex));
              forall k | 0 <= k < |index.entries| :: index.entries[k].segment in f.segments
      ensures old(unflushed) == [] ==> index.entries == old(index.entries) && index.firstIndex == old(index.firstIndex)
      ensures firstIndex == old(firstIndex) && snapshotIndex == old(snapshotIndex)
      ensures old(Durable()) && Rec(HARD_STATE_KIND, payload).Fits() ==> Durable()
    {
      hide Valid, Durable, Built, Files.Extended, Files.Rolled;
      FlushWriteBuffer();
      assert stored + [] == stored;
      PlacesExist();
      GetCurrentSegment(firstIndex);
      assert stored + [] == stored;
      HardStateHere(payload);
    }

    lemma PlacesExist()
      requires Valid()
      ensures forall k | 0 <= k < |index.entries| :: index.entries[k].segment in manager.segments
    {
      AgreesPlaces(codec, manager.segments, index.entries, stored);
    }

    /** The record goes to the end of the current segment. */
    method HardStateHere(payload: seq<Byte>)
      requires Valid() && unflushed == [] && manager.current in manager.segments
      modifies manager
      ensures Valid() && Now() == old(Now()).Extended(Built(codec.crc, Rec(HARD_STATE_KIND, payload)))
      ensures old(Durable()) && Rec(HARD_STATE_KIND, payload).Fits() ==> Durable()
    {
      hide Agrees, Consecutive, Buffered, AllBefore, Faithful, Packed, Legible, Built, Located;
      if Durable() && Rec(HARD_STATE_KIND, payload).Fits() {
        FaithfulOther(codec, firstIndex, Now(), index.entries, stored, Rec(HARD_STATE_KIND, payload));
      }
      var start; ghost var before;
      start, before := WriteHere(Built(codec.crc, Rec(HARD_STATE_KIND, payload)));
    }

    /** WAL::SaveHardState writes a record of its own, perhaps to a new segment; the entries stay as they are. */
    method SaveHardState(payload: seq<Byte>)
      requires Valid()
      modifies this, index, manager
      ensures Valid() && unflushed == [] && stored == old(stored + unflushed)
      ensures var f := old(Flushed()).Opened(old(firstIndex));
              Now() == (if f.Size() < segmentSize then f else f.Rolled(old(firstIndex))).Extended(Built(codec.crc, Rec(HARD_STATE_KIND, payload)))
      ensures var f := old(Flushed()).Opened(old(firstIndex));
              f.Size() >= segmentSize ==> forall i: nat | index.Lookup(i).Some? :: MayCutAt(i) <==>
                var s := index.Lookup(i).value.segment;
                SegmentFor(f.segments, f.current, i) == Some(s) && (s == f.current ==> i < firstIndex)
      ensures old(unflushed) == [] ==> index.entries == old(index.entries) && index.firstIndex == old(index.firstIndex)
      ensures firstIndex == old(firstIndex) && snapshotIndex == old(snapshotIndex)
      ensures old(Durable()) && Rec(HARD_STATE_KIND, payload).Fits() ==> Durable()
    {
      hide Agrees, Consecutive, Buffered, AllBefore, SegmentFor, Durable, Built;
      ghost var f := Flushed().Opened(firstIndex);
      assert forall id | id in f.segments :: 0 < id <= f.current;
      WriteHardState(payload);
      if f.Size() >= segmentSize {
        ghost var rolled := Segment(firstIndex, Zeros(SEGMENT_HEADER) + Built(codec.crc, Rec(HARD_STATE_KIND, payload)));
        assert manager.segments == f.segments[f.current + 1 := rolled];
        HardStateHides(f, rolled);
      }
    }

    /** What a roll does to the entries that may be replaced. */
    lemma HardStateHides(f: Files, rolled: Segment)
      requires Valid() && f.current in f.segments && manager.current == f.current + 1
      requires manager.segments == f.segments[f.current + 1 := rolled] && f.current + 1 !in f.segments
      requires forall k | 0 <= k < |index.entries| :: index.entries[k].segment in f.segments
      ensures forall i: nat | index.Lookup(i).Some? :: MayCutAt(i) <==>
                var s := index.Lookup(i).value.segment;
                SegmentFor(f.segments, f.current, i) == Some(s) && (s == f.current ==> i < rolled.firstIndex)
    {
      hide SegmentFor, Agrees, Consecutive, Buffered;
      forall i: nat | index.Lookup(i).Some?
        ensures MayCutAt(i) <==>
                var s := index.Lookup(i).value.segment;
                SegmentFor(f.segments, f.current, i) == Some(s) && (s == f.current ==> i < rolled.firstIndex)
      {
        assert index.entries[i - index.firstIndex].segment in f.segments;
        assert forall id | id in f.segments :: id in manager.segments && id != f.current + 1;
        RolledLookup(f.segments, f.current, rolled, i, index.Lookup(i).value.segment);
      }
    }

    /** Replay's treatment of one record: an entry must be the next one of the log. */
    method ReplayRecord(id: nat, f: Found) returns (r: Result<(), LogError>)
      modifies index
      ensures var lives := LiveEntries(codec, id, firstIndex, [f]);
              && (r.Ok? <==> Continues(lives, old(Expected())))
              && (r.Ok? ==> index.entries == old(index.entries) + Places(lives))
              && (r.Ok? && index.entries != [] ==> index.firstIndex == if old(index.entries) == [] then firstIndex else old(index.firstIndex))
      ensures r.Err? ==> index.entries == old(index.entries)
    {
      assert LiveEntries(codec, id, firstIndex, [f][..0]) == [];
      if f.rec.kind == ENTRY_KIND {
        var entry := codec.decode(f.rec.payload);
        if entry.Some? && entry.value.index >= firstIndex {
          var e := entry.value;
          assert LiveEntries(codec, id, firstIndex, [f]) == [Live(e, IndexEntry(id, f.offset, f.total, e.term))];
          var expected := if index.entries == [] then firstIndex else index.firstIndex + |index.entries|;
          assert LiveEntries(codec, id, firstIndex, [f])[0].entry == e;
          if e.index != expected {
            return Err(Fatal);
          }
          index.Insert(e.index, IndexEntry(id, f.offset, f.total, e.term));
        }
      }
      return Ok(());
    }

    ghost function Expected(): nat
      reads this, index
    {
      if index.entries == [] then firstIndex else index.firstIndex + |index.entries|
    }

    /**
      WAL::ReplaySegment: indexes the entries that a scan of the bytes finds, as long as they
      continue the log, and cuts the segment where the scan ends.
     */
    method ReplaySegment(id: nat) returns (r: Result<(), LogError>)
      requires manager.Valid() && id in manager.segments
      modifies index, manager
      ensures var scan := Scan(codec.crc, old(manager.segments)[id].bytes, SEGMENT_HEADER);
              var lives := LiveEntries(codec, id, firstIndex, scan.found);
              && (r.Ok? <==> Continues(lives, old(Expected())))
              && (r.Ok? ==> index.entries == old(index.entries) + Places(lives) && scan.end <= |old(manager.segments)[id].bytes|
                            && manager.segments == old(manager.segments)[id := Segment(old(manager.segments)[id].firstIndex, old(manager.segments)[id].bytes[..scan.end])])
              && (r.Ok? && index.entries != [] ==> index.firstIndex == if old(index.entries) == [] then firstIndex else old(index.firstIndex))
      ensures manager.Valid() && manager.current == old(manager.current)
    {
      hide LiveEntries, Continues, RecordAt, Parses, Deserialize, ParsedRec, Header.TotalSize, WalIndex.Lookup, FoundAt, Places, Scan;
      var bytes := manager.segments[id].bytes;
      var offset := SEGMENT_HEADER;
      ghost var done: seq<Found> := [];
      ghost var all := Scan(codec.crc, bytes, SEGMENT_HEADER);
      NothingLive(codec, id, firstIndex, Expected());
      assert [] + all.found == all.found && index.entries + [] == index.entries;
      var more := true;
      while more
        invariant SEGMENT_HEADER <= offset <= |bytes|
        invariant all == Scanned(done + Scan(codec.crc, bytes, offset).found, Scan(codec.crc, bytes, offset).end)
        invariant Continues(LiveEntries(codec, id, firstIndex, done), old(Expected()))
        invariant index.entries == old(index.entries) + Places(LiveEntries(codec, id, firstIndex, done))
        invariant index.entries != [] ==> index.firstIndex == if old(index.entries) == [] then firstIndex else old(index.firstIndex)
        invariant !more ==> !RecordAt(codec.crc, bytes, offset)
        modifies index
        decreases |bytes| - offset, more
      {
        var f := ReadRecord(codec.crc, bytes, offset);
        if f == None {
          more := false;
        } else {
          ScanOne(codec.crc, bytes, offset);
          ghost var rest := Scan(codec.crc, bytes, offset + f.value.total).found;
          ReplayNext(codec, id, firstIndex, done, f.value, rest, old(Expected()));
          assert done + ([f.value] + rest) == done + [f.value] + rest;
          var ok := ReplayRecord(id, f.value);
          if ok.Err? {
            return Err(ok.error);
          }
          done, offset := done + [f.value], offset + f.value.total;
        }
      }
      ScanOne(codec.crc, bytes, offset);
      assert done + [] == done;
      manager.Truncate(id, offset);
      return Ok(());
    }

    /** What recovery has done once it is through with the ids up to `id`. */
    ghost predicate RecoveredTo(segs: Segments, id: nat)
      requires Headed(segs)
      reads this, index, manager
    {
      var lives := Recovered(codec, firstIndex, segs, manager.current, id);
      && manager.Valid() && Continues(lives, firstIndex) && index.entries == Places(lives)
      && (index.entries != [] ==> index.firstIndex == firstIndex) && Replayed(codec.crc, segs, manager.segments, Visits(segs, manager.current, id))
    }

    /** One round of the loop of WAL::Recover: the segment found for the label of another one, or of itself. */
    method RecoverOne(id: nat, ghost segs: Segments) returns (r: Result<(), LogError>)
      requires Headed(segs) && 0 < id <= manager.current && RecoveredTo(segs, id - 1)
      modifies index, manager
      ensures manager.Valid() && manager.current == old(manager.current)
      ensures r.Ok? <==> Continues(Recovered(codec, firstIndex, segs, manager.current, id), firstIndex)
      ensures r.Ok? ==> RecoveredTo(segs, id)
    {
      hide Recovered, Visits, Continues, Places, SegmentFor, SegmentFrom, Settled, WalIndex.Lookup, LivesIn, Replayed, Scan, LiveEntries;
      ghost var top, before := manager.current, Recovered(codec, firstIndex, segs, manager.current, id - 1);
      RecoveredNext(codec, firstIndex, segs, top, id);
      VisitsNext(segs, top, id);
      assert before + [] == before && Visits(segs, top, id - 1) + [] == Visits(segs, top, id - 1);
      SameIds(segs, id - 1);
      if id !in manager.segments {
        return Ok(());
      }
      ReplayedFacts(codec, firstIndex, segs, manager.segments, Visits(segs, top, id - 1), id);
      SameLookup(manager.segments, segs, top, segs[id].firstIndex);
      var s := manager.GetSegmentForIndex(manager.segments[id].firstIndex);
      if s == None {
        return Ok(());
      }
      ReplayedFacts(codec, firstIndex, segs, manager.segments, Visits(segs, top, id - 1), s.value);
      ghost var lives := LivesIn(codec, firstIndex, s.value, segs[s.value].bytes);
      ContinuesConcat(before, lives, firstIndex);
      PlacesConcat(before, lives);
      ScanIs(s.value);
      r := ReplaySegment(s.value);
    }

    lemma SameIds(segs: Segments, id: nat)
      requires Headed(segs) && RecoveredTo(segs, id)
      ensures manager.segments.Keys == segs.Keys
    {
    }

    /** Replay in terms of live entries and settled segments. */
    lemma ScanIs(id: nat)
      requires manager.Valid() && id in manager.segments
      ensures var s := manager.segments[id];
              var scan := Scan(codec.crc, s.bytes, SEGMENT_HEADER);
              && LivesIn(codec, firstIndex, id, s.bytes) == LiveEntries(codec, id, firstIndex, scan.found)
              && scan.end <= |s.bytes| && Settled(codec.crc, s) == Segment(s.firstIndex, s.bytes[..scan.end])
    {
      ScanChains(codec.crc, manager.segments[id].bytes, SEGMENT_HEADER);
    }

    /**
      WAL::Recover: the segments in the order of their ids, but each looked up by the index that
      labels it, and a last check against the commit index on record.
     */
    method Recover(commit: nat) returns (r: Result<(), LogError>)
      requires manager.Valid() && index.entries == []
      modifies index, manager
      ensures manager.Valid() && manager.current == old(manager.current)
      ensures Headed(old(manager.segments))
      ensures var lives := Recovered(codec, firstIndex, old(manager.segments), manager.current, manager.current);
              && (r.Ok? <==> Continues(lives, firstIndex) && commit <= (if lives == [] then snapshotIndex else firstIndex + |lives| - 1))
              && (r.Ok? ==> RecoveredTo(old(manager.segments), manager.current))
    {
      hide Recovered, Visits, Continues, Places;
      index.firstIndex := firstIndex;
      ghost var segs := manager.segments;
      var id := 0;
      NothingRecovered(codec, firstIndex, segs, manager.current);
      while id < manager.current
        invariant 0 <= id <= manager.current == old(manager.current) && RecoveredTo(segs, id)
      {
        RecoveredGrows(codec, firstIndex, segs, manager.current, id + 1, manager.current);
        NotContinued(Recovered(codec, firstIndex, segs, manager.current, id + 1),
                     Recovered(codec, firstIndex, segs, manager.current, manager.current), firstIndex);
        r := RecoverOne(id + 1, segs);
        if r.Err? {
          return;
        }
        id := id + 1;
      }
      if (if index.entries == [] then snapshotIndex else index.firstIndex + |index.entries| - 1) < commit {
        return Err(Fatal);
      }
      return Ok(());
    }

    /** The caller's view of when a suffix may be replaced: the starts of the segments must straddle it. */
    lemma MayCutAtIs(i: nat)
      requires Valid()
      ensures MayCutAt(i) <==> index.Lookup(i).Some? && Straddles(manager.segments, 1, index.Lookup(i).value.segment, i)
    {
      if index.Lookup(i).Some? {
        PlaceOf(codec, manager.segments, index.entries, stored, i - index.firstIndex);
        SegmentForIs(manager.segments, 1, manager.current, i, None, index.Lookup(i).value.segment);
      }
    }
  }

  /**
    A hard state that rolls blocks the segment before it: an entry that has just filled its
    segment can no longer be replaced once a hard state has been saved.
   */
  method OverwriteAfterHardState(wal: Wal, e: Entry, other: Entry, payload: seq<Byte>) returns (r: Result<(), LogError>)
    requires wal.Valid() && wal.unflushed == [] && e.index == wal.LastIndex() + 1 == other.index && wal.firstIndex <= e.index
    requires wal.segmentSize <= SEGMENT_HEADER + |BytesOf(wal.codec, e)|
    modifies wal, wal.index, wal.manager
    ensures wal.Valid() && r.Err? && wal.stored == old(wal.stored) + [e]
  {
    hide BytesOf, SegmentFor, Consecutive, Buffered, Agrees, Wal.Durable, Legible, Built;
    OneConsecutive(e);
    OneConsecutive(other);
    var a := wal.Append([e]);
    LastEntry(wal);
    wal.SaveHardState(payload);
    r := wal.Append([other]);
  }

  /** The last entry of a log is indexed under its own number, in a segment that holds all of its record. */
  lemma LastEntry(wal: Wal)
    requires wal.Valid() && wal.unflushed == [] && wal.stored != [] && wal.EndsHere()
    ensures var e := wal.stored[|wal.stored| - 1];
            && wal.LastIndex() == e.index && wal.index.Lookup(e.index).Some?
            && wal.index.Lookup(e.index).value.segment == wal.manager.current && wal.manager.current in wal.manager.segments
            && wal.Now().Size() >= SEGMENT_HEADER + |BytesOf(wal.codec, e)|
  {
    hide BytesOf, Buffered;
    var k := |wal.stored| - 1;
    assert wal.stored + [] == wal.stored;
    assert wal.stored[k].index == wal.stored[0].index + k;
    assert Holds(wal.codec, wal.manager.segments, wal.index.entries[k], wal.stored[k]);
  }

  /** It happens to a new log as well. */
  method FreshOverwriteRefused(codec: Codec, e: Entry, other: Entry, payload: seq<Byte>) returns (r: Result<(), LogError>)
    requires e.index == other.index == 1
    ensures r.Err?
  {
    var wal := new Wal(codec, 0, SEGMENT_HEADER, 1, 0);
    r := OverwriteAfterHardState(wal, e, other, payload);
  }
}
