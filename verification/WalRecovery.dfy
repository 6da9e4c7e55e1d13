/** What a crash leaves of the log is what opening it again finds, provided that the labels of the segments rise. */
module WalRecovery {
  import opened Types
  import opened FlatLog
  import opened Record
  import opened WalReplay
  import opened WalIndex
  import opened WalEntries
  import opened Wal

  // ---------------------------------------------------------------- what a crash leaves

  /**
    What a crash may leave of the bytes of a segment: some of its records, and after them
    anything that replay does not take for a record.
   */
  predicate Left(crc: Checksum, bytes: seq<Byte>, left: seq<Byte>, junk: seq<Byte>) {
    left <= bytes && Clean(crc, left) && !RecordAt(crc, left + junk, |left|)
  }

  /** A cut anywhere leaves the records that end before it. */
  lemma CutLeaves(crc: Checksum, bytes: seq<Byte>, n: nat) returns (left: seq<Byte>, junk: seq<Byte>)
    requires SEGMENT_HEADER <= n <= |bytes|
    ensures left + junk == bytes[..n] && Left(crc, bytes, left, junk)
    ensures var found := Scan(crc, bytes, SEGMENT_HEADER).found;
            forall i | 0 <= i < |found| :: found[i].offset + found[i].total <= |left| <==> found[i].offset + found[i].total <= n
  {
    hide Scan, RecordAt;
    var cut := bytes[..n];
    var s, t := Scan(crc, bytes, SEGMENT_HEADER), Scan(crc, cut, SEGMENT_HEADER);
    ScanCut(crc, bytes, SEGMENT_HEADER, n);
    ScanChains(crc, bytes, SEGMENT_HEADER);
    ScanChains(crc, cut, SEGMENT_HEADER);
    left, junk := cut[..t.end], cut[t.end..];
    assert left + junk == cut;
    ScanEnds(crc, cut, SEGMENT_HEADER);
    ScanCut(crc, cut, SEGMENT_HEADER, t.end);
    AllEnding(t.found, SEGMENT_HEADER, t.end);
    EndsApart(s.found, SEGMENT_HEADER, s.end, n);
  }

  /** Space that was allocated and never written leaves everything. */
  lemma ZerosLeave(crc: Checksum, bytes: seq<Byte>, n: nat)
    requires Clean(crc, bytes)
    ensures Left(crc, bytes, bytes, Zeros(n))
  {
    ZerosRefused(crc, bytes, n);
  }

  /** Damage to a record, with anything after it, leaves the records before it. */
  lemma DamageLeaves(crc: Checksum, bytes: seq<Byte>, left: seq<Byte>, r: Rec, d: seq<Byte>, rest: seq<Byte>)
    requires left + Built(crc, r) <= bytes && Clean(crc, left) && r.Fits() && Damaged(crc, r, d) && !ChecksumAgrees(crc, r, d)
    ensures Left(crc, bytes, left, d + rest)
  {
    hide Scan;
    DamagedAccepted(crc, left, r, d, rest);
    assert left + d + rest == left + (d + rest);
    assert left <= left + Built(crc, r);
  }

  /** Where a scan ends, there is no record. */
  lemma {:induction false} ScanEnds(crc: Checksum, bytes: seq<Byte>, offset: nat)
    requires offset <= |bytes|
    ensures var end := Scan(crc, bytes, offset).end; end <= |bytes| && !RecordAt(crc, bytes, end)
    decreases |bytes| - offset
  {
    hide RecordAt, FoundAt;
    if RecordAt(crc, bytes, offset) {
      ScanEnds(crc, bytes, offset + FoundAt(crc, bytes, offset).total);
    }
  }

  /** The end of the records that end by byte `n` tells the same records apart as `n`. */
  lemma EndsApart(found: seq<Found>, offset: nat, end: nat, n: nat)
    requires Chained(found, offset, end)
    ensures var e := EndOf(found, Ending(found, n), offset);
            forall i | 0 <= i < |found| :: found[i].offset + found[i].total <= e <==> found[i].offset + found[i].total <= n
  {
    hide Ending;
    var k := Ending(found, n);
    var e := EndOf(found, k, offset);
    forall i | 0 <= i < |found| ensures found[i].offset + found[i].total <= e <==> found[i].offset + found[i].total <= n {
      if i < k {
        ChainedOrder(found, offset, end, i, k - 1);
      } else {
        if k > 0 {
          ChainedOrder(found, offset, end, k - 1, i);
        } else {
          ChainedOrder(found, offset, end, 0, i);
        }
        ChainedOrder(found, offset, end, k, i);
      }
    }
  }

  /** Records end in the order they lie in. */
  lemma {:induction false} ChainedOrder(found: seq<Found>, offset: nat, end: nat, i: nat, j: nat)
    requires Chained(found, offset, end) && i <= j < |found|
    ensures offset < found[i].offset + found[i].total <= found[j].offset + found[j].total
    ensures i < j ==> found[i].offset + found[i].total < found[j].offset + found[j].total
    decreases |found|
  {
    var rest, next := found[1..], offset + found[0].total;
    assert found[j] == found[0] || found[j] == rest[j - 1];
    if i > 0 {
      ChainedOrder(rest, next, end, i - 1, j - 1);
    } else if j > 0 {
      ChainedOrder(rest, next, end, j - 1, j - 1);
    }
  }

  /** What is not taken for a record is not scanned. */
  lemma LeftSettles(c: Codec, firstIndex: nat, id: nat, bytes: seq<Byte>, left: seq<Byte>, junk: seq<Byte>, first: nat)
    requires Left(c.crc, bytes, left, junk)
    ensures LivesIn(c, firstIndex, id, left + junk) == LivesIn(c, firstIndex, id, left)
    ensures Settled(c.crc, Segment(first, left + junk)) == Segment(first, left)
  {
    hide RecordAt, Scan, LiveEntries;
    ScanExtends(c.crc, left, SEGMENT_HEADER, junk);
    ScanOne(c.crc, left + junk, |left|);
    var found := Scan(c.crc, left, SEGMENT_HEADER).found;
    assert found + [] == found;
    assert (left + junk)[..|left|] == left;
  }

  /** The live entries that are left are the first ones, up to those that end later. */
  lemma LeftLives(c: Codec, firstIndex: nat, id: nat, bytes: seq<Byte>, left: seq<Byte>) returns (j: nat)
    requires left <= bytes && Clean(c.crc, left)
    ensures var lives := LivesIn(c, firstIndex, id, bytes);
            && j <= |lives| && LivesIn(c, firstIndex, id, left) == lives[..j]
            && forall i | 0 <= i < |lives| :: lives[i].at.segment == id && (i < j <==> lives[i].at.offset + lives[i].at.length <= |left|)
  {
    hide RecordAt, Scan, LiveEntries;
    var s := Scan(c.crc, bytes, SEGMENT_HEADER);
    assert left == bytes[..|left|];
    ScanChains(c.crc, bytes, SEGMENT_HEADER);
    ScanCut(c.crc, bytes, SEGMENT_HEADER, |left|);
    j := LiveEnding(c, id, firstIndex, s.found, SEGMENT_HEADER, s.end, |left|);
  }

  /** The index entries that a crash of the current segment leaves. */
  predicate Survives(ie: IndexEntry, current: nat, size: nat) {
    ie.segment < current || ie.offset + ie.length <= size
  }

  /** A crash of the current segment leaves the first entries, up to those of its records that are gone. */
  lemma CrashLives(c: Codec, firstIndex: nat, f: Files, ies: seq<IndexEntry>, es: seq<Entry>, left: seq<Byte>, junk: seq<Byte>) returns (k: nat)
    requires Faithful(c, firstIndex, f, ies, es) && f.current in f.segments && Left(c.crc, f.segments[f.current].bytes, left, junk)
    ensures k <= |ies| && forall i | 0 <= i < |ies| :: i < k <==> Survives(ies[i], f.current, |left|)
    ensures var label_ := f.segments[f.current].firstIndex;
            && Headed(f.segments[f.current := Segment(label_, left + junk)])
            && AllLive(c, firstIndex, f.segments[f.current := Segment(label_, left + junk)], f.current) == Zip(es[..k], ies[..k])
            && Faithful(c, firstIndex, Files(f.segments[f.current := Segment(label_, left)], f.current), ies[..k], es[..k])
  {
    hide LivesIn, Left, AllLive, Clean, Survives, Zip;
    var cur, label_ := f.current, f.segments[f.current].firstIndex;
    var bytes := f.segments[cur].bytes;
    var g, h := f.segments[cur := Segment(label_, left + junk)], f.segments[cur := Segment(label_, left)];
    CleanHeaded(c, f);
    LeftFacts(c.crc, bytes, left, junk);
    LeftSettles(c, firstIndex, cur, bytes, left, junk, label_);
    k := LeftAll(c, firstIndex, f.segments, cur, left);
    AllLiveSame(c, firstIndex, h, g, cur - 1);
    LiveLast(c, firstIndex, g, cur);
    LiveLast(c, firstIndex, h, cur);
    ZipFirst(es, ies, k);
  }

  lemma ZipFirst(es: seq<Entry>, ies: seq<IndexEntry>, k: nat)
    requires |es| == |ies| && k <= |es|
    ensures Zip(es, ies)[..k] == Zip(es[..k], ies[..k]) && forall i | 0 <= i < |es| :: Zip(es, ies)[i].at == ies[i]
  {
  }

  /** With less of the last segment, the live entries are the first ones. */
  lemma LeftAll(c: Codec, firstIndex: nat, segs: Segments, cur: nat, left: seq<Byte>) returns (k: nat)
    requires Headed(segs) && cur in segs && cur > 0 && left <= segs[cur].bytes && Clean(c.crc, left)
    ensures Headed(segs[cur := Segment(segs[cur].firstIndex, left)])
    ensures var lives := AllLive(c, firstIndex, segs, cur);
            && k <= |lives| && AllLive(c, firstIndex, segs[cur := Segment(segs[cur].firstIndex, left)], cur) == lives[..k]
            && forall i | 0 <= i < |lives| :: i < k <==> Survives(lives[i].at, cur, |left|)
  {
    hide LivesIn, AllLive;
    var h := segs[cur := Segment(segs[cur].firstIndex, left)];
    var j := LeftLives(c, firstIndex, cur, segs[cur].bytes, left);
    AllLiveSame(c, firstIndex, segs, h, cur - 1);
    LiveLast(c, firstIndex, segs, cur);
    LiveLast(c, firstIndex, h, cur);
    var before, last := AllLive(c, firstIndex, segs, cur - 1), LivesIn(c, firstIndex, cur, segs[cur].bytes);
    k := |before| + j;
    assert (before + last)[..k] == before + last[..j];
    forall i | 0 <= i < |before + last| ensures i < k <==> Survives((before + last)[i].at, cur, |left|) {
      if i < |before| {
        LiveSplits(c, firstIndex, segs, cur - 1, i);
      }
    }
  }

  lemma LeftFacts(crc: Checksum, bytes: seq<Byte>, left: seq<Byte>, junk: seq<Byte>)
    requires Left(crc, bytes, left, junk)
    ensures Clean(crc, left) && left <= bytes && SEGMENT_HEADER <= |left|
  {
  }

  /** The entries that are left are where the index has them. */
  lemma AgreesLeft(c: Codec, segs: Segments, ies: seq<IndexEntry>, es: seq<Entry>, current: nat, left: seq<Byte>, k: nat)
    requires Agrees(c, segs, ies, es) && current in segs && left <= segs[current].bytes && k <= |ies|
    requires forall i | 0 <= i < k :: Survives(ies[i], current, |left|)
    requires forall id | id in segs :: id <= current
    ensures Agrees(c, segs[current := Segment(segs[current].firstIndex, left)], ies[..k], es[..k])
  {
    hide BytesOf;
    var now := segs[current := Segment(segs[current].firstIndex, left)];
    forall i | 0 <= i < k ensures Holds(c, now, ies[..k][i], es[..k][i]) {
      assert Holds(c, segs, ies[i], es[i]);
      if ies[i].segment == current {
        assert left[ies[i].offset..ies[i].offset + ies[i].length] == segs[current].bytes[ies[i].offset..ies[i].offset + ies[i].length];
      }
    }
  }

  /** Zipped entries that are numbered from the first index on continue the log. */
  lemma ZipContinues(es: seq<Entry>, ies: seq<IndexEntry>, first: nat)
    requires |es| == |ies| && Consecutive(es) && (es != [] ==> es[0].index == first)
    ensures Continues(Zip(es, ies), first) && Places(Zip(es, ies)) == ies
  {
    assert forall i | 0 <= i < |es| :: es[i].index == es[0].index + i;
  }

  lemma {:induction false} VisitsAll(segs: Segments, top: nat, id: nat)
    requires Rising(segs) && (forall i | i in segs :: 0 < i <= top)
    ensures forall i | i in segs && i <= id :: i in Visits(segs, top, id)
    decreases id
  {
    hide SegmentFor;
    if id > 0 {
      VisitsAll(segs, top, id - 1);
      FoundByOwnLabel(segs, top);
    }
  }

  /** If the labels rise, recovery settles every segment; the clean ones stay as they are. */
  lemma RisingSettles(c: Codec, segs: Segments, now: Segments, current: nat, left: Segment)
    requires Headed(segs) && Rising(segs) && current in segs && (forall i | i in segs :: 0 < i <= current)
    requires Replayed(c.crc, segs, now, Visits(segs, current, current))
    requires Settled(c.crc, segs[current]) == left && forall i | i in segs && i != current :: Clean(c.crc, segs[i].bytes)
    ensures now == segs[current := left]
  {
    hide Settled, Visits, Clean, Replayed, Rising;
    VisitsAll(segs, current, current);
    var visited := Visits(segs, current, current);
    forall i | i in segs ensures now.Keys == segs.Keys && now[i] == segs[current := left][i] {
      ReplayedAt(c.crc, segs, now, visited, i);
      if i != current {
        SettledSame(c, 0, i, segs[i]);
      }
    }
  }

  lemma ReplayedAt(crc: Checksum, segs: Segments, now: Segments, visited: seq<nat>, i: nat)
    requires Headed(segs) && Replayed(crc, segs, now, visited) && i in segs
    ensures now.Keys == segs.Keys && now[i] == if i in visited then Settled(crc, segs[i]) else segs[i]
  {
  }

  // ---------------------------------------------------------------- the theorem

  /**
    A crash, and opening the log again.  If the labels of the segments rise, what comes back is
    exactly the entries whose records are left, in order, indexed where they were, in a log that
    is in order and durable again.  It is refused only if a committed entry is among those lost.
   */
  method Reopen(wal: Wal, bytes: seq<Byte>, ghost left: seq<Byte>, ghost junk: seq<Byte>, commit: nat)
    returns (again: Wal, r: Result<(), LogError>, ghost k: nat)
    requires wal.Valid() && wal.Durable() && wal.unflushed == [] && Rising(wal.manager.segments) && bytes == left + junk
    requires wal.manager.current in wal.manager.segments && Left(wal.codec.crc, wal.manager.segments[wal.manager.current].bytes, left, junk)
    ensures fresh(again) && k <= |wal.index.entries| == |wal.stored|
    ensures forall i | 0 <= i < |wal.stored| :: i < k <==> Survives(wal.index.entries[i], wal.manager.current, |left|)
    ensures r.Ok? <==> commit <= wal.snapshotIndex + k
    ensures r.Ok? ==>
              && again.Valid() && again.Durable() && again.unflushed == [] && again.firstIndex == wal.firstIndex
              && again.stored == wal.stored[..k] && again.index.entries == wal.index.entries[..k]
  {
    hide Left, Faithful, Agrees, AllLive, Clean, Settled, Visits, Recovered, Zip, Places, Continues, Rising, Consecutive, Buffered, Packed, Survives, Replayed;
    var cur, label_ := wal.manager.current, wal.manager.segments[wal.manager.current].firstIndex;
    var cut := wal.manager.segments[cur := Segment(label_, bytes)];
    k := Crashed(wal, left, junk, cut);
    again := new Wal.Open(wal.codec, wal.bufferSize, wal.segmentSize, wal.firstIndex, wal.snapshotIndex, Files(cut, cur));
    r := again.Recover(commit);
    if r.Ok? {
      RisingSettles(wal.codec, cut, again.manager.segments, cur, Segment(label_, left));
      again.stored := wal.stored[..k];
      Reopened(wal, again, left, k);
    }
  }

  /** What recovery will read of the files that a crash has left. */
  lemma Crashed(wal: Wal, left: seq<Byte>, junk: seq<Byte>, cut: Segments) returns (k: nat)
    requires wal.Valid() && wal.Durable() && wal.unflushed == [] && Rising(wal.manager.segments)
    requires wal.manager.current in wal.manager.segments && Left(wal.codec.crc, wal.manager.segments[wal.manager.current].bytes, left, junk)
    requires cut == wal.manager.segments[wal.manager.current := Segment(wal.manager.segments[wal.manager.current].firstIndex, left + junk)]
    ensures k <= |wal.index.entries| == |wal.stored|
    ensures forall i | 0 <= i < |wal.stored| :: i < k <==> Survives(wal.index.entries[i], wal.manager.current, |left|)
    ensures Headed(cut) && Rising(cut) && left <= wal.manager.segments[wal.manager.current].bytes
    ensures Settled(wal.codec.crc, cut[wal.manager.current]) == Segment(wal.manager.segments[wal.manager.current].firstIndex, left)
    ensures forall i | i in cut && i != wal.manager.current :: Clean(wal.codec.crc, cut[i].bytes)
    ensures var lives := Recovered(wal.codec, wal.firstIndex, cut, wal.manager.current, wal.manager.current);
            && Continues(lives, wal.firstIndex) && Places(lives) == wal.index.entries[..k] && |lives| == k
    ensures Faithful(wal.codec, wal.firstIndex, Files(wal.manager.segments[wal.manager.current := Segment(wal.manager.segments[wal.manager.current].firstIndex, left)], wal.manager.current),
                     wal.index.entries[..k], wal.stored[..k])
  {
    hide Left, Agrees, AllLive, Clean, Settled, Visits, Recovered, Zip, Places, Continues, Consecutive, Buffered, Packed, Survives;
    var cur, c := wal.manager.current, wal.codec;
    LeftFacts(c.crc, wal.manager.segments[cur].bytes, left, junk);
    LeftSettles(c, wal.firstIndex, cur, wal.manager.segments[cur].bytes, left, junk, wal.manager.segments[cur].firstIndex);
    k := CrashLives(c, wal.firstIndex, wal.Now(), wal.index.entries, wal.stored, left, junk);
    RisingRecovered(c, wal.firstIndex, cut, cur, cur);
    assert wal.stored + [] == wal.stored;
    ConsecutiveSplits(wal.stored, k);
    ZipContinues(wal.stored[..k], wal.index.entries[..k], wal.firstIndex);
  }

  lemma Reopened(wal: Wal, again: Wal, left: seq<Byte>, k: nat)
    requires wal.Valid() && wal.Durable() && wal.unflushed == [] && wal.manager.current in wal.manager.segments
    requires k <= |wal.index.entries| == |wal.stored| && left <= wal.manager.segments[wal.manager.current].bytes
    requires forall i | 0 <= i < k :: Survives(wal.index.entries[i], wal.manager.current, |left|)
    requires again.codec == wal.codec && again.firstIndex == wal.firstIndex && again.snapshotIndex == wal.snapshotIndex
    requires again.manager.Valid() && again.manager.current == wal.manager.current
    requires again.manager.segments == wal.manager.segments[wal.manager.current := Segment(wal.manager.segments[wal.manager.current].firstIndex, left)]
    requires again.index.entries == wal.index.entries[..k] && (k > 0 ==> again.index.firstIndex == wal.firstIndex)
    requires again.stored == wal.stored[..k] && again.unflushed == [] && again.buffer == [] && again.pending == []
    requires Faithful(wal.codec, wal.firstIndex, again.Now(), wal.index.entries[..k], wal.stored[..k])
    ensures again.Valid() && again.Durable()
  {
    hide Agrees, Faithful, Buffered, Consecutive, Packed, Survives;
    AgreesLeft(wal.codec, wal.manager.segments, wal.index.entries, wal.stored, wal.manager.current, left, k);
    assert wal.stored + [] == wal.stored && again.stored + [] == again.stored;
    ConsecutiveSplits(wal.stored, k);
    NothingBuffered(wal.codec);
    PackedNothing(wal.codec);
  }

  /** Without a crash opening the log again changes nothing. */
  method ReopenIntact(wal: Wal, commit: nat) returns (again: Wal, r: Result<(), LogError>)
    requires wal.Valid() && wal.Durable() && wal.unflushed == [] && Rising(wal.manager.segments) && wal.manager.current in wal.manager.segments
    ensures r.Ok? <==> commit <= wal.LastIndex()
    ensures r.Ok? ==> again.Valid() && again.Durable() && again.stored == wal.stored && again.index.entries == wal.index.entries
  {
    hide Wal.Valid, Wal.Durable, Left, Rising, Survives;
    var bytes := wal.manager.segments[wal.manager.current].bytes;
    assert Left(wal.codec.crc, bytes, bytes, []) by { IntactLeft(wal); }
    ghost var k;
    assert bytes + [] == bytes;
    again, r, k := Reopen(wal, bytes, bytes, [], commit);
    AllSurvive(wal);
    SameCut(wal.index.entries, wal.manager.current, |bytes|, k, |wal.stored|);
    assert wal.stored[..k] == wal.stored && wal.index.entries[..k] == wal.index.entries;
    LastIs(wal);
  }

  /** The number of entries that survive is unique. */
  lemma SameCut(ies: seq<IndexEntry>, current: nat, size: nat, k: nat, i: nat)
    requires k <= |ies| && i <= |ies|
    requires forall j | 0 <= j < |ies| :: j < k <==> Survives(ies[j], current, size)
    requires forall j | 0 <= j < |ies| :: j < i <==> Survives(ies[j], current, size)
    ensures k == i
  {
    if k < |ies| {
      assert k < i <==> Survives(ies[k], current, size);
    }
    if i < |ies| {
      assert i < k <==> Survives(ies[i], current, size);
    }
  }

  lemma IntactLeft(wal: Wal)
    requires wal.Durable() && wal.manager.current in wal.manager.segments
    ensures var bytes := wal.manager.segments[wal.manager.current].bytes; Left(wal.codec.crc, bytes, bytes, [])
  {
    hide AllLive, Packed;
    var bytes := wal.manager.segments[wal.manager.current].bytes;
    assert bytes + [] == bytes;
    NothingRefused(wal.codec.crc, bytes);
  }

  lemma AllSurvive(wal: Wal)
    requires wal.Valid() && wal.manager.current in wal.manager.segments
    ensures forall i | 0 <= i < |wal.index.entries| ::
              Survives(wal.index.entries[i], wal.manager.current, |wal.manager.segments[wal.manager.current].bytes|)
  {
    hide BytesOf, Buffered, Consecutive;
    forall i | 0 <= i < |wal.index.entries|
      ensures Survives(wal.index.entries[i], wal.manager.current, |wal.manager.segments[wal.manager.current].bytes|)
    {
      PlaceOf(wal.codec, wal.manager.segments, wal.index.entries, wal.stored, i);
    }
  }

  lemma LastIs(wal: Wal)
    requires wal.Valid() && wal.Durable() && wal.unflushed == []
    ensures wal.LastIndex() == wal.snapshotIndex + |wal.stored|
  {
    hide Buffered, Faithful, Packed;
    assert wal.stored + [] == wal.stored;
    AgreesLength(wal.codec, wal.manager.segments, wal.index.entries, wal.stored);
  }

  /** A crash that cuts the current segment at any byte loses exactly the entries whose records end after it. */
  method ReopenAfterCut(wal: Wal, n: nat, commit: nat) returns (again: Wal, r: Result<(), LogError>, ghost k: nat)
    requires wal.Valid() && wal.Durable() && wal.unflushed == [] && Rising(wal.manager.segments) && wal.manager.current in wal.manager.segments
    requires SEGMENT_HEADER <= n <= |wal.manager.segments[wal.manager.current].bytes|
    ensures k <= |wal.index.entries| == |wal.stored|
    ensures forall i | 0 <= i < |wal.stored| :: i < k <==> Survives(wal.index.entries[i], wal.manager.current, n)
    ensures r.Ok? <==> commit <= wal.snapshotIndex + k
    ensures r.Ok? ==> again.Valid() && again.Durable() && again.stored == wal.stored[..k] && again.index.entries == wal.index.entries[..k]
  {
    hide Left, Rising, Scan, Faithful, Agrees, Buffered, Consecutive, Packed;
    var bytes := wal.manager.segments[wal.manager.current].bytes;
    ghost var left, junk := CutLeaves(wal.codec.crc, bytes, n);
    again, r, k := Reopen(wal, bytes[..n], left, junk, commit);
    forall i | 0 <= i < |wal.stored|
      ensures Survives(wal.index.entries[i], wal.manager.current, |left|) <==> Survives(wal.index.entries[i], wal.manager.current, n)
    {
      var m := IndexedIsFound(wal, i);
    }
  }

  /** An entry indexed in the current segment is one of the records that a scan finds there. */
  lemma IndexedIsFound(wal: Wal, i: nat) returns (m: nat)
    requires wal.Durable() && i < |wal.index.entries| && wal.manager.current in wal.manager.segments
    ensures wal.index.entries[i].segment >= wal.manager.current ==>
              var found := Scan(wal.codec.crc, wal.manager.segments[wal.manager.current].bytes, SEGMENT_HEADER).found;
              m < |found| && found[m].offset == wal.index.entries[i].offset && found[m].total == wal.index.entries[i].length
  {
    hide Scan, LiveEntries, Packed, AllLive;
    var c, F, segs, cur := wal.codec, wal.firstIndex, wal.manager.segments, wal.manager.current;
    CleanHeaded(c, wal.Now());
    LiveSplits(c, F, segs, cur, i);
    assert AllLive(c, F, segs, cur)[i].at == wal.index.entries[i];
    m := 0;
    if wal.index.entries[i].segment >= cur {
      LiveLast(c, F, segs, cur);
      var j := i - |AllLive(c, F, segs, cur - 1)|;
      assert AllLive(c, F, segs, cur)[i] == LivesIn(c, F, cur, segs[cur].bytes)[j];
      m := LiveIsFound(c, cur, F, Scan(c.crc, segs[cur].bytes, SEGMENT_HEADER).found, j);
    }
  }

  /** Damage to the record of an entry of the current segment, with anything after it, loses that entry and those after it. */
  method ReopenAfterDamage(wal: Wal, i: nat, d: seq<Byte>, rest: seq<Byte>, commit: nat) returns (again: Wal, r: Result<(), LogError>)
    requires wal.Valid() && wal.Durable() && wal.unflushed == [] && Rising(wal.manager.segments) && wal.manager.current in wal.manager.segments
    requires i < |wal.stored| == |wal.index.entries| && wal.index.entries[i].segment == wal.manager.current
    requires wal.index.entries[i].offset <= |wal.manager.segments[wal.manager.current].bytes|
    requires RecOf(wal.codec, wal.stored[i]).Fits() && Damaged(wal.codec.crc, RecOf(wal.codec, wal.stored[i]), d)
    requires !ChecksumAgrees(wal.codec.crc, RecOf(wal.codec, wal.stored[i]), d)
    ensures r.Ok? <==> commit <= wal.snapshotIndex + i
    ensures r.Ok? ==> again.Valid() && again.Durable() && again.stored == wal.stored[..i] && again.index.entries == wal.index.entries[..i]
  {
    hide Left, Rising, Faithful, Agrees, Buffered, Consecutive, Packed, Damaged, ChecksumAgrees, Survives;
    var cur, at := wal.manager.current, wal.index.entries[i].offset;
    var left := wal.manager.segments[cur].bytes[..at];
    DamagedLeft(wal, i, left, d, rest);
    ghost var k;
    again, r, k := Reopen(wal, left + (d + rest), left, d + rest, commit);
    SameCut(wal.index.entries, cur, |left|, k, i);
  }

  lemma DamagedLeft(wal: Wal, i: nat, left: seq<Byte>, d: seq<Byte>, rest: seq<Byte>)
    requires wal.Valid() && wal.Durable() && wal.unflushed == [] && wal.manager.current in wal.manager.segments
    requires i < |wal.stored| == |wal.index.entries| && wal.index.entries[i].segment == wal.manager.current
    requires wal.index.entries[i].offset <= |wal.manager.segments[wal.manager.current].bytes|
    requires left == wal.manager.segments[wal.manager.current].bytes[..wal.index.entries[i].offset]
    requires RecOf(wal.codec, wal.stored[i]).Fits() && Damaged(wal.codec.crc, RecOf(wal.codec, wal.stored[i]), d)
    requires !ChecksumAgrees(wal.codec.crc, RecOf(wal.codec, wal.stored[i]), d)
    ensures Left(wal.codec.crc, wal.manager.segments[wal.manager.current].bytes, left, d + rest)
    ensures forall j | 0 <= j < |wal.stored| :: j < i <==> Survives(wal.index.entries[j], wal.manager.current, |left|)
  {
    hide Buffered, Consecutive, Packed, Damaged, ChecksumAgrees, Scan, AllLive, Left, Built;
    var c, cur, at, bytes := wal.codec, wal.manager.current, wal.index.entries[i], wal.manager.segments[wal.manager.current].bytes;
    FaithfulCut(c, wal.firstIndex, wal.Now(), wal.index.entries, wal.stored, i);
    var g := CutFiles(wal.Now(), at);
    assert cur in g.segments && g.segments[cur].bytes == left;
    assert Clean(c.crc, left);
    assert Holds(c, wal.manager.segments, at, wal.stored[i]);
    assert left + Built(c.crc, RecOf(c, wal.stored[i])) == bytes[..at.offset + at.length];
    DamageLeaves(c.crc, bytes, left, RecOf(c, wal.stored[i]), d, rest);
    forall j | 0 <= j < |wal.stored| ensures j < i <==> Survives(wal.index.entries[j], cur, |left|) {
      PlaceOf(c, wal.manager.segments, wal.index.entries, wal.stored, j);
      RealLength(wal, j);
      if j < i {
        assert Before(wal.index.entries[j], wal.index.entries[i]);
      } else if j > i {
        assert Before(wal.index.entries[i], wal.index.entries[j]);
      }
    }
  }

  lemma RealLength(wal: Wal, j: nat)
    requires wal.Valid() && j < |wal.index.entries|
    ensures wal.index.entries[j].length > 0
  {
    assert Holds(wal.codec, wal.manager.segments, wal.index.entries[j], wal.stored[j]);
  }

  // ---------------------------------------------------------------- a later first index

  /** The live entries from an index on. */
  function From(lives: seq<Live>, first: nat): seq<Live> {
    if lives == [] then []
    else From(lives[..|lives| - 1], first) + if lives[|lives| - 1].entry.index >= first then [lives[|lives| - 1]] else []
  }

  lemma {:induction false} FromConcat(a: seq<Live>, b: seq<Live>, first: nat)
    ensures From(a + b, first) == From(a, first) + From(b, first)
    decreases |b|
  {
    if b == [] {
      assert a + b == a;
    } else {
      assert (a + b)[..|a + b| - 1] == a + b[..|b| - 1];
      FromConcat(a, b[..|b| - 1], first);
    }
  }

  lemma {:induction false} LiveFrom(c: Codec, id: nat, firstIndex: nat, later: nat, found: seq<Found>)
    requires firstIndex <= later
    ensures LiveEntries(c, id, later, found) == From(LiveEntries(c, id, firstIndex, found), later)
  {
    if found != [] {
      LiveFrom(c, id, firstIndex, later, found[..|found| - 1]);
    }
  }

  lemma {:induction false} AllLiveFrom(c: Codec, firstIndex: nat, later: nat, segs: Segments, top: nat)
    requires Headed(segs) && firstIndex <= later
    ensures AllLive(c, later, segs, top) == From(AllLive(c, firstIndex, segs, top), later)
  {
    hide LiveEntries, From, Scan;
    if top == 0 {
      assert From([], later) == [] by { FromNothing(later); }
    } else {
      AllLiveFrom(c, firstIndex, later, segs, top - 1);
      if top in segs {
        LiveFrom(c, top, firstIndex, later, Scan(c.crc, segs[top].bytes, SEGMENT_HEADER).found);
        FromConcat(AllLive(c, firstIndex, segs, top - 1), LivesIn(c, firstIndex, top, segs[top].bytes), later);
      } else {
        assert AllLive(c, firstIndex, segs, top) == AllLive(c, firstIndex, segs, top - 1);
      }
    }
  }

  lemma FromNothing(first: nat)
    ensures From([], first) == []
  {
  }

  lemma {:induction false} FromContinues(lives: seq<Live>, first: nat, later: nat)
    requires Continues(lives, first) && first <= later <= first + |lives|
    ensures From(lives, later) == lives[later - first..]
    decreases |lives|
  {
    if lives != [] {
      var n := |lives| - 1;
      assert lives[..n] + [lives[n]] == lives;
      if later <= first + n {
        FromContinues(lives[..n], first, later);
        assert lives[later - first..] == lives[..n][later - first..] + [lives[n]];
      } else {
        assert lives[later - first..] == [];
        BeforeAll(lives, later);
      }
    }
  }

  lemma {:induction false} BeforeAll(lives: seq<Live>, later: nat)
    requires forall i | 0 <= i < |lives| :: lives[i].entry.index < later
    ensures From(lives, later) == []
  {
    if lives != [] {
      BeforeAll(lives[..|lives| - 1], later);
    }
  }

  /** Replay with a later first index, as compaction records it, finds exactly the entries from that index on. */
  lemma LaterFirstIndex(c: Codec, firstIndex: nat, f: Files, ies: seq<IndexEntry>, es: seq<Entry>, later: nat)
    requires Faithful(c, firstIndex, f, ies, es) && Consecutive(es) && (es != [] ==> es[0].index == firstIndex)
    requires firstIndex <= later <= firstIndex + |es|
    ensures Faithful(c, later, f, ies[later - firstIndex..], es[later - firstIndex..])
  {
    hide AllLive, From, Clean;
    CleanHeaded(c, f);
    AllLiveFrom(c, firstIndex, later, f.segments, f.current);
    ZipContinues(es, ies, firstIndex);
    FromContinues(Zip(es, ies), firstIndex, later);
    assert Zip(es, ies)[later - firstIndex..] == Zip(es[later - firstIndex..], ies[later - firstIndex..]);
  }

  /** Replay takes from the records exactly the entries that parse, from the log's first index on, each with its place. */
  lemma {:induction false} LiveExactly(c: Codec, id: nat, firstIndex: nat, found: seq<Found>, l: Live)
    ensures l in LiveEntries(c, id, firstIndex, found) <==>
              exists f | f in found :: f.rec.kind == ENTRY_KIND && c.decode(f.rec.payload) == Some(l.entry) && l.entry.index >= firstIndex
                                      && l.at == IndexEntry(id, f.offset, f.total, l.entry.term)
  {
    if found != [] {
      var n := |found| - 1;
      LiveExactly(c, id, firstIndex, found[..n], l);
      assert found == found[..n] + [found[n]];
    }
  }

  // ---------------------------------------------------------------- labels that do not rise

  /** The segment before one that is labelled with the log's first index is found for no label. */
  lemma NeverFound(segs: Segments, top: nat, first: nat, label_: nat)
    requires top in segs && top + 1 in segs && segs[top + 1].firstIndex == first <= label_ && (forall id | id in segs :: 0 < id <= top + 1)
    ensures SegmentFor(segs, top + 1, label_) != Some(top)
  {
    hide SegmentFrom;
    SegmentForIs(segs, 1, top + 1, label_, None, top);
    assert top + 1 in segs;
  }

  lemma {:induction false} NeverVisited(segs: Segments, top: nat, first: nat, id: nat)
    requires top in segs && top + 1 in segs && segs[top + 1].firstIndex == first && (forall i | i in segs :: 0 < i <= top + 1)
    requires Labelled(segs, first)
    ensures top !in Visits(segs, top + 1, id)
  {
    hide SegmentFor;
    if id > 0 {
      NeverVisited(segs, top, first, id - 1);
      if id in segs {
        NeverFound(segs, top, first, segs[id].firstIndex);
      }
    }
  }

  /** What is read of a list of segments is a live entry of one of them. */
  lemma {:induction false} ReadFrom(c: Codec, firstIndex: nat, segs: Segments, order: seq<nat>, i: nat) returns (s: nat, j: nat)
    requires Headed(segs) && (forall m | 0 <= m < |order| :: order[m] in segs) && i < |LivesOver(c, firstIndex, segs, order)|
    ensures s in order && s in segs && j < |LivesIn(c, firstIndex, s, segs[s].bytes)|
    ensures LivesOver(c, firstIndex, segs, order)[i] == LivesIn(c, firstIndex, s, segs[s].bytes)[j]
    decreases |order|
  {
    hide LivesIn;
    var n := |order| - 1;
    var before := LivesOver(c, firstIndex, segs, order[..n]);
    if i < |before| {
      s, j := ReadFrom(c, firstIndex, segs, order[..n], i);
    } else {
      s, j := order[n], i - |before|;
    }
  }

  /** A live entry of a segment is one of all the live entries. */
  lemma {:induction false} LiveOfAll(c: Codec, firstIndex: nat, segs: Segments, top: nat, s: nat, j: nat) returns (m: nat)
    requires Headed(segs) && s in segs && 0 < s <= top && j < |LivesIn(c, firstIndex, s, segs[s].bytes)|
    ensures m < |AllLive(c, firstIndex, segs, top)| && AllLive(c, firstIndex, segs, top)[m] == LivesIn(c, firstIndex, s, segs[s].bytes)[j]
    decreases top
  {
    hide LivesIn;
    if s == top {
      m := |AllLive(c, firstIndex, segs, top - 1)| + j;
    } else {
      m := LiveOfAll(c, firstIndex, segs, top - 1, s, j);
    }
  }

  /** If the segment of the last entry is not visited, recovery cannot reach that entry. */
  lemma LastNotRecovered(c: Codec, firstIndex: nat, f: Files, ies: seq<IndexEntry>, es: seq<Entry>, skipped: nat)
    requires Faithful(c, firstIndex, f, ies, es) && Headed(f.segments) && es != [] && Consecutive(es) && es[0].index == firstIndex
    requires ies[|ies| - 1].segment == skipped && skipped !in Visits(f.segments, f.current, f.current)
    ensures var lives := Recovered(c, firstIndex, f.segments, f.current, f.current);
            Continues(lives, firstIndex) ==> |lives| < |es|
  {
    hide LivesIn, AllLive, Visits, LivesOver, Recovered;
    var lives := Recovered(c, firstIndex, f.segments, f.current, f.current);
    if |lives| >= |es| {
      var m := ReadElsewhere(c, firstIndex, f, ies, es, skipped, |es| - 1);
    }
  }

  /** Whatever recovery reads is one of the entries, in a segment that is visited. */
  lemma ReadElsewhere(c: Codec, firstIndex: nat, f: Files, ies: seq<IndexEntry>, es: seq<Entry>, skipped: nat, i: nat) returns (m: nat)
    requires Faithful(c, firstIndex, f, ies, es) && Headed(f.segments) && Consecutive(es)
    requires skipped !in Visits(f.segments, f.current, f.current) && i < |Recovered(c, firstIndex, f.segments, f.current, f.current)|
    ensures m < |es| == |ies| && Recovered(c, firstIndex, f.segments, f.current, f.current)[i] == Live(es[m], ies[m])
    ensures ies[m].segment != skipped && es[m].index == es[0].index + m
  {
    hide LivesIn, AllLive, Visits, LivesOver;
    VisitsExist(f.segments, f.current, f.current);
    var s, j := ReadFrom(c, firstIndex, f.segments, Visits(f.segments, f.current, f.current), i);
    m := LiveOfAll(c, firstIndex, f.segments, f.current, s, j);
    LiveSegment(c, firstIndex, s, f.segments[s].bytes, j);
    assert Zip(es, ies)[m] == Live(es[m], ies[m]);
  }

  /**
    A hard state that rolls to a new segment makes the log forget.  Whatever the log is, if its
    last segment is full and holds its last entry, saving a hard state and opening the log again,
    with no crash at all, does not bring that entry back.  If it was committed, the log cannot be
    opened any more.
   */
  method HardStateForgets(wal: Wal, payload: seq<Byte>, commit: nat) returns (again: Wal, r: Result<(), LogError>)
    requires wal.Valid() && wal.Durable() && wal.unflushed == [] && wal.EndsHere() && Rec(HARD_STATE_KIND, payload).Fits()
    requires wal.manager.current in wal.manager.segments && wal.Now().Size() >= wal.segmentSize
    modifies wal, wal.index, wal.manager
    ensures wal.Valid() && wal.Durable() && wal.stored == old(wal.stored) && wal.LastIndex() == old(wal.LastIndex())
    ensures r.Ok? ==> again.LastIndex() < wal.LastIndex()
    ensures commit >= wal.LastIndex() ==> r.Err?
  {
    hide Faithful, Agrees, Buffered, Consecutive, Packed, Continues, Recovered, Visits, SegmentFor, Built, Places;
    ghost var cur := wal.manager.current;
    LastIs(wal);
    wal.SaveHardState(payload);
    LastIs(wal);
    SkipsSegment(wal, cur);
    again := new Wal.Open(wal.codec, wal.bufferSize, wal.segmentSize, wal.firstIndex, wal.snapshotIndex, Files(wal.manager.segments, wal.manager.current));
    r := again.Recover(commit);
  }

  lemma SkipsSegment(wal: Wal, cur: nat)
    requires wal.Valid() && wal.Durable() && wal.unflushed == [] && wal.index.entries != []
    requires wal.index.entries[|wal.index.entries| - 1].segment == cur && wal.manager.current == cur + 1
    requires cur in wal.manager.segments && cur + 1 in wal.manager.segments && wal.manager.segments[cur + 1].firstIndex == wal.firstIndex
    ensures Headed(wal.manager.segments)
    ensures var lives := Recovered(wal.codec, wal.firstIndex, wal.manager.segments, wal.manager.current, wal.manager.current);
            Continues(lives, wal.firstIndex) ==> |lives| < |wal.stored|
  {
    hide Faithful, Buffered, Consecutive, Packed, Continues, Recovered, Visits;
    assert wal.stored + [] == wal.stored;
    AgreesLength(wal.codec, wal.manager.segments, wal.index.entries, wal.stored);
    NeverVisited(wal.manager.segments, cur, wal.firstIndex, wal.manager.current);
    LastNotRecovered(wal.codec, wal.firstIndex, wal.Now(), wal.index.entries, wal.stored, cur);
  }

  /** It happens to a new log with one entry. */
  method FreshForgets(codec: Codec, e: Entry, payload: seq<Byte>, commit: nat) returns (again: Wal, r: Result<(), LogError>)
    requires e.index == 1 && Legible(codec, e) && Rec(HARD_STATE_KIND, payload).Fits()
    ensures r.Ok? ==> again.LastIndex() == 0
    ensures commit >= 1 ==> r.Err?
  {
    hide BytesOf, Buffered, Consecutive, Faithful, Packed, Agrees, Legible;
    var wal := new Wal(codec, 0, SEGMENT_HEADER + 1, 1, 0);
    OneConsecutive(e);
    var a := wal.Append([e]);
    LastEntry(wal);
    RecordSize(codec, e);
    again, r := HardStateForgets(wal, payload, commit);
  }

  lemma RecordSize(c: Codec, e: Entry)
    ensures |BytesOf(c, e)| > 0
  {
  }
}
