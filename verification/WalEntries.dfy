/** Entries as records of a segment, and the entries that replay takes out of the records it finds. */
module WalEntries {
  import opened Types
  import opened Record
  import opened WalReplay
  import opened WalIndex

  const ENTRY_KIND: Byte := 1
  const HARD_STATE_KIND: Byte := 3

  /** The checksum and the serialisation of entries, which the log only relies on to be inverse. */
  datatype Codec = Codec(crc: Checksum, encode: Entry -> seq<Byte>, decode: seq<Byte> -> Option<Entry>)

  function RecOf(c: Codec, e: Entry): Rec { Rec(ENTRY_KIND, c.encode(e)) }

  function BytesOf(c: Codec, e: Entry): seq<Byte> { Built(c.crc, RecOf(c, e)) }

  /** A live entry that replay puts into the index. */
  datatype Live = Live(entry: Entry, at: IndexEntry)

  /** The entries among the records found, from the log's first index on. */
  function LiveEntries(c: Codec, id: nat, firstIndex: nat, found: seq<Found>): seq<Live> {
    if found == [] then []
    else
      var f, rest := found[|found| - 1], LiveEntries(c, id, firstIndex, found[..|found| - 1]);
      if f.rec.kind == ENTRY_KIND && c.decode(f.rec.payload).Some? && c.decode(f.rec.payload).value.index >= firstIndex then
        var e := c.decode(f.rec.payload).value;
        rest + [Live(e, IndexEntry(id, f.offset, f.total, e.term))]
      else rest
  }

  lemma {:induction false} LiveConcat(c: Codec, id: nat, firstIndex: nat, a: seq<Found>, b: seq<Found>)
    ensures LiveEntries(c, id, firstIndex, a + b) == LiveEntries(c, id, firstIndex, a) + LiveEntries(c, id, firstIndex, b)
    decreases |b|
  {
    if b == [] {
      assert a + b == a;
    } else {
      assert (a + b)[..|a + b| - 1] == a + b[..|b| - 1];
      LiveConcat(c, id, firstIndex, a, b[..|b| - 1]);
    }
  }

  /** Continuing is continuing part by part. */
  lemma ContinuesConcat(a: seq<Live>, b: seq<Live>, expected: nat)
    ensures Continues(a + b, expected) <==> Continues(a, expected) && Continues(b, expected + |a|)
  {
    if Continues(a + b, expected) {
      assert forall i | 0 <= i < |a| :: (a + b)[i] == a[i];
      assert forall i | 0 <= i < |b| :: (a + b)[|a| + i] == b[i];
    }
  }

  lemma NothingLive(c: Codec, id: nat, firstIndex: nat, expected: nat)
    ensures LiveEntries(c, id, firstIndex, []) == [] && Continues([], expected) && Places([]) == []
  {
  }

  function Places(lives: seq<Live>): (ies: seq<IndexEntry>)
    ensures |ies| == |lives|
  {
    seq(|lives|, i requires 0 <= i < |lives| => lives[i].at)
  }

  lemma PlacesConcat(a: seq<Live>, b: seq<Live>)
    ensures Places(a + b) == Places(a) + Places(b)
  {
  }

  /** The live entries are numbered from `expected` on. */
  predicate Continues(lives: seq<Live>, expected: nat) {
    forall i | 0 <= i < |lives| :: lives[i].entry.index == expected + i
  }

  /** Replaying one more record: the live entries grow by its own, and the log continues if they do. */
  lemma ReplayNext(c: Codec, id: nat, firstIndex: nat, done: seq<Found>, f: Found, rest: seq<Found>, expected: nat)
    requires Continues(LiveEntries(c, id, firstIndex, done), expected)
    ensures var before, one := LiveEntries(c, id, firstIndex, done), LiveEntries(c, id, firstIndex, [f]);
            && LiveEntries(c, id, firstIndex, done + [f]) == before + one && Places(before + one) == Places(before) + Places(one)
            && (Continues(before + one, expected) <==> Continues(one, expected + |before|))
            && (!Continues(one, expected + |before|) ==> !Continues(LiveEntries(c, id, firstIndex, done + [f] + rest), expected))
  {
    hide LiveEntries, Continues, Places;
    var before, one := LiveEntries(c, id, firstIndex, done), LiveEntries(c, id, firstIndex, [f]);
    LiveConcat(c, id, firstIndex, done, [f]);
    LiveConcat(c, id, firstIndex, done + [f], rest);
    ContinuesConcat(before, one, expected);
    ContinuesConcat(before + one, LiveEntries(c, id, firstIndex, rest), expected);
    PlacesConcat(before, one);
  }

  // ---------------------------------------------------------------- segments

  /** The segments and which of them is current. */
  datatype Files = Files(segments: Segments, current: nat) {
    predicate Valid() { segments != map[] ==> current in segments }

    /** With a current segment, made with the given first index if there is none. */
    function Opened(first: nat): (f: Files)
      requires Valid()
      ensures f.current in f.segments
    {
      if segments == map[] then Files(map[current + 1 := Segment(first, Zeros(SEGMENT_HEADER))], current + 1) else this
    }

    function Size(): nat
      requires current in segments
    {
      |segments[current].bytes|
    }

    /** With bytes written to the current segment. */
    function Extended(data: seq<Byte>): (f: Files)
      requires current in segments
      ensures f.current == current && f.current in f.segments
    {
      Files(segments[current := Segment(segments[current].firstIndex, segments[current].bytes + data)], current)
    }

    /** With a new current segment. */
    function Rolled(first: nat): (f: Files)
      ensures f.current == current + 1 && f.current in f.segments
    {
      Files(segments[current + 1 := Segment(first, Zeros(SEGMENT_HEADER))], current + 1)
    }
  }

  /** A segment that a scan covers to its end. */
  predicate Clean(crc: Checksum, bytes: seq<Byte>) {
    SEGMENT_HEADER <= |bytes| && Scan(crc, bytes, SEGMENT_HEADER).end == |bytes|
  }

  /** The live entries of a segment. */
  function LivesIn(c: Codec, firstIndex: nat, id: nat, bytes: seq<Byte>): seq<Live>
    requires SEGMENT_HEADER <= |bytes|
  {
    LiveEntries(c, id, firstIndex, Scan(c.crc, bytes, SEGMENT_HEADER).found)
  }

  predicate Headed(segs: Segments) { forall id | id in segs :: SEGMENT_HEADER <= |segs[id].bytes| }

  /** The live entries of all segments up to `top`, in the order of their ids. */
  function AllLive(c: Codec, firstIndex: nat, segs: Segments, top: nat): seq<Live>
    requires Headed(segs)
  {
    if top == 0 then [] else AllLive(c, firstIndex, segs, top - 1) + if top in segs then LivesIn(c, firstIndex, top, segs[top].bytes) else []
  }

  lemma {:induction false} AllLiveSame(c: Codec, firstIndex: nat, a: Segments, b: Segments, top: nat)
    requires Headed(a) && Headed(b)
    requires forall id | 0 < id <= top :: (id in a <==> id in b) && (id in a ==> a[id].bytes == b[id].bytes)
    ensures AllLive(c, firstIndex, a, top) == AllLive(c, firstIndex, b, top)
  {
    if top > 0 {
      AllLiveSame(c, firstIndex, a, b, top - 1);
    }
  }

  /** Entries with their places. */
  function Zip(es: seq<Entry>, ies: seq<IndexEntry>): (lives: seq<Live>)
    requires |es| == |ies|
    ensures |lives| == |es|
  {
    seq(|es|, i requires 0 <= i < |es| => Live(es[i], ies[i]))
  }

  lemma ZipJoins(es: seq<Entry>, ies: seq<IndexEntry>, e: Entry, ie: IndexEntry)
    requires |es| == |ies|
    ensures Zip(es + [e], ies + [ie]) == Zip(es, ies) + [Live(e, ie)]
  {
  }

  /** What replaying all segments, in the order of their ids, finds: these entries at these places, and nothing else. */
  predicate Faithful(c: Codec, firstIndex: nat, f: Files, ies: seq<IndexEntry>, es: seq<Entry>) {
    && f.Valid() && (forall id | id in f.segments :: 0 < id <= f.current && Clean(c.crc, f.segments[id].bytes))
    && |es| == |ies| && AllLive(c, firstIndex, f.segments, f.current) == Zip(es, ies)
  }

  lemma EmptySegment(c: Codec, firstIndex: nat, id: nat)
    ensures Clean(c.crc, Zeros(SEGMENT_HEADER)) && LivesIn(c, firstIndex, id, Zeros(SEGMENT_HEADER)) == []
  {
    NothingRefused(c.crc, Zeros(SEGMENT_HEADER));
  }

  /** A new segment adds nothing. */
  lemma FaithfulRolled(c: Codec, firstIndex: nat, f: Files, ies: seq<IndexEntry>, es: seq<Entry>, first: nat)
    requires Faithful(c, firstIndex, f, ies, es)
    ensures Faithful(c, firstIndex, f.Rolled(first), ies, es)
  {
    hide Clean, LivesIn, Zip;
    EmptySegment(c, firstIndex, f.current + 1);
    CleanHeaded(c, f);
    CleanHeaded(c, f.Rolled(first));
    AllLiveSame(c, firstIndex, f.segments, f.Rolled(first).segments, f.current);
  }

  lemma CleanHeaded(c: Codec, f: Files)
    requires forall id | id in f.segments :: Clean(c.crc, f.segments[id].bytes)
    ensures Headed(f.segments)
  {
  }

  lemma FaithfulOpened(c: Codec, firstIndex: nat, f: Files, ies: seq<IndexEntry>, es: seq<Entry>, first: nat)
    requires Faithful(c, firstIndex, f, ies, es)
    ensures Faithful(c, firstIndex, f.Opened(first), ies, es)
  {
    if f.segments == map[] {
      FaithfulRolled(c, firstIndex, f, ies, es, first);
      assert f.Opened(first) == f.Rolled(first);
    }
  }

  /** A record written to a clean segment is found after those before it. */
  lemma CleanExtended(c: Codec, firstIndex: nat, id: nat, bytes: seq<Byte>, r: Rec)
    requires Clean(c.crc, bytes) && r.Sound()
    ensures var more := bytes + Built(c.crc, r);
            && Clean(c.crc, more)
            && LivesIn(c, firstIndex, id, more)
                 == LivesIn(c, firstIndex, id, bytes) + LiveEntries(c, id, firstIndex, [Found(|bytes|, |Built(c.crc, r)|, r)])
  {
    hide Built, LiveEntries, RecordAt, FoundAt, Scan;
    var b := Built(c.crc, r);
    var more := bytes + b;
    var f := Found(|bytes|, |b|, r);
    BuiltIsFound(c.crc, bytes, r, []);
    assert bytes + b + [] == more;
    ScanOne(c.crc, more, |bytes|);
    ScanOne(c.crc, more, |more|);
    NothingRefused(c.crc, more);
    assert Scan(c.crc, more, |bytes|) == Scanned([f] + [], |more|);
    assert [f] + [] == [f];
    ScanExtends(c.crc, bytes, SEGMENT_HEADER, b);
    LiveConcat(c, id, firstIndex, Scan(c.crc, bytes, SEGMENT_HEADER).found, [f]);
  }

  /** Writing one record adds what replay takes from it. */
  lemma Wrote(c: Codec, firstIndex: nat, f: Files, r: Rec)
    requires f.current in f.segments && r.Sound() && 0 < f.current
    requires forall id | id in f.segments :: 0 < id <= f.current && Clean(c.crc, f.segments[id].bytes)
    ensures var g := f.Extended(Built(c.crc, r));
            && (forall id | id in g.segments :: 0 < id <= g.current && Clean(c.crc, g.segments[id].bytes))
            && Headed(f.segments) && Headed(g.segments)
            && AllLive(c, firstIndex, g.segments, g.current)
                 == AllLive(c, firstIndex, f.segments, f.current) + LiveEntries(c, f.current, firstIndex, [Found(f.Size(), |Built(c.crc, r)|, r)])
  {
    hide Built, LiveEntries, Clean, LivesIn;
    var g, k := f.Extended(Built(c.crc, r)), f.current;
    CleanExtended(c, firstIndex, k, f.segments[k].bytes, r);
    CleanHeaded(c, f);
    CleanHeaded(c, g);
    AllLiveSame(c, firstIndex, f.segments, g.segments, k - 1);
  }

  /** An entry that serialises and parses back, small enough for a record. */
  predicate Legible(c: Codec, e: Entry) { c.decode(c.encode(e)) == Some(e) && RecOf(c, e).Fits() }

  /** The place of a record at the end of the current segment. */
  function EndPlace(c: Codec, f: Files, e: Entry): IndexEntry
    requires f.current in f.segments
  {
    IndexEntry(f.current, f.Size(), |BytesOf(c, e)|, e.term)
  }

  /** Writing an entry's record and indexing it there. */
  lemma FaithfulEntry(c: Codec, firstIndex: nat, f: Files, ies: seq<IndexEntry>, es: seq<Entry>, e: Entry)
    requires Faithful(c, firstIndex, f, ies, es) && f.current in f.segments && Legible(c, e) && e.index >= firstIndex
    ensures Faithful(c, firstIndex, f.Extended(BytesOf(c, e)), ies + [EndPlace(c, f, e)], es + [e])
  {
    hide Clean, LivesIn, Built, Zip, AllLive;
    Wrote(c, firstIndex, f, RecOf(c, e));
    LiveSingle(c, f.current, firstIndex, e, f.Size());
    ZipJoins(es, ies, e, EndPlace(c, f, e));
  }

  /** Writing any other record. */
  lemma FaithfulOther(c: Codec, firstIndex: nat, f: Files, ies: seq<IndexEntry>, es: seq<Entry>, r: Rec)
    requires Faithful(c, firstIndex, f, ies, es) && f.current in f.segments && r.Sound() && r.kind != ENTRY_KIND
    ensures Faithful(c, firstIndex, f.Extended(Built(c.crc, r)), ies, es)
  {
    hide Clean, LivesIn, Built, Zip, AllLive;
    Wrote(c, firstIndex, f, r);
    var one := [Found(f.Size(), |Built(c.crc, r)|, r)];
    assert LiveEntries(c, f.current, firstIndex, one[..0]) == [];
  }

  lemma LiveSingle(c: Codec, id: nat, firstIndex: nat, e: Entry, offset: nat)
    requires c.decode(c.encode(e)) == Some(e) && e.index >= firstIndex
    ensures var total := |BytesOf(c, e)|;
            LiveEntries(c, id, firstIndex, [Found(offset, total, RecOf(c, e))]) == [Live(e, IndexEntry(id, offset, total, e.term))]
  {
    hide BytesOf;
    var f := [Found(offset, |BytesOf(c, e)|, RecOf(c, e))];
    assert LiveEntries(c, id, firstIndex, f[..0]) == [];
  }

  // ---------------------------------------------------------------- cutting

  /** The last of the records one right after the other. */
  lemma {:induction false} ChainedLast(found: seq<Found>, offset: nat, end: nat)
    requires Chained(found, offset, end)
    ensures offset <= end && forall i | 0 <= i < |found| :: found[i].offset < found[i].offset + found[i].total <= end
    ensures found != [] ==>
              var n := |found| - 1;
              found[n].total >= HEADER && found[n].offset + found[n].total == end && Chained(found[..n], offset, found[n].offset)
    decreases |found|
  {
    if found != [] {
      ChainedLast(found[1..], offset + found[0].total, end);
      assert forall i | 0 < i < |found| :: found[i] == found[1..][i - 1];
      var n := |found| - 1;
      if n > 0 {
        assert found[..n][1..] == found[1..][..n - 1] && found[1..][n - 1] == found[n];
      }
    }
  }

  lemma {:induction false} EndingLast(found: seq<Found>, f: Found, n: nat)
    ensures Ending(found + [f], n) == if Ending(found, n) == |found| && f.offset + f.total <= n then |found| + 1 else Ending(found, n)
    decreases |found|
  {
    if found == [] {
      assert [f][1..] == [];
    } else {
      assert (found + [f])[1..] == found[1..] + [f];
      EndingLast(found[1..], f, n);
    }
  }

  /** The first `k` live entries end by byte `n`, the others after it, all of them in segment `id` and by byte `end`. */
  predicate Parted(lives: seq<Live>, id: nat, k: nat, n: nat, end: nat) {
    && k <= |lives|
    && (forall i | 0 <= i < |lives| :: lives[i].at.segment == id)
    && (forall i | 0 <= i < |lives| :: i < k <==> lives[i].at.offset + lives[i].at.length <= n)
    && (forall i | 0 <= i < |lives| :: lives[i].at.offset + lives[i].at.length <= end)
  }

  lemma PartedNone(id: nat, n: nat, end: nat)
    ensures Parted([], id, 0, n, end)
  {
  }

  lemma PartedJoins(before: seq<Live>, one: seq<Live>, id: nat, k: nat, k': nat, n: nat, f: Found, end: nat)
    requires Parted(before, id, k, n, f.offset) && f.offset + f.total == end
    requires |one| <= 1 && (one != [] ==> one[0].at.segment == id && one[0].at.offset == f.offset && one[0].at.length == f.total)
    requires if end <= n then k == |before| && k' == |before + one| else k' == k
    ensures Parted(before + one, id, k', n, end) && (before + one)[..k'] == if end <= n then before + one else before[..k]
  {
  }

  /** The live entries among the records that end by byte `n` are the first ones, up to those that end later. */
  lemma {:induction false} LiveEnding(c: Codec, id: nat, firstIndex: nat, found: seq<Found>, offset: nat, end: nat, n: nat) returns (k: nat)
    requires Chained(found, offset, end)
    ensures var lives := LiveEntries(c, id, firstIndex, found);
            && k <= |lives| && Parted(lives, id, k, n, end) && LiveEntries(c, id, firstIndex, found[..Ending(found, n)]) == lives[..k]
    decreases |found|
  {
    hide LiveEntries, Ending, Chained, Parted;
    if found == [] {
      NothingLive(c, id, firstIndex, 0);
      assert found[..Ending(found, n)] == [];
      k := 0;
      PartedNone(id, n, end);
    } else {
      var m := |found| - 1;
      var front, f := found[..m], found[m];
      ChainedLast(found, offset, end);
      assert found == front + [f];
      EndingLast(front, f, n);
      k := LiveEnding(c, id, firstIndex, front, offset, f.offset, n);
      var before, one := LiveEntries(c, id, firstIndex, front), LiveEntries(c, id, firstIndex, [f]);
      LiveConcat(c, id, firstIndex, front, [f]);
      LiveOne(c, id, firstIndex, f);
      if Ending(front, n) == m && f.offset + f.total <= n {
        assert front[..m] == front && found[..m + 1] == found;
        assert before == before[..k];
        PartedJoins(before, one, id, k, |before + one|, n, f, end);
        k := |before + one|;
      } else {
        assert found[..Ending(front, n)] == front[..Ending(front, n)];
        EndsLater(front, f, offset, n);
        PartedJoins(before, one, id, k, k, n, f, end);
      }
    }
  }

  lemma LiveOne(c: Codec, id: nat, firstIndex: nat, f: Found)
    ensures var one := LiveEntries(c, id, firstIndex, [f]);
            |one| <= 1 && (one != [] ==> one[0].at.segment == id && one[0].at.offset == f.offset && one[0].at.length == f.total)
  {
    assert LiveEntries(c, id, firstIndex, [f][..0]) == [];
  }

  /** If not all records before it end by byte `n`, neither does the last one. */
  lemma EndsLater(front: seq<Found>, f: Found, offset: nat, n: nat)
    requires Chained(front, offset, f.offset)
    ensures Ending(front, n) < |front| ==> f.offset > n
  {
    ChainedLast(front, offset, f.offset);
  }

  /** A cut where a record starts keeps those before it. */
  lemma {:induction false} EndsThere(found: seq<Found>, offset: nat, end: nat, m: nat)
    requires Chained(found, offset, end) && m < |found|
    ensures Ending(found, found[m].offset) == m && EndOf(found, m, offset) == found[m].offset >= offset
    decreases |found|
  {
    hide Ending;
    EndingFirst(found[0], found[1..], found[m].offset);
    assert found == [found[0]] + found[1..];
    if m > 0 {
      EndsThere(found[1..], offset + found[0].total, end, m - 1);
      assert found[m] == found[1..][m - 1];
    }
  }

  /** A live entry is one of the records found, and those live before it are among the records before it. */
  lemma {:induction false} LiveIsFound(c: Codec, id: nat, firstIndex: nat, found: seq<Found>, j: nat) returns (m: nat)
    requires j < |LiveEntries(c, id, firstIndex, found)|
    ensures var lives := LiveEntries(c, id, firstIndex, found);
            && m < |found| && lives[j].at.segment == id && lives[j].at.offset == found[m].offset && lives[j].at.length == found[m].total
            && LiveEntries(c, id, firstIndex, found[..m]) == lives[..j]
    decreases |found|
  {
    hide LiveEntries;
    if found == [] {
      NothingLive(c, id, firstIndex, 0);
    } else {
      var n := |found| - 1;
      var front, f := found[..n], found[n];
      assert found == front + [f];
      LiveConcat(c, id, firstIndex, front, [f]);
      LiveOne(c, id, firstIndex, f);
      var before := LiveEntries(c, id, firstIndex, front);
      if j < |before| {
        m := LiveIsFound(c, id, firstIndex, front, j);
        assert front[..m] == found[..m];
        assert (before + LiveEntries(c, id, firstIndex, [f]))[..j] == before[..j];
      } else {
        m := n;
        assert (before + LiveEntries(c, id, firstIndex, [f]))[..j] == before;
      }
    }
  }

  /** Cutting a segment at a live entry keeps the live entries before it, and the segment clean. */
  lemma CutAtLive(c: Codec, firstIndex: nat, id: nat, bytes: seq<Byte>, j: nat)
    requires SEGMENT_HEADER <= |bytes| && j < |LivesIn(c, firstIndex, id, bytes)|
    ensures var lives := LivesIn(c, firstIndex, id, bytes);
            var at := lives[j].at.offset;
            && SEGMENT_HEADER <= at <= |bytes| && Clean(c.crc, bytes[..at]) && LivesIn(c, firstIndex, id, bytes[..at]) == lives[..j]
  {
    hide Scan, LiveEntries;
    var s := Scan(c.crc, bytes, SEGMENT_HEADER);
    ScanChains(c.crc, bytes, SEGMENT_HEADER);
    var m := LiveIsFound(c, id, firstIndex, s.found, j);
    EndsThere(s.found, SEGMENT_HEADER, s.end, m);
    ChainedLast(s.found, SEGMENT_HEADER, s.end);
    ScanCut(c.crc, bytes, SEGMENT_HEADER, s.found[m].offset);
  }

  lemma LiveSegment(c: Codec, firstIndex: nat, id: nat, bytes: seq<Byte>, j: nat)
    requires SEGMENT_HEADER <= |bytes| && j < |LivesIn(c, firstIndex, id, bytes)|
    ensures LivesIn(c, firstIndex, id, bytes)[j].at.segment == id
  {
    hide Scan, LiveEntries;
    var m := LiveIsFound(c, id, firstIndex, Scan(c.crc, bytes, SEGMENT_HEADER).found, j);
  }

  /** Each live entry is among those of the segment it names. */
  lemma {:induction false} LiveSplits(c: Codec, firstIndex: nat, segs: Segments, top: nat, k: nat)
    requires Headed(segs) && k < |AllLive(c, firstIndex, segs, top)|
    ensures var lives := AllLive(c, firstIndex, segs, top);
            var s := lives[k].at.segment;
            && 0 < s <= top && s in segs && AllLive(c, firstIndex, segs, s) <= lives
            && |AllLive(c, firstIndex, segs, s - 1)| <= k < |AllLive(c, firstIndex, segs, s)|
  {
    hide LivesIn;
    var before := AllLive(c, firstIndex, segs, top - 1);
    if k < |before| {
      LiveSplits(c, firstIndex, segs, top - 1, k);
    } else {
      LiveSegment(c, firstIndex, top, segs[top].bytes, k - |before|);
    }
  }

  /** The files once everything from an indexed entry on has been cut away. */
  function CutFiles(f: Files, at: IndexEntry): Files
    requires at.segment in f.segments && at.offset <= |f.segments[at.segment].bytes|
  {
    var cut := f.segments[at.segment := Segment(f.segments[at.segment].firstIndex, f.segments[at.segment].bytes[..at.offset])];
    Files(cut - (set i | i in cut && i > at.segment), at.segment)
  }

  lemma FaithfulCut(c: Codec, firstIndex: nat, f: Files, ies: seq<IndexEntry>, es: seq<Entry>, k: nat)
    requires Faithful(c, firstIndex, f, ies, es) && k < |ies|
    ensures ies[k].segment in f.segments && ies[k].offset <= |f.segments[ies[k].segment].bytes|
    ensures Faithful(c, firstIndex, CutFiles(f, ies[k]), ies[..k], es[..k])
  {
    hide Clean, LivesIn, AllLive;
    CleanHeaded(c, f);
    var lives := AllLive(c, firstIndex, f.segments, f.current);
    LiveSplits(c, firstIndex, f.segments, f.current, k);
    assert lives[k].at == ies[k];
    var s := ies[k].segment;
    LiveLast(c, firstIndex, f.segments, s);
    var j := k - |AllLive(c, firstIndex, f.segments, s - 1)|;
    CutAtLive(c, firstIndex, s, f.segments[s].bytes, j);
    var g := CutFiles(f, ies[k]);
    CleanHeaded(c, g);
    AllLiveSame(c, firstIndex, f.segments, g.segments, s - 1);
    LiveLast(c, firstIndex, g.segments, s);
    assert AllLive(c, firstIndex, g.segments, s) == lives[..k];
    assert Zip(es, ies)[..k] == Zip(es[..k], ies[..k]);
  }

  lemma LiveLast(c: Codec, firstIndex: nat, segs: Segments, top: nat)
    requires Headed(segs) && top > 0 && top in segs
    ensures AllLive(c, firstIndex, segs, top) == AllLive(c, firstIndex, segs, top - 1) + LivesIn(c, firstIndex, top, segs[top].bytes)
  {
  }

  // ---------------------------------------------------------------- opening

  /** The segments that recovery replays for the ids up to `id`: the one found for the label of each. */
  function Visits(segs: Segments, top: nat, id: nat): seq<nat> {
    if id == 0 then []
    else
      var before := Visits(segs, top, id - 1);
      if id in segs && SegmentFor(segs, top, segs[id].firstIndex).Some?
      then before + [SegmentFor(segs, top, segs[id].firstIndex).value] else before
  }

  lemma {:induction false} VisitsExist(segs: Segments, top: nat, id: nat)
    ensures forall i | 0 <= i < |Visits(segs, top, id)| :: Visits(segs, top, id)[i] in segs
  {
    if id > 0 {
      VisitsExist(segs, top, id - 1);
      if id in segs {
        SegmentFromExists(segs, 1, top, segs[id].firstIndex, None);
      }
    }
  }

  /** The live entries of segments in this order. */
  function LivesOver(c: Codec, firstIndex: nat, segs: Segments, order: seq<nat>): seq<Live>
    requires Headed(segs) && forall i | 0 <= i < |order| :: order[i] in segs
  {
    if order == [] then []
    else LivesOver(c, firstIndex, segs, order[..|order| - 1]) + LivesIn(c, firstIndex, order[|order| - 1], segs[order[|order| - 1]].bytes)
  }

  /** What recovery reads for the ids up to `id`. */
  function Recovered(c: Codec, firstIndex: nat, segs: Segments, top: nat, id: nat): seq<Live>
    requires Headed(segs)
  {
    VisitsExist(segs, top, id);
    LivesOver(c, firstIndex, segs, Visits(segs, top, id))
  }

  lemma RecoveredNext(c: Codec, firstIndex: nat, segs: Segments, top: nat, id: nat)
    requires Headed(segs) && id > 0
    ensures var s := if id in segs then SegmentFor(segs, top, segs[id].firstIndex) else None;
            && (s.Some? ==> s.value in segs)
            && Recovered(c, firstIndex, segs, top, id) ==
                 Recovered(c, firstIndex, segs, top, id - 1) + if s.Some? then LivesIn(c, firstIndex, s.value, segs[s.value].bytes) else []
  {
    hide LivesIn;
    VisitsExist(segs, top, id);
    VisitsExist(segs, top, id - 1);
    var before := Visits(segs, top, id - 1);
    if id in segs && SegmentFor(segs, top, segs[id].firstIndex).Some? {
      SegmentFromExists(segs, 1, top, segs[id].firstIndex, None);
      var s := SegmentFor(segs, top, segs[id].firstIndex).value;
      assert (before + [s])[..|before|] == before;
    } else {
      assert LivesOver(c, firstIndex, segs, before) + [] == LivesOver(c, firstIndex, segs, before);
    }
  }

  lemma VisitsNext(segs: Segments, top: nat, id: nat)
    requires id > 0
    ensures var s := if id in segs then SegmentFor(segs, top, segs[id].firstIndex) else None;
            Visits(segs, top, id) == Visits(segs, top, id - 1) + if s.Some? then [s.value] else []
  {
  }

  /** What is read later comes after what is read before. */
  lemma {:induction false} RecoveredGrows(c: Codec, firstIndex: nat, segs: Segments, top: nat, id: nat, last: nat)
    requires Headed(segs) && id <= last
    ensures Recovered(c, firstIndex, segs, top, id) <= Recovered(c, firstIndex, segs, top, last)
    decreases last
  {
    hide Recovered, LivesIn;
    if id < last {
      RecoveredNext(c, firstIndex, segs, top, last);
      RecoveredGrows(c, firstIndex, segs, top, id, last - 1);
    }
  }

  /** If the labels rise, recovery reads every segment once and in order. */
  lemma {:induction false} RisingRecovered(c: Codec, firstIndex: nat, segs: Segments, top: nat, id: nat)
    requires Headed(segs) && Rising(segs) && (forall i | i in segs :: 0 < i <= top)
    ensures Recovered(c, firstIndex, segs, top, id) == AllLive(c, firstIndex, segs, id)
    decreases id
  {
    hide LivesIn, SegmentFor;
    if id > 0 {
      RisingRecovered(c, firstIndex, segs, top, id - 1);
      RecoveredNext(c, firstIndex, segs, top, id);
      FoundByOwnLabel(segs, top);
    }
  }

  /** A segment cut where its scan ends. */
  function Settled(crc: Checksum, s: Segment): Segment
    requires SEGMENT_HEADER <= |s.bytes|
  {
    ScanChains(crc, s.bytes, SEGMENT_HEADER);
    Segment(s.firstIndex, s.bytes[..Scan(crc, s.bytes, SEGMENT_HEADER).end])
  }

  /** It is clean, and has the same records. */
  lemma SettledSame(c: Codec, firstIndex: nat, id: nat, s: Segment)
    requires SEGMENT_HEADER <= |s.bytes|
    ensures var t := Settled(c.crc, s);
            && Clean(c.crc, t.bytes) && LivesIn(c, firstIndex, id, t.bytes) == LivesIn(c, firstIndex, id, s.bytes) && Settled(c.crc, t) == t
            && t.firstIndex == s.firstIndex && t.bytes <= s.bytes && (Clean(c.crc, s.bytes) ==> t == s)
  {
    hide Scan, LiveEntries;
    ScanChains(c.crc, s.bytes, SEGMENT_HEADER);
    var scan := Scan(c.crc, s.bytes, SEGMENT_HEADER);
    ScanCut(c.crc, s.bytes, SEGMENT_HEADER, scan.end);
    AllEnding(scan.found, SEGMENT_HEADER, scan.end);
    assert s.bytes[..|s.bytes|] == s.bytes;
    var t := s.bytes[..scan.end];
    assert t[..|t|] == t;
  }

  lemma {:induction false} AllEnding(found: seq<Found>, offset: nat, end: nat)
    requires Chained(found, offset, end)
    ensures Ending(found, end) == |found| && found[..|found|] == found && EndOf(found, |found|, offset) == end
  {
    ChainedLast(found, offset, end);
    assert found[..|found|] == found;
  }

  // ---------------------------------------------------------------- the write buffer

  datatype Pending = Pending(index: nat, term: nat, offset: nat, length: nat)

  /** Where a buffered record ends up when the buffer is written at `start`. */
  function Located(p: Pending, segment: nat, start: nat): IndexEntry {
    IndexEntry(segment, start + p.offset, p.length, p.term)
  }

  lemma LocatedIn(p: Pending, segment: nat, start: nat)
    ensures Located(p, segment, start).segment == segment
  {
  }

  /** The buffer is the records of these entries, one right after the other. */
  predicate Packed(c: Codec, buffer: seq<Byte>, pending: seq<Pending>, us: seq<Entry>)
    decreases |us|
  {
    if us == [] then buffer == [] && pending == []
    else
      var n, e := |us| - 1, us[|us| - 1];
      var size := |BytesOf(c, e)|;
      && size <= |buffer| && pending != []
      && buffer == buffer[..|buffer| - size] + BytesOf(c, e)
      && pending == pending[..|pending| - 1] + [Pending(e.index, e.term, |buffer| - size, size)]
      && Packed(c, buffer[..|buffer| - size], pending[..|pending| - 1], us[..n])
  }

  lemma PackedNothing(c: Codec)
    ensures Packed(c, [], [], [])
  {
  }

  lemma PackedPushed(c: Codec, buffer: seq<Byte>, pending: seq<Pending>, us: seq<Entry>, e: Entry)
    requires Packed(c, buffer, pending, us)
    ensures Packed(c, buffer + BytesOf(c, e), pending + [Pending(e.index, e.term, |buffer|, |BytesOf(c, e)|)], us + [e])
  {
    hide BytesOf;
    var more, pend, all := buffer + BytesOf(c, e), pending + [Pending(e.index, e.term, |buffer|, |BytesOf(c, e)|)], us + [e];
    assert more[..|buffer|] == buffer && pend[..|pending|] == pending && all[..|us|] == us;
  }

  /** Where the records of a buffer end up. */
  function LocatedAll(pending: seq<Pending>, segment: nat, start: nat): (ies: seq<IndexEntry>)
    ensures |ies| == |pending|
  {
    seq(|pending|, k requires 0 <= k < |pending| => Located(pending[k], segment, start))
  }

  /** Writing the buffer and indexing its entries. */
  lemma {:induction false} FaithfulFlushed(c: Codec, firstIndex: nat, f: Files, ies: seq<IndexEntry>, es: seq<Entry>,
                                           buffer: seq<Byte>, pending: seq<Pending>, us: seq<Entry>)
    requires Faithful(c, firstIndex, f, ies, es) && f.current in f.segments && Packed(c, buffer, pending, us)
    requires forall k | 0 <= k < |us| :: Legible(c, us[k]) && us[k].index >= firstIndex
    ensures Faithful(c, firstIndex, f.Extended(buffer), ies + LocatedAll(pending, f.current, f.Size()), es + us)
    decreases |us|
  {
    hide Faithful, BytesOf, Legible, LocatedAll, Files.Extended, Located, Packed;
    PackedLast(c, buffer, pending, us);
    if us == [] {
      ExtendedNothing(f);
      assert LocatedAll(pending, f.current, f.Size()) == [];
      assert ies + [] == ies && es + us == es;
    } else {
      var n := |us| - 1;
      var e := us[n];
      var front, pend := buffer[..|buffer| - |BytesOf(c, e)|], pending[..|pending| - 1];
      FaithfulFlushed(c, firstIndex, f, ies, es, front, pend, us[..n]);
      ExtendedTwice(f, front, BytesOf(c, e));
      var g := f.Extended(front);
      FaithfulEntry(c, firstIndex, g, ies + LocatedAll(pend, f.current, f.Size()), es + us[..n], e);
      LocatedJoins(ies, pend, pending[|pending| - 1], f.current, f.Size());
      assert es + us[..n] + [e] == es + us;
    }
  }

  lemma PackedLast(c: Codec, buffer: seq<Byte>, pending: seq<Pending>, us: seq<Entry>)
    requires Packed(c, buffer, pending, us)
    ensures us == [] ==> buffer == [] && pending == []
    ensures us != [] ==>
              var e := us[|us| - 1];
              var size := |BytesOf(c, e)|;
              && size <= |buffer| && pending != [] && buffer == buffer[..|buffer| - size] + BytesOf(c, e)
              && pending == pending[..|pending| - 1] + [Pending(e.index, e.term, |buffer| - size, size)]
              && Packed(c, buffer[..|buffer| - size], pending[..|pending| - 1], us[..|us| - 1])
  {
  }

  lemma ExtendedNothing(f: Files)
    requires f.current in f.segments
    ensures f.Extended([]) == f
  {
    assert f.segments[f.current].bytes + [] == f.segments[f.current].bytes;
  }

  lemma ExtendedTwice(f: Files, a: seq<Byte>, b: seq<Byte>)
    requires f.current in f.segments
    ensures var g := f.Extended(a);
            && g.current == f.current && g.current in g.segments && g.Size() == f.Size() + |a| && g.Extended(b) == f.Extended(a + b)
  {
    assert f.segments[f.current].bytes + a + b == f.segments[f.current].bytes + (a + b);
  }

  lemma LocatedJoins(ies: seq<IndexEntry>, pend: seq<Pending>, p: Pending, segment: nat, start: nat)
    ensures ies + LocatedAll(pend, segment, start) + [IndexEntry(segment, start + p.offset, p.length, p.term)]
              == ies + LocatedAll(pend + [p], segment, start)
  {
  }
}
