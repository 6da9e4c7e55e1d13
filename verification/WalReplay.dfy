/** What replay finds in the bytes of a segment, and what a crash can do to them. */
module WalReplay {
  import opened Record

  /** The segment header before the first record. */
  const SEGMENT_HEADER: nat := 32

  datatype Found = Found(offset: nat, total: nat, rec: Rec)

  /** The records found, and where the segment ends after them. */
  datatype Scanned = Scanned(found: seq<Found>, end: nat)

  /** Replay accepts a record at an offset. */
  predicate RecordAt(crc: Checksum, bytes: seq<Byte>, offset: nat) {
    && offset + HEADER <= |bytes|
    && var h := Deserialize(bytes[offset..offset + HEADER]);
       && !(h.length == 0 && h.kind == 0)
       && offset + h.TotalSize() <= |bytes| && Parses(crc, bytes[offset..offset + h.TotalSize()])
  }

  /** The 32-bit total cannot wrap in an accepted record, so replay always moves on. */
  lemma RecordProgress(crc: Checksum, bytes: seq<Byte>, offset: nat)
    requires RecordAt(crc, bytes, offset)
    ensures var h := Deserialize(bytes[offset..offset + HEADER]);
            HEADER <= h.TotalSize() == HEADER + h.length + h.padding
    ensures var h, data := Deserialize(bytes[offset..offset + HEADER]), bytes[offset..];
            Deserialize(bytes[offset..offset + h.TotalSize()]) == h
  {
    var h := Deserialize(bytes[offset..offset + HEADER]);
    SameHeader(bytes[offset..offset + h.TotalSize()], bytes[offset..offset + HEADER]);
  }

  /** A header depends on the first 16 bytes only. */
  lemma SameHeader(a: seq<Byte>, b: seq<Byte>)
    requires |a| >= HEADER && |b| >= HEADER && a[..HEADER] == b[..HEADER]
    ensures Deserialize(a) == Deserialize(b)
  {
    assert forall i | 0 <= i < HEADER :: a[i] == a[..HEADER][i] == b[..HEADER][i] == b[i];
    assert a[..4] == b[..4] && a[8..12] == b[8..12] && a[12..16] == b[12..16];
  }

  /** The record at an offset. */
  function FoundAt(crc: Checksum, bytes: seq<Byte>, offset: nat): (f: Found)
    requires RecordAt(crc, bytes, offset)
    ensures f.offset == offset && f.total >= HEADER && offset + f.total <= |bytes|
  {
    RecordProgress(crc, bytes, offset);
    var total := Deserialize(bytes[offset..offset + HEADER]).TotalSize();
    Found(offset, total, ParsedRec(bytes[offset..offset + total]))
  }

  /** One record after the other, up to the first that replay does not accept. */
  function Scan(crc: Checksum, bytes: seq<Byte>, offset: nat): Scanned
    requires offset <= |bytes|
    decreases |bytes| - offset
  {
    if !RecordAt(crc, bytes, offset) then Scanned([], offset)
    else
      var f := FoundAt(crc, bytes, offset);
      var rest := Scan(crc, bytes, offset + f.total);
      Scanned([f] + rest.found, rest.end)
  }

  /** A record depends on its own bytes only. */
  lemma SameRecord(crc: Checksum, a: seq<Byte>, b: seq<Byte>, offset: nat)
    requires RecordAt(crc, a, offset)
    requires var n := offset + FoundAt(crc, a, offset).total; n <= |b| && a[offset..n] == b[offset..n]
    ensures RecordAt(crc, b, offset) && FoundAt(crc, b, offset) == FoundAt(crc, a, offset)
  {
    hide Deserialize, Parses, ParsedRec;
    RecordProgress(crc, a, offset);
    var n := offset + FoundAt(crc, a, offset).total;
    assert a[offset..n][..HEADER] == a[offset..offset + HEADER];
    assert b[offset..n][..HEADER] == b[offset..offset + HEADER];
  }

  /** Records lie one right after the other, from the offset of the scan to its end. */
  predicate Chained(found: seq<Found>, offset: nat, end: nat) {
    if found == [] then offset == end
    else found[0].offset == offset && found[0].total >= HEADER && Chained(found[1..], offset + found[0].total, end)
  }

  lemma {:induction false} ScanChains(crc: Checksum, bytes: seq<Byte>, offset: nat)
    requires offset <= |bytes|
    ensures var s := Scan(crc, bytes, offset); Chained(s.found, offset, s.end) && offset <= s.end <= |bytes|
    decreases |bytes| - offset
  {
    hide RecordAt, FoundAt;
    if RecordAt(crc, bytes, offset) {
      var n := offset + FoundAt(crc, bytes, offset).total;
      ScanChains(crc, bytes, n);
      assert Scan(crc, bytes, offset).found[1..] == Scan(crc, bytes, n).found;
    }
  }

  /** What is written after the end of a scan is scanned after it. */
  lemma {:induction false} ScanExtends(crc: Checksum, bytes: seq<Byte>, offset: nat, more: seq<Byte>)
    requires offset <= |bytes| && Scan(crc, bytes, offset).end == |bytes|
    ensures var rest := Scan(crc, bytes + more, |bytes|);
            Scan(crc, bytes + more, offset) == Scanned(Scan(crc, bytes, offset).found + rest.found, rest.end)
    decreases |bytes| - offset
  {
    hide RecordAt, FoundAt, Scan;
    ScanOne(crc, bytes, offset);
    var rest := Scan(crc, bytes + more, |bytes|);
    if RecordAt(crc, bytes, offset) {
      var f := FoundAt(crc, bytes, offset);
      var n := offset + f.total;
      assert bytes[offset..n] == (bytes + more)[offset..n];
      SameRecord(crc, bytes, bytes + more, offset);
      ScanOne(crc, bytes + more, offset);
      ScanExtends(crc, bytes, n, more);
      assert [f] + (Scan(crc, bytes, n).found + rest.found) == ([f] + Scan(crc, bytes, n).found) + rest.found;
    } else {
      assert [] + rest.found == rest.found;
    }
  }

  lemma ScanOne(crc: Checksum, bytes: seq<Byte>, offset: nat)
    requires offset <= |bytes|
    ensures Scan(crc, bytes, offset) ==
              if !RecordAt(crc, bytes, offset) then Scanned([], offset)
              else
                var f := FoundAt(crc, bytes, offset);
                var rest := Scan(crc, bytes, offset + f.total);
                Scanned([f] + rest.found, rest.end)
  {
  }

  /** How many records, one right after the other, end by byte `n`. */
  function Ending(found: seq<Found>, n: nat): (k: nat)
    ensures k <= |found|
    ensures forall i | 0 <= i < k :: found[i].offset + found[i].total <= n
    ensures k < |found| ==> found[k].offset + found[k].total > n
  {
    if found == [] || found[0].offset + found[0].total > n then 0
    else
      assert forall i | 0 < i < |found| :: found[i] == found[1..][i - 1];
      1 + Ending(found[1..], n)
  }

  /** Where the first `k` of the records end. */
  function EndOf(found: seq<Found>, k: nat, offset: nat): nat
    requires k <= |found|
  {
    if k == 0 then offset else found[k - 1].offset + found[k - 1].total
  }

  lemma EndingFirst(f: Found, rest: seq<Found>, n: nat)
    ensures var found := [f] + rest;
            && found[1..] == rest && Ending(found, n) == (if f.offset + f.total > n then 0 else 1 + Ending(rest, n))
            && (f.offset + f.total <= n ==>
                  && found[..1 + Ending(rest, n)] == [f] + rest[..Ending(rest, n)]
                  && EndOf(found, 1 + Ending(rest, n), f.offset) == EndOf(rest, Ending(rest, n), f.offset + f.total))
  {
    assert ([f] + rest)[1..] == rest;
  }

  /** Scanning what a cut leaves finds the records that end before the cut, and ends after the last of them. */
  lemma {:induction false} ScanCut(crc: Checksum, bytes: seq<Byte>, offset: nat, n: nat)
    requires offset <= n <= |bytes|
    ensures var s := Scan(crc, bytes, offset);
            var k := Ending(s.found, n);
            Scan(crc, bytes[..n], offset) == Scanned(s.found[..k], EndOf(s.found, k, offset))
    decreases |bytes| - offset
  {
    hide RecordAt, FoundAt, Ending, EndOf;
    if RecordAt(crc, bytes, offset) {
      var f := FoundAt(crc, bytes, offset);
      EndingFirst(f, Scan(crc, bytes, offset + f.total).found, n);
      if offset + f.total <= n {
        assert bytes[offset..offset + f.total] == bytes[..n][offset..offset + f.total];
        SameRecord(crc, bytes, bytes[..n], offset);
        ScanCut(crc, bytes, offset + f.total, n);
      } else {
        CutRefused(crc, bytes, offset, n);
        NoneEnding([f] + Scan(crc, bytes, offset + f.total).found, n, offset);
      }
    } else {
      NoneEnding([], n, offset);
      if RecordAt(crc, bytes[..n], offset) {
        var m := offset + FoundAt(crc, bytes[..n], offset).total;
        assert bytes[..n][offset..m] == bytes[offset..m];
        SameRecord(crc, bytes[..n], bytes, offset);
      }
    }
  }

  lemma NoneEnding(found: seq<Found>, n: nat, offset: nat)
    requires found == [] || found[0].offset + found[0].total > n
    ensures Ending(found, n) == 0 && found[..0] == [] && EndOf(found, 0, offset) == offset
  {
  }

  lemma CutRefused(crc: Checksum, bytes: seq<Byte>, offset: nat, n: nat)
    requires RecordAt(crc, bytes, offset) && offset <= n <= |bytes| && n < offset + FoundAt(crc, bytes, offset).total
    ensures !RecordAt(crc, bytes[..n], offset)
  {
    hide Parses, Deserialize, ParsedRec;
    if offset + HEADER <= n {
      assert bytes[..n][offset..offset + HEADER] == bytes[offset..offset + HEADER];
    }
  }

  // ---------------------------------------------------------------- what was written

  function Concat(crc: Checksum, recs: seq<Rec>): seq<Byte> {
    if recs == [] then [] else Built(crc, recs[0]) + Concat(crc, recs[1..])
  }

  /** The records as replay should find them from an offset on. */
  function Placed(crc: Checksum, recs: seq<Rec>, offset: nat): seq<Found> {
    if recs == [] then []
    else
      var total := |Built(crc, recs[0])|;
      [Found(offset, total, recs[0])] + Placed(crc, recs[1..], offset + total)
  }

  predicate AllSound(recs: seq<Rec>) { forall i | 0 <= i < |recs| :: recs[i].Sound() }

  lemma BuiltAligned(crc: Checksum, r: Rec)
    requires r.Sound()
    ensures |Built(crc, r)| % 8 == 0
  {
    hide Built, Deserialize, ParsedRec, Parses, Padding;
    ParseBuilt(crc, r, []);
  }

  lemma SumAligned(a: nat, b: nat)
    requires a % 8 == 0 && b % 8 == 0
    ensures (a + b) % 8 == 0
  {
  }

  lemma {:induction false} Aligned(crc: Checksum, recs: seq<Rec>)
    requires AllSound(recs)
    ensures |Concat(crc, recs)| % 8 == 0
  {
    hide Built, Rec.Sound, Padding;
    if recs != [] {
      BuiltAligned(crc, recs[0]);
      Aligned(crc, recs[1..]);
      SumAligned(|Built(crc, recs[0])|, |Concat(crc, recs[1..])|);
    }
  }

  /** A built record is accepted wherever it stands. */
  lemma BuiltIsFound(crc: Checksum, pre: seq<Byte>, r: Rec, rest: seq<Byte>)
    requires r.Sound()
    ensures var bytes, n := pre + Built(crc, r) + rest, |Built(crc, r)|;
            RecordAt(crc, bytes, |pre|) && FoundAt(crc, bytes, |pre|) == Found(|pre|, n, r)
  {
    var b := Built(crc, r);
    var bytes := pre + b + rest;
    hide Built, Deserialize;
    ParseBuilt(crc, r, []);
    assert b + [] == b;
    assert bytes[|pre|..|pre| + |b|] == b && bytes[|pre|..|pre| + HEADER] == b[..HEADER];
    SameHeader(b, b[..HEADER]);
    assert Deserialize(b).kind == r.kind by { ParsedKind(b); }
  }

  lemma ParsedKind(data: seq<Byte>)
    requires |data| >= HEADER && |data| >= HEADER + Deserialize(data).length
    ensures Deserialize(data).kind == ParsedRec(data).kind
  {
  }

  /** Replay finds all the records if nothing after them looks like one. */
  lemma {:induction false} ScanFindsAll(crc: Checksum, pre: seq<Byte>, recs: seq<Rec>, tail: seq<Byte>)
    requires AllSound(recs)
    requires !RecordAt(crc, pre + Concat(crc, recs) + tail, |pre + Concat(crc, recs)|)
    ensures Scan(crc, pre + Concat(crc, recs) + tail, |pre|) == Scanned(Placed(crc, recs, |pre|), |pre| + |Concat(crc, recs)|)
    decreases |recs|
  {
    hide RecordAt, FoundAt, Built;
    var bytes := pre + Concat(crc, recs) + tail;
    if recs == [] {
      assert pre + Concat(crc, recs) == pre;
    } else {
      var b, rest := Built(crc, recs[0]), Concat(crc, recs[1..]);
      assert bytes == pre + b + (rest + tail) == (pre + b) + rest + tail;
      BuiltIsFound(crc, pre, recs[0], rest + tail);
      ScanFindsAll(crc, pre + b, recs[1..], tail);
    }
  }

  // ---------------------------------------------------------------- crashes

  /** How many records lie wholly within the first `m` bytes. */
  function Whole(crc: Checksum, recs: seq<Rec>, m: nat): (k: nat)
    ensures k <= |recs|
  {
    if recs == [] || |Built(crc, recs[0])| > m then 0 else 1 + Whole(crc, recs[1..], m - |Built(crc, recs[0])|)
  }

  lemma {:induction false} WholeIsLargest(crc: Checksum, recs: seq<Rec>, m: nat)
    ensures var k := Whole(crc, recs, m);
            && |Concat(crc, recs[..k])| <= m
            && (k < |recs| ==> |Concat(crc, recs[..k + 1])| > m)
    decreases |recs|
  {
    hide Built;
    var k := Whole(crc, recs, m);
    if recs != [] && |Built(crc, recs[0])| <= m {
      WholeIsLargest(crc, recs[1..], m - |Built(crc, recs[0])|);
      assert recs[..k][0] == recs[0] && recs[..k][1..] == recs[1..][..k - 1];
      if k < |recs| {
        assert recs[..k + 1][0] == recs[0] && recs[..k + 1][1..] == recs[1..][..k];
      }
    } else if recs != [] {
      assert recs[..1][0] == recs[0] && recs[..1][1..] == [];
    }
  }

  /** A cut leaves the whole records and a proper beginning of the next one. */
  lemma {:induction false} CutSplits(crc: Checksum, recs: seq<Rec>, m: nat) returns (tail: seq<Byte>)
    requires m <= |Concat(crc, recs)|
    ensures var k := Whole(crc, recs, m);
            && Concat(crc, recs)[..m] == Concat(crc, recs[..k]) + tail
            && (k == |recs| ==> tail == []) && (k < |recs| ==> tail < Built(crc, recs[k]))
    decreases |recs|
  {
    hide Built;
    var k := Whole(crc, recs, m);
    if recs == [] {
      tail := [];
    } else {
      var b := Built(crc, recs[0]);
      if |b| > m {
        tail := b[..m];
        assert recs[..k] == [];
      } else {
        tail := CutSplits(crc, recs[1..], m - |b|);
        CutOne(crc, recs, m, k, tail);
      }
    }
  }

  lemma CutOne(crc: Checksum, recs: seq<Rec>, m: nat, k: nat, tail: seq<Byte>)
    requires 0 < k <= |recs| && |Built(crc, recs[0])| <= m <= |Concat(crc, recs)|
    requires Concat(crc, recs[1..])[..m - |Built(crc, recs[0])|] == Concat(crc, recs[1..][..k - 1]) + tail
    ensures Concat(crc, recs)[..m] == Concat(crc, recs[..k]) + tail
  {
    hide Built;
    var b := Built(crc, recs[0]);
    assert recs[..k][0] == recs[0] && recs[..k][1..] == recs[1..][..k - 1];
    assert (b + Concat(crc, recs[1..]))[..m] == b + Concat(crc, recs[1..])[..m - |b|];
  }

  /** A proper beginning of a record is not accepted. */
  lemma PartialRefused(crc: Checksum, pre: seq<Byte>, r: Rec, tail: seq<Byte>)
    requires r.Sound() && tail < Built(crc, r)
    ensures !RecordAt(crc, pre + tail, |pre|)
  {
    hide Parses;
    var b, bytes := Built(crc, r), pre + tail;
    if |tail| >= HEADER {
      ParseBuilt(crc, r, []);
      assert b + [] == b;
      assert bytes[|pre|..|pre| + HEADER] == tail[..HEADER] == b[..HEADER];
      SameHeader(b, b[..HEADER]);
    }
  }

  /** Neither are zeros. */
  lemma ZerosRefused(crc: Checksum, pre: seq<Byte>, n: nat)
    ensures !RecordAt(crc, pre + Zeros(n), |pre|)
  {
    if n >= HEADER {
      var h := (pre + Zeros(n))[|pre|..|pre| + HEADER];
      assert h == Zeros(HEADER);
    }
  }

  /**
    Crash replay, cut: whatever prefix of the written bytes survives, replay finds exactly the
    records wholly inside it, and the segment ends after the last of them, 8-byte aligned.
   */
  lemma CutReplay(crc: Checksum, pre: seq<Byte>, recs: seq<Rec>, n: nat)
    requires AllSound(recs) && |pre| == SEGMENT_HEADER && |pre| <= n <= |pre + Concat(crc, recs)|
    ensures var k := Whole(crc, recs, n - |pre|);
            && Scan(crc, (pre + Concat(crc, recs))[..n], |pre|)
                 == Scanned(Placed(crc, recs[..k], |pre|), |pre| + |Concat(crc, recs[..k])|)
            && (|pre| + |Concat(crc, recs[..k])|) % 8 == 0 && |pre| + |Concat(crc, recs[..k])| <= n
  {
    hide RecordAt, Built, Scan, Placed, Concat, Whole;
    var k := Whole(crc, recs, n - |pre|);
    var tail := CutSplits(crc, recs, n - |pre|);
    var kept := pre + Concat(crc, recs[..k]);
    assert (pre + Concat(crc, recs))[..n] == pre + Concat(crc, recs)[..n - |pre|] == kept + tail;
    if k < |recs| {
      PartialRefused(crc, kept, recs[k], tail);
    } else {
      NothingRefused(crc, kept + tail);
    }
    ScanFindsAll(crc, pre, recs[..k], tail);
    Aligned(crc, recs[..k]);
    WholeIsLargest(crc, recs, n - |pre|);
  }

  /**
    Bytes in the place of a record that keep its length and padding.  Anything else may differ:
    the stored checksum, the kind, the payload.
   */
  predicate Damaged(crc: Checksum, r: Rec, d: seq<Byte>) {
    |d| == |Built(crc, r)| && d[8..16] == Built(crc, r)[8..16]
  }

  /** The checksum of such bytes, and the one stored with them. */
  predicate ChecksumAgrees(crc: Checksum, r: Rec, d: seq<Byte>)
    requires Damaged(crc, r, d)
  {
    crc(d[4..16 + |r.payload|]) % U32 == Spelled(d[0], d[1], d[2], d[3])
  }

  /** Their header says what the record's did, but for kind and checksum. */
  lemma DamagedHeader(crc: Checksum, r: Rec, d: seq<Byte>)
    requires r.Fits() && Damaged(crc, r, d)
    ensures |d| >= HEADER + |r.payload|
    ensures var h := Deserialize(d);
            && h.length == |r.payload| && h.TotalSize() == |d| == HEADER + h.length + h.padding
            && h.kind == d[4] && h.crc == Spelled(d[0], d[1], d[2], d[3])
  {
    var b := Built(crc, r);
    Layout(crc, r);
    hide Built;
    assert d[8..12] == d[8..16][..4] == b[8..16][..4] == b[8..12];
    assert d[12..16] == d[8..16][4..] == b[8..16][4..] == b[12..16];
  }

  /** Replay accepts them exactly if the checksum agrees and they do not look like empty space. */
  lemma DamagedAccepted(crc: Checksum, pre: seq<Byte>, r: Rec, d: seq<Byte>, rest: seq<Byte>)
    requires r.Fits() && Damaged(crc, r, d)
    ensures RecordAt(crc, pre + d + rest, |pre|) <==> ChecksumAgrees(crc, r, d) && !(d[4] == 0 && r.payload == [])
  {
    DamagedHeader(crc, r, d);
    hide Built, Deserialize, Header.TotalSize, Spelled, Damaged;
    var n, bytes := |r.payload|, pre + d + rest;
    assert bytes[|pre|..|pre| + HEADER] == d[..HEADER] && bytes[|pre|..|pre| + |d|] == d;
    SameHeader(d, d[..HEADER]);
    assert d[4..16] + d[16..16 + n] == d[4..16 + n];
  }

  /**
    Crash replay, damage: if the bytes of one record no longer have the checksum stored with
    them, replay finds exactly the records before it and ends at its start, whatever follows.
   */
  lemma DamageReplay(crc: Checksum, pre: seq<Byte>, recs: seq<Rec>, k: nat, d: seq<Byte>, rest: seq<Byte>)
    requires AllSound(recs) && k < |recs| && Damaged(crc, recs[k], d) && !ChecksumAgrees(crc, recs[k], d)
    ensures Scan(crc, pre + Concat(crc, recs[..k]) + d + rest, |pre|)
              == Scanned(Placed(crc, recs[..k], |pre|), |pre| + |Concat(crc, recs[..k])|)
  {
    hide RecordAt, Scan, Placed, Concat, Damaged, ChecksumAgrees;
    var kept := pre + Concat(crc, recs[..k]);
    DamagedAccepted(crc, kept, recs[k], d, rest);
    assert kept + d + rest == kept + (d + rest);
    ScanFindsAll(crc, pre, recs[..k], d + rest);
  }

  lemma NothingRefused(crc: Checksum, bytes: seq<Byte>)
    ensures !RecordAt(crc, bytes, |bytes|)
  {
  }

  /** Crash replay, zero tail: preallocated space after the records changes nothing. */
  lemma ZeroTailReplay(crc: Checksum, pre: seq<Byte>, recs: seq<Rec>, zeros: nat)
    requires AllSound(recs) && |pre| == SEGMENT_HEADER
    ensures Scan(crc, pre + Concat(crc, recs) + Zeros(zeros), |pre|)
              == Scanned(Placed(crc, recs, |pre|), |pre| + |Concat(crc, recs)|)
    ensures (|pre| + |Concat(crc, recs)|) % 8 == 0
  {
    hide RecordAt, Scan, Placed, Concat, Zeros;
    ZerosRefused(crc, pre + Concat(crc, recs), zeros);
    ScanFindsAll(crc, pre, recs, Zeros(zeros));
    Aligned(crc, recs);
  }
}
