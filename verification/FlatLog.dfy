/**
  One flat log: a base index, the term at the base if it is known, and the entries after it.
  This is what the two-tier log is shown to be.
 */
module FlatLog {
  import opened Types

  datatype LogError = Compacted | Unavailable | SnapshotOutOfDate | Fatal

  datatype Flat = Flat(base: nat, baseTerm: Option<nat>, entries: seq<Entry>) {
    predicate Valid() { Follows(base, entries) }

    function First(): nat { base + 1 }

    function Last(): nat { base + |entries| }

    /** RaftLog::Term as the flat log answers it: 0 outside, an error where the term was dropped. */
    function Term(i: nat): Result<nat, LogError> {
      if i < base || i > Last() then Ok(0)
      else if i > base then Ok(entries[i - base - 1].term)
      else if baseTerm.Some? then Ok(baseTerm.value)
      else Err(Compacted)
    }

    predicate Match(i: nat, term: nat) { Term(i) == Ok(term) }

    /** Looks back from `index` to the first term that is not above `term`, or is not known. */
    function BackTo(index: nat, term: nat): (r: nat)
      ensures r <= index && (index > Last() ==> r == index)
      ensures forall i | r < i <= index :: Term(i).Ok? && Term(i).value > term
      ensures r == 0 || Term(r).Err? || Term(r).value <= term
    {
      if index > 0 && Term(index).Ok? && Term(index).value > term then BackTo(index - 1, term) else index
    }

    /** The entries with indices in [low, high). */
    function Range(low: nat, high: nat): seq<Entry>
      requires First() <= low <= high <= Last() + 1
    {
      entries[low - base - 1..high - base - 1]
    }

    /** Drops everything from the first new index on, then adds the new entries. */
    function Append(ents: seq<Entry>): Flat
      requires ents != [] && base < ents[0].index <= Last() + 1
    {
      Flat(base, baseTerm, entries[..ents[0].index - base - 1] + ents)
    }

    /** The index of the first entry whose term differs here; 0 if there is none. */
    function Conflict(ents: seq<Entry>): nat {
      if ents == [] then 0
      else if !Match(ents[0].index, ents[0].term) then ents[0].index
      else Conflict(ents[1..])
    }
  }

  /**
    An append message a leader may send: consecutive entries with real terms.  Past the end
    of this log it has a real term at `prev`, unless it is empty.
   */
  predicate WellFormed(flat: Flat, prev: nat, prevTerm: nat, ents: seq<Entry>) {
    && Follows(prev, ents) && (forall k | 0 <= k < |ents| :: ents[k].term > 0)
    && (prev > flat.Last() ==> prevTerm > 0 || ents == [])
  }

  lemma {:induction false} ConflictFound(flat: Flat, prev: nat, ents: seq<Entry>)
    requires Follows(prev, ents)
    ensures var c := flat.Conflict(ents);
            if c == 0 then forall k | 0 <= k < |ents| :: flat.Match(prev + 1 + k, ents[k].term)
            else && prev < c <= prev + |ents| && !flat.Match(c, ents[c - 1 - prev].term)
                 && forall k | 0 <= k < c - 1 - prev :: flat.Match(prev + 1 + k, ents[k].term)
    decreases |ents|
  {
    if ents != [] && flat.Match(ents[0].index, ents[0].term) {
      assert Follows(prev + 1, ents[1..]);
      ConflictFound(flat, prev + 1, ents[1..]);
      assert forall k | 0 < k < |ents| :: ents[k] == ents[1..][k - 1];
      var c := flat.Conflict(ents[1..]);
      assert c != 0 ==> ents[1..][c - 1 - (prev + 1)] == ents[c - 1 - prev];
    }
  }

  /** The conflict of a matching, well-formed message is inside the log or right after it. */
  lemma ConflictInRange(flat: Flat, prev: nat, prevTerm: nat, ents: seq<Entry>)
    requires WellFormed(flat, prev, prevTerm, ents) && flat.Match(prev, prevTerm)
    ensures flat.Conflict(ents) <= flat.Last() + 1
    ensures flat.Conflict(ents) == 0 ==> ents == [] || prev + |ents| <= flat.Last()
  {
    ConflictFound(flat, prev, ents);
    var c := flat.Conflict(ents);
    if c == 0 && ents != [] {
      assert flat.Match(prev + 1 + (|ents| - 1), ents[|ents| - 1].term);
    } else if c > prev + 1 {
      assert flat.Match(prev + 1 + (c - 2 - prev), ents[c - 2 - prev].term);
    }
  }

  /** The flat log once a matching append has replaced what conflicts with it. */
  function Spliced(flat: Flat, prev: nat, ents: seq<Entry>): Flat
    requires Follows(prev, ents) && (flat.Conflict(ents) == 0 || flat.base < flat.Conflict(ents) <= flat.Last() + 1)
  {
    ConflictFound(flat, prev, ents);
    var c := flat.Conflict(ents);
    if c == 0 then flat else flat.Append(ents[c - 1 - prev..])
  }

  /** The last index of a matching message is in the log once it has been applied. */
  lemma SplicedLast(flat: Flat, prev: nat, prevTerm: nat, ents: seq<Entry>)
    requires WellFormed(flat, prev, prevTerm, ents) && flat.Match(prev, prevTerm)
    requires flat.Conflict(ents) == 0 || flat.base < flat.Conflict(ents) <= flat.Last() + 1
    ensures ents == [] || prev + |ents| <= Spliced(flat, prev, ents).Last()
    ensures flat.Conflict(ents) != 0 ==> Spliced(flat, prev, ents).Last() == prev + |ents|
  {
    ConflictFound(flat, prev, ents);
    ConflictInRange(flat, prev, prevTerm, ents);
  }

  /** A message all of whose entries are already there changes nothing: no agreeing suffix is cut. */
  lemma {:induction false} NoCutWhenAgreeing(flat: Flat, prev: nat, ents: seq<Entry>)
    requires Follows(prev, ents) && forall k | 0 <= k < |ents| :: flat.Match(prev + 1 + k, ents[k].term)
    ensures flat.Conflict(ents) == 0 && Spliced(flat, prev, ents) == flat
    decreases |ents|
  {
    if ents != [] {
      assert flat.Match(prev + 1 + 0, ents[0].term);
      forall k | 0 <= k < |ents[1..]| ensures flat.Match(prev + 1 + 1 + k, ents[1..][k].term) {
        assert flat.Match(prev + 1 + (k + 1), ents[k + 1].term);
      }
      NoCutWhenAgreeing(flat, prev + 1, ents[1..]);
    }
  }

  lemma AppendBelow(flat: Flat, ents: seq<Entry>, i: nat)
    requires ents != [] && flat.base < ents[0].index <= flat.Last() + 1 && i < ents[0].index
    ensures flat.Append(ents).Term(i) == flat.Term(i)
  {
    var kept := flat.entries[..ents[0].index - flat.base - 1];
    if flat.base < i {
      assert (kept + ents)[i - flat.base - 1] == kept[i - flat.base - 1];
    }
  }

  lemma AppendAbove(flat: Flat, ents: seq<Entry>, k: nat)
    requires k < |ents| && flat.base < ents[0].index <= flat.Last() + 1
    ensures flat.Append(ents).Term(ents[0].index + k) == Ok(ents[k].term)
  {
    var kept := flat.entries[..ents[0].index - flat.base - 1];
    assert (kept + ents)[|kept| + k] == ents[k];
  }

  /** After the message has been applied every one of its entries is there. */
  lemma SplicedMatches(flat: Flat, prev: nat, ents: seq<Entry>, k: nat)
    requires Follows(prev, ents) && k < |ents|
    requires flat.base < flat.Conflict(ents) <= flat.Last() + 1
    ensures Spliced(flat, prev, ents).Match(prev + 1 + k, ents[k].term)
  {
    hide Flat.Conflict, Flat.Append, Flat.Term;
    ConflictFound(flat, prev, ents);
    var c := flat.Conflict(ents);
    var cut := ents[c - 1 - prev..];
    assert cut[0] == ents[c - 1 - prev];
    if k < c - 1 - prev {
      assert flat.Match(prev + 1 + k, ents[k].term);
      AppendBelow(flat, cut, prev + 1 + k);
    } else {
      AppendAbove(flat, cut, k - (c - 1 - prev));
      assert cut[k - (c - 1 - prev)] == ents[k];
    }
  }

  /** Redelivery is harmless: applying the same message again changes nothing. */
  lemma SpliceIdempotent(flat: Flat, prev: nat, ents: seq<Entry>)
    requires flat.Valid() && Follows(prev, ents)
    requires flat.Conflict(ents) == 0 || flat.base < flat.Conflict(ents) <= flat.Last() + 1
    ensures var s := Spliced(flat, prev, ents);
            s.Valid() && s.Conflict(ents) == 0 && Spliced(s, prev, ents) == s
  {
    hide Flat.Conflict, Flat.Term;
    ConflictFound(flat, prev, ents);
    if flat.Conflict(ents) != 0 {
      forall k | 0 <= k < |ents| ensures Spliced(flat, prev, ents).Match(prev + 1 + k, ents[k].term) {
        SplicedMatches(flat, prev, ents, k);
      }
      NoCutWhenAgreeing(Spliced(flat, prev, ents), prev, ents);
    }
  }

  /** Everything below the conflict, in particular everything committed, is untouched. */
  lemma SpliceKeeps(flat: Flat, prev: nat, ents: seq<Entry>, i: nat)
    requires Follows(prev, ents) && (flat.Conflict(ents) == 0 || flat.base <= i < flat.Conflict(ents) <= flat.Last() + 1)
    requires flat.base <= i <= flat.Last()
    ensures var s := Spliced(flat, prev, ents);
            s.base == flat.base && s.baseTerm == flat.baseTerm && i <= s.Last() && s.entries[..i - s.base] == flat.entries[..i - s.base]
  {
    ConflictFound(flat, prev, ents);
  }

  /** A range cut anywhere is two ranges. */
  lemma RangeSplits(flat: Flat, low: nat, at: nat, high: nat)
    requires flat.First() <= low <= at <= high <= flat.Last() + 1
    ensures flat.Range(low, high) == flat.Range(low, at) + flat.Range(at, high)
    ensures |flat.Range(low, at)| == at - low && |flat.Range(at, high)| == high - at
  {
  }

  lemma RangeIndices(flat: Flat, low: nat, high: nat, page: seq<Entry>)
    requires flat.Valid() && flat.First() <= low <= high <= flat.Last() + 1 && page <= flat.Range(low, high)
    ensures forall k | 0 <= k < |page| :: page[k].index == low + k < high
  {
  }

  // ---------------------------------------------------------------- size limits

  /** How many entries fit into `budget` bytes. */
  function Fitting(size: Entry -> nat, ents: seq<Entry>, budget: int): (n: nat)
    ensures n <= |ents|
  {
    if ents == [] || size(ents[0]) > budget then 0
    else 1 + Fitting(size, ents[1..], budget - size(ents[0]))
  }

  predicate Unlimited(max: Option<nat>) { max.None? || max.value == MAX_U64 }

  /** How many entries a page keeps: at least one, and then as many as the limit allows. */
  function Kept(size: Entry -> nat, ents: seq<Entry>, max: Option<nat>): (n: nat)
    ensures n <= |ents|
    ensures ents != [] ==> n >= 1
  {
    if |ents| <= 1 || Unlimited(max) then |ents|
    else 1 + Fitting(size, ents[1..], max.value as int - size(ents[0]))
  }

  /** The page of a range of entries. */
  function Limited(size: Entry -> nat, ents: seq<Entry>, max: Option<nat>): (page: seq<Entry>)
    ensures page <= ents
    ensures ents != [] ==> page != []
  {
    ents[..Kept(size, ents, max)]
  }

  /** The page of what comes after `since`, up to `high`. */
  function NextPage(flat: Flat, size: Entry -> nat, since: nat, high: nat, max: Option<nat>): (page: seq<Entry>)
    requires high <= flat.Last()
    ensures var last := Max(since, flat.base);
            && (page == [] <==> high <= last)
            && (last < high ==> page == Limited(size, flat.Range(last + 1, high + 1), max))
  {
    var from := Max(since + 1, flat.First());
    if from <= high then Limited(size, flat.Range(from, high + 1), max) else []
  }

  lemma {:induction false} FittingStops(size: Entry -> nat, a: seq<Entry>, b: seq<Entry>, budget: int)
    ensures Fitting(size, a, budget) < |a| ==> Fitting(size, a + b, budget) == Fitting(size, a, budget)
    ensures Fitting(size, a + b, budget) >= Fitting(size, a, budget)
    decreases |a|
  {
    if a != [] && size(a[0]) <= budget {
      assert (a + b)[1..] == a[1..] + b;
      FittingStops(size, a[1..], b, budget - size(a[0]));
    }
  }

  /** A page that ends inside the first part is the page of the whole. */
  lemma LimitedStops(size: Entry -> nat, a: seq<Entry>, b: seq<Entry>, max: Option<nat>)
    requires |Limited(size, a, max)| < |a|
    ensures Limited(size, a + b, max) == Limited(size, a, max)
  {
    assert (a + b)[1..] == a[1..] + b;
    FittingStops(size, a[1..], b, max.value as int - size(a[0]));
  }

  /** The bytes of a list of entries. */
  function TotalSize(size: Entry -> nat, ents: seq<Entry>): nat {
    if ents == [] then 0 else size(ents[0]) + TotalSize(size, ents[1..])
  }

  /** A page holds what fits and could not hold one entry more. */
  lemma {:induction false} FittingIsGreedy(size: Entry -> nat, ents: seq<Entry>, budget: int, k: nat)
    requires budget >= 0 && k <= |ents|
    ensures k <= Fitting(size, ents, budget) <==> TotalSize(size, ents[..k]) <= budget
    decreases |ents|
  {
    if k > 0 {
      assert ents[..k][1..] == ents[1..][..k - 1];
      if size(ents[0]) <= budget {
        FittingIsGreedy(size, ents[1..], budget - size(ents[0]), k - 1);
      }
    }
  }

  /** LimitSize: the longest prefix within the limit, or the first entry alone if even that is too big. */
  lemma PageIsGreedy(size: Entry -> nat, ents: seq<Entry>, max: Option<nat>, k: nat)
    requires 1 <= k <= |ents|
    ensures k <= |Limited(size, ents, max)| <==> k == 1 || Unlimited(max) || TotalSize(size, ents[..k]) <= max.value
  {
    assert ents[..k][1..] == ents[1..][..k - 1];
    if |ents| > 1 && !Unlimited(max) {
      var budget := max.value as int - size(ents[0]);
      if budget >= 0 {
        FittingIsGreedy(size, ents[1..], budget, k - 1);
      }
    }
  }

  /** LimitSize, in place on a list. */
  method LimitSize(size: Entry -> nat, entries: seq<Entry>, max: Option<nat>) returns (r: seq<Entry>)
    ensures r == Limited(size, entries, max)
  {
    if |entries| <= 1 || Unlimited(max) {
      return entries;
    }
    var total, keep := 0, 0;
    while keep < |entries|
      invariant 0 <= keep <= |entries|
      invariant keep == 0 ==> total == 0
      invariant keep > 0 ==> Kept(size, entries, max) == keep + Fitting(size, entries[keep..], max.value as int - total)
      decreases |entries| - keep
    {
      var s := size(entries[keep]);
      if keep > 0 {
        if total + s > max.value {
          break;
        }
        assert entries[keep..][1..] == entries[keep + 1..];
      }
      total, keep := total + s, keep + 1;
    }
    r := entries[..keep];
  }
}
