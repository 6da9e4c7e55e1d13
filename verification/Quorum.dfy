/**
  Majority and joint quorums: vote counting, and the commit index that a set of
  acknowledged indices supports, with and without group commit.
 */
module Quorum {
  import opened Types

  datatype VoteResult = Pending | Lost | Won

  /** What a voter has acknowledged; group 0 means "in no group". */
  datatype Index = Index(index: nat, group: nat)

  type Acks = map<nat, Index>

  function Majority(total: nat): nat { total / 2 + 1 }

  /** A majority is more than half, and no number below it is. */
  lemma MajorityIsLeast(total: nat, n: nat)
    ensures n >= Majority(total) <==> 2 * n > total
  {
  }

  function AckOf(acks: Acks, voter: nat): Index {
    if voter in acks then acks[voter] else Index(0, 0)
  }

  function AckedAtLeast(voters: set<nat>, acks: Acks, i: nat): set<nat> {
    set v | v in voters && AckOf(acks, v).index >= i
  }

  /** A majority of the voters has acknowledged index i. */
  predicate Backed(voters: set<nat>, acks: Acks, i: nat) {
    |AckedAtLeast(voters, acks, i)| >= Majority(|voters|)
  }

  /** Voters of two different groups have acknowledged index i. */
  predicate Spread(voters: set<nat>, acks: Acks, i: nat) {
    exists v, w | v in voters && w in voters ::
      AckOf(acks, v).group != 0 && AckOf(acks, w).group != 0 &&
      AckOf(acks, v).group != AckOf(acks, w).group &&
      AckOf(acks, v).index >= i && AckOf(acks, w).index >= i
  }

  predicate AllAcked(voters: set<nat>, acks: Acks, i: nat) {
    forall v | v in voters :: AckOf(acks, v).index >= i
  }

  predicate AllGrouped(voters: set<nat>, acks: Acks) {
    forall v | v in voters :: AckOf(acks, v).group != 0
  }

  /** What decides the commit index: the largest i for which this holds. */
  predicate Supported(voters: set<nat>, acks: Acks, useGroups: bool, i: nat) {
    if !useGroups then Backed(voters, acks, i)
    else if Spread(voters, acks, 0) then Backed(voters, acks, i) && Spread(voters, acks, i)
    else if AllGrouped(voters, acks) then Backed(voters, acks, i)
    else AllAcked(voters, acks, i)
  }

  /** r is the commit index of the voters, and whether two groups backed it. */
  ghost predicate IsCommittedIndex(voters: set<nat>, acks: Acks, useGroups: bool, r: (nat, bool)) {
    if voters == {} then r == (MAX_U64, true)
    else
      && (forall i: nat :: Supported(voters, acks, useGroups, i) <==> i <= r.0)
      && r.1 == (useGroups && Spread(voters, acks, 0))
  }

  // ---------------------------------------------------------------- cardinalities

  lemma {:induction false} SubsetCardinality<T>(a: set<T>, b: set<T>)
    requires a <= b
    ensures |a| <= |b|
    decreases a
  {
    if a != {} {
      var x :| x in a;
      SubsetCardinality(a - {x}, b - {x});
    }
  }

  /** Two subsets of one set that together outnumber it share an element. */
  lemma Pigeonhole<T>(a: set<T>, b: set<T>, all: set<T>)
    requires a <= all && b <= all && |a| + |b| > |all|
    ensures a * b != {}
  {
    SubsetCardinality(a + b, all);
    assert |a + b| + |a * b| == |a| + |b|;
  }

  function Elements<T>(s: seq<T>): set<T> { set x | x in s }

  predicate Distinct<T(==)>(s: seq<T>) {
    forall i, j | 0 <= i < j < |s| :: s[i] != s[j]
  }

  lemma {:induction false} DistinctCardinality<T>(s: seq<T>)
    requires Distinct(s)
    ensures |Elements(s)| == |s|
  {
    if s != [] {
      var front := s[..|s| - 1];
      DistinctCardinality(front);
      assert s == front + [s[|s| - 1]];
      assert s[|s| - 1] !in front;
      assert Elements(s) == Elements(front) + {s[|s| - 1]};
    }
  }

  // ---------------------------------------------------------------- the commit index

  /** Being supported is monotone, always true of 0 and false from some point on. */
  lemma SupportedDown(voters: set<nat>, acks: Acks, useGroups: bool, i: nat, j: nat)
    requires i <= j && Supported(voters, acks, useGroups, j)
    ensures Supported(voters, acks, useGroups, i)
  {
    SubsetCardinality(AckedAtLeast(voters, acks, j), AckedAtLeast(voters, acks, i));
  }

  /** The commit index is unique. */
  lemma CommittedIndexUnique(voters: set<nat>, acks: Acks, useGroups: bool, r: (nat, bool), r': (nat, bool))
    requires IsCommittedIndex(voters, acks, useGroups, r)
    requires IsCommittedIndex(voters, acks, useGroups, r')
    ensures r == r'
  {
    if voters != {} {
      assert Supported(voters, acks, useGroups, r.0) && Supported(voters, acks, useGroups, r'.0);
    }
  }

  /** Group commit never runs ahead of the plain quorum index. */
  lemma GroupCommitWithinQuorum(voters: set<nat>, acks: Acks, r: (nat, bool), plain: (nat, bool))
    requires voters != {}
    requires IsCommittedIndex(voters, acks, true, r)
    requires IsCommittedIndex(voters, acks, false, plain)
    ensures r.0 <= plain.0
  {
    assert Supported(voters, acks, true, r.0);
    if AllAcked(voters, acks, r.0) {
      assert AckedAtLeast(voters, acks, r.0) == voters;
    }
    assert Supported(voters, acks, false, r.0);
  }

  // ---------------------------------------------------------------- sorting acknowledged indices

  predicate Descending(s: seq<Index>) {
    forall i, j | 0 <= i < j < |s| :: s[i].index >= s[j].index
  }

  /** The slots list what the voters named in `ids` have acknowledged, in that order. */
  ghost predicate Lists(s: seq<Index>, ids: seq<nat>, acks: Acks) {
    |s| == |ids| && forall k | 0 <= k < |s| :: s[k] == AckOf(acks, ids[k])
  }

  lemma InsertDescends(r: seq<Index>, p: nat, x: Index)
    requires p <= |r| && Descending(r) && (p < |r| ==> r[p].index < x.index)
    requires forall k | 0 <= k < p :: r[k].index >= x.index
    ensures Descending(r[..p] + [x] + r[p..])
  {
    assert forall k | p <= k < |r| :: r[k].index < x.index;
  }

  lemma InsertDistinct(perm: seq<nat>, p: nat, id: nat)
    requires p <= |perm| && Distinct(perm) && id !in Elements(perm)
    ensures Distinct(perm[..p] + [id] + perm[p..]) && Elements(perm[..p] + [id] + perm[p..]) == Elements(perm) + {id}
  {
    assert perm == perm[..p] + perm[p..];
    assert id !in perm;
  }

  lemma InsertKeeps(r: seq<Index>, perm: seq<nat>, acks: Acks, p: nat, x: Index, id: nat)
    requires p <= |r| && Descending(r) && Lists(r, perm, acks) && Distinct(perm)
    requires forall k | 0 <= k < p :: r[k].index >= x.index
    requires p < |r| ==> r[p].index < x.index
    requires x == AckOf(acks, id) && id !in Elements(perm)
    ensures Descending(r[..p] + [x] + r[p..]) && Lists(r[..p] + [x] + r[p..], perm[..p] + [id] + perm[p..], acks)
    ensures Distinct(perm[..p] + [id] + perm[p..])
    ensures Elements(perm[..p] + [id] + perm[p..]) == Elements(perm) + {id}
  {
    hide Descending, Distinct, Elements;
    InsertDescends(r, p, x);
    InsertDistinct(perm, p, id);
  }

  /** Sorts by index, largest first; the order of equal indices is unspecified. */
  method SortDescending(s: seq<Index>, ghost ids: seq<nat>, ghost acks: Acks)
    returns (r: seq<Index>, ghost perm: seq<nat>)
    requires Lists(s, ids, acks) && Distinct(ids)
    ensures Descending(r) && Lists(r, perm, acks)
    ensures Distinct(perm) && Elements(perm) == Elements(ids)
  {
    r, perm := [], [];
    var n := 0;
    while n < |s|
      invariant 0 <= n <= |s|
      invariant Descending(r) && Lists(r, perm, acks) && |r| == n
      invariant Distinct(perm) && Elements(perm) == Elements(ids[..n])
    {
      var p := 0;
      while p < |r| && r[p].index >= s[n].index
        invariant 0 <= p <= |r|
        invariant forall k | 0 <= k < p :: r[k].index >= s[n].index
      {
        p := p + 1;
      }
      assert ids[n] !in Elements(ids[..n]);
      InsertKeeps(r, perm, acks, p, s[n], ids[n]);
      r, perm := r[..p] + [s[n]] + r[p..], perm[..p] + [ids[n]] + perm[p..];
      assert Elements(ids[..n + 1]) == Elements(ids[..n]) + {ids[n]};
      n := n + 1;
    }
    assert ids[..n] == ids;
  }

  /** In a descending list the voters acknowledging at least i are exactly a prefix. */
  lemma PrefixCount(s: seq<Index>, ids: seq<nat>, voters: set<nat>, acks: Acks, n: nat, i: nat)
    requires Lists(s, ids, acks) && Descending(s) && Distinct(ids) && Elements(ids) == voters
    requires n <= |s|
    requires forall k | 0 <= k < n :: s[k].index >= i
    requires forall k | n <= k < |s| :: s[k].index < i
    ensures |AckedAtLeast(voters, acks, i)| == n
  {
    assert Distinct(ids[..n]);
    DistinctCardinality(ids[..n]);
    forall v | v in AckedAtLeast(voters, acks, i)
      ensures v in Elements(ids[..n])
    {
      var k :| 0 <= k < |ids| && ids[k] == v;
      assert ids[..n][k] == v;
    }
    assert AckedAtLeast(voters, acks, i) == Elements(ids[..n]);
  }

  /** The element at the majority position of a descending list is the quorum index. */
  lemma QuorumPosition(s: seq<Index>, ids: seq<nat>, voters: set<nat>, acks: Acks, i: nat)
    requires voters != {} && Lists(s, ids, acks) && Descending(s) && Distinct(ids) && Elements(ids) == voters
    ensures |s| == |voters| && Majority(|s|) <= |s|
    ensures Backed(voters, acks, i) <==> i <= s[Majority(|s|) - 1].index
  {
    DistinctCardinality(ids);
    var n := CountAtLeast(s, i);
    PrefixCount(s, ids, voters, acks, n, i);
  }

  function CountAtLeast(s: seq<Index>, i: nat): (n: nat)
    requires Descending(s)
    ensures n <= |s|
    ensures forall k | 0 <= k < n :: s[k].index >= i
    ensures forall k | n <= k < |s| :: s[k].index < i
  {
    if s == [] || s[0].index < i then 0 else 1 + CountAtLeast(s[1..], i)
  }

  /** Two groups reach index i exactly when two listed slots show it. */
  lemma SpreadSlots(s: seq<Index>, ids: seq<nat>, voters: set<nat>, acks: Acks, i: nat)
    requires Lists(s, ids, acks) && Elements(ids) == voters
    ensures Spread(voters, acks, i) <==>
            exists a, b | 0 <= a < |s| && 0 <= b < |s| ::
              s[a].group != 0 && s[b].group != 0 && s[a].group != s[b].group &&
              s[a].index >= i && s[b].index >= i
  {
    if Spread(voters, acks, i) {
      var v, w :| v in voters && w in voters &&
        AckOf(acks, v).group != 0 && AckOf(acks, w).group != 0 &&
        AckOf(acks, v).group != AckOf(acks, w).group &&
        AckOf(acks, v).index >= i && AckOf(acks, w).index >= i;
      var a :| 0 <= a < |ids| && ids[a] == v;
      var b :| 0 <= b < |ids| && ids[b] == w;
      assert s[a].group != s[b].group;
    }
    forall a, b | 0 <= a < |s| && 0 <= b < |s| && s[a].group != 0 && s[b].group != 0 &&
      s[a].group != s[b].group && s[a].index >= i && s[b].index >= i
      ensures Spread(voters, acks, i)
    {
      assert ids[a] in voters && ids[b] in voters;
    }
  }

  /** Which slot gave the group the scan compares against: the quorum slot or one already passed. */
  predicate Checked(s: seq<Index>, quorum: nat, k: nat, checked: nat) {
    && quorum < |s| && k <= |s|
    && (forall j | 0 <= j < k :: s[j].group == 0 || s[j].group == checked)
    && (checked != 0 ==> exists w | 0 <= w < |s| :: (w < k || w == quorum) && s[w].group == checked)
  }

  /** The first slot of a second group bounds the commit index together with the quorum slot. */
  lemma SecondGroupBounds(s: seq<Index>, ids: seq<nat>, voters: set<nat>, acks: Acks, k: nat, checked: nat, i: nat)
    requires voters != {} && Lists(s, ids, acks) && Descending(s) && Distinct(ids) && Elements(ids) == voters
    requires |s| == |voters| && k < |s| && Checked(s, Majority(|s|) - 1, k, checked)
    requires checked != 0 && s[k].group != 0 && s[k].group != checked
    ensures Backed(voters, acks, i) && Spread(voters, acks, i) <==>
            i <= Min(s[k].index, s[Majority(|s|) - 1].index)
  {
    QuorumPosition(s, ids, voters, acks, i);
    SpreadSlots(s, ids, voters, acks, i);
    var w :| 0 <= w < |s| && (w < k || w == Majority(|s|) - 1) && s[w].group == checked;
    if i <= Min(s[k].index, s[Majority(|s|) - 1].index) {
      assert s[w].index >= i && s[k].index >= i;
    }
  }

  method CollectAcks(voters: set<nat>, acks: Acks) returns (matched: seq<Index>, ghost ids: seq<nat>)
    ensures Lists(matched, ids, acks) && Distinct(ids) && Elements(ids) == voters
  {
    matched, ids := [], [];
    var rest := voters;
    while rest != {}
      invariant rest <= voters
      invariant Lists(matched, ids, acks) && Distinct(ids) && Elements(ids) == voters - rest
      decreases rest
    {
      var v :| v in rest;
      matched, rest := matched + [AckOf(acks, v)], rest - {v};
      ids := ids + [v];
      assert Elements(ids) == Elements(ids[..|ids| - 1]) + {v};
    }
  }

  /** The group scan: ends at the first slot of a second group, or finds there is none. */
  method ScanGroups(matched: seq<Index>, quorum: nat, ghost ids: seq<nat>, ghost voters: set<nat>, ghost acks: Acks)
    returns (checked: nat, single: bool, k: nat)
    requires Lists(matched, ids, acks) && Elements(ids) == voters && quorum < |matched|
    ensures k <= |matched| && Checked(matched, quorum, k, checked)
    ensures k < |matched| ==> checked != 0 && matched[k].group != 0 && matched[k].group != checked
    ensures k == |matched| ==> (single <==> forall j | 0 <= j < k :: matched[j].group != 0)
    ensures k < |matched| <==> Spread(voters, acks, 0)
  {
    SpreadSlots(matched, ids, voters, acks, 0);
    checked, single, k := matched[quorum].group, true, 0;
    while k < |matched|
      invariant 0 <= k <= |matched|
      invariant Checked(matched, quorum, k, checked)
      invariant single <==> forall j | 0 <= j < k :: matched[j].group != 0
    {
      var m := matched[k];
      if m.group == 0 {
        single := false;
      } else if checked == 0 {
        checked := m.group;
      } else if checked != m.group {
        return;
      }
      k := k + 1;
    }
  }

  /** MajorityConfig::CommittedIndex, for any enumeration of the voters and any order of ties. */
  method MajorityCommittedIndex(voters: set<nat>, acks: Acks, useGroups: bool) returns (r: (nat, bool))
    ensures IsCommittedIndex(voters, acks, useGroups, r)
  {
    if voters == {} {
      return (MAX_U64, true);
    }
    var matched, ids := CollectAcks(voters, acks);
    matched, ids := SortDescending(matched, ids, acks);
    QuorumPosition(matched, ids, voters, acks, 0);
    var quorum := Majority(|matched|) - 1;
    assert forall i: nat :: Backed(voters, acks, i) <==> i <= matched[quorum].index by {
      forall i: nat { QuorumPosition(matched, ids, voters, acks, i); }
    }
    if !useGroups {
      return (matched[quorum].index, false);
    }
    var checked, single, k := ScanGroups(matched, quorum, ids, voters, acks);
    if k < |matched| {
      r := (Min(matched[k].index, matched[quorum].index), true);
      forall i: nat ensures Supported(voters, acks, true, i) <==> i <= r.0 {
        SecondGroupBounds(matched, ids, voters, acks, k, checked, i);
      }
      return;
    }
    LastIsLeast(matched, ids, voters, acks);
    if single {
      return (matched[quorum].index, false);
    }
    return (matched[|matched| - 1].index, false);
  }

  lemma LastIsLeast(s: seq<Index>, ids: seq<nat>, voters: set<nat>, acks: Acks)
    requires s != [] && Lists(s, ids, acks) && Descending(s) && Elements(ids) == voters
    ensures forall i: nat :: AllAcked(voters, acks, i) <==> i <= s[|s| - 1].index
    ensures AllGrouped(voters, acks) <==> forall j | 0 <= j < |s| :: s[j].group != 0
  {
    assert ids[|s| - 1] in voters;
    forall j | 0 <= j < |s| ensures ids[j] in voters && AckOf(acks, ids[j]) == s[j] {}
    forall i: nat | i <= s[|s| - 1].index ensures AllAcked(voters, acks, i) {
      forall v | v in voters ensures AckOf(acks, v).index >= i {
        var j :| 0 <= j < |ids| && ids[j] == v;
      }
    }
  }

  /** The commit index as a function: it exists and is unique. */
  ghost function CommittedIndex(voters: set<nat>, acks: Acks, useGroups: bool): (r: (nat, bool))
    ensures IsCommittedIndex(voters, acks, useGroups, r)
  {
    CommittedIndexExists(voters, acks, useGroups);
    var r :| IsCommittedIndex(voters, acks, useGroups, r);
    r
  }

  lemma CommittedIndexExists(voters: set<nat>, acks: Acks, useGroups: bool)
    ensures exists r :: IsCommittedIndex(voters, acks, useGroups, r)
  {
    if voters == {} {
      assert IsCommittedIndex(voters, acks, useGroups, (MAX_U64, true));
    } else {
      ZeroSupported(voters, acks, useGroups);
      var top := AckCeiling(voters, acks);
      CeilingUnsupported(voters, acks, useGroups, top);
      var i := LastSupported(voters, acks, useGroups, 0, top);
      forall j: nat ensures Supported(voters, acks, useGroups, j) <==> j <= i {
        if j <= i {
          SupportedDown(voters, acks, useGroups, j, i);
        } else if Supported(voters, acks, useGroups, j) {
          SupportedDown(voters, acks, useGroups, i + 1, j);
        }
      }
      assert IsCommittedIndex(voters, acks, useGroups, (i, useGroups && Spread(voters, acks, 0)));
    }
  }

  lemma ZeroSupported(voters: set<nat>, acks: Acks, useGroups: bool)
    requires voters != {}
    ensures Supported(voters, acks, useGroups, 0)
  {
    assert AckedAtLeast(voters, acks, 0) == voters;
  }

  ghost function AckCeiling(voters: set<nat>, acks: Acks): (top: nat)
    ensures forall v | v in voters :: AckOf(acks, v).index < top
  {
    if voters == {} then 0 else
      var v :| v in voters;
      Max(AckOf(acks, v).index + 1, AckCeiling(voters - {v}, acks))
  }

  lemma CeilingUnsupported(voters: set<nat>, acks: Acks, useGroups: bool, top: nat)
    requires voters != {} && forall v | v in voters :: AckOf(acks, v).index < top
    ensures !Supported(voters, acks, useGroups, top)
  {
    assert AckedAtLeast(voters, acks, top) == {};
    var v :| v in voters;
    assert AckOf(acks, v).index < top;
  }

  lemma {:induction false} LastSupported(voters: set<nat>, acks: Acks, useGroups: bool, i: nat, top: nat) returns (k: nat)
    requires i < top && Supported(voters, acks, useGroups, i) && !Supported(voters, acks, useGroups, top)
    ensures Supported(voters, acks, useGroups, k) && !Supported(voters, acks, useGroups, k + 1)
    decreases top - i
  {
    if Supported(voters, acks, useGroups, i + 1) {
      k := LastSupported(voters, acks, useGroups, i + 1, top);
    } else {
      k := i;
    }
  }

  // ---------------------------------------------------------------- votes

  function YesVoters(voters: set<nat>, votes: map<nat, bool>): set<nat> {
    set v | v in voters && v in votes && votes[v]
  }

  function MissingVoters(voters: set<nat>, votes: map<nat, bool>): set<nat> {
    set v | v in voters && v !in votes
  }

  function MajorityVote(voters: set<nat>, votes: map<nat, bool>): (r: VoteResult) {
    if voters == {} then Won
    else if |YesVoters(voters, votes)| >= Majority(|voters|) then Won
    else if |YesVoters(voters, votes)| + |MissingVoters(voters, votes)| >= Majority(|voters|) then Pending
    else Lost
  }

  lemma CountOne(seen: set<nat>, votes: map<nat, bool>, v: nat)
    requires v !in seen
    ensures |YesVoters(seen + {v}, votes)| == |YesVoters(seen, votes)| + (if v in votes && votes[v] then 1 else 0)
    ensures |MissingVoters(seen + {v}, votes)| == |MissingVoters(seen, votes)| + (if v !in votes then 1 else 0)
  {
    var yes, missing := YesVoters(seen, votes), MissingVoters(seen, votes);
    if v !in votes {
      assert YesVoters(seen + {v}, votes) == yes;
      assert MissingVoters(seen + {v}, votes) == missing + {v};
    } else {
      assert MissingVoters(seen + {v}, votes) == missing;
      if votes[v] {
        assert YesVoters(seen + {v}, votes) == yes + {v};
      } else {
        assert YesVoters(seen + {v}, votes) == yes;
      }
    }
  }

  /** MajorityConfig::GetVoteResult: one pass over the voters in any order. */
  method GetVoteResult(voters: set<nat>, votes: map<nat, bool>) returns (r: VoteResult)
    ensures r == MajorityVote(voters, votes)
  {
    if voters == {} {
      return Won;
    }
    var yes, missing := 0, 0;
    var rest := voters;
    while rest != {}
      invariant rest <= voters
      invariant yes == |YesVoters(voters - rest, votes)|
      invariant missing == |MissingVoters(voters - rest, votes)|
      decreases rest
    {
      var v :| v in rest;
      CountOne(voters - rest, votes, v);
      assert voters - (rest - {v}) == voters - rest + {v};
      if v in votes {
        if votes[v] {
          yes := yes + 1;
        }
      } else {
        missing := missing + 1;
      }
      rest := rest - {v};
    }
    assert voters - {} == voters;
    if yes >= Majority(|voters|) {
      return Won;
    }
    if yes + missing >= Majority(|voters|) {
      return Pending;
    }
    return Lost;
  }

  // ---------------------------------------------------------------- joint quorums

  /** A joint configuration; outside a transition `outgoing` is empty. */
  datatype Joint = Joint(incoming: set<nat>, outgoing: set<nat>) {
    function Ids(): set<nat> { incoming + outgoing }

    function Vote(votes: map<nat, bool>): VoteResult {
      var i, o := MajorityVote(incoming, votes), MajorityVote(outgoing, votes);
      if i == Won && o == Won then Won
      else if i == Lost || o == Lost then Lost
      else Pending
    }

    ghost function Committed(acks: Acks, useGroups: bool): (nat, bool) {
      var i, o := CommittedIndex(incoming, acks, useGroups), CommittedIndex(outgoing, acks, useGroups);
      (Min(i.0, o.0), i.1 && o.1)
    }

    /** A set that decides for this configuration: a majority of each non-empty half. */
    predicate IsQuorum(members: set<nat>) {
      && (incoming != {} ==> |members * incoming| >= Majority(|incoming|))
      && (outgoing != {} ==> |members * outgoing| >= Majority(|outgoing|))
    }
  }

  function Granted(votes: map<nat, bool>): set<nat> { set v | v in votes && votes[v] }

  /** JointConfiguration::CommittedIndex. */
  method JointCommittedIndex(joint: Joint, acks: Acks, useGroups: bool) returns (r: (nat, bool))
    ensures r == joint.Committed(acks, useGroups)
  {
    var i := MajorityCommittedIndex(joint.incoming, acks, useGroups);
    var o := MajorityCommittedIndex(joint.outgoing, acks, useGroups);
    CommittedIndexUnique(joint.incoming, acks, useGroups, i, CommittedIndex(joint.incoming, acks, useGroups));
    CommittedIndexUnique(joint.outgoing, acks, useGroups, o, CommittedIndex(joint.outgoing, acks, useGroups));
    r := (Min(i.0, o.0), i.1 && o.1);
  }

  /** JointConfiguration::GetVoteResult. */
  method JointVoteResult(joint: Joint, votes: map<nat, bool>) returns (r: VoteResult)
    ensures r == joint.Vote(votes)
  {
    var i := GetVoteResult(joint.incoming, votes);
    var o := GetVoteResult(joint.outgoing, votes);
    if i == Won && o == Won {
      return Won;
    }
    if i == Lost || o == Lost {
      return Lost;
    }
    return Pending;
  }

  lemma QuorumGrows(joint: Joint, a: set<nat>, b: set<nat>)
    requires joint.IsQuorum(a) && a <= b
    ensures joint.IsQuorum(b)
  {
    SubsetCardinality(a * joint.incoming, b * joint.incoming);
    SubsetCardinality(a * joint.outgoing, b * joint.outgoing);
  }

  /** Winning an election is holding the votes of a quorum. */
  lemma WonIsQuorum(joint: Joint, votes: map<nat, bool>)
    ensures joint.Vote(votes) == Won <==> joint.IsQuorum(Granted(votes))
  {
    hide Majority;
    assert YesVoters(joint.incoming, votes) == Granted(votes) * joint.incoming;
    assert YesVoters(joint.outgoing, votes) == Granted(votes) * joint.outgoing;
  }

  /** More answers than before, none of them changed. */
  predicate Completes(votes: map<nat, bool>, more: map<nat, bool>) {
    forall v | v in votes :: v in more && more[v] == votes[v]
  }

  lemma LostHalf(voters: set<nat>, votes: map<nat, bool>, more: map<nat, bool>)
    requires Completes(votes, more) && MajorityVote(voters, votes) == Lost
    ensures MajorityVote(voters, more) != Won
  {
    var yes, missing := YesVoters(voters, votes), MissingVoters(voters, votes);
    SubsetCardinality(YesVoters(voters, more), yes + missing);
  }

  /** The answers so far, and a grant of every voter that has not answered. */
  function Hopeful(joint: Joint, votes: map<nat, bool>): map<nat, bool> {
    map v | v in votes.Keys + joint.Ids() :: if v in votes then votes[v] else true
  }

  lemma HopefulHalf(joint: Joint, votes: map<nat, bool>, voters: set<nat>)
    requires voters <= joint.Ids() && MajorityVote(voters, votes) != Lost
    ensures MajorityVote(voters, Hopeful(joint, votes)) == Won
  {
    var yes, missing := YesVoters(voters, votes), MissingVoters(voters, votes);
    assert YesVoters(voters, Hopeful(joint, votes)) == yes + missing;
    assert yes !! missing;
  }

  /** An election is lost exactly if no further answers can win it. */
  lemma LostIsHopeless(joint: Joint, votes: map<nat, bool>)
    ensures joint.Vote(votes) == Lost <==> forall more | Completes(votes, more) :: joint.Vote(more) != Won
  {
    hide MajorityVote, Hopeful;
    if joint.Vote(votes) == Lost {
      forall more | Completes(votes, more) ensures joint.Vote(more) != Won {
        if MajorityVote(joint.incoming, votes) == Lost {
          LostHalf(joint.incoming, votes, more);
        } else {
          LostHalf(joint.outgoing, votes, more);
        }
      }
    } else {
      var more := Hopeful(joint, votes);
      assert Completes(votes, more) by { HopefulCompletes(joint, votes); }
      HopefulHalf(joint, votes, joint.incoming);
      HopefulHalf(joint, votes, joint.outgoing);
      assert joint.Vote(more) == Won;
    }
  }

  lemma HopefulCompletes(joint: Joint, votes: map<nat, bool>)
    ensures Completes(votes, Hopeful(joint, votes))
  {
  }

  /** Everything up to the joint commit index is acknowledged by a quorum. */
  lemma CommittedIsQuorum(joint: Joint, acks: Acks, useGroups: bool, i: nat)
    requires i <= joint.Committed(acks, useGroups).0
    ensures joint.IsQuorum(AckedAtLeast(joint.Ids(), acks, i))
  {
    hide Supported, IsCommittedIndex;
    CommittedBacked(joint.incoming, acks, useGroups, i);
    CommittedBacked(joint.outgoing, acks, useGroups, i);
    var all := AckedAtLeast(joint.Ids(), acks, i);
    assert AckedAtLeast(joint.incoming, acks, i) == all * joint.incoming;
    assert AckedAtLeast(joint.outgoing, acks, i) == all * joint.outgoing;
  }

  lemma CommittedBacked(voters: set<nat>, acks: Acks, useGroups: bool, i: nat)
    requires i <= CommittedIndex(voters, acks, useGroups).0
    ensures voters != {} ==> Backed(voters, acks, i)
  {
    if voters != {} {
      assert Supported(voters, acks, useGroups, i);
      if AllAcked(voters, acks, i) {
        assert AckedAtLeast(voters, acks, i) == voters;
      }
    }
  }

  /**
    The joint commit index is exact: an index is at or below it if and only if each half with
    voters supports it.  Indices are 64-bit numbers; a half without voters bounds nothing.
   */
  lemma CommittedExactly(joint: Joint, acks: Acks, useGroups: bool, i: nat)
    requires i <= MAX_U64
    ensures i <= joint.Committed(acks, useGroups).0 <==>
              && (joint.incoming != {} ==> Supported(joint.incoming, acks, useGroups, i))
              && (joint.outgoing != {} ==> Supported(joint.outgoing, acks, useGroups, i))
    ensures joint.Committed(acks, useGroups).1 <==>
              && (joint.incoming != {} ==> useGroups && Spread(joint.incoming, acks, 0))
              && (joint.outgoing != {} ==> useGroups && Spread(joint.outgoing, acks, 0))
  {
    hide Supported, Spread;
  }

  /** Without groups: everything a quorum has acknowledged is committed, and nothing else. */
  lemma CommittedIffQuorum(joint: Joint, acks: Acks, i: nat)
    requires i <= MAX_U64
    ensures i <= joint.Committed(acks, false).0 <==> joint.IsQuorum(AckedAtLeast(joint.Ids(), acks, i))
  {
    hide Joint.Committed;
    CommittedExactly(joint, acks, false, i);
    var all := AckedAtLeast(joint.Ids(), acks, i);
    assert AckedAtLeast(joint.incoming, acks, i) == all * joint.incoming;
    assert AckedAtLeast(joint.outgoing, acks, i) == all * joint.outgoing;
  }

  /** The halves of a joint configuration are alike, and a half twice is that half once. */
  lemma JointSymmetric(a: set<nat>, b: set<nat>, acks: Acks, useGroups: bool, votes: map<nat, bool>)
    ensures Joint(a, b).Committed(acks, useGroups) == Joint(b, a).Committed(acks, useGroups)
    ensures Joint(a, b).Vote(votes) == Joint(b, a).Vote(votes)
    ensures Joint(a, a).Committed(acks, useGroups) == CommittedIndex(a, acks, useGroups) && Joint(a, a).Vote(votes) == MajorityVote(a, votes)
    ensures Joint(a, {}).Vote(votes) == MajorityVote(a, votes)
    ensures CommittedIndex(a, acks, useGroups).0 <= MAX_U64 ==> Joint(a, {}).Committed(acks, useGroups) == CommittedIndex(a, acks, useGroups)
  {
  }

  /** What a voter behind the commit index has acknowledged does not matter: any less commits the same. */
  lemma LaggardsDoNotCount(voters: set<nat>, acks: Acks, v: nat, less: Index)
    requires voters != {} && less.index <= AckOf(acks, v).index < CommittedIndex(voters, acks, false).0
    ensures CommittedIndex(voters, acks[v := less], false) == CommittedIndex(voters, acks, false)
  {
    var r, lower := CommittedIndex(voters, acks, false), acks[v := less];
    forall i: nat ensures Supported(voters, lower, false, i) <==> i <= r.0 {
      if i > AckOf(acks, v).index {
        assert AckedAtLeast(voters, lower, i) == AckedAtLeast(voters, acks, i);
        assert Supported(voters, acks, false, i) <==> i <= r.0;
      } else {
        assert Supported(voters, acks, false, r.0);
        SubsetCardinality(AckedAtLeast(voters, acks, r.0), AckedAtLeast(voters, lower, i));
      }
    }
    CommittedIndexUnique(voters, lower, false, (r.0, false), CommittedIndex(voters, lower, false));
  }

  /** Group commit: with all voters in one group it is the plain quorum; otherwise two groups have what is committed, or all voters do. */
  lemma GroupCommitIs(voters: set<nat>, acks: Acks)
    requires voters != {}
    ensures var c, plain := CommittedIndex(voters, acks, true), CommittedIndex(voters, acks, false).0;
            if Spread(voters, acks, 0) then Spread(voters, acks, c.0) && c.1 && (Spread(voters, acks, plain) ==> c.0 == plain)
            else if AllGrouped(voters, acks) then c == (plain, false)
            else AllAcked(voters, acks, c.0) && !AllAcked(voters, acks, c.0 + 1) && !c.1
  {
    var c, plain := CommittedIndex(voters, acks, true), CommittedIndex(voters, acks, false).0;
    GroupCommitWithinQuorum(voters, acks, c, CommittedIndex(voters, acks, false));
    assert Supported(voters, acks, true, c.0) && Supported(voters, acks, false, plain);
    assert !Supported(voters, acks, true, c.0 + 1) && !Supported(voters, acks, false, plain + 1);
    if Spread(voters, acks, 0) && Spread(voters, acks, plain) {
      assert Supported(voters, acks, true, plain);
    } else if !Spread(voters, acks, 0) && AllGrouped(voters, acks) {
      assert Supported(voters, acks, true, plain);
    }
  }

  /** Majorities of one voter set meet. */
  lemma MajoritiesMeet(voters: set<nat>, a: set<nat>, b: set<nat>)
    requires |a * voters| >= Majority(|voters|) && |b * voters| >= Majority(|voters|)
    ensures a * b * voters != {}
  {
    Pigeonhole(a * voters, b * voters, voters);
    assert (a * voters) * (b * voters) == a * b * voters;
  }

  /** Two quorums of one configuration with voters share a voter. */
  lemma QuorumsMeet(joint: Joint, a: set<nat>, b: set<nat>) returns (v: nat)
    requires joint.incoming != {} && joint.IsQuorum(a) && joint.IsQuorum(b)
    ensures v in a && v in b && v in joint.incoming
  {
    MajoritiesMeet(joint.incoming, a, b);
    v :| v in a * b * joint.incoming;
  }
}
