/** A log that has not been compacted: the flat log and the node model read and write it alike. */
module PlainLog {
  import opened Types
  import opened FlatLog
  import opened RaftNode

  /** A log that has not been compacted. */
  predicate Plain(flat: Flat) { flat.base == 0 && flat.baseTerm == Some(0) }

  /** The log of a node as a flat log. */
  function PlainOf(log: seq<Entry>): Flat { Flat(0, Some(0), log) }

  lemma PlainTerm(flat: Flat, i: nat)
    requires Plain(flat)
    ensures flat.Term(i) == Ok(TermAt(flat.entries, i))
  {
  }

  lemma {:induction false} ConflictAlike(flat: Flat, entries: seq<Entry>)
    requires Plain(flat)
    ensures flat.Conflict(entries) == FindConflict(flat.entries, entries)
  {
    if entries != [] {
      ConflictAlike(flat, entries[1..]);
    }
  }

  lemma {:induction false} BackToAlike(flat: Flat, index: nat, term: nat)
    requires Plain(flat)
    ensures flat.BackTo(index, term) == FindConflictByTerm(flat.entries, index, term)
  {
    if index > 0 && TermAt(flat.entries, index) > term {
      BackToAlike(flat, index - 1, term);
    }
  }

  /** A well-formed append that matches can be spliced in unless it conflicts with something committed. */
  lemma SpliceAlike(flat: Flat, committed: nat, prev: nat, prevTerm: nat, entries: seq<Entry>)
    requires Plain(flat) && WellFormed(flat, prev, prevTerm, entries) && flat.Match(prev, prevTerm)
    ensures var c := flat.Conflict(entries);
            && c == FindConflict(flat.entries, entries)
            && (CanSplice(committed, flat.entries, prev, entries) <==> c == 0 || committed < c)
            && (c == 0 || 0 < c <= flat.Last() + 1) && CanSplice(0, flat.entries, prev, entries)
            && Spliced(flat, prev, entries).entries == Splice(flat.entries, prev, entries)
            && Plain(Spliced(flat, prev, entries))
  {
    hide Flat.Conflict, Flat.Term;
    ConflictAlike(flat, entries);
    ConflictFound(flat, prev, entries);
    ConflictInRange(flat, prev, prevTerm, entries);
  }

  /** The model's MaybeAppend in terms of the flat log. */
  lemma AppendAlike(n: Node, flat: Flat, m: Msg)
    requires Plain(flat) && n.log == flat.entries && m.Append?
    requires WellFormed(flat, m.prev, m.prevTerm, m.entries) && flat.Match(m.prev, m.prevTerm)
    ensures var c, to := flat.Conflict(m.entries), Min(m.commit, m.prev + |m.entries|);
            && (c == 0 || 0 < c <= flat.Last() + 1) && Plain(Spliced(flat, m.prev, m.entries))
            && MaybeAppend(n, m.prev, m.commit, m.entries) ==
                 if 0 < c <= n.committed then None
                 else Some(n.(log := Spliced(flat, m.prev, m.entries).entries,
                              persisted := if c == 0 then n.persisted else Min(n.persisted, c - 1),
                              committed := if to <= Spliced(flat, m.prev, m.entries).Last() then Max(n.committed, to) else n.committed))
  {
    hide Flat.Conflict, Flat.Term, Spliced, Splice, CanSplice, FindConflict, WellFormed;
    SpliceAlike(flat, n.committed, m.prev, m.prevTerm, m.entries);
    SpliceAlike(flat, 0, m.prev, m.prevTerm, m.entries);
  }

  lemma AppendAtEnd(flat: Flat, entries: seq<Entry>)
    requires Plain(flat) && entries != [] && entries[0].index == flat.Last() + 1
    ensures Plain(flat.Append(entries)) && flat.Append(entries).entries == flat.entries + entries
  {
    assert flat.entries[..|flat.entries|] == flat.entries;
  }
}
