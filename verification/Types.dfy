/** Values shared by every part of the consensus core. */
module Types {

  /** Stands for "no peer" and "no index" (kInvalidId and kInvalidIndex). */
  const NONE: nat := 0

  /** The largest value of a 64-bit unsigned integer. */
  const MAX_U64: nat := 0xFFFF_FFFF_FFFF_FFFF

  datatype Option<+T> = None | Some(value: T)

  datatype Result<+T, +E> = Ok(value: T) | Err(error: E)

  /** One log entry.  The entry type and context travel inside `data`. */
  datatype Entry = Entry(index: nat, term: nat, data: string)

  function Min(a: nat, b: nat): nat { if a <= b then a else b }

  function Max(a: nat, b: nat): nat { if a >= b then a else b }

  /** The term at a 1-based index of a log that starts at index 1; 0 outside it. */
  function TermAt(log: seq<Entry>, index: nat): nat {
    if 1 <= index <= |log| then log[index - 1].term else 0
  }

  /** The entries number the indices right after `base`. */
  predicate Follows(base: nat, entries: seq<Entry>) {
    forall k | 0 <= k < |entries| :: entries[k].index == base + 1 + k
  }

  function LastTerm(log: seq<Entry>): nat { TermAt(log, |log|) }
}
