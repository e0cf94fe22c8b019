/**
 * The random source, seen only through the indices it yields.
 *
 * The generator takes a cryptographically secure `rng: &mut R` and only ever
 * asks it, through `SliceRandom::choose`, for an index below a slice's
 * length. The model keeps exactly that: each draw yields some index within
 * bounds, and the source records the draws it has made. Which index comes
 * out, and with what probability, is not modelled.
 */
module Random {
  import opened Wrappers

  class Rng {
    /** Every index this source has yielded, oldest first. */
    ghost var history: seq<nat>

    constructor ()
      ensures history == []
    {
      history := [];
    }

    /** One draw of an index below `n`. */
    method GenIndex(n: nat) returns (k: nat)
      requires 0 < n
      modifies this
      ensures k < n
      ensures history == old(history) + [k]
    {
      k :| k < n;
      history := history + [k];
    }
  }

  /**
   * `SliceRandom::choose`: `None` for an empty slice, without drawing;
   * otherwise the element at one freshly drawn index `k`.
   */
  method Choose<T>(s: seq<T>, rng: Rng) returns (r: Option<T>, ghost k: nat)
    modifies rng
    ensures s == [] ==> r == None && rng.history == old(rng.history)
    ensures s != [] ==> k < |s| && r == Some(s[k]) && rng.history == old(rng.history) + [k]
  {
    if s == [] {
      r, k := None, 0;
    } else {
      var index := rng.GenIndex(|s|);
      r, k := Some(s[index]), index;
    }
  }
}
