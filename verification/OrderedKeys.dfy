/** In-order iteration over the keys of a `std::map`: the node after a cursor is the least key
    above it, whatever has been inserted or erased meanwhile. */
module OrderedKeys {
  import opened Wrappers

  lemma LeastExists(keys: set<nat>, after: int, some: nat)
    requires some in keys && some > after
    ensures exists k :: k in keys && k > after && forall j :: j in keys && j > after ==> k <= j
    decreases some
  {
    if j :| j in keys && after < j < some {
      LeastExists(keys, after, j);
    }
  }

  /** The least key above `after`, if any. */
  function Following(keys: set<nat>, after: int): (next: Option<nat>)
    ensures next.None? <==> forall k :: k in keys ==> k <= after
    ensures next.Some? ==>
              && next.value in keys
              && next.value > after
              && forall k :: k in keys && k > after ==> next.value <= k
  {
    if k :| k in keys && k > after then
      LeastExists(keys, after, k);
      var least :| least in keys && least > after && forall j :: j in keys && j > after ==> least <= j;
      Some(least)
    else
      None
  }

  /** The keys an iteration standing at `after` has still to visit. */
  function Beyond(keys: set<nat>, after: int): set<nat> {
    set k | k in keys && k > after
  }

  lemma BeyondShrinks(keys: set<nat>, after: int)
    requires Following(keys, after).Some?
    ensures Beyond(keys, Following(keys, after).value) == Beyond(keys, after) - {Following(keys, after).value}
    ensures |Beyond(keys, Following(keys, after).value)| < |Beyond(keys, after)|
  {
    var next := Following(keys, after).value;
    assert Beyond(keys, next) == Beyond(keys, after) - {next};
    assert next in Beyond(keys, after);
  }
}
