/** Counting the threads for which a wakeup is due, as one thread after the other moves. */
module Wakeups {

  /** The sets differ in `t` at most. */
  lemma OneDiffers(before: set<nat>, after: set<nat>, t: nat)
    requires forall u :: u != t ==> (u in before <==> u in after)
    ensures |after| == |before| + (if t in after then 1 else 0) - (if t in before then 1 else 0)
  {
    if t in after && t !in before {
      assert after == before + {t};
    } else if t !in after && t in before {
      assert after == before - {t};
    } else {
      assert after == before;
    }
  }
}
