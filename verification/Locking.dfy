/** A lock held by the one thread that is in its critical section. */
module Locking {
  import opened Options

  /** `pcs` are the places of the threads, `critical` those inside the critical section. */
  ghost predicate Exclusive<T>(lock: Option<nat>, pcs: seq<T>, critical: set<T>) {
    && (lock.Some? ==> lock.value < |pcs| && pcs[lock.value] in critical)
    && (forall i :: 0 <= i < |pcs| && pcs[i] in critical ==> lock == Some(i))
  }

  /** Thread `i` goes from `pc` to `pc'`: if it enters its critical section it finds the lock free and
    * takes it, and if it leaves it frees the lock. */
  ghost predicate Passes<T>(lock: Option<nat>, i: nat, pc: T, pc': T, lock': Option<nat>, critical: set<T>) {
    && (pc !in critical && pc' in critical ==> lock == None && lock' == Some(i))
    && (pc in critical && pc' !in critical ==> lock' == None)
    && ((pc in critical <==> pc' in critical) ==> lock' == lock)
  }

  lemma PassKeepsExclusive<T>(lock: Option<nat>, pcs: seq<T>, i: nat, pc': T, lock': Option<nat>, critical: set<T>)
    requires Exclusive(lock, pcs, critical) && i < |pcs| && Passes(lock, i, pcs[i], pc', lock', critical)
    ensures Exclusive(lock', pcs[i := pc'], critical)
  {
  }
}
