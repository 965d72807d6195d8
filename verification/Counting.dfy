/** Counting the threads that are at given points of their programs. */
module Counting {

  ghost function Count<T>(s: seq<T>, which: set<T>): nat {
    if s == [] then 0
    else Count(s[..|s| - 1], which) + if s[|s| - 1] in which then 1 else 0
  }

  ghost function In<T>(x: T, which: set<T>): int {
    if x in which then 1 else 0
  }

  lemma {:induction false} CountUpdate<T>(s: seq<T>, i: nat, x: T, which: set<T>)
    requires i < |s|
    ensures Count(s[i := x], which) + (if s[i] in which then 1 else 0) == Count(s, which) + if x in which then 1 else 0
  {
    var n := |s| - 1;
    if i < n {
      assert s[i := x][..n] == s[..n][i := x];
      CountUpdate(s[..n], i, x, which);
    } else {
      assert s[i := x][..n] == s[..n];
    }
  }

  lemma {:induction false} CountAtLeast<T>(s: seq<T>, i: nat, which: set<T>)
    requires i < |s| && s[i] in which
    ensures Count(s, which) >= 1
  {
    if i < |s| - 1 { CountAtLeast(s[..|s| - 1], i, which); }
  }

  lemma {:induction false} CountNone<T>(s: seq<T>, which: set<T>)
    requires forall i :: 0 <= i < |s| ==> s[i] !in which
    ensures Count(s, which) == 0
  {
    if s != [] { CountNone(s[..|s| - 1], which); }
  }

  lemma {:induction false} CountUnion<T>(s: seq<T>, a: set<T>, b: set<T>)
    requires a !! b
    ensures Count(s, a + b) == Count(s, a) + Count(s, b)
  {
    if s != [] { CountUnion(s[..|s| - 1], a, b); }
  }

  // ----- threads with a value in hand -----

  ghost function Times<V>(s: seq<V>, v: V): nat {
    multiset(s)[v]
  }

  lemma TimesSnoc<V>(s: seq<V>, x: V, v: V)
    ensures Times(s + [x], v) == Times(s, v) + if x == v then 1 else 0
  {
    assert multiset(s + [x]) == multiset(s) + multiset{x};
  }

  ghost function Hand<P, V>(pc: P, value: V, which: set<P>, v: V): nat {
    if pc in which && value == v then 1 else 0
  }

  /** How many of the first `k` threads are at a place of `which` and have value `v`. */
  ghost function Held<P, V>(pcs: seq<P>, values: seq<V>, which: set<P>, v: V, k: nat): nat
    requires k <= |pcs| == |values|
  {
    if k == 0 then 0 else Held(pcs, values, which, v, k - 1) + Hand(pcs[k - 1], values[k - 1], which, v)
  }

  lemma {:induction false} HeldNothing<P, V>(pcs: seq<P>, values: seq<V>, which: set<P>, v: V, k: nat)
    requires k <= |pcs| == |values| && forall i :: 0 <= i < k ==> pcs[i] !in which
    ensures Held(pcs, values, which, v, k) == 0
  {
    if k > 0 { HeldNothing(pcs, values, which, v, k - 1); }
  }

  lemma {:induction false} HeldUpdate<P, V>(pcs: seq<P>, values: seq<V>, which: set<P>, i: nat, pc: P, value: V, v: V, k: nat)
    requires k <= |pcs| == |values| && i < |pcs|
    ensures Held(pcs[i := pc], values[i := value], which, v, k) + (if i < k then Hand(pcs[i], values[i], which, v) else 0)
         == Held(pcs, values, which, v, k) + (if i < k then Hand(pc, value, which, v) else 0)
  {
    if k > 0 { HeldUpdate(pcs, values, which, i, pc, value, v, k - 1); }
  }
}
