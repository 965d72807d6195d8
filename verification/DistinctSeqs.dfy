/** Sequences of numbers below a bound that do not repeat. */
module DistinctSeqs {

  ghost function Elems(s: seq<nat>): set<nat> {
    set c | c in s
  }

  ghost predicate Distinct(s: seq<nat>, n: nat) {
    && (forall i :: 0 <= i < |s| ==> s[i] < n)
    && (forall i, k :: 0 <= i < k < |s| ==> s[i] != s[k])
  }

  ghost function Below(n: nat): (r: set<nat>)
    ensures |r| == n && forall c: nat :: c in r <==> c < n
  {
    if n == 0 then {} else Below(n - 1) + {n - 1}
  }

  lemma ElemsSnoc(s: seq<nat>, c: nat)
    ensures Elems(s + [c]) == Elems(s) + {c}
  {
  }

  lemma {:induction false} SubsetSize(a: set<nat>, b: set<nat>)
    requires a <= b
    ensures |a| <= |b|
  {
    if x :| x in a { SubsetSize(a - {x}, b - {x}); }
  }

  lemma {:induction false} DistinctSize(s: seq<nat>, n: nat)
    requires Distinct(s, n)
    ensures |Elems(s)| == |s|
  {
    if s != [] {
      var k := |s| - 1;
      DistinctSize(s[..k], n);
      assert s == s[..k] + [s[k]];
      ElemsSnoc(s[..k], s[k]);
    }
  }

  /** The pigeonhole principle, both ways. */
  lemma DistinctCovers(s: seq<nat>, n: nat)
    requires Distinct(s, n)
    ensures |Elems(s)| == |s| <= n
    ensures |s| == n ==> forall c: nat :: c < n ==> c in s
  {
    DistinctSize(s, n);
    SubsetSize(Elems(s), Below(n));
    if |s| == n && exists c: nat :: c < n && c !in s {
      var c: nat :| c < n && c !in s;
      SubsetSize(Elems(s), Below(n) - {c});
      assert false;
    }
  }
}
