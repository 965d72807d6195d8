/** Programs that fork goroutines on parts of a slice, run under any scheduler. Every read and every
  * write of an element is one step. */
module Goroutines {

  /** What a goroutine still has to do with its slice. `Choose` is rand.Intn; `Fork` starts two
    * goroutines, one on the elements before `mid` and one on those from `from` on, waits for both and
    * goes on with `next`. A goroutine sees its own slice only: indices count from its start. */
  datatype Program =
    | Done
    | Panic
    | Read(index: int, cont: int -> Program)
    | Write(index: int, value: int, next: Program)
    | Choose(bound: int, cont: int -> Program)
    | Fork(mid: nat, left: Program, from: nat, right: Program, next: Program)

  /** The goroutine that makes the next step, and the random number if it draws one. */
  datatype Turn = Here(number: int) | InLeft(turn: Turn) | InRight(turn: Turn)

  /** Some goroutine has panicked, which ends the whole program. */
  ghost predicate Panics(p: Program) {
    match p
    case Panic => true
    case Choose(bound, _) => bound <= 0
    case Fork(mid, left, from, right, _) => mid > from || Panics(left) || Panics(right)
    case _ => false
  }

  ghost predicate Enabled(p: Program, t: Turn) {
    match p
    case Done => false
    case Panic => false
    case Read(_, _) => t.Here?
    case Write(_, _, _) => t.Here?
    case Choose(bound, _) => t.Here? && 0 <= t.number < bound
    case Fork(_, left, _, right, _) =>
      match t
      case Here(_) => left.Done? && right.Done?
      case InLeft(u) => Enabled(left, u)
      case InRight(u) => Enabled(right, u)
  }

  /** One step, on the slice `a`. An index outside of it panics. */
  ghost function Step(p: Program, a: seq<int>, t: Turn): (r: (Program, seq<int>))
    requires Enabled(p, t)
    ensures |r.1| == |a|
    decreases t
  {
    match p
    case Read(k, cont) => (if 0 <= k < |a| then cont(a[k]) else Panic, a)
    case Write(k, v, next) => if 0 <= k < |a| then (next, a[k := v]) else (Panic, a)
    case Choose(_, cont) => (cont(t.number), a)
    case Fork(mid, left, from, right, next) =>
      if !(mid <= from <= |a|) then (Panic, a)
      else match t
        case Here(_) => (next, a)
        case InLeft(u) =>
          var (l, w) := Step(left, a[..mid], u);
          (Fork(mid, l, from, right, next), w + a[mid..])
        case InRight(u) =>
          var (r, w) := Step(right, a[from..], u);
          (Fork(mid, left, from, r, next), a[..from] + w)
  }

  // ----- what holds under every scheduler -----

  /** Every run comes to its end within `n` steps and without a panic, and leaves `goal` in the slice. */
  ghost predicate EndsWithin(p: Program, a: seq<int>, n: nat, goal: seq<int>)
    decreases n
  {
    && !Panics(p) && (p.Done? ==> a == goal)
    && (!p.Done? ==> n > 0 && forall t :: Enabled(p, t) ==>
          EndsWithin(Step(p, a, t).0, Step(p, a, t).1, n - 1, goal))
  }

  ghost predicate Ends(p: Program, a: seq<int>, goal: seq<int>) {
    exists n: nat :: EndsWithin(p, a, n, goal)
  }

  lemma {:induction false} EndsLater(p: Program, a: seq<int>, n: nat, m: nat, goal: seq<int>)
    requires EndsWithin(p, a, n, goal) && n <= m
    ensures EndsWithin(p, a, m, goal)
    decreases n
  {
    if !p.Done? {
      forall t | Enabled(p, t)
        ensures EndsWithin(Step(p, a, t).0, Step(p, a, t).1, m - 1, goal)
      {
        EndsLater(Step(p, a, t).0, Step(p, a, t).1, n - 1, m - 1, goal);
      }
    }
  }

  /** A program that has not ended and has not panicked can make a step. */
  lemma {:induction false} CanStep(p: Program) returns (t: Turn)
    requires !Panics(p) && !p.Done?
    ensures Enabled(p, t)
    decreases p
  {
    t := Here(0);
    if p.Fork? && !p.left.Done? {
      var u := CanStep(p.left);
      t := InLeft(u);
    } else if p.Fork? && !p.right.Done? {
      var u := CanStep(p.right);
      t := InRight(u);
    }
  }

  // ----- the rules -----

  lemma {:induction false} DoneEnds(a: seq<int>)
    ensures Ends(Done, a, a)
  {
    assert EndsWithin(Done, a, 0, a);
  }

  lemma {:induction false} ReadEnds(k: int, cont: int -> Program, a: seq<int>, goal: seq<int>)
    requires 0 <= k < |a| && Ends(cont(a[k]), a, goal)
    ensures Ends(Read(k, cont), a, goal)
  {
    var n: nat :| EndsWithin(cont(a[k]), a, n, goal);
    assert EndsWithin(Read(k, cont), a, n + 1, goal);
  }

  lemma {:induction false} WriteEnds(k: int, v: int, next: Program, a: seq<int>, goal: seq<int>)
    requires 0 <= k < |a| && Ends(next, a[k := v], goal)
    ensures Ends(Write(k, v, next), a, goal)
  {
    var n: nat :| EndsWithin(next, a[k := v], n, goal);
    assert EndsWithin(Write(k, v, next), a, n + 1, goal);
  }

  lemma {:induction false} AllEndWithin(bound: nat, cont: int -> Program, a: seq<int>, goal: seq<int>) returns (n: nat)
    requires forall v :: 0 <= v < bound ==> Ends(cont(v), a, goal)
    ensures forall v :: 0 <= v < bound ==> EndsWithin(cont(v), a, n, goal)
  {
    n := 0;
    if bound > 0 {
      var m := AllEndWithin(bound - 1, cont, a, goal);
      assert Ends(cont(bound - 1), a, goal);
      var k: nat :| EndsWithin(cont(bound - 1), a, k, goal);
      n := m + k;
      forall v | 0 <= v < bound
        ensures EndsWithin(cont(v), a, n, goal)
      {
        EndsLater(cont(v), a, if v < bound - 1 then m else k, n, goal);
      }
    }
  }

  lemma {:induction false} ChooseEnds(bound: int, cont: int -> Program, a: seq<int>, goal: seq<int>)
    requires 0 < bound && forall v :: 0 <= v < bound ==> Ends(cont(v), a, goal)
    ensures Ends(Choose(bound, cont), a, goal)
  {
    var n := AllEndWithin(bound, cont, a, goal);
    assert EndsWithin(Choose(bound, cont), a, n + 1, goal);
  }

  /** Two goroutines on slices that do not overlap: whatever the order of their steps, each does to its
    * slice what it does alone. */
  lemma {:induction false} ForkEndsWithin(mid: nat, left: Program, from: nat, right: Program, next: Program, a: seq<int>,
                                          l: nat, r: nat, n: nat, g: seq<int>, h: seq<int>, goal: seq<int>)
    requires mid <= from <= |a| && |g| == mid && |h| == |a| - from
    requires EndsWithin(left, a[..mid], l, g) && EndsWithin(right, a[from..], r, h)
    requires EndsWithin(next, g + a[mid..from] + h, n, goal)
    ensures EndsWithin(Fork(mid, left, from, right, next), a, l + r + n + 1, goal)
    decreases l + r
  {
    var p := Fork(mid, left, from, right, next);
    forall t | Enabled(p, t)
      ensures EndsWithin(Step(p, a, t).0, Step(p, a, t).1, l + r + n, goal)
    {
      var s := Step(p, a, t);
      match t
      case Here(_) =>
        assert a == a[..mid] + a[mid..from] + a[from..];
        EndsLater(next, a, n, l + r + n, goal);
      case InLeft(u) =>
        var s' := Step(left, a[..mid], u);
        assert s.1[..mid] == s'.1 && s.1[from..] == a[from..] && s.1[mid..from] == a[mid..from];
        ForkEndsWithin(mid, s'.0, from, right, next, s.1, l - 1, r, n, g, h, goal);
      case InRight(u) =>
        var s' := Step(right, a[from..], u);
        assert s.1[..mid] == a[..mid] && s.1[from..] == s'.1 && s.1[mid..from] == a[mid..from];
        ForkEndsWithin(mid, left, from, s'.0, next, s.1, l, r - 1, n, g, h, goal);
    }
  }

  lemma {:induction false} ForkEnds(mid: nat, left: Program, from: nat, right: Program, next: Program, a: seq<int>,
                                    g: seq<int>, h: seq<int>, goal: seq<int>)
    requires mid <= from <= |a| && |g| == mid && |h| == |a| - from
    requires Ends(left, a[..mid], g) && Ends(right, a[from..], h) && Ends(next, g + a[mid..from] + h, goal)
    ensures Ends(Fork(mid, left, from, right, next), a, goal)
  {
    var l: nat :| EndsWithin(left, a[..mid], l, g);
    var r: nat :| EndsWithin(right, a[from..], r, h);
    var n: nat :| EndsWithin(next, g + a[mid..from] + h, n, goal);
    ForkEndsWithin(mid, left, from, right, next, a, l, r, n, g, h, goal);
  }

  // ----- whole runs -----

  /** `turns` is a run that `p` can make on the slice `a`. */
  ghost predicate CanRun(p: Program, a: seq<int>, turns: seq<Turn>)
    decreases |turns|
  {
    turns == [] || (Enabled(p, turns[0]) && CanRun(Step(p, a, turns[0]).0, Step(p, a, turns[0]).1, turns[1..]))
  }

  /** The program that is left, and the slice, after a run. */
  ghost function After(p: Program, a: seq<int>, turns: seq<Turn>): (Program, seq<int>)
    requires CanRun(p, a, turns)
    decreases |turns|
  {
    if turns == [] then (p, a) else After(Step(p, a, turns[0]).0, Step(p, a, turns[0]).1, turns[1..])
  }

  /** Every run of a program that ends has at most `n` steps and meets no panic; when the program is done
    * the slice is `goal`, and until then it can go on. */
  lemma {:induction false} RunEnds(p: Program, a: seq<int>, n: nat, goal: seq<int>, turns: seq<Turn>)
    requires EndsWithin(p, a, n, goal) && CanRun(p, a, turns)
    ensures var (q, b) := After(p, a, turns);
      && |turns| <= n && !Panics(q) && (q.Done? ==> b == goal) && (!q.Done? ==> exists t :: Enabled(q, t))
    decreases |turns|
  {
    if turns == [] {
      if !p.Done? { var t := CanStep(p); }
    } else {
      RunEnds(Step(p, a, turns[0]).0, Step(p, a, turns[0]).1, n - 1, goal, turns[1..]);
    }
  }
}
