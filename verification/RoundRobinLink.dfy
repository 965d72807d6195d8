/** When the cursor of the round-robin scheduler stays in its list. */
module RoundRobinLink {
  import opened TaskList
  import opened Sequences
  import opened RoundRobinModel
  import opened RoundRobinCursor
  import opened RoundRobinExact

  /** Throughout the run, as long as the list is not empty, the cursor is on a node of the list. */
  ghost predicate AlwaysOn(js: seq<Job>, at: Cursor)
    requires Stands(js, at)
    decreases Measure(js, at)
  {
    js == [] || (at.On? && AlwaysOn(Next(js, at).0, Next(js, at).1))
  }

  /** A turn leaves the cursor on a deleted node exactly when the last task of the list finishes and the
    * head, another task, has its name. */
  lemma {:induction false} OffIff(js: seq<Job>, c: nat)
    requires c < |js|
    ensures Next(js, On(c)).1.Off? <==>
      0 < c == |js| - 1 && Left(js[c]) == 0 && js[0].task.name == js[c].task.name
  {
    if Left(js[c]) == 0 {
      var k := Hit(js, On(c));
      assert js[0].task.name == js[c].task.name ==> k == 0;
    }
  }

  /** When every deletion is right the cursor never leaves the list. */
  lemma {:induction false} LoyalStaysOn(js: seq<Job>, c: nat)
    requires Stands(js, On(c)) && Loyal(js, On(c))
    ensures AlwaysOn(js, On(c))
    decreases Measure(js, On(c))
  {
    if js != [] {
      NextOn(js, c);
      LoyalStaysOn(Next(js, On(c)).0, Next(js, On(c)).1.pos);
    }
  }

  /** In particular when no task needs more turns than a namesake further down the list. */
  lemma {:induction false} OrderedStaysOn(js: seq<Job>, c: nat)
    requires Stands(js, On(c)) && Ordered(js, c)
    ensures AlwaysOn(js, On(c))
  {
    LoyalIffFrom(js, c);
    LoyalStaysOn(js, c);
  }

  /** Or when no two tasks have the same name. */
  lemma {:induction false} DistinctNamesStayOn(js: seq<Job>)
    requires forall i, j :: 0 <= i < j < |js| ==> js[i].task.name != js[j].task.name
    ensures AlwaysOn(js, On(0))
  {
    OrderedStaysOn(js, 0);
  }

  /** A list that runs as a rotating queue keeps its cursor exactly when every deletion is right. */
  lemma {:induction false} HarmlessStaysOnIff(js: seq<Job>, c: nat)
    requires Stands(js, On(c)) && DistinctJobs(js) && Harmless(js, c)
    ensures AlwaysOn(js, On(c)) <==> Ordered(js, c)
    decreases Measure(js, On(c))
  {
    LoyalIffFrom(js, c);
    if js != [] {
      var next := Next(js, On(c));
      if Left(js[c]) == 0 && Hit(js, On(c)) != c {
        if c != |js| - 1 || Hit(js, On(c)) != 0 { HarmfulHit(js, c); }
        OffIff(js, c);
      } else {
        RightTurn(js, c);
        HarmlessStaysOnIff(next.0, next.1.pos);
        LoyalIffFrom(next.0, next.1.pos);
      }
    }
  }

  /** On lists with the cursor at the head. */
  lemma {:induction false} FitStaysOnIff(js: seq<Job>)
    requires DistinctJobs(js) && NamesFit(js)
    ensures AlwaysOn(js, On(0)) <==>
      forall i, j :: 0 <= i < j < |js| && js[i].task.name == js[j].task.name ==> Turns(js[i].left) <= Turns(js[j].left)
  {
    NamesFitIffHarmless(js);
    HarmlessStaysOnIff(js, 0);
    LoyalIffFrom(js, 0);
    LoyalIff(js);
  }

  /** Two tasks of one name, the newer with twice the burst: after two turns the cursor stands on the
    * deleted node of the newer one while the list is not empty. */
  lemma {:induction false} LeavesTheList(a: Task, b: Task)
    requires a != b && a.name == b.name
    ensures var second := Next([Job(a, 20), Job(b, 10)], On(0));
      && second == ([Job(a, 10), Job(b, 10)], On(1))
      && Next(second.0, second.1) == ([Job(b, 0)], Off(Job(a, 10)))
    ensures !AlwaysOn([Job(a, 20), Job(b, 10)], On(0))
  {
    var js, js1, js2 := [Job(a, 20), Job(b, 10)], [Job(a, 10), Job(b, 10)], [Job(b, 0)];
    assert Ran(js, On(0)) == js1;
    assert Next(js, On(0)) == (js1, On(1));
    var ran := Ran(js1, On(1));
    assert ran == [Job(a, 10), Job(b, 0)] && Hit(js1, On(1)) == 0 && Without(ran, 0) == js2;
    assert Next(js1, On(1)) == (js2, Off(Job(a, 10)));
    assert !AlwaysOn(js2, Off(Job(a, 10)));
    assert !AlwaysOn(js1, On(1));
  }
}
