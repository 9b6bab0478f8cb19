/** Walks along a relation: if nothing walked into comes back to itself, and there
    are only so many things, the walk ends. */
module Graph {
  import opened Lru

  /** Each element of the path is reached in one step from the one before. */
  ghost predicate Path<T(!new)>(step: (T, T) -> bool, p: seq<T>) {
    forall i :: 0 <= i < |p| - 1 ==> step(p[i], p[i + 1])
  }

  ghost predicate Leads<T(!new)>(step: (T, T) -> bool, p: seq<T>, a: T, b: T) {
    |p| >= 1 && p[0] == a && p[|p| - 1] == b && Path(step, p)
  }

  /** In some number of steps, possibly none. */
  ghost predicate Reachable<T(!new)>(step: (T, T) -> bool, a: T, b: T) {
    exists p :: Leads(step, p, a, b)
  }

  /** Reached from itself in one step or more. */
  ghost predicate OnCycle<T(!new)>(step: (T, T) -> bool, c: T) {
    exists p :: |p| >= 2 && Leads(step, p, c, c)
  }

  /** Something reachable from a is reached from itself. */
  ghost predicate Looping<T(!new)>(step: (T, T) -> bool, a: T) {
    exists c :: Reachable(step, a, c) && OnCycle(step, c)
  }

  /** To b in no step, or in one step and then on. */
  lemma ReachableStep<T(!new)>(step: (T, T) -> bool, a: T, b: T)
    ensures Reachable(step, a, b) <==> a == b || exists c :: step(a, c) && Reachable(step, c, b)
  {
    if a == b { assert Leads(step, [a], a, b); }
    if c :| step(a, c) && Reachable(step, c, b) {
      var p :| Leads(step, p, c, b);
      assert Leads(step, [a] + p, a, b);
    }
    if Reachable(step, a, b) && a != b {
      var p :| Leads(step, p, a, b);
      assert Leads(step, p[1..], p[1], b);
      assert step(a, p[1]) && Reachable(step, p[1], b);
    }
  }

  lemma PathLoops<T(!new)>(step: (T, T) -> bool, p: seq<T>, i: nat, j: nat)
    requires i < j < |p| && p[i] == p[j] && Path(step, p)
    ensures Looping(step, p[0])
  {
    var to, round := p[..i + 1], p[i..j + 1];
    assert Leads(step, to, p[0], p[i]);
    assert Leads(step, round, p[i], p[i]);
    assert Reachable(step, p[0], p[i]) && OnCycle(step, p[i]);
  }

  lemma LoopGoesOn<T(!new)>(step: (T, T) -> bool, a: T) returns (b: T)
    requires Looping(step, a)
    ensures step(a, b) && Looping(step, b)
  {
    var c :| Reachable(step, a, c) && OnCycle(step, c);
    var p :| Leads(step, p, a, c);
    if |p| == 1 { p :| |p| >= 2 && Leads(step, p, c, c); }
    b := p[1];
    assert Leads(step, p[1..], b, c);
    assert Reachable(step, b, c);
  }

  lemma {:induction false} CountBelow(s: set<nat>, bound: nat)
    requires forall x :: x in s ==> x < bound
    ensures |s| <= bound
  {
    if bound == 0 {
      assert s == {};
    } else {
      CountBelow(s - {bound - 1}, bound - 1);
    }
  }

  lemma {:induction false} SomeTwice<T(!new)>(p: seq<T>) returns (i: nat, j: nat)
    requires !Distinct(p)
    ensures i < j < |p| && p[i] == p[j]
  {
    if p[0] in Elems(p[1..]) {
      var k :| 0 <= k < |p| - 1 && p[1..][k] == p[0];
      i, j := 0, k + 1;
    } else {
      i, j := SomeTwice(p[1..]);
      i, j := i + 1, j + 1;
    }
  }

  /** With fewer codes than elements, two elements are the same. */
  lemma Repeats<T(!new)>(p: seq<T>, code: T -> nat, bound: nat) returns (i: nat, j: nat)
    requires |p| > bound && forall x :: x in p ==> code(x) < bound
    requires forall x, y :: x in p && y in p && code(x) == code(y) ==> x == y
    ensures i < j < |p| && p[i] == p[j]
  {
    var codes := seq(|p|, k requires 0 <= k < |p| => code(p[k]));
    if Distinct(codes) {
      ElemsCount(codes);
      CountBelow(Elems(codes), bound);
      assert false;
    }
    i, j := SomeTwice(codes);
    assert p[i] in p && p[j] in p && codes[i] == codes[j];
  }
}
