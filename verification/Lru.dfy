/** Least-recently-used lists: sequences of distinct keys, oldest first. */
module Lru {
  function Elems<K(==)>(s: seq<K>): set<K> {
    set x | x in s
  }

  predicate Distinct<K(==)>(s: seq<K>) {
    s == [] || (s[0] !in Elems(s[1..]) && Distinct(s[1..]))
  }

  /** list.Remove of the element of k. */
  function Without<K(==)>(s: seq<K>, k: K): seq<K> {
    if s == [] then [] else if s[0] == k then s[1..] else [s[0]] + Without(s[1..], k)
  }

  /** list.MoveToBack or PushBack of k. */
  function Touched<K(==)>(s: seq<K>, k: K): seq<K> {
    Without(s, k) + [k]
  }

  /** The distinct other keys touched since k was: those after its last place in
      the log of touches. */
  function Since<K(==)>(log: seq<K>, k: K): set<K> {
    if log == [] || log[|log| - 1] == k then {}
    else Since(log[..|log| - 1], k) + {log[|log| - 1]}
  }

  /** s lists its keys by last touch. */
  predicate Ordered<K(==)>(s: seq<K>, log: seq<K>) {
    s == [] || (Elems(s[1..]) <= Since(log, s[0]) && Ordered(s[1..], log))
  }

  lemma ElemsCons<K>(s: seq<K>)
    requires s != []
    ensures Elems(s) == {s[0]} + Elems(s[1..])
  {
    assert s == [s[0]] + s[1..];
  }

  lemma {:induction false} WithoutFacts<K>(s: seq<K>, k: K)
    requires Distinct(s)
    ensures var r := Without(s, k);
            && Distinct(r) && Elems(r) == Elems(s) - {k}
            && |r| == (if k in Elems(s) then |s| - 1 else |s|)
  {
    if s != [] {
      ElemsCons(s);
      WithoutFacts(s[1..], k);
      var w := Without(s[1..], k);
      assert ([s[0]] + w)[1..] == w;
      ElemsCons([s[0]] + w);
    }
  }

  lemma {:induction false} SnocFacts<K>(s: seq<K>, k: K)
    requires Distinct(s) && k !in Elems(s)
    ensures Distinct(s + [k]) && Elems(s + [k]) == Elems(s) + {k}
  {
    if s == [] {
      assert s + [k] == [k] && [k][1..] == [];
      ElemsCons([k]);
    } else {
      assert (s + [k])[1..] == s[1..] + [k];
      ElemsCons(s);
      ElemsCons(s + [k]);
      SnocFacts(s[1..], k);
    }
  }

  lemma TouchedFacts<K>(s: seq<K>, k: K)
    requires Distinct(s)
    ensures var r := Touched(s, k);
            && Distinct(r) && Elems(r) == Elems(s) + {k}
            && |r| == (if k in Elems(s) then |s| else |s| + 1)
            && r[|r| - 1] == k
  {
    WithoutFacts(s, k);
    SnocFacts(Without(s, k), k);
  }

  lemma SinceSnoc<K>(log: seq<K>, j: K, k: K)
    ensures Since(log + [j], k) == if j == k then {} else Since(log, k) + {j}
  {
    assert (log + [j])[..|log|] == log;
  }

  lemma {:induction false} OrderedWithout<K>(s: seq<K>, log: seq<K>, k: K)
    requires Distinct(s) && Ordered(s, log)
    ensures Ordered(Without(s, k), log)
  {
    if s != [] && s[0] != k {
      OrderedWithout(s[1..], log, k);
      WithoutFacts(s[1..], k);
      var w := Without(s[1..], k);
      assert ([s[0]] + w)[1..] == w;
    }
  }

  lemma {:induction false} OrderedSnoc<K>(s: seq<K>, log: seq<K>, k: K)
    requires Distinct(s) && k !in Elems(s) && Ordered(s, log)
    ensures Ordered(s + [k], log + [k])
  {
    if s == [] {
      assert s + [k] == [k] && [k][1..] == [];
    } else {
      assert (s + [k])[1..] == s[1..] + [k];
      ElemsCons(s);
      SnocFacts(s[1..], k);
      OrderedSnoc(s[1..], log, k);
      SinceSnoc(log, k, s[0]);
    }
  }

  lemma OrderedTouched<K>(s: seq<K>, log: seq<K>, k: K)
    requires Distinct(s) && Ordered(s, log)
    ensures Ordered(Touched(s, k), log + [k])
  {
    WithoutFacts(s, k);
    OrderedWithout(s, log, k);
    OrderedSnoc(Without(s, k), log, k);
  }

  lemma {:induction false} ElemsCount<K>(s: seq<K>)
    requires Distinct(s)
    ensures |Elems(s)| == |s|
  {
    if s != [] {
      ElemsCons(s);
      ElemsCount(s[1..]);
    }
  }

  lemma SubsetCount<K>(a: set<K>, b: set<K>)
    requires a <= b
    ensures |a| <= |b|
  {
    assert b == a + (b - a);
  }

  /** Whoever is first in the list has seen all the others touched since. */
  lemma FirstIsOldest<K>(s: seq<K>, log: seq<K>)
    requires s != [] && Distinct(s) && Ordered(s, log)
    ensures |Since(log, s[0])| >= |s| - 1
  {
    ElemsCount(s[1..]);
    SubsetCount(Elems(s[1..]), Since(log, s[0]));
  }

  lemma SinceGrows<K>(log: seq<K>, j: K, k: K)
    requires j != k
    ensures |Since(log + [j], k)| >= |Since(log, k)|
  {
    SinceSnoc(log, j, k);
    SubsetCount(Since(log, k), Since(log + [j], k));
  }
}
