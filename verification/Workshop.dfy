/** internal/steam/workshop/details.go: batched lookups and the expansion of
    collections. Titles and the other display fields are left out of Item. */
module Workshop {
  import opened ByteSeq
  import opened Results
  import opened Lru
  import opened Graph
  import opened Selection

  const FILE_TYPE_COLLECTION := 2
  const BATCH_SIZE := 100
  const ERESULT_OK := 1

  datatype Item = Item(id: Uint64, fileType: nat, children: seq<Uint64>, result: nat)
  {
    predicate Available() { result == 0 || result == ERESULT_OK }
    predicate IsCollection() { fileType == FILE_TYPE_COLLECTION }
  }

  // ----------------------------------------------------------------- batching

  /** What GetDetails returns: the answers of the batches that succeed, in order. */
  function Batches(ids: seq<Uint64>, batch: seq<Uint64> -> Option<seq<Item>>): seq<Item>
    decreases |ids|
  {
    if ids == [] then []
    else
      var n := if |ids| < BATCH_SIZE then |ids| else BATCH_SIZE;
      batch(ids[..n]).GetOr([]) + Batches(ids[n..], batch)
  }

  function From(ids: seq<Uint64>, start: nat): seq<Uint64> {
    if start <= |ids| then ids[start..] else []
  }

  lemma BatchesStep(ids: seq<Uint64>, batch: seq<Uint64> -> Option<seq<Item>>, out: seq<Item>, start: nat, end: nat)
    requires start < |ids| && end == if start + BATCH_SIZE > |ids| then |ids| else start + BATCH_SIZE
    ensures out + Batches(From(ids, start), batch)
            == out + batch(ids[start..end]).GetOr([]) + Batches(From(ids, start + BATCH_SIZE), batch)
  {
    var rest, more := From(ids, start), From(ids, start + BATCH_SIZE);
    assert rest[..end - start] == ids[start..end] && rest[end - start..] == more;
    var a, b := batch(ids[start..end]).GetOr([]), Batches(more, batch);
    assert Batches(rest, batch) == a + b;
    assert out + (a + b) == out + a + b;
  }

  method GetDetails(ids: seq<Uint64>, batch: seq<Uint64> -> Option<seq<Item>>) returns (out: seq<Item>)
    ensures out == Batches(ids, batch)
  {
    out := [];
    var start := 0;
    assert From(ids, 0) == ids && out + Batches(ids, batch) == Batches(ids, batch);
    while start < |ids|
      invariant Batches(ids, batch) == out + Batches(From(ids, start), batch)
    {
      hide Batches, From;
      var end := start + BATCH_SIZE;
      if end > |ids| { end := |ids|; }
      var items := batch(ids[start..end]);
      BatchesStep(ids, batch, out, start, end);
      if items.Some? { out := out + items.value; } else { assert out + [] == out; }
      start := start + BATCH_SIZE;
    }
    assert From(ids, start) == [] && out + [] == out;
  }

  function Answers(ids: seq<Uint64>, details: Uint64 -> Item): seq<Item> {
    seq(|ids|, i requires 0 <= i < |ids| => details(ids[i]))
  }

  /** Lookups succeed and are answered in request order. */
  ghost predicate Honest(batch: seq<Uint64> -> Option<seq<Item>>, details: Uint64 -> Item) {
    && (forall id :: details(id).id == id)
    && (forall ids :: |ids| <= BATCH_SIZE ==> batch(ids) == Some(Answers(ids, details)))
  }

  /** Splitting into batches of 100 does not change the answer. */
  lemma {:induction false} BatchingIrrelevant(ids: seq<Uint64>, batch: seq<Uint64> -> Option<seq<Item>>, details: Uint64 -> Item)
    requires Honest(batch, details)
    ensures Batches(ids, batch) == Answers(ids, details)
    decreases |ids|
  {
    if ids != [] {
      var n := if |ids| < BATCH_SIZE then |ids| else BATCH_SIZE;
      BatchingIrrelevant(ids[n..], batch, details);
      assert Answers(ids, details) == Answers(ids[..n], details) + Answers(ids[n..], details);
    }
  }

  /** What the batches are: the ids a hundred at a time, and a batch that fails
      gives nothing and does not keep the next ones from being asked. */
  lemma {:induction false} BatchesOfHundred(ids: seq<Uint64>, batch: seq<Uint64> -> Option<seq<Item>>, k: nat)
    requires 100 * k <= |ids|
    ensures 0 < |ids| <= 100 ==> Batches(ids, batch) == if batch(ids).Some? then batch(ids).value else []
    ensures Batches(ids, batch) == Batches(ids[..100 * k], batch) + Batches(ids[100 * k..], batch)
  {
    if 0 < |ids| <= 100 { assert ids[..|ids|] == ids && batch(ids).GetOr([]) + [] == batch(ids).GetOr([]); }
    if k == 0 {
      assert ids[0..] == ids && ids[..0] == [];
    } else {
      var rest, m := ids[100..], 100 * (k - 1);
      BatchesOfHundred(rest, batch, k - 1);
      assert ids[..100 * k][..100] == ids[..100] && ids[..100 * k][100..] == rest[..m] && ids[100 * k..] == rest[m..];
      var a, b, c := batch(ids[..100]).GetOr([]), Batches(rest[..m], batch), Batches(rest[m..], batch);
      assert a + (b + c) == a + b + c;
    }
  }

  // -------------------------------------------------------------- termination

  /** Whether c is a member the walk looks up because of id. */
  predicate Expands(details: Uint64 -> Item, id: Uint64, c: Uint64) {
    details(id).Available() && details(id).IsCollection() && c in details(id).children
  }

  /** The walk from id ends within n levels of nested collections. */
  ghost predicate Ends(details: Uint64 -> Item, id: Uint64, n: nat)
    decreases n
  {
    forall c :: Expands(details, id, c) ==> n > 0 && Ends(details, c, n - 1)
  }

  ghost predicate EndsFrom(details: Uint64 -> Item, id: Uint64) {
    exists n: nat :: Ends(details, id, n)
  }

  ghost predicate AllEnd(details: Uint64 -> Item, ids: seq<Uint64>) {
    forall id :: id in ids ==> EndsFrom(details, id)
  }

  /** The lookups as a relation. */
  ghost function Lookups(details: Uint64 -> Item): (Uint64, Uint64) -> bool {
    (id: Uint64, c: Uint64) => Expands(details, id, c)
  }

  /** Some collection reachable from these ids is among its own members. */
  ghost predicate CycleAhead(details: Uint64 -> Item, ids: seq<Uint64>) {
    exists id :: id in ids && Looping(Lookups(details), id)
  }

  lemma {:induction false} LongPath(details: Uint64 -> Item, id: Uint64, n: nat) returns (p: seq<Uint64>)
    requires !Ends(details, id, n)
    ensures |p| == n + 2 && p[0] == id && Path(Lookups(details), p)
    decreases n
  {
    var c :| Expands(details, id, c) && !(n > 0 && Ends(details, c, n - 1));
    if n == 0 {
      p := [id, c];
    } else {
      var q := LongPath(details, c, n - 1);
      p := [id] + q;
    }
  }

  /** There are 2^64 ids, so a longer path meets one twice. */
  lemma EndlessMeetsCycle(details: Uint64 -> Item, id: Uint64)
    requires !EndsFrom(details, id)
    ensures Looping(Lookups(details), id)
  {
    hide Path, Looping;
    var p := LongPath(details, id, TWO_64);
    var i, j := Repeats(p, (x: Uint64) => x as nat, TWO_64);
    PathLoops(Lookups(details), p, i, j);
  }

  lemma {:induction false} LoopNeverEnds(details: Uint64 -> Item, id: Uint64, n: nat)
    requires Looping(Lookups(details), id)
    ensures !Ends(details, id, n)
    decreases n
  {
    hide Looping;
    var d := LoopGoesOn(Lookups(details), id);
    if n > 0 { LoopNeverEnds(details, d, n - 1); }
  }

  /** The source keeps no set of visited collections: the walk from these ids ends
      if and only if no collection reachable from them is among its own members,
      directly or indirectly. */
  lemma WalkEndsIffNoCycle(details: Uint64 -> Item, ids: seq<Uint64>)
    ensures AllEnd(details, ids) <==> !CycleAhead(details, ids)
  {
    hide Looping, Ends;
    forall id | id in ids ensures EndsFrom(details, id) <==> !Looping(Lookups(details), id) {
      if !EndsFrom(details, id) {
        EndlessMeetsCycle(details, id);
      } else if Looping(Lookups(details), id) {
        var n: nat :| Ends(details, id, n);
        LoopNeverEnds(details, id, n);
      }
    }
  }

  /** A collection that is its own member is looked up for ever. */
  lemma SelfMemberNeverEnds(details: Uint64 -> Item, id: Uint64, n: nat)
    requires details(id) == Item(id, FILE_TYPE_COLLECTION, [id], ERESULT_OK)
    ensures !Ends(details, id, n)
  {
    assert Expands(details, id, id);
    PathLoops(Lookups(details), [id, id], 0, 1);
    LoopNeverEnds(details, id, n);
  }

  // -------------------------------------------------------------------- depth

  lemma {:induction false} EndsLater(details: Uint64 -> Item, id: Uint64, m: nat, n: nat)
    requires Ends(details, id, m) && m <= n
    ensures Ends(details, id, n)
    decreases n
  {
    forall c | Expands(details, id, c) ensures n > 0 && Ends(details, c, n - 1) {
      EndsLater(details, c, m - 1, n - 1);
    }
  }

  ghost function Least(details: Uint64 -> Item, id: Uint64, n: nat): (r: nat)
    requires Ends(details, id, n)
    ensures r <= n && Ends(details, id, r)
    ensures forall m: nat :: Ends(details, id, m) ==> r <= m
  {
    if n > 0 && Ends(details, id, n - 1) then Least(details, id, n - 1)
    else
      assert forall m: nat :: Ends(details, id, m) ==> n <= m by {
        forall m: nat | Ends(details, id, m) ensures n <= m {
          if m < n { EndsLater(details, id, m, n - 1); }
        }
      }
      n
  }

  /** The number of levels at which the walk from id ends. */
  ghost function Depth(details: Uint64 -> Item, id: Uint64): (d: nat)
    requires EndsFrom(details, id)
    ensures Ends(details, id, d)
    ensures forall m: nat :: Ends(details, id, m) ==> d <= m
  {
    var n: nat :| Ends(details, id, n);
    Least(details, id, n)
  }

  lemma MemberIsLower(details: Uint64 -> Item, id: Uint64, c: Uint64)
    requires EndsFrom(details, id) && Expands(details, id, c)
    ensures EndsFrom(details, c) && Depth(details, c) < Depth(details, id)
  {
    assert Ends(details, c, Depth(details, id) - 1);
  }

  /** Above the depths of all ids. */
  ghost function Height(details: Uint64 -> Item, ids: seq<Uint64>): nat
    requires AllEnd(details, ids)
  {
    if ids == [] then 0
    else
      InitEnds(details, ids);
      var h, d := Height(details, ids[..|ids| - 1]), Depth(details, ids[|ids| - 1]);
      if d < h then h else d + 1
  }

  lemma InitEnds(details: Uint64 -> Item, ids: seq<Uint64>)
    requires AllEnd(details, ids) && ids != []
    ensures AllEnd(details, ids[..|ids| - 1]) && EndsFrom(details, ids[|ids| - 1])
  {
    assert ids[|ids| - 1] in ids;
    forall id | id in ids[..|ids| - 1] ensures id in ids { }
  }

  lemma {:induction false} HeightBound(details: Uint64 -> Item, ids: seq<Uint64>, bound: nat)
    requires forall id :: id in ids ==> EndsFrom(details, id) && Depth(details, id) < bound
    ensures AllEnd(details, ids) && Height(details, ids) <= bound
  {
    if ids != [] {
      InitEnds(details, ids);
      forall id | id in ids[..|ids| - 1] ensures id in ids { }
      HeightBound(details, ids[..|ids| - 1], bound);
    }
  }

  lemma {:induction false} HeightAbove(details: Uint64 -> Item, ids: seq<Uint64>, id: Uint64)
    requires AllEnd(details, ids) && id in ids
    ensures Depth(details, id) < Height(details, ids)
  {
    InitEnds(details, ids);
    var init, x := ids[..|ids| - 1], ids[|ids| - 1];
    if id != x {
      assert ids == init + [x] && id in init;
      HeightAbove(details, init, id);
    }
  }

  lemma MembersLower(details: Uint64 -> Item, id: Uint64)
    requires EndsFrom(details, id) && details(id).Available() && details(id).IsCollection()
    ensures AllEnd(details, details(id).children)
    ensures Height(details, details(id).children) <= Depth(details, id)
  {
    var cs := details(id).children;
    forall c | c in cs ensures EndsFrom(details, c) && Depth(details, c) < Depth(details, id) {
      MemberIsLower(details, id, c);
    }
    HeightBound(details, cs, Depth(details, id));
  }

  // ---------------------------------------------------------------- expansion

  /** The downloadable leaves of a list of ids, depth first, left to right, with
      repetitions; items that are not available have none. */
  ghost function Leaves(ids: seq<Uint64>, details: Uint64 -> Item): seq<Uint64>
    requires AllEnd(details, ids)
    decreases Height(details, ids), 0, |ids|
  {
    if ids == [] then [] else
    InitEnds(details, ids);
    HeightAbove(details, ids, ids[|ids| - 1]);
    Leaves(ids[..|ids| - 1], details) + LeavesOf(ids[|ids| - 1], details)
  }

  ghost function LeavesOf(id: Uint64, details: Uint64 -> Item): seq<Uint64>
    requires EndsFrom(details, id)
    decreases Depth(details, id), 1, 0
  {
    var it := details(id);
    if !it.Available() then []
    else if it.IsCollection() then MembersLower(details, id); Leaves(it.children, details)
    else [it.id]
  }

  lemma {:induction false} LeavesAppend(a: seq<Uint64>, b: seq<Uint64>, details: Uint64 -> Item)
    requires AllEnd(details, a) && AllEnd(details, b)
    ensures AllEnd(details, a + b) && Leaves(a + b, details) == Leaves(a, details) + Leaves(b, details)
    decreases |b|
  {
    hide LeavesOf, EndsFrom;
    if b == [] {
      assert a + b == a;
    } else {
      var init, x := b[..|b| - 1], b[|b| - 1];
      InitEnds(details, b);
      LeavesAppend(a, init, details);
      assert (a + b)[..|a + b| - 1] == a + init;
      var l, m, n := Leaves(a, details), Leaves(init, details), LeavesOf(x, details);
      assert l + m + n == l + (m + n);
    }
  }

  /** What one id of a list stands for: nothing if its result is neither 0 nor 1,
      its members in its place if its file type is 2, and itself otherwise. */
  lemma LeavesMeans(a: seq<Uint64>, id: Uint64, b: seq<Uint64>, details: Uint64 -> Item)
    requires AllEnd(details, a) && EndsFrom(details, id) && AllEnd(details, b)
    ensures var it := details(id);
            && AllEnd(details, a + [id] + b)
            && (it.result in {0, 1} && it.fileType == 2 ==> AllEnd(details, it.children))
            && Leaves(a + [id] + b, details)
               == Leaves(a, details)
                  + (if it.result !in {0, 1} then [] else if it.fileType == 2 then Leaves(it.children, details) else [it.id])
                  + Leaves(b, details)
  {
    LeavesCases(id, details);
    assert AllEnd(details, [id]) && Leaves([id], details) == LeavesOf(id, details) by { OneLeaf(id, details); }
    hide Leaves, LeavesOf, EndsFrom, AllEnd;
    LeavesAppend(a, [id], details);
    LeavesAppend(a + [id], b, details);
  }

  lemma OneLeaf(id: Uint64, details: Uint64 -> Item)
    requires EndsFrom(details, id)
    ensures AllEnd(details, [id]) && Leaves([id], details) == LeavesOf(id, details)
  {
    hide LeavesOf, EndsFrom;
    assert [id][..0] == [];
    NoLeaves(details);
    assert Leaves([id], details) == Leaves([], details) + LeavesOf(id, details);
  }

  /** c is listed in the collection id, which was found. */
  ghost function Members(details: Uint64 -> Item): (Uint64, Uint64) -> bool {
    (id: Uint64, c: Uint64) => details(id).result in {0, 1} && details(id).fileType == 2 && c in details(id).children
  }

  /** x can be downloaded, and is reached from id through collections. */
  ghost predicate Downloadable(details: Uint64 -> Item, id: Uint64, x: Uint64) {
    Reachable(Members(details), id, x) && details(x).result in {0, 1} && details(x).fileType != 2
  }

  /** The leaves are exactly the items that were found, are no collections, and are
      reached from the ids through collections that were found. */
  lemma {:induction false} LeavesExact(ids: seq<Uint64>, details: Uint64 -> Item, x: Uint64)
    requires AllEnd(details, ids) && forall id :: details(id).id == id
    ensures x in Leaves(ids, details) <==> exists id :: id in ids && Downloadable(details, id, x)
    decreases Height(details, ids), 0, |ids|
  {
    if ids != [] {
      var init, last := ids[..|ids| - 1], ids[|ids| - 1];
      InitEnds(details, ids);
      HeightAbove(details, ids, last);
      LeavesExact(init, details, x);
      LeavesOfExact(last, details, x);
      hide Downloadable, LeavesOf, AllEnd, EndsFrom;
      assert ids == init + [last];
      if id :| id in ids && Downloadable(details, id, x) { assert id in init || id == last; }
      if id :| id in init && Downloadable(details, id, x) { assert id in ids; }
      assert last in ids;
    }
  }

  lemma {:induction false} LeavesOfExact(id: Uint64, details: Uint64 -> Item, x: Uint64)
    requires EndsFrom(details, id) && forall id :: details(id).id == id
    ensures x in LeavesOf(id, details) <==> Downloadable(details, id, x)
    decreases Depth(details, id), 1, 0
  {
    var it := details(id);
    LeavesCases(id, details);
    ReachableStep(Members(details), id, x);
    if it.Available() && it.IsCollection() {
      MembersLower(details, id);
      LeavesExact(it.children, details, x);
      hide Leaves, LeavesOf, AllEnd, EndsFrom, Reachable;
      if Reachable(Members(details), id, x) && x != id {
        var c :| Members(details)(id, c) && Reachable(Members(details), c, x);
        assert c in it.children;
      }
      if c :| c in it.children && Downloadable(details, c, x) { assert Members(details)(id, c); }
    } else {
      hide Leaves, LeavesOf, AllEnd, EndsFrom, Reachable;
      assert forall c :: !Members(details)(id, c);
    }
  }

  /** First occurrences only, in order. */
  function Dedup(s: seq<Uint64>): seq<Uint64> {
    if s == [] then [] else
    var d, x := Dedup(s[..|s| - 1]), s[|s| - 1];
    if x in d then d else d + [x]
  }

  predicate FirstAt(s: seq<Uint64>, k: nat) {
    k < |s| && s[k] !in s[..k]
  }

  lemma {:induction false} DedupSelected(s: seq<Uint64>)
    ensures Selected(s, (k: nat) => FirstAt(s, k), Dedup(s))
  {
    if s == [] {
      NoneSelected<Uint64>((k: nat) => FirstAt(s, k));
    } else {
      var init, x := s[..|s| - 1], s[|s| - 1];
      DedupSelected(init);
      DedupElems(init);
      InElems(init, x);
      InElems(Dedup(init), x);
      assert s == init + [x];
      forall k: nat | k < |init| ensures s[..k] == init[..k] && s[k] == init[k] { }
      SelectedSnoc(init, x, (k: nat) => FirstAt(init, k), (k: nat) => FirstAt(s, k), Dedup(init));
    }
  }

  lemma DedupSnoc(s: seq<Uint64>, x: Uint64)
    ensures Dedup(s + [x]) == if x in Dedup(s) then Dedup(s) else Dedup(s) + [x]
  {
    assert (s + [x])[..|s|] == s;
  }

  lemma {:induction false} DedupElems(s: seq<Uint64>)
    ensures Elems(Dedup(s)) == Elems(s)
  {
    if s != [] {
      var init, x := s[..|s| - 1], s[|s| - 1];
      DedupElems(init);
      assert s == init + [x];
      InElems(init, x);
      InElems(Dedup(init), x);
    }
  }

  /** The de-duplicating prologue of ResolveIDs. */
  method Unique(ids: seq<Uint64>) returns (unique: seq<Uint64>)
    ensures unique == Dedup(ids)
  {
    var seenIn: set<Uint64> := {};
    unique := [];
    for k := 0 to |ids|
      invariant unique == Dedup(ids[..k]) && seenIn == Elems(unique)
    {
      assert ids[..k + 1] == ids[..k] + [ids[k]];
      DedupSnoc(ids[..k], ids[k]);
      if ids[k] in seenIn { continue; }
      seenIn := seenIn + {ids[k]};
      unique := unique + [ids[k]];
    }
    assert ids[..|ids|] == ids;
  }

  lemma AppendSnoc(found: seq<Uint64>, ids: seq<Uint64>, k: nat, details: Uint64 -> Item)
    requires AllEnd(details, ids) && k < |ids|
    ensures AllEnd(details, ids[..k]) && AllEnd(details, ids[..k + 1]) && EndsFrom(details, ids[k])
    ensures found + Leaves(ids[..k + 1], details) == found + Leaves(ids[..k], details) + LeavesOf(ids[k], details)
  {
    assert ids[..k + 1][..k] == ids[..k];
    forall id | id in ids[..k + 1] ensures id in ids { }
    InitEnds(details, ids[..k + 1]);
    hide AllEnd, EndsFrom, LeavesOf;
    var a, b := Leaves(ids[..k], details), LeavesOf(ids[k], details);
    assert Leaves(ids[..k + 1], details) == a + b;
    assert found + (a + b) == found + a + b;
  }

  lemma LeavesCases(id: Uint64, details: Uint64 -> Item)
    requires EndsFrom(details, id)
    ensures !details(id).Available() ==> LeavesOf(id, details) == []
    ensures details(id).Available() && details(id).IsCollection() ==>
              AllEnd(details, details(id).children)
              && Height(details, details(id).children) <= Depth(details, id)
              && LeavesOf(id, details) == Leaves(details(id).children, details)
    ensures details(id).Available() && !details(id).IsCollection() ==> LeavesOf(id, details) == [details(id).id]
  {
    if details(id).Available() && details(id).IsCollection() { MembersLower(details, id); }
    hide EndsFrom, AllEnd, Leaves;
  }

  lemma NoLeaves(details: Uint64 -> Item)
    ensures AllEnd(details, []) && Leaves([], details) == []
  {
  }

  /** What the k-th item adds to the leaves met so far. */
  lemma OneMore(found: seq<Uint64>, ids: seq<Uint64>, k: nat, details: Uint64 -> Item)
    requires AllEnd(details, ids) && k < |ids|
    ensures AllEnd(details, ids[..k]) && AllEnd(details, ids[..k + 1])
    ensures var it, now, next := details(ids[k]), found + Leaves(ids[..k], details), found + Leaves(ids[..k + 1], details);
            && (!it.Available() || (it.IsCollection() && it.children == []) ==> next == now)
            && (it.Available() && it.IsCollection() ==>
                  AllEnd(details, it.children) && Height(details, it.children) < Height(details, ids)
                  && next == now + Leaves(it.children, details))
            && (it.Available() && !it.IsCollection() ==>
                  Dedup(next) == if it.id in Dedup(now) then Dedup(now) else Dedup(now) + [it.id])
  {
    hide Leaves, LeavesOf, Dedup, AllEnd, EndsFrom, Height, Depth;
    AppendSnoc(found, ids, k, details);
    LeavesCases(ids[k], details);
    HeightAbove(details, ids, ids[k]);
    NoLeaves(details);
    var now := found + Leaves(ids[..k], details);
    assert now + [] == now;
    DedupSnoc(now, details(ids[k]).id);
  }

  /** The recursive closure of ResolveIDs. found: all leaves met so far. */
  method Walk(ids: seq<Uint64>, batch: seq<Uint64> -> Option<seq<Item>>, seenOut: set<Uint64>, resolved: seq<Uint64>,
              ghost details: Uint64 -> Item, ghost found: seq<Uint64>)
      returns (seen: set<Uint64>, res: seq<Uint64>)
    requires Honest(batch, details) && AllEnd(details, ids)
    requires resolved == Dedup(found) && seenOut == Elems(resolved)
    ensures res == Dedup(found + Leaves(ids, details)) && seen == Elems(res)
    decreases Height(details, ids)
  {
    hide Leaves, LeavesOf, Dedup, Elems, Batches, AllEnd, EndsFrom, Honest, Height, Depth;
    var items := GetDetails(ids, batch);
    BatchingIrrelevant(ids, batch, details);
    seen, res := seenOut, resolved;
    NoLeaves(details);
    assert found + [] == found && ids[..0] == [];
    for k := 0 to |items|
      invariant |items| == |ids| && AllEnd(details, ids[..k])
      invariant res == Dedup(found + Leaves(ids[..k], details)) && seen == Elems(res)
    {
      var it := items[k];
      OneMore(found, ids, k, details);
      ghost var now := found + Leaves(ids[..k], details);
      if !(it.result == 0 || it.result == ERESULT_OK) { continue; }
      if it.fileType == FILE_TYPE_COLLECTION {
        if |it.children| > 0 {
          seen, res := Walk(it.children, batch, seen, res, details, now);
        }
        continue;
      }
      InElems(res, it.id);
      if it.id in seen { continue; }
      seen := seen + {it.id};
      res := res + [it.id];
    }
    assert ids[..|ids|] == ids;
  }

  lemma InElems(s: seq<Uint64>, x: Uint64)
    ensures x in Elems(s) <==> x in s
    ensures Elems(s + [x]) == Elems(s) + {x}
  {
  }

  /** ResolveIDs: if no collection reachable from the ids is among its own members,
      it ends with the leaves of the ids, first occurrences only. */
  method ResolveIDs(ids: seq<Uint64>, batch: seq<Uint64> -> Option<seq<Item>>, ghost details: Uint64 -> Item)
      returns (resolved: seq<Uint64>)
    requires Honest(batch, details) && !CycleAhead(details, ids)
    ensures AllEnd(details, ids) && resolved == Dedup(Leaves(ids, details))
  {
    WalkEndsIffNoCycle(details, ids);
    var unique := Unique(ids);
    DedupInputIrrelevant(ids, details);
    hide AllEnd, CycleAhead, Honest;
    var _, res := Walk(unique, batch, {}, [], details, []);
    assert [] + Leaves(unique, details) == Leaves(unique, details);
    return res;
  }

  lemma {:induction false} DedupAbsorbs(a: seq<Uint64>, b: seq<Uint64>)
    requires Elems(b) <= Elems(a)
    ensures Dedup(a + b) == Dedup(a)
    decreases |b|
  {
    if b == [] {
      assert a + b == a;
    } else {
      var init, x := b[..|b| - 1], b[|b| - 1];
      assert a + b == a + init + [x] && x in Elems(b);
      DedupAbsorbs(a, init);
      DedupSnoc(a + init, x);
      DedupElems(a);
      InElems(Dedup(a), x);
    }
  }

  lemma {:induction false} DedupCongruent(a: seq<Uint64>, a': seq<Uint64>, b: seq<Uint64>)
    requires Dedup(a) == Dedup(a')
    ensures Dedup(a + b) == Dedup(a' + b)
    decreases |b|
  {
    if b == [] {
      assert a + b == a && a' + b == a';
    } else {
      var init, x := b[..|b| - 1], b[|b| - 1];
      assert a + b == a + init + [x] && a' + b == a' + init + [x];
      DedupCongruent(a, a', init);
      DedupSnoc(a + init, x);
      DedupSnoc(a' + init, x);
    }
  }

  lemma {:induction false} LeavesInclude(ids: seq<Uint64>, id: Uint64, details: Uint64 -> Item)
    requires AllEnd(details, ids) && id in ids
    ensures EndsFrom(details, id) && Elems(LeavesOf(id, details)) <= Elems(Leaves(ids, details))
    decreases |ids|
  {
    hide LeavesOf, EndsFrom;
    InitEnds(details, ids);
    var init, x := ids[..|ids| - 1], ids[|ids| - 1];
    if id != x {
      assert ids == init + [x] && id in init;
      LeavesInclude(init, id, details);
    }
  }

  /** De-duplicating the input first makes no difference to the result. */
  lemma {:induction false} DedupInputIrrelevant(ids: seq<Uint64>, details: Uint64 -> Item)
    requires AllEnd(details, ids)
    ensures AllEnd(details, Dedup(ids))
    ensures Dedup(Leaves(Dedup(ids), details)) == Dedup(Leaves(ids, details))
    decreases |ids|
  {
    hide LeavesOf, EndsFrom;
    if ids == [] {
      NoLeaves(details);
    } else {
      var init, x := ids[..|ids| - 1], ids[|ids| - 1];
      InitEnds(details, ids);
      DedupInputIrrelevant(init, details);
      DedupElems(init);
      var d, of := Dedup(init), LeavesOf(x, details);
      InElems(init, x);
      InElems(d, x);
      if x in d {
        LeavesInclude(init, x, details);
        DedupAbsorbs(Leaves(init, details), of);
      } else {
        assert (d + [x])[..|d|] == d;
        DedupCongruent(Leaves(d, details), Leaves(init, details), of);
      }
    }
  }
}
