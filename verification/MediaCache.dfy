/** internal/web/media.go: the preview cache, bounded in entries and in bytes.
    Time is a parameter of each call; the mutex makes calls atomic. */
module MediaCache {
  import opened ByteSeq
  import opened Results
  import opened Lru

  datatype Media = Media(body: Bytes, ctype: string, expires: int)
  datatype State = State(data: map<string, Media>, order: seq<string>, bytes: int)

  /** Stored body lengths, summed along the list. */
  function Total(data: map<string, Media>, order: seq<string>): nat
    requires Elems(order) <= data.Keys
  {
    if order == [] then 0
    else
      assert order[0] in Elems(order) && Elems(order[1..]) <= Elems(order);
      |data[order[0]].body| + Total(data, order[1..])
  }

  /** Map and list in bijection, and the byte count exact. */
  predicate Sound(s: State) {
    Distinct(s.order) && Elems(s.order) == s.data.Keys && s.bytes == Total(s.data, s.order)
  }

  predicate WithinLimits(s: State, maxItems: nat, maxBytes: nat) {
    |s.order| <= maxItems && s.bytes <= maxBytes
  }

  function Removed(s: State, key: string): State
    requires key in s.data
  {
    State(s.data - {key}, Without(s.order, key), s.bytes - |s.data[key].body|)
  }

  function Got(s: State, key: string, now: int): (State, Option<Media>) {
    if key !in s.data then (s, None)
    else if s.data[key].expires <= now then (Removed(s, key), None)
    else (s.(order := Touched(s.order, key)), Some(s.data[key]))
  }

  /** The new entry at the back, before any eviction. */
  function Stored(s: State, key: string, m: Media): State {
    var before := if key in s.data then |s.data[key].body| else 0;
    State(s.data[key := m], Touched(s.order, key), s.bytes - before + |m.body|)
  }

  function Evicted(s: State, maxItems: nat, maxBytes: nat): State
    requires Sound(s)
    decreases |s.order|
  {
    if WithinLimits(s, maxItems, maxBytes) || s.order == [] then s
    else RemoveFront(s); Evicted(Removed(s, s.order[0]), maxItems, maxBytes)
  }

  function Put(s: State, key: string, m: Media, maxItems: nat, maxBytes: nat): State
    requires Sound(s)
  {
    StoredSound(s, key, m);
    Evicted(Stored(s, key, m), maxItems, maxBytes)
  }

  // --------------------------------------------------------- accounting lemmas

  lemma {:induction false} TotalAgrees(a: map<string, Media>, b: map<string, Media>, order: seq<string>)
    requires Elems(order) <= a.Keys && Elems(order) <= b.Keys
    requires forall k :: k in Elems(order) ==> a[k] == b[k]
    ensures Total(a, order) == Total(b, order)
  {
    if order != [] {
      ElemsCons(order);
      TotalAgrees(a, b, order[1..]);
    }
  }

  lemma {:induction false} TotalWithout(data: map<string, Media>, order: seq<string>, k: string)
    requires Distinct(order) && Elems(order) <= data.Keys
    ensures Elems(Without(order, k)) <= data.Keys
    ensures Total(data, Without(order, k)) == Total(data, order) - (if k in Elems(order) then |data[k].body| else 0)
  {
    WithoutFacts(order, k);
    if order != [] {
      ElemsCons(order);
      if order[0] != k {
        TotalWithout(data, order[1..], k);
        var w := Without(order[1..], k);
        assert Without(order, k) == [order[0]] + w && ([order[0]] + w)[1..] == w;
      }
    }
  }

  lemma {:induction false} TotalSnoc(data: map<string, Media>, order: seq<string>, k: string)
    requires Elems(order) <= data.Keys && k in data
    ensures Elems(order + [k]) <= data.Keys
    ensures Total(data, order + [k]) == Total(data, order) + |data[k].body|
  {
    if order == [] {
      assert order + [k] == [k] && [k][1..] == [];
      assert Total(data, [k]) == |data[k].body| + Total(data, []);
    } else {
      ElemsCons(order);
      assert (order + [k])[1..] == order[1..] + [k];
      ElemsCons(order + [k]);
      TotalSnoc(data, order[1..], k);
    }
  }

  lemma RemovedSound(s: State, key: string)
    requires Sound(s) && key in s.data
    ensures Sound(Removed(s, key))
  {
    WithoutFacts(s.order, key);
    TotalWithout(s.data, s.order, key);
    TotalAgrees(s.data, s.data - {key}, Without(s.order, key));
  }

  lemma RemoveFront(s: State)
    requires Sound(s) && s.order != []
    ensures s.order[0] in s.data && Sound(Removed(s, s.order[0]))
    ensures Without(s.order, s.order[0]) == s.order[1..]
  {
    ElemsCons(s.order);
    RemovedSound(s, s.order[0]);
  }

  lemma TouchedSound(s: State, key: string)
    requires Sound(s) && key in s.data
    ensures Sound(s.(order := Touched(s.order, key)))
  {
    WithoutFacts(s.order, key);
    TouchedFacts(s.order, key);
    TotalWithout(s.data, s.order, key);
    TotalSnoc(s.data, Without(s.order, key), key);
  }

  lemma StoredSound(s: State, key: string, m: Media)
    requires Sound(s)
    ensures Sound(Stored(s, key, m))
  {
    var data, w := s.data[key := m], Without(s.order, key);
    WithoutFacts(s.order, key);
    TouchedFacts(s.order, key);
    TotalWithout(s.data, s.order, key);
    TotalAgrees(s.data, data, w);
    TotalSnoc(data, w, key);
  }

  // ------------------------------------------------------------- what put does

  /** The list from its n-th entry on respects both limits. */
  predicate Fits(s: State, n: nat, maxItems: nat, maxBytes: nat)
    requires n <= |s.order| && Sound(s)
  {
    SuffixElems(s.order, n);
    |s.order| - n <= maxItems && Total(s.data, s.order[n..]) <= maxBytes
  }

  lemma SuffixElems(order: seq<string>, n: nat)
    requires n <= |order|
    ensures Elems(order[n..]) <= Elems(order)
  {
  }

  /** Eviction drops precisely the shortest prefix of the list, oldest first,
      that restores both limits, and drops nothing else. */
  lemma {:induction false} EvictsShortestPrefix(s: State, maxItems: nat, maxBytes: nat) returns (n: nat)
    requires Sound(s)
    ensures n <= |s.order| && Fits(s, n, maxItems, maxBytes)
    ensures forall m :: 0 <= m < n ==> !Fits(s, m, maxItems, maxBytes)
    ensures var e := Evicted(s, maxItems, maxBytes);
            && Sound(e) && WithinLimits(e, maxItems, maxBytes)
            && e.order == s.order[n..]
            && (forall k :: k in e.data ==> k in s.data && e.data[k] == s.data[k])
    decreases |s.order|
  {
    if WithinLimits(s, maxItems, maxBytes) || s.order == [] {
      n := 0;
      assert s.order[0..] == s.order;
    } else {
      RemoveFront(s);
      var t := Removed(s, s.order[0]);
      var n' := EvictsShortestPrefix(t, maxItems, maxBytes);
      n := n' + 1;
      forall m | 0 <= m <= n' ensures Fits(s, m + 1, maxItems, maxBytes) <==> Fits(t, m, maxItems, maxBytes) {
        assert s.order[m + 1..] == t.order[m..];
        SuffixElems(t.order, m);
        TotalAgrees(s.data, t.data, t.order[m..]);
      }
      assert s.order[0..] == s.order;
      assert !Fits(s, 0, maxItems, maxBytes);
      forall m | 0 <= m < n ensures !Fits(s, m, maxItems, maxBytes) {
        if m > 0 { assert !Fits(t, m - 1, maxItems, maxBytes); }
      }
      assert s.order[n..] == t.order[n'..];
    }
  }

  /** A put keeps the accounting and both limits; the entry is stored, and never
      evicted by its own put, if and only if its body fits the byte limit. */
  lemma PutEffect(s: State, key: string, m: Media, maxItems: nat, maxBytes: nat)
    requires Sound(s) && maxItems >= 1
    ensures var e := Put(s, key, m, maxItems, maxBytes);
            && Sound(e) && WithinLimits(e, maxItems, maxBytes)
            && (key in e.data <==> |m.body| <= maxBytes)
            && (key in e.data ==> e.data[key] == m)
            && (forall k :: k in e.data && k != key ==> k in s.data && e.data[k] == s.data[k])
  {
    var t := Stored(s, key, m);
    StoredSound(s, key, m);
    TouchedFacts(s.order, key);
    LastEntry(t, maxItems, maxBytes);
    var n := EvictsShortestPrefix(t, maxItems, maxBytes);
  }

  /** The newest entry survives eviction if and only if its body fits. */
  lemma LastEntry(t: State, maxItems: nat, maxBytes: nat)
    requires Sound(t) && t.order != [] && maxItems >= 1
    ensures var key := t.order[|t.order| - 1];
            key in t.data && (key in Evicted(t, maxItems, maxBytes).data <==> |t.data[key].body| <= maxBytes)
  {
    var last := |t.order| - 1;
    var key, body := t.order[last], t.data[t.order[last]].body;
    var e := Evicted(t, maxItems, maxBytes);
    var n := EvictsShortestPrefix(t, maxItems, maxBytes);
    assert t.order[last..] == [key] && [key][1..] == [];
    assert Total(t.data, t.order[last..]) == |body| + Total(t.data, []);
    if |body| <= maxBytes {
      assert Fits(t, last, maxItems, maxBytes);
      assert e.order[last - n] == key;
    }
    if n <= last {
      SuffixElems(t.order, n);
      TotalSuffix(t.data, t.order[n..], last - n);
      assert t.order[n..][last - n..] == t.order[last..];
    }
  }

  lemma {:induction false} TotalSuffix(data: map<string, Media>, order: seq<string>, n: nat)
    requires n <= |order| && Elems(order) <= data.Keys
    ensures Elems(order[n..]) <= data.Keys && Total(data, order[n..]) <= Total(data, order)
  {
    if n > 0 {
      ElemsCons(order);
      TotalSuffix(data, order[1..], n - 1);
      assert order[n..] == order[1..][n - 1..];
    } else {
      assert order[0..] == order;
    }
  }

  /** What a get leaves: an expired entry is dropped from map, list and byte count,
      a live one becomes the newest, and nothing else changes. */
  lemma GetEffect(s: State, key: string, now: int)
    requires Sound(s)
    ensures var (t, m) := Got(s, key, now);
            var live := key in s.data && s.data[key].expires > now;
            && Sound(t) && m == (if live then Some(s.data[key]) else None)
            && (forall k :: k in t.data <==> k in s.data && (k != key || live))
            && (forall k :: k in t.data ==> t.data[k] == s.data[k])
            && t.order == if live then Without(s.order, key) + [key] else if key in s.data then Without(s.order, key) else s.order
  {
    if key in s.data {
      RemovedSound(s, key);
      TouchedSound(s, key);
    }
    hide Total;
  }

  class Cache {
    const maxItems: nat
    const maxBytes: nat
    const ttl: int
    var bytes: int
    var data: map<string, Media>
    var order: seq<string>

    function Now(): State
      reads this
    {
      State(data, order, bytes)
    }

    predicate Valid()
      reads this
    {
      maxItems >= 1 && Sound(Now()) && WithinLimits(Now(), maxItems, maxBytes)
    }

    constructor (maxItems: nat, maxBytes: nat, ttl: int)
      requires maxItems >= 1
      ensures Valid() && Now() == State(map[], [], 0)
      ensures this.maxItems == maxItems && this.maxBytes == maxBytes && this.ttl == ttl
    {
      this.maxItems, this.maxBytes, this.ttl := maxItems, maxBytes, ttl;
      bytes, data, order := 0, map[], [];
    }

    method GetMedia(key: string, now: int) returns (m: Option<Media>)
      requires Valid()
      modifies this
      ensures Valid() && (Now(), m) == Got(old(Now()), key, now)
    {
      if key !in data { return None; }
      var ent := data[key];
      TouchedSound(Now(), key);
      WithoutFacts(order, key);
      TouchedFacts(order, key);
      if !(ent.expires > now) {
        RemoveLocked(key);
        return None;
      }
      order := Touched(order, key);
      return Some(ent);
    }

    method RemoveLocked(key: string)
      requires Sound(Now()) && key in data
      modifies this
      ensures Sound(Now()) && Now() == Removed(old(Now()), key)
    {
      RemovedSound(Now(), key);
      var body := data[key].body;
      order := Without(order, key);
      data := data - {key};
      bytes := bytes - |body|;
    }

    method PutMedia(key: string, body: Bytes, ctype: string, now: int)
      requires Valid()
      modifies this
      ensures Valid() && Now() == Put(old(Now()), key, Media(body, ctype, now + ttl), maxItems, maxBytes)
    {
      ghost var m := Media(body, ctype, now + ttl);
      StoredSound(Now(), key, m);
      if key in data {
        bytes := bytes - |data[key].body|;
        data := data[key := Media(body, ctype, now + ttl)];
        bytes := bytes + |body|;
        order := Touched(order, key);
        EvictLocked();
        return;
      }
      order := Touched(order, key);
      data := data[key := Media(body, ctype, now + ttl)];
      bytes := bytes + |body|;
      EvictLocked();
    }

    method EvictLocked()
      requires Sound(Now())
      modifies this
      ensures Now() == Evicted(old(Now()), maxItems, maxBytes)
      ensures Sound(Now()) && WithinLimits(Now(), maxItems, maxBytes)
    {
      while |data| > maxItems || bytes > maxBytes
        invariant Sound(Now())
        invariant Evicted(old(Now()), maxItems, maxBytes) == Evicted(Now(), maxItems, maxBytes)
        decreases |order|
      {
        ElemsCount(order);
        if |order| == 0 { break; }
        RemoveFront(Now());
        RemoveLocked(order[0]);
      }
      ElemsCount(order);
    }
  }

  // -------------------------------------------------------------- whole runs

  datatype Op = DoGet(key: string, now: int) | DoPut(key: string, media: Media, now: int)

  /** What to compare with: a map without bound that only puts change, and the log
      of touches (a put or a hit). crowded: the entries that at some moment since
      their last touch did not fit the limits together with those touched since. */
  datatype Run = Run(cache: State, puts: map<string, Media>, log: seq<string>, clock: int, crowded: set<string>)

  /** The lengths of these entries' bodies together. */
  ghost function Weight(puts: map<string, Media>, s: set<string>): nat {
    if s == {} then 0
    else
      var k :| k in s;
      Length(puts, k) + Weight(puts, s - {k})
  }

  function Length(puts: map<string, Media>, k: string): nat {
    if k in puts then |puts[k].body| else 0
  }

  /** k and the entries touched since it was do not fit the limits. */
  ghost predicate Crowds(puts: map<string, Media>, log: seq<string>, k: string, maxItems: nat, maxBytes: nat) {
    1 + |Since(log, k)| > maxItems || Length(puts, k) + Weight(puts, Since(log, k)) > maxBytes
  }

  ghost function Touch(r: Run, s: State, puts: map<string, Media>, key: string, now: int, maxItems: nat, maxBytes: nat): Run {
    var log := r.log + [key];
    Run(s, puts, log, now, (r.crowded - {key}) + (set k | k in puts && Crowds(puts, log, k, maxItems, maxBytes)))
  }

  ghost function Step(r: Run, op: Op, maxItems: nat, maxBytes: nat): Run
    requires Sound(r.cache)
  {
    match op
    case DoGet(key, now) =>
      var (s, m) := Got(r.cache, key, now);
      if m.Some? then Touch(r, s, r.puts, key, now, maxItems, maxBytes) else r.(cache := s, clock := now)
    case DoPut(key, m, now) =>
      Touch(r, Put(r.cache, key, m, maxItems, maxBytes), r.puts[key := m], key, now, maxItems, maxBytes)
  }

  predicate Inv(r: Run, maxItems: nat, maxBytes: nat) {
    && Sound(r.cache) && WithinLimits(r.cache, maxItems, maxBytes)
    && Ordered(r.cache.order, r.log)
    && (forall k :: k in r.cache.data ==> k in r.puts && r.puts[k] == r.cache.data[k])
  }

  lemma {:induction false} OrderedSuffix(s: seq<string>, log: seq<string>, n: nat)
    requires n <= |s| && Ordered(s, log)
    ensures Ordered(s[n..], log)
  {
    if n > 0 {
      OrderedSuffix(s[1..], log, n - 1);
      assert s[n..] == s[1..][n - 1..];
    } else {
      assert s[0..] == s;
    }
  }

  /** Every operation keeps the accounting, both limits, the order by last touch
      and the agreement with a map without bound. */
  lemma StepKeepsInv(r: Run, op: Op, maxItems: nat, maxBytes: nat)
    requires Inv(r, maxItems, maxBytes) && maxItems >= 1
    ensures Inv(Step(r, op, maxItems, maxBytes), maxItems, maxBytes)
  {
    var s := r.cache;
    match op {
      case DoGet(key, now) =>
        WithoutFacts(s.order, key);
        TouchedFacts(s.order, key);
        OrderedWithout(s.order, r.log, key);
        OrderedTouched(s.order, r.log, key);
        if key in s.data {
          RemovedSound(s, key);
          TouchedSound(s, key);
        }
      case DoPut(key, m, _) =>
        PutEffect(s, key, m, maxItems, maxBytes);
        StoredSound(s, key, m);
        OrderedTouched(s.order, r.log, key);
        var n := EvictsShortestPrefix(Stored(s, key, m), maxItems, maxBytes);
        OrderedSuffix(Touched(s.order, key), r.log + [key], n);
    }
  }

  ghost function After(ops: seq<Op>, start: int, maxItems: nat, maxBytes: nat): (r: Run)
    requires maxItems >= 1
    ensures Inv(r, maxItems, maxBytes)
  {
    if ops == [] then Run(State(map[], [], 0), map[], [], start, {})
    else
      var r := After(ops[..|ops| - 1], start, maxItems, maxBytes);
      StepKeepsInv(r, ops[|ops| - 1], maxItems, maxBytes);
      Step(r, ops[|ops| - 1], maxItems, maxBytes)
  }

  // ------------------------------------------------------------- must it hit

  lemma {:induction false} WeightRemove(puts: map<string, Media>, s: set<string>, k: string)
    requires k in s
    ensures Weight(puts, s) == Length(puts, k) + Weight(puts, s - {k})
  {
    var c :| c in s && Weight(puts, s) == Length(puts, c) + Weight(puts, s - {c});
    if c != k {
      WeightRemove(puts, s - {c}, k);
      WeightRemove(puts, s - {k}, c);
      assert s - {c} - {k} == s - {k} - {c};
    }
  }

  lemma {:induction false} WeightGrows(puts: map<string, Media>, a: set<string>, b: set<string>)
    requires a <= b
    ensures Weight(puts, a) <= Weight(puts, b)
    decreases |b|
  {
    if a != b {
      assert exists k :: k in b && k !in a;
      var k :| k in b && k !in a;
      WeightRemove(puts, b, k);
      WeightGrows(puts, a, b - {k});
    }
  }

  lemma {:induction false} WeightOfList(data: map<string, Media>, puts: map<string, Media>, order: seq<string>)
    requires Distinct(order) && Elems(order) <= data.Keys
    requires forall k :: k in data ==> k in puts && puts[k] == data[k]
    ensures Total(data, order) == Weight(puts, Elems(order))
  {
    if order != [] {
      ElemsCons(order);
      WeightRemove(puts, Elems(order), order[0]);
      assert Elems(order) - {order[0]} == Elems(order[1..]);
      WeightOfList(data, puts, order[1..]);
    }
  }

  lemma {:induction false} DistinctSuffix(s: seq<string>, n: nat)
    requires n <= |s| && Distinct(s)
    ensures Distinct(s[n..])
  {
    if n > 0 {
      DistinctSuffix(s[1..], n - 1);
      assert s[n..] == s[1..][n - 1..];
    } else {
      assert s[0..] == s;
    }
  }

  /** An entry from which on the list breaks a limit is crowded. */
  lemma BreakingIsCrowded(t: State, puts: map<string, Media>, log: seq<string>, i: nat, maxItems: nat, maxBytes: nat)
    requires Sound(t) && Ordered(t.order, log) && i < |t.order| && !Fits(t, i, maxItems, maxBytes)
    requires forall k :: k in t.data ==> k in puts && puts[k] == t.data[k]
    ensures Crowds(puts, log, t.order[i], maxItems, maxBytes)
  {
    hide Ordered, Distinct, Sound;
    SuffixElems(t.order, i);
    var k, rest := t.order[i], t.order[i..][1..];
    CrowdedSuffix(t, log, i);
    WeightOfList(t.data, puts, rest);
    ElemsCount(rest);
    SubsetCount(Elems(rest), Since(log, k));
    WeightGrows(puts, Elems(rest), Since(log, k));
  }

  lemma CrowdedSuffix(t: State, log: seq<string>, i: nat)
    requires Sound(t) && Ordered(t.order, log) && i < |t.order|
    ensures var rest := t.order[i..][1..];
            && t.order[i] in t.data && Elems(t.order[i..]) <= t.data.Keys && Elems(rest) <= t.data.Keys
            && Distinct(rest) && Elems(rest) <= Since(log, t.order[i])
            && Total(t.data, t.order[i..]) == |t.data[t.order[i]].body| + Total(t.data, rest)
  {
    SuffixElems(t.order, i);
    OrderedSuffix(t.order, log, i);
    DistinctSuffix(t.order, i);
    ElemsCons(t.order[i..]);
    assert t.order[i..][0] == t.order[i];
  }

  /** An entry that was put is there unless it expired or was crowded. */
  ghost predicate Kept(r: Run) {
    forall k :: k in r.puts ==> k in r.cache.data || r.puts[k].expires <= r.clock || k in r.crowded
  }

  lemma PutKeeps(r: Run, key: string, m: Media, now: int, maxItems: nat, maxBytes: nat)
    requires Inv(r, maxItems, maxBytes) && Kept(r) && now >= r.clock && maxItems >= 1
    ensures Kept(Step(r, DoPut(key, m, now), maxItems, maxBytes))
  {
    var t, log, puts := Stored(r.cache, key, m), r.log + [key], r.puts[key := m];
    var e := Put(r.cache, key, m, maxItems, maxBytes);
    StoredSound(r.cache, key, m);
    TouchedFacts(r.cache.order, key);
    OrderedTouched(r.cache.order, r.log, key);
    var n := EvictsShortestPrefix(t, maxItems, maxBytes);
    hide Sound, Put, Fits, Ordered, Touched, Crowds, Distinct;
    forall k | k in t.data && k !in e.data ensures Crowds(puts, log, k, maxItems, maxBytes) {
      var i := EvictedPlace(t, e, n, k);
      BreakingIsCrowded(t, puts, log, i, maxItems, maxBytes);
    }
  }

  lemma EvictedPlace(t: State, e: State, n: nat, k: string) returns (i: nat)
    requires Sound(t) && Sound(e) && n <= |t.order| && e.order == t.order[n..]
    requires k in t.data && k !in e.data
    ensures i < n && t.order[i] == k
  {
    hide Distinct, Total;
    assert k in Elems(t.order) && k !in Elems(e.order);
    forall j | n <= j < |t.order| ensures t.order[j] != k { assert e.order[j - n] == t.order[j]; }
    i :| 0 <= i < |t.order| && t.order[i] == k;
  }

  lemma StepKeeps(r: Run, op: Op, maxItems: nat, maxBytes: nat)
    requires Inv(r, maxItems, maxBytes) && Kept(r) && op.now >= r.clock && maxItems >= 1
    ensures Kept(Step(r, op, maxItems, maxBytes))
  {
    if op.DoPut? {
      PutKeeps(r, op.key, op.media, op.now, maxItems, maxBytes);
    } else {
      hide Crowds;
    }
  }

  predicate Timely(ops: seq<Op>, start: int) {
    ops == []
    || (Timely(ops[..|ops| - 1], start)
        && ops[|ops| - 1].now >= (if |ops| == 1 then start else ops[|ops| - 2].now))
  }

  lemma {:induction false} RunKeeps(ops: seq<Op>, start: int, maxItems: nat, maxBytes: nat)
    requires maxItems >= 1 && Timely(ops, start)
    ensures var r := After(ops, start, maxItems, maxBytes);
            Kept(r) && r.clock == if ops == [] then start else ops[|ops| - 1].now
  {
    hide Inv, Kept, Put, Got;
    if ops == [] {
      NothingPut(start);
    } else {
      var init := ops[..|ops| - 1];
      RunKeeps(init, start, maxItems, maxBytes);
      StepKeeps(After(init, start, maxItems, maxBytes), ops[|ops| - 1], maxItems, maxBytes);
    }
  }

  lemma NothingPut(start: int)
    ensures Kept(Run(State(map[], [], 0), map[], [], start, {}))
  {
  }

  /** The guarantee over every run of gets and puts: a hit is what a map without
      bound but with expiry returns, and a get must hit if the entry is unexpired
      and at every moment since its last touch it fitted both limits together with
      the entries touched since. */
  lemma WorkingSet(ops: seq<Op>, start: int, maxItems: nat, maxBytes: nat, key: string, now: int)
    requires maxItems >= 1 && Timely(ops, start) && now >= After(ops, start, maxItems, maxBytes).clock
    ensures var r := After(ops, start, maxItems, maxBytes);
            var hit := Got(r.cache, key, now).1;
            var live := key in r.puts && r.puts[key].expires > now;
            && (hit.Some? ==> live && hit.value == r.puts[key])
            && (live && key !in r.crowded ==> hit == Some(r.puts[key]))
  {
    RunKeeps(ops, start, maxItems, maxBytes);
    hide After, Sound, Ordered;
  }
}
