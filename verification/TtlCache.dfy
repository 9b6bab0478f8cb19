/** internal/web/cache.go: the LRU cache with expiry. Time is a parameter of each
    call; the mutex makes calls atomic. */
module TtlCache {
  import opened Results
  import opened Lru

  datatype Entry<V> = Entry(value: V, expires: int)

  /** The two fields of the cache: the map and the list, oldest first. */
  datatype State<K, V> = State(data: map<K, Entry<V>>, order: seq<K>)

  /** The map and the list hold the same keys, each once. */
  ghost predicate Bijection<K, V>(s: State<K, V>) {
    Distinct(s.order) && Elems(s.order) == s.data.Keys
  }

  function Got<K, V>(s: State<K, V>, key: K, now: int): (State<K, V>, Option<V>) {
    if key !in s.data then (s, None)
    else if s.data[key].expires <= now then (State(s.data - {key}, Without(s.order, key)), None)
    else (s.(order := Touched(s.order, key)), Some(s.data[key].value))
  }

  function Put<K, V>(s: State<K, V>, key: K, e: Entry<V>, maxsize: nat): State<K, V> {
    Trimmed(State(s.data[key := e], Touched(s.order, key)), maxsize)
  }

  /** Drop the oldest entries until at most maxsize are left. */
  function Trimmed<K, V>(s: State<K, V>, maxsize: nat): State<K, V>
    decreases |s.order|
  {
    if |s.order| <= maxsize || s.order == [] then s
    else Trimmed(State(s.data - {s.order[0]}, s.order[1..]), maxsize)
  }

  lemma TrimOne<K, V>(s: State<K, V>)
    requires Bijection(s) && s.order != []
    ensures s.order[0] in s.data
    ensures Bijection(State(s.data - {s.order[0]}, s.order[1..]))
  {
    ElemsCons(s.order);
  }

  lemma SameSize<K, V>(s: State<K, V>)
    requires Bijection(s)
    ensures |s.order| == |s.data|
  {
    ElemsCount(s.order);
  }

  /** The state between storing an entry and trimming. */
  lemma StoredBijection<K, V>(s: State<K, V>, key: K, e: Entry<V>)
    requires Bijection(s)
    ensures var t := State(s.data[key := e], Touched(s.order, key));
            && Bijection(t) && t.order != [] && t.order[|t.order| - 1] == key
            && (key in s.data ==> |t.data| == |s.data|)
            && |t.data| == |t.order|
            && |s.data| == |s.order|
  {
    TouchedFacts(s.order, key);
    SameSize(s);
    SameSize(State(s.data[key := e], Touched(s.order, key)));
  }

  lemma LastIn<K, V>(s: State<K, V>)
    requires Bijection(s) && s.order != []
    ensures s.order[|s.order| - 1] in s.data
  {
    assert s.order[|s.order| - 1] in Elems(s.order);
  }

  class Cache<K(==), V> {
    const maxsize: nat
    const ttl: int
    var data: map<K, Entry<V>>
    var order: seq<K>

    function Now(): State<K, V>
      reads this
    {
      State(data, order)
    }

    ghost predicate Valid()
      reads this
    {
      maxsize >= 1 && Bijection(Now()) && |data| <= maxsize
    }

    constructor (maxsize: int, ttl: int)
      ensures Valid() && Now() == State(map[], [])
      ensures this.maxsize == (if maxsize < 1 then 1 else maxsize) && this.ttl == ttl
    {
      this.maxsize := if maxsize < 1 then 1 else maxsize;
      this.ttl := ttl;
      data := map[];
      order := [];
    }

    method GetEntry(key: K, now: int) returns (value: Option<V>)
      requires Valid()
      modifies this
      ensures Valid() && (Now(), value) == Got(old(Now()), key, now)
    {
      WithoutFacts(order, key);
      TouchedFacts(order, key);
      SameSize(Now());
      if key !in data { return None; }
      var ent := data[key];
      if !(ent.expires > now) {
        order := Without(order, key);
        data := data - {key};
        SameSize(Now());
        return None;
      }
      order := Touched(order, key);
      SameSize(Now());
      return Some(ent.value);
    }

    method PutEntry(key: K, value: V, now: int)
      requires Valid()
      modifies this
      ensures Valid() && Now() == Put(old(Now()), key, Entry(value, now + ttl), maxsize)
      ensures key in data
    {
      StoredBijection(Now(), key, Entry(value, now + ttl));
      hide Bijection, Touched;
      var hit := key in data;
      data := data[key := Entry(value, now + ttl)];
      order := Touched(order, key);
      if hit { return; }
      ghost var all := Now();
      while |data| > maxsize
        invariant Bijection(Now())
        invariant Trimmed(all, maxsize) == Trimmed(Now(), maxsize)
        invariant order != [] && order[|order| - 1] == key
        decreases |data|
      {
        SameSize(Now());
        TrimOne(Now());
        var oldest := order[0];
        order := order[1..];
        data := data - {oldest};
      }
      SameSize(Now());
      LastIn(Now());
    }
  }

  /** What a get leaves: an expired entry is dropped from map and list, a live one
      becomes the newest, and nothing else changes. */
  lemma GetEffect<K, V>(s: State<K, V>, key: K, now: int)
    requires Bijection(s)
    ensures var (t, v) := Got(s, key, now);
            var live := key in s.data && s.data[key].expires > now;
            && Bijection(t) && v == (if live then Some(s.data[key].value) else None)
            && (forall k :: k in t.data <==> k in s.data && (k != key || live))
            && (forall k :: k in t.data ==> t.data[k] == s.data[k])
            && (live ==> t.order[|t.order| - 1] == key)
            && t.order == if live then Without(s.order, key) + [key] else if key in s.data then Without(s.order, key) else s.order
  {
    WithoutFacts(s.order, key);
    TouchedFacts(s.order, key);
  }

  // -------------------------------------------------------------- whole runs

  datatype Op<K, V> = DoGet(key: K, now: int) | DoPut(key: K, value: V, now: int)

  /** What to compare with: a map without bound that only puts change, and the
      log of touches (a put or a hit). */
  datatype Run<K, V> = Run(cache: State<K, V>, puts: map<K, Entry<V>>, log: seq<K>, clock: int)

  function Step<K, V>(r: Run<K, V>, op: Op<K, V>, maxsize: nat, ttl: int): Run<K, V> {
    match op
    case DoGet(key, now) =>
      var (s, v) := Got(r.cache, key, now);
      Run(s, r.puts, if v.Some? then r.log + [key] else r.log, now)
    case DoPut(key, value, now) =>
      var e := Entry(value, now + ttl);
      Run(Put(r.cache, key, e, maxsize), r.puts[key := e], r.log + [key], now)
  }

  function After<K, V>(ops: seq<Op<K, V>>, start: int, maxsize: nat, ttl: int): Run<K, V> {
    if ops == [] then Run(State(map[], []), map[], [], start)
    else Step(After(ops[..|ops| - 1], start, maxsize, ttl), ops[|ops| - 1], maxsize, ttl)
  }

  function LastTime<K, V>(ops: seq<Op<K, V>>, start: int): int {
    if ops == [] then start else ops[|ops| - 1].now
  }

  /** The clock does not run backwards. */
  predicate Timely<K, V>(ops: seq<Op<K, V>>, start: int) {
    ops == []
    || (Timely(ops[..|ops| - 1], start) && ops[|ops| - 1].now >= LastTime(ops[..|ops| - 1], start))
  }

  ghost predicate Inv<K, V>(r: Run<K, V>, maxsize: nat) {
    && Bijection(r.cache) && |r.cache.order| <= maxsize
    && Ordered(r.cache.order, r.log)
    && (forall k :: k in r.cache.data ==> k in r.puts && r.puts[k] == r.cache.data[k])
    && (forall k :: k in r.puts ==>
          k in r.cache.data || r.puts[k].expires <= r.clock || |Since(r.log, k)| >= maxsize)
  }

  lemma GetKeepsInv<K, V>(r: Run<K, V>, key: K, now: int, maxsize: nat, ttl: int)
    requires Inv(r, maxsize) && now >= r.clock
    ensures Inv(Step(r, DoGet(key, now), maxsize, ttl), maxsize)
  {
    hide Ordered, Since, Touched, Without, Distinct, Elems;
    var s := r.cache;
    WithoutFacts(s.order, key);
    TouchedFacts(s.order, key);
    OrderedWithout(s.order, r.log, key);
    OrderedTouched(s.order, r.log, key);
    forall k | k != key ensures |Since(r.log + [key], k)| >= |Since(r.log, k)| { SinceGrows(r.log, key, k); }
  }

  lemma PutKeepsInv<K, V>(r: Run<K, V>, key: K, value: V, now: int, maxsize: nat, ttl: int)
    requires Inv(r, maxsize) && now >= r.clock && maxsize >= 1
    ensures Inv(Step(r, DoPut(key, value, now), maxsize, ttl), maxsize)
  {
    hide Ordered, Since, Touched, Distinct, Elems;
    var log, e := r.log + [key], Entry(value, now + ttl);
    var t := State(r.cache.data[key := e], Touched(r.cache.order, key));
    TouchedFacts(r.cache.order, key);
    OrderedTouched(r.cache.order, r.log, key);
    forall k | k != key ensures |Since(log, k)| >= |Since(r.log, k)| { SinceGrows(r.log, key, k); }
    if |t.order| > maxsize {
      FirstIsOldest(t.order, log);
      TrimOne(t);
      OrderedTail(t.order, log);
      assert Trimmed(t, maxsize) == State(t.data - {t.order[0]}, t.order[1..]);
    }
  }

  lemma OrderedTail<K>(s: seq<K>, log: seq<K>)
    requires s != [] && Ordered(s, log)
    ensures Ordered(s[1..], log)
  {
  }

  lemma {:induction false} RunKeepsInv<K, V>(ops: seq<Op<K, V>>, start: int, maxsize: nat, ttl: int)
    requires Timely(ops, start) && maxsize >= 1
    ensures Inv(After(ops, start, maxsize, ttl), maxsize)
    ensures After(ops, start, maxsize, ttl).clock == LastTime(ops, start)
  {
    if ops != [] {
      var init, op := ops[..|ops| - 1], ops[|ops| - 1];
      RunKeepsInv(init, start, maxsize, ttl);
      var r := After(init, start, maxsize, ttl);
      match op
      case DoGet(key, now) => GetKeepsInv(r, key, now, maxsize, ttl);
      case DoPut(key, value, now) => PutKeepsInv(r, key, value, now, maxsize, ttl);
    }
  }

  /** The working-set guarantee, over every run of gets and puts. A hit returns
      what a map without bound but with expiry would return; and a get must hit
      if the key is there unexpired and fewer than maxsize distinct other keys
      were put or hit since it was. The size never exceeds maxsize. */
  lemma WorkingSet<K, V>(ops: seq<Op<K, V>>, start: int, maxsize: nat, ttl: int, key: K, now: int)
    requires Timely(ops, start) && maxsize >= 1
    requires now >= After(ops, start, maxsize, ttl).clock
    ensures var r := After(ops, start, maxsize, ttl);
            var hit := Got(r.cache, key, now).1;
            var live := key in r.puts && r.puts[key].expires > now;
            && |r.cache.data| <= maxsize
            && (hit.Some? ==> live && hit.value == r.puts[key].value)
            && (live && |Since(r.log, key)| < maxsize ==> hit == Some(r.puts[key].value))
  {
    RunKeepsInv(ops, start, maxsize, ttl);
    SameSize(After(ops, start, maxsize, ttl).cache);
  }
}
