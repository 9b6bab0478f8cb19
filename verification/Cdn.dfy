/** internal/steam/cdn/client.go: the chunk cache shared by concurrent downloads,
    and the assembly of a file from its chunks. */
module Cdn {
  import opened ByteSeq
  import opened Results
  import opened Manifest

  const MAX_CACHE := 64 * 1024 * 1024

  // -------------------------------------------------------------- chunk cache

  type Cache = map<string, Bytes>

  /** The lengths of all cached chunks together. */
  ghost function Size(m: Cache): nat
    decreases |m|
  {
    if m.Keys == {} then 0 else
    var k :| k in m.Keys;
    SmallerMap(m, k);
    |m[k]| + Size(m - {k})
  }

  lemma SmallerMap(m: Cache, k: string)
    requires k in m.Keys
    ensures |m - {k}| < |m|
  {
    assert (m - {k}).Keys == m.Keys - {k};
  }

  lemma {:induction false} SizeRemove(m: Cache, k: string)
    requires k in m
    ensures Size(m) == |m[k]| + Size(m - {k})
    decreases |m|
  {
    var c :| c in m.Keys && Size(m) == |m[c]| + Size(m - {c});
    if c != k {
      SmallerMap(m, c);
      SmallerMap(m, k);
      SizeRemove(m - {c}, k);
      SizeRemove(m - {k}, c);
      assert m - {c} - {k} == m - {k} - {c};
    }
  }

  lemma SizeAdd(m: Cache, k: string, v: Bytes)
    requires k !in m
    ensures Size(m[k := v]) == Size(m) + |v|
  {
    SizeRemove(m[k := v], k);
    assert m[k := v] - {k} == m;
  }

  /** The byte count is exact and within the budget. */
  ghost predicate Accounted(cache: Cache, bytes: int) {
    bytes == Size(cache) && bytes <= MAX_CACHE
  }

  /** Every cached value is what the slow path gives. */
  ghost predicate Transparent(cache: Cache, slow: string -> Option<Bytes>) {
    forall k :: k in cache ==> slow(k) == Some(cache[k])
  }

  /** Cache and byte count after dropping these entries, one by one. */
  function Dropped(cache: Cache, bytes: int, victims: seq<string>): (Cache, int) {
    if victims == [] then (cache, bytes)
    else
      var (c, b) := Dropped(cache, bytes, victims[..|victims| - 1]);
      var v := victims[|victims| - 1];
      if v in c then (c - {v}, b - |c[v]|) else (c, b)
  }

  predicate OverBudget(cache: Cache, bytes: int, size: nat) {
    bytes + size > MAX_CACHE && |cache| > 0
  }

  /** Victims are there when they are dropped, and dropped only while over budget. */
  predicate Legal(cache: Cache, bytes: int, size: nat, victims: seq<string>) {
    victims == []
    || (Legal(cache, bytes, size, victims[..|victims| - 1])
        && var (c, b) := Dropped(cache, bytes, victims[..|victims| - 1]);
           OverBudget(c, b, size) && victims[|victims| - 1] in c)
  }

  /** A complete run of the eviction loop: legal, and no longer over budget. */
  predicate Evicts(cache: Cache, bytes: int, size: nat, victims: seq<string>) {
    Legal(cache, bytes, size, victims)
    && var (c, b) := Dropped(cache, bytes, victims); !OverBudget(c, b, size)
  }

  /** The second locked section of GetChunk, for one choice of victims. */
  function Stored(cache: Cache, bytes: int, key: string, data: Bytes, victims: seq<string>): (Cache, int) {
    if key in cache then (cache, bytes) else
    var (c, b) := Dropped(cache, bytes, victims);
    if b + |data| <= MAX_CACHE then (c[key := data], b + |data|) else (c, b)
  }

  lemma {:induction false} DroppedKeeps(cache: Cache, bytes: int, victims: seq<string>, slow: string -> Option<Bytes>)
    requires Accounted(cache, bytes)
    ensures var (c, b) := Dropped(cache, bytes, victims);
            && Accounted(c, b) && c.Keys <= cache.Keys
            && (forall k :: k in c ==> c[k] == cache[k])
  {
    if victims != [] {
      var v := victims[|victims| - 1];
      DroppedKeeps(cache, bytes, victims[..|victims| - 1], slow);
      var (c, b) := Dropped(cache, bytes, victims[..|victims| - 1]);
      if v in c { SizeRemove(c, v); }
    }
  }

  lemma SizeOfEmpty(cache: Cache)
    requires |cache| == 0
    ensures Size(cache) == 0
  {
    assert cache.Keys == {};
  }

  /** Whatever victims the map iteration yields, storing a slow-path result keeps
      the byte count exact, the budget and the transparency of the cache; a new
      chunk is cached if and only if it is within the budget alone. */
  lemma StoredKeeps(cache: Cache, bytes: int, key: string, data: Bytes, victims: seq<string>, slow: string -> Option<Bytes>)
    requires Accounted(cache, bytes) && Transparent(cache, slow) && slow(key) == Some(data)
    requires key in cache || Evicts(cache, bytes, |data|, victims)
    ensures var (c, b) := Stored(cache, bytes, key, data, victims);
            && Accounted(c, b) && Transparent(c, slow)
            && (key in c <==> key in cache || |data| <= MAX_CACHE)
  {
    DroppedKeeps(cache, bytes, victims, slow);
    var (c, b) := Dropped(cache, bytes, victims);
    if key !in cache {
      SizeAdd(c, key, data);
      if |c| == 0 { SizeOfEmpty(c); }
    }
  }

  lemma {:induction false} FirstOver(cache: Cache, bytes: int, size: nat, victims: seq<string>)
    requires Legal(cache, bytes, size, victims) && victims != []
    ensures OverBudget(cache, bytes, size)
  {
    var init := victims[..|victims| - 1];
    if init != [] { FirstOver(cache, bytes, size, init); } else { hide OverBudget; }
  }

  /** No more is evicted than the new chunk needs: nothing if it fits, and else the
      chunks that were left before the last victim went did not leave it room. */
  lemma EvictsOnlyIfNeeded(cache: Cache, bytes: int, key: string, data: Bytes, victims: seq<string>, slow: string -> Option<Bytes>)
    requires Accounted(cache, bytes) && key !in cache && Evicts(cache, bytes, |data|, victims)
    ensures bytes + |data| <= 0x400_0000 ==> Stored(cache, bytes, key, data, victims) == (cache[key := data], bytes + |data|)
    ensures victims != [] ==>
              var before := Dropped(cache, bytes, victims[..|victims| - 1]).0;
              victims[|victims| - 1] in before && Size(before) + |data| > 0x400_0000
  {
    if victims != [] {
      FirstOver(cache, bytes, |data|, victims);
      DroppedKeeps(cache, bytes, victims[..|victims| - 1], slow);
    }
    hide Size;
  }

  lemma NoneDropped(cache: Cache, bytes: int, size: nat)
    ensures Legal(cache, bytes, size, []) && Dropped(cache, bytes, []) == (cache, bytes)
  {
  }

  lemma DropOne(cache: Cache, bytes: int, size: nat, victims: seq<string>, k: string)
    requires Legal(cache, bytes, size, victims)
    requires var (c, b) := Dropped(cache, bytes, victims); OverBudget(c, b, size) && k in c
    ensures var (c, b) := Dropped(cache, bytes, victims);
            && Legal(cache, bytes, size, victims + [k])
            && Dropped(cache, bytes, victims + [k]) == (c - {k}, b - |c[k]|)
            && |c - {k}| < |c|
  {
    SmallerMap(Dropped(cache, bytes, victims).0, k);
    assert (victims + [k])[..|victims|] == victims;
  }

  lemma EvictionOver(cache: Cache, bytes: int, key: string, data: Bytes, victims: seq<string>)
    requires key !in cache && Legal(cache, bytes, |data|, victims)
    requires var (c, b) := Dropped(cache, bytes, victims); !OverBudget(c, b, |data|)
    ensures Evicts(cache, bytes, |data|, victims)
    ensures var (c, b) := Dropped(cache, bytes, victims);
            Stored(cache, bytes, key, data, victims)
            == if b + |data| <= MAX_CACHE then (c[key := data], b + |data|) else (c, b)
  {
    hide Legal, Dropped;
  }

  class Client {
    var chunkCache: Cache
    var cacheBytes: int

    ghost predicate Valid()
      reads this
    {
      Accounted(chunkCache, cacheBytes)
    }

    constructor ()
      ensures Valid() && chunkCache == map[]
    {
      chunkCache, cacheBytes := map[], 0;
    }

    /** The second locked section of GetChunk; the loop ends in any order of
        removal. */
    method Insert(key: string, data: Bytes) returns (ghost victims: seq<string>)
      requires Valid()
      modifies this
      ensures key in old(chunkCache) || Evicts(old(chunkCache), old(cacheBytes), |data|, victims)
      ensures (chunkCache, cacheBytes) == Stored(old(chunkCache), old(cacheBytes), key, data, victims)
    {
      hide Size, Accounted, Valid;
      victims := [];
      if key in chunkCache { return; }
      hide Legal, Dropped, Stored, Evicts;
      NoneDropped(chunkCache, cacheBytes, |data|);
      while cacheBytes + |data| > MAX_CACHE && |chunkCache| > 0
        invariant Legal(old(chunkCache), old(cacheBytes), |data|, victims)
        invariant Dropped(old(chunkCache), old(cacheBytes), victims) == (chunkCache, cacheBytes)
        decreases |chunkCache|
      {
        assert chunkCache.Keys != {};
        var k :| k in chunkCache;
        DropOne(old(chunkCache), old(cacheBytes), |data|, victims, k);
        victims := victims + [k];
        cacheBytes := cacheBytes - |chunkCache[k]|;
        chunkCache := chunkCache - {k};
      }
      EvictionOver(old(chunkCache), old(cacheBytes), key, data, victims);
      if cacheBytes + |data| <= MAX_CACHE {
        chunkCache := chunkCache[key := data];
        cacheBytes := cacheBytes + |data|;
      }
    }

    /** GetChunk with no other caller in between: `slow` downloads, decrypts and
        decompresses. */
    method GetChunk(key: string, slow: string -> Option<Bytes>) returns (data: Option<Bytes>)
      requires Valid() && Transparent(chunkCache, slow)
      modifies this
      ensures Valid() && Transparent(chunkCache, slow)
      ensures data == slow(key)
    {
      if key in chunkCache { return Some(chunkCache[key]); }
      data := slow(key);
      if data.None? { return; }
      ghost var victims := Insert(key, data.value);
      StoredKeeps(old(chunkCache), old(cacheBytes), key, data.value, victims, slow);
    }
  }

  // ------------------------------------------------------- concurrent callers

  datatype Phase = Fetching(key: string) | Fetched(key: string, data: Bytes)

  datatype State = State(cache: Cache, bytes: int, callers: map<nat, Phase>, returned: seq<(string, Bytes)>)

  /** Caller t looks a key up, fetches it, stores it with these victims. */
  datatype Event = Lookup(t: nat, key: string) | Fetch(t: nat) | Store(t: nat, victims: seq<string>)

  /** The two locked sections of GetChunk and the fetch between them are the
      steps; callers interleave in any way. */
  predicate Enabled(s: State, e: Event) {
    match e
    case Lookup(t, _) => t !in s.callers
    case Fetch(t) => t in s.callers && s.callers[t].Fetching?
    case Store(t, victims) =>
      t in s.callers && s.callers[t].Fetched?
      && (s.callers[t].key in s.cache || Evicts(s.cache, s.bytes, |s.callers[t].data|, victims))
  }

  function Step(s: State, e: Event, slow: string -> Option<Bytes>): State
    requires Enabled(s, e)
  {
    match e
    case Lookup(t, key) =>
      if key in s.cache then s.(returned := s.returned + [(key, s.cache[key])])
      else s.(callers := s.callers[t := Fetching(key)])
    case Fetch(t) =>
      var key := s.callers[t].key;
      (match slow(key)
       case None => s.(callers := s.callers - {t})
       case Some(data) => s.(callers := s.callers[t := Fetched(key, data)]))
    case Store(t, victims) =>
      var Fetched(key, data) := s.callers[t];
      var (cache, bytes) := Stored(s.cache, s.bytes, key, data, victims);
      State(cache, bytes, s.callers - {t}, s.returned + [(key, data)])
  }

  const INITIAL := State(map[], 0, map[], [])

  /** The events of es can happen in this order from the empty cache. */
  predicate Possible(es: seq<Event>, slow: string -> Option<Bytes>)
    decreases |es|, 0
  {
    es == [] || (Possible(es[..|es| - 1], slow) && Enabled(After(es[..|es| - 1], slow), es[|es| - 1]))
  }

  function After(es: seq<Event>, slow: string -> Option<Bytes>): State
    requires Possible(es, slow)
    decreases |es|, 1
  {
    if es == [] then INITIAL else Step(After(es[..|es| - 1], slow), es[|es| - 1], slow)
  }

  ghost predicate Inv(s: State, slow: string -> Option<Bytes>) {
    && Accounted(s.cache, s.bytes)
    && Transparent(s.cache, slow)
    && (forall t :: t in s.callers && s.callers[t].Fetched? ==> slow(s.callers[t].key) == Some(s.callers[t].data))
    && (forall i :: 0 <= i < |s.returned| ==> slow(s.returned[i].0) == Some(s.returned[i].1))
  }

  /** Over every interleaving of concurrent callers the cache is transparent:
      the byte count is the sum of the cached lengths and at most 64 MiB, every
      cached value and every value returned is the slow-path result of its key. */
  lemma {:induction false} ChunkCacheTransparent(es: seq<Event>, slow: string -> Option<Bytes>)
    requires Possible(es, slow)
    ensures Inv(After(es, slow), slow)
  {
    if es != [] {
      ChunkCacheTransparent(es[..|es| - 1], slow);
      var s, e := After(es[..|es| - 1], slow), es[|es| - 1];
      if e.Store? {
        var Fetched(key, data) := s.callers[e.t];
        StoredKeeps(s.cache, s.bytes, key, data, e.victims, slow);
      }
    }
  }

  // ---------------------------------------------------------------- assembly

  /** A chunk's part of the file: what was decompressed, cut to its size. */
  function Part(c: Chunk, data: Bytes): Bytes {
    if c.originalSize > 0 && |data| > c.originalSize then data[..c.originalSize] else data
  }

  /** What sort.Slice by offset may return: some reordering (perm) of the chunks
      with offsets not decreasing; it is not a stable sort. */
  ghost predicate SortedBy(sorted: seq<Chunk>, chunks: seq<Chunk>, perm: seq<nat>) {
    && |perm| == |sorted| == |chunks|
    && (forall i :: 0 <= i < |perm| ==> perm[i] < |chunks| && sorted[i] == chunks[perm[i]])
    && (forall i, j :: 0 <= i < j < |perm| ==> perm[i] != perm[j])
    && (forall k :: 0 <= k < |chunks| ==> k in perm)
    && (forall i, j :: 0 <= i < j < |sorted| ==> sorted[i].offset <= sorted[j].offset)
  }

  /** Chunks fetched and appended in this order; None if a fetch fails. */
  function Assembled(chunks: seq<Chunk>, fetch: Bytes -> Option<Bytes>): Option<Bytes> {
    if chunks == [] then Some([]) else
    var init, c := Assembled(chunks[..|chunks| - 1], fetch), chunks[|chunks| - 1];
    if init.None? || fetch(c.sha).None? then None else Some(init.value + Part(c, fetch(c.sha).value))
  }

  /** What one more chunk appends: its data, cut to its size if it has one. */
  lemma OneChunkMore(chunks: seq<Chunk>, c: Chunk, fetch: Bytes -> Option<Bytes>, out: Bytes, data: Bytes)
    requires Assembled(chunks, fetch) == Some(out) && fetch(c.sha) == Some(data)
    ensures Assembled(chunks + [c], fetch)
            == Some(out + if 0 < c.originalSize < |data| then data[..c.originalSize] else data)
  {
    assert (chunks + [c])[..|chunks|] == chunks;
  }

  lemma {:induction false} AssemblyFails(chunks: seq<Chunk>, k: nat, fetch: Bytes -> Option<Bytes>)
    requires k <= |chunks| && Assembled(chunks[..k], fetch).None?
    ensures Assembled(chunks, fetch).None?
  {
    if k < |chunks| {
      assert chunks[..|chunks| - 1][..k] == chunks[..k];
      AssemblyFails(chunks[..|chunks| - 1], k, fetch);
    } else {
      assert chunks[..k] == chunks;
    }
  }

  /** ReadFile, given what the sort returned. `fetch` is GetChunk by hash. */
  method ReadFile(f: File, sorted: seq<Chunk>, ghost perm: seq<nat>, fetch: Bytes -> Option<Bytes>) returns (res: Option<Bytes>)
    requires SortedBy(sorted, f.chunks, perm)
    ensures res == Assembled(sorted, fetch)
  {
    var out: Bytes := [];
    for k := 0 to |sorted|
      invariant Assembled(sorted[..k], fetch) == Some(out)
    {
      var ch := sorted[k];
      assert sorted[..k + 1][..k] == sorted[..k];
      var got := fetch(ch.sha);
      if got.None? { AssemblyFails(sorted, k + 1, fetch); return None; }
      var data := got.value;
      var need := ch.originalSize;
      if need > 0 && |data| > need { data := data[..need]; }
      out := out + data;
    }
    assert sorted[..|sorted|] == sorted;
    return Some(out);
  }

  function End(c: Chunk): nat {
    c.offset + c.originalSize
  }

  predicate Covers(c: Chunk, p: nat) {
    c.offset <= p < End(c)
  }

  ghost predicate Covered(chunks: seq<Chunk>, p: nat) {
    exists i :: 0 <= i < |chunks| && Covers(chunks[i], p)
  }

  /** Non-empty chunks tile [0, size): none overlap, every byte is in one. */
  ghost predicate Tiles(chunks: seq<Chunk>, size: nat) {
    && (forall i :: 0 <= i < |chunks| ==> chunks[i].originalSize > 0 && End(chunks[i]) <= size)
    && (forall i, j :: 0 <= i < j < |chunks| ==> End(chunks[i]) <= chunks[j].offset || End(chunks[j]) <= chunks[i].offset)
    && (forall p :: 0 <= p < size ==> Covered(chunks, p))
  }

  /** Every chunk decompresses to at least its size. */
  ghost predicate Complete(chunks: seq<Chunk>, fetch: Bytes -> Option<Bytes>) {
    forall i :: 0 <= i < |chunks| ==> fetch(chunks[i].sha).Some? && |fetch(chunks[i].sha).value| >= chunks[i].originalSize
  }

  lemma Origin(sorted: seq<Chunk>, chunks: seq<Chunk>, perm: seq<nat>, k: nat) returns (i: nat)
    requires SortedBy(sorted, chunks, perm) && k < |chunks|
    ensures i < |sorted| && perm[i] == k && sorted[i] == chunks[k]
  {
    assert k in perm;
    i :| 0 <= i < |perm| && perm[i] == k;
  }

  lemma SortedTiles(sorted: seq<Chunk>, chunks: seq<Chunk>, perm: seq<nat>, size: nat)
    requires SortedBy(sorted, chunks, perm) && Tiles(chunks, size)
    ensures Tiles(sorted, size)
  {
    forall i, j | 0 <= i < j < |sorted|
      ensures End(sorted[i]) <= sorted[j].offset || End(sorted[j]) <= sorted[i].offset
    {
      var a, b := perm[i], perm[j];
      assert a < b || b < a;
    }
    forall p: nat | p < size ensures Covered(sorted, p) {
      assert Covered(chunks, p);
      var k :| 0 <= k < |chunks| && Covers(chunks[k], p);
      var i := Origin(sorted, chunks, perm, k);
      assert Covers(sorted[i], p);
    }
  }

  /** Where the k-th chunk of a sorted tiling starts: where the one before ends. */
  function Boundary(chunks: seq<Chunk>, k: nat): nat
    requires k <= |chunks|
  {
    if k == 0 then 0 else End(chunks[k - 1])
  }

  predicate Ascending(chunks: seq<Chunk>) {
    forall i, j :: 0 <= i < j < |chunks| ==> chunks[i].offset <= chunks[j].offset
  }

  lemma Contiguous(chunks: seq<Chunk>, size: nat, k: nat)
    requires Tiles(chunks, size) && Ascending(chunks) && k <= |chunks|
    ensures Boundary(chunks, k) == if k < |chunks| then chunks[k].offset else size
  {
    var b := Boundary(chunks, k);
    forall i | 0 <= i < k ensures End(chunks[i]) <= b {
      if i < k - 1 { assert End(chunks[i]) <= chunks[k - 1].offset; }
    }
    if b < size {
      assert Covered(chunks, b);
      var i :| 0 <= i < |chunks| && Covers(chunks[i], b);
      assert i >= k;
      assert chunks[k].offset <= chunks[i].offset;
    }
  }

  /** File assembly: if the chunks tile [0, size) and decompress in full, ReadFile
      returns exactly size bytes, with each chunk's data at its own offset. */
  lemma AssemblyExact(sorted: seq<Chunk>, chunks: seq<Chunk>, perm: seq<nat>, size: nat, fetch: Bytes -> Option<Bytes>)
    requires SortedBy(sorted, chunks, perm) && Tiles(chunks, size) && Complete(chunks, fetch)
    ensures var r := Assembled(sorted, fetch);
            && r.Some? && |r.value| == size
            && AllInPlace(r.value, chunks, fetch)
  {
    SortedTiles(sorted, chunks, perm, size);
    SortedComplete(sorted, chunks, perm, fetch);
    Contiguous(sorted, size, |sorted|);
    AssembledInPlace(sorted, size, fetch, |sorted|);
    hide InPlace, Tiles, Complete, Assembled;
    assert sorted[..|sorted|] == sorted;
    forall k | 0 <= k < |chunks| ensures InPlace(Assembled(sorted, fetch).value, chunks[k], fetch) {
      var i := Origin(sorted, chunks, perm, k);
    }
  }

  lemma SortedComplete(sorted: seq<Chunk>, chunks: seq<Chunk>, perm: seq<nat>, fetch: Bytes -> Option<Bytes>)
    requires SortedBy(sorted, chunks, perm) && Complete(chunks, fetch)
    ensures Complete(sorted, fetch)
  {
  }

  predicate InPlace(out: Bytes, c: Chunk, fetch: Bytes -> Option<Bytes>) {
    && fetch(c.sha).Some? && |fetch(c.sha).value| >= c.originalSize
    && End(c) <= |out| && out[c.offset..End(c)] == fetch(c.sha).value[..c.originalSize]
  }

  lemma InPlaceAppend(out: Bytes, more: Bytes, c: Chunk, fetch: Bytes -> Option<Bytes>)
    requires InPlace(out, c, fetch)
    ensures InPlace(out + more, c, fetch)
  {
    assert (out + more)[c.offset..End(c)] == out[c.offset..End(c)];
  }

  lemma PartInPlace(out: Bytes, c: Chunk, fetch: Bytes -> Option<Bytes>)
    requires fetch(c.sha).Some? && |fetch(c.sha).value| >= c.originalSize > 0 && |out| == c.offset
    ensures InPlace(out + Part(c, fetch(c.sha).value), c, fetch)
    ensures |Part(c, fetch(c.sha).value)| == c.originalSize
  {
    var data := fetch(c.sha).value;
    assert data[..c.originalSize] == Part(c, data);
    assert (out + Part(c, data))[c.offset..End(c)] == Part(c, data);
  }

  ghost predicate AllInPlace(out: Bytes, chunks: seq<Chunk>, fetch: Bytes -> Option<Bytes>) {
    forall k :: 0 <= k < |chunks| ==> InPlace(out, chunks[k], fetch)
  }

  lemma {:induction false} AssembledInPlace(chunks: seq<Chunk>, size: nat, fetch: Bytes -> Option<Bytes>, k: nat)
    requires Tiles(chunks, size) && Ascending(chunks) && Complete(chunks, fetch) && k <= |chunks|
    ensures var r := Assembled(chunks[..k], fetch);
            && r.Some? && |r.value| == Boundary(chunks, k)
            && forall i :: 0 <= i < k ==> InPlace(r.value, chunks[i], fetch)
  {
    if k > 0 {
      AssembledInPlace(chunks, size, fetch, k - 1);
      Contiguous(chunks, size, k - 1);
      assert chunks[..k][..k - 1] == chunks[..k - 1];
      var init, c := Assembled(chunks[..k - 1], fetch).value, chunks[k - 1];
      var part := Part(c, fetch(c.sha).value);
      PartInPlace(init, c, fetch);
      hide InPlace;
      forall i | 0 <= i < k - 1 ensures InPlace(init + part, chunks[i], fetch) {
        InPlaceAppend(init, part, chunks[i], fetch);
      }
      assert Assembled(chunks[..k], fetch) == Some(init + part);
    }
  }

  /** Every chunk that can be fetched holds its part of the content. */
  ghost predicate Holds(chunks: seq<Chunk>, content: Bytes, fetch: Bytes -> Option<Bytes>) {
    forall i :: 0 <= i < |chunks| && fetch(chunks[i].sha).Some? && End(chunks[i]) <= |content| ==>
      && |fetch(chunks[i].sha).value| >= chunks[i].originalSize
      && fetch(chunks[i].sha).value[..chunks[i].originalSize] == content[chunks[i].offset..End(chunks[i])]
  }

  ghost predicate AllFetched(chunks: seq<Chunk>, fetch: Bytes -> Option<Bytes>) {
    forall i :: 0 <= i < |chunks| ==> fetch(chunks[i].sha).Some?
  }

  lemma {:induction false} AssembledIff(chunks: seq<Chunk>, fetch: Bytes -> Option<Bytes>)
    ensures Assembled(chunks, fetch).Some? <==> AllFetched(chunks, fetch)
  {
    if chunks != [] {
      var n := |chunks| - 1;
      AssembledIff(chunks[..n], fetch);
      forall i | 0 <= i < n ensures chunks[..n][i] == chunks[i] {}
    }
  }

  lemma ByteInPlace(out: Bytes, c: Chunk, p: nat, fetch: Bytes -> Option<Bytes>)
    requires InPlace(out, c, fetch) && Covers(c, p)
    ensures p < |out| && fetch(c.sha).Some? && p - c.offset < |fetch(c.sha).value| && out[p] == fetch(c.sha).value[p - c.offset]
  {
    assert out[p] == out[c.offset..End(c)][p - c.offset];
  }

  lemma ContentByte(out: Bytes, chunks: seq<Chunk>, content: Bytes, p: nat, fetch: Bytes -> Option<Bytes>)
    requires Tiles(chunks, |content|) && Holds(chunks, content, fetch) && AllInPlace(out, chunks, fetch)
    requires p < |content| == |out|
    ensures out[p] == content[p]
  {
    assert Covered(chunks, p);
    var i :| 0 <= i < |chunks| && Covers(chunks[i], p);
    var c := chunks[i];
    assert InPlace(out, chunks[i], fetch);
    assert out[p] == out[c.offset..End(c)][p - c.offset] && content[p] == content[c.offset..End(c)][p - c.offset];
  }

  /** So ReadFile returns the content if every chunk can be fetched, and nothing
      otherwise. */
  lemma AssembledIsContent(sorted: seq<Chunk>, chunks: seq<Chunk>, perm: seq<nat>, content: Bytes, fetch: Bytes -> Option<Bytes>)
    requires SortedBy(sorted, chunks, perm) && Tiles(chunks, |content|) && Holds(chunks, content, fetch)
    ensures Assembled(sorted, fetch) == if AllFetched(chunks, fetch) then Some(content) else None
  {
    AssembledIff(sorted, fetch);
    hide Assembled;
    if AllFetched(chunks, fetch) {
      AssemblyExact(sorted, chunks, perm, |content|, fetch);
      hide SortedBy, Tiles, Holds, AllInPlace;
      var out := Assembled(sorted, fetch).value;
      forall p: nat | p < |content| ensures out[p] == content[p] { ContentByte(out, chunks, content, p, fetch); }
      assert out == content;
    } else {
      var k :| 0 <= k < |chunks| && fetch(chunks[k].sha).None?;
      var i := Origin(sorted, chunks, perm, k);
    }
  }

  /** So the result does not depend on the order the manifest lists chunks in,
      nor on how the sort orders them. */
  lemma AssemblyOrderIrrelevant(s1: seq<Chunk>, c1: seq<Chunk>, p1: seq<nat>, s2: seq<Chunk>, c2: seq<Chunk>, p2: seq<nat>,
                                size: nat, fetch: Bytes -> Option<Bytes>)
    requires SortedBy(s1, c1, p1) && Tiles(c1, size) && Complete(c1, fetch)
    requires SortedBy(s2, c2, p2) && Tiles(c2, size) && Complete(c2, fetch)
    requires forall c :: c in c1 ==> c in c2
    ensures Assembled(s1, fetch) == Assembled(s2, fetch)
  {
    AssemblyExact(s1, c1, p1, size, fetch);
    AssemblyExact(s2, c2, p2, size, fetch);
    var a, b := Assembled(s1, fetch).value, Assembled(s2, fetch).value;
    forall p: nat | p < size ensures a[p] == b[p] {
      SameByte(a, c1, b, c2, p, size, fetch);
    }
    hide AllInPlace, Assembled, SortedBy, Tiles, Complete;
    assert a == b;
  }

  lemma SameByte(a: Bytes, c1: seq<Chunk>, b: Bytes, c2: seq<Chunk>, p: nat, size: nat, fetch: Bytes -> Option<Bytes>)
    requires AllInPlace(a, c1, fetch) && AllInPlace(b, c2, fetch) && forall c :: c in c1 ==> c in c2
    requires Tiles(c1, size) && p < size == |a| == |b|
    ensures a[p] == b[p]
  {
    assert Covered(c1, p);
    var i :| 0 <= i < |c1| && Covers(c1[i], p);
    var c := c1[i];
    assert c in c2;
    var j :| 0 <= j < |c2| && c2[j] == c;
    assert InPlace(a, c1[i], fetch) && InPlace(b, c2[j], fetch);
    hide InPlace, AllInPlace, Tiles;
    ByteInPlace(a, c, p, fetch);
    ByteInPlace(b, c, p, fetch);
  }
}
