/** internal/steam/cm/servers.go: the CM server rotation, and the attempts of
    ConnectAndLogin. Times are parameters, in seconds. */
module Servers {
  import opened Results
  import opened Lru
  import opened Selection

  datatype Addr = Addr(host: string, port: int)

  datatype Server = Server(host: string, port: int, wss: bool)
  {
    function At(): Addr { Addr(host, port) }
  }

  const FIVE_MINUTES := 300

  /** The position j places after position c on a ring of n. */
  function Spot(c: nat, j: nat, n: nat): nat
    requires c < n && j <= n
  {
    if c + j < n then c + j else c + j - n
  }

  lemma MulBound(d: int, n: nat)
    ensures d >= 1 ==> d * n >= n
    ensures d <= -1 ==> d * n + n <= 0
  {
  }

  lemma ModUnique(a: nat, q: nat, n: nat, r: nat)
    requires r < n && a == q * n + r
    ensures a % n == r
  {
    var d := q - a / n;
    assert d * n == q * n - a / n * n;
    MulBound(d, n);
  }

  lemma NextSpot(idx: nat, n: nat)
    requires n > 0
    ensures (idx + 1) % n == (if idx % n + 1 == n then 0 else idx % n + 1)
  {
    var q, c := idx / n, idx % n;
    if c + 1 == n {
      assert idx + 1 == (q + 1) * n + 0;
      ModUnique(idx + 1, q + 1, n, 0);
    } else {
      ModUnique(idx + 1, q, n, c + 1);
    }
  }

  datatype State = State(servers: seq<Server>, bad: map<Addr, int>, idx: nat)
  {
    /** Not marked bad within the last five minutes. */
    predicate Good(a: Addr, now: int) {
      a !in bad || now - bad[a] >= FIVE_MINUTES
    }

    /** The server j places after the cursor, cyclically. */
    function Ahead(j: nat): Server
      requires servers != [] && j <= |servers|
    {
      servers[Spot(idx % |servers|, j, |servers|)]
    }

    /** The first place from j on, up to n, that is good; n if there is none. */
    function FirstGood(j: nat, now: int): (r: nat)
      requires servers != [] && j <= |servers|
      ensures j <= r <= |servers|
      ensures forall i :: j <= i < r ==> !Good(Ahead(i).At(), now)
      ensures r < |servers| ==> Good(Ahead(r).At(), now)
      decreases |servers| - j
    {
      if j == |servers| || Good(Ahead(j).At(), now) then j else FirstGood(j + 1, now)
    }

    /** Next: the first good server in cyclic order from the cursor, or the one
        at the cursor if all are bad; the cursor moves past it. */
    function Next(now: int): (r: (Server, State))
      requires servers != []
      ensures r.1.servers == servers && r.1.bad == bad && r.1.idx > idx
    {
      var j := FirstGood(0, now);
      (Ahead(j), this.(idx := idx + j + 1))
    }

    function Marked(a: Addr, now: int): State {
      this.(bad := bad[a := now])
    }
  }

  function Addrs(ss: seq<Server>): seq<Addr> {
    seq(|ss|, i requires 0 <= i < |ss| => ss[i].At())
  }

  /** Append the servers whose address is new. */
  function Added(servers: seq<Server>, ss: seq<Server>): seq<Server>
    decreases |ss|
  {
    if ss == [] then servers
    else if ss[0].At() in Elems(Addrs(servers)) then Added(servers, ss[1..])
    else Added(servers + [ss[0]], ss[1..])
  }

  class ServerList {
    var servers: seq<Server>
    var bad: map<Addr, int>
    var idx: nat

    function Now(): State
      reads this
    {
      State(servers, bad, idx)
    }

    constructor ()
      ensures Now() == State([], map[], 0)
    {
      servers, bad, idx := [], map[], 0;
    }

    method Add(ss: seq<Server>)
      modifies this
      ensures Now() == old(Now()).(servers := Added(old(servers), ss))
    {
      var seen := {};
      for k := 0 to |servers|
        invariant seen == Elems(Addrs(servers[..k]))
        invariant Now() == old(Now())
      {
        assert Addrs(servers[..k + 1]) == Addrs(servers[..k]) + [servers[k].At()];
        seen := seen + {servers[k].At()};
      }
      assert servers[..|servers|] == servers;
      for k := 0 to |ss|
        invariant seen == Elems(Addrs(servers))
        invariant Now() == old(Now()).(servers := servers)
        invariant Added(old(servers), ss) == Added(servers, ss[k..])
      {
        assert ss[k..][1..] == ss[k + 1..];
        if ss[k].At() in seen { continue; }
        assert Addrs(servers + [ss[k]]) == Addrs(servers) + [ss[k].At()];
        servers := servers + [ss[k]];
        seen := seen + {ss[k].At()};
      }
    }

    method MarkBad(addr: Addr, now: int)
      modifies this
      ensures Now() == old(Now()).Marked(addr, now)
    {
      bad := bad[addr := now];
    }

    method Next(now: int) returns (next: Option<Server>)
      modifies this
      ensures old(servers) == [] ==> next.None? && Now() == old(Now())
      ensures old(servers) != [] ==> next.Some? && (next.value, Now()) == old(Now()).Next(now)
    {
      if |servers| == 0 { return None; }
      var n := |servers|;
      ghost var start := Now();
      for try := 0 to n
        invariant Now() == start.(idx := start.idx + try)
        invariant idx % n == Spot(start.idx % n, try, n)
        invariant start.FirstGood(0, now) == start.FirstGood(try, now)
      {
        var s := servers[idx % n];
        assert s == start.Ahead(try);
        NextSpot(idx, n);
        idx := idx + 1;
        if s.At() in bad && now - bad[s.At()] < FIVE_MINUTES { continue; }
        return Some(s);
      }
      var s := servers[idx % n];
      idx := idx + 1;
      return Some(s);
    }
  }

  // ------------------------------------------------------------- properties

  /** Adding keeps addresses distinct, keeps what was there in front, and makes
      every given address present. */
  lemma {:induction false} AddedFacts(servers: seq<Server>, ss: seq<Server>)
    requires Distinct(Addrs(servers))
    ensures var r := Added(servers, ss);
            && Distinct(Addrs(r)) && servers <= r
            && Elems(Addrs(r)) == Elems(Addrs(servers)) + Elems(Addrs(ss))
    decreases |ss|
  {
    if ss != [] {
      var more := servers + [ss[0]];
      assert Addrs(more) == Addrs(servers) + [ss[0].At()];
      assert Addrs(ss) == [ss[0].At()] + Addrs(ss[1..]);
      if ss[0].At() in Elems(Addrs(servers)) {
        AddedFacts(servers, ss[1..]);
      } else {
        SnocFacts(Addrs(servers), ss[0].At());
        AddedFacts(more, ss[1..]);
      }
    }
  }

  /** The k-th of these servers has an address that is neither known nor given
      before it. */
  predicate NewAt(servers: seq<Server>, ss: seq<Server>, k: nat) {
    k < |ss| && ss[k].At() !in Elems(Addrs(servers)) + Elems(Addrs(ss[..k]))
  }

  /** Which of the given servers are appended: those whose address is neither known
      nor given before, in the order they are given in. */
  lemma {:induction false} AddedSelected(servers: seq<Server>, ss: seq<Server>)
    ensures var r := Added(servers, ss);
            && |r| >= |servers| && r[..|servers|] == servers
            && Selected(ss, (k: nat) => NewAt(servers, ss, k), r[|servers|..])
            && Elems(Addrs(r)) == Elems(Addrs(servers)) + Elems(Addrs(ss))
  {
    if ss == [] {
      NoneSelected<Server>((k: nat) => NewAt(servers, ss, k));
      assert servers[|servers|..] == [] && Addrs(ss) == [];
    } else {
      var n, init, x := |ss| - 1, ss[..|ss| - 1], ss[|ss| - 1];
      AddedSelected(servers, init);
      AddedSnoc(servers, init, x);
      assert ss == init + [x];
      AddrsSnoc(init, x);
      var r := Added(servers, init);
      if x.At() !in Elems(Addrs(r)) {
        AddrsSnoc(r, x);
        assert (r + [x])[|servers|..] == r[|servers|..] + [x] && (r + [x])[..|servers|] == servers;
      }
      forall k: nat | k < n ensures ss[..k] == init[..k] && ss[k] == init[k] { }
      hide Elems, Addrs;
      SelectedSnoc(init, x, (k: nat) => NewAt(servers, init, k),
                   (k: nat) => NewAt(servers, ss, k), r[|servers|..]);
    }
  }

  lemma AddrsSnoc(ss: seq<Server>, x: Server)
    ensures Elems(Addrs(ss + [x])) == Elems(Addrs(ss)) + {x.At()}
  {
    assert Addrs(ss + [x]) == Addrs(ss) + [x.At()];
  }

  lemma {:induction false} AddedSnoc(servers: seq<Server>, ss: seq<Server>, x: Server)
    ensures var r := Added(servers, ss);
            Added(servers, ss + [x]) == if x.At() in Elems(Addrs(r)) then r else r + [x]
    decreases |ss|
  {
    if ss == [] {
      assert ss + [x] == [x] && [x][1..] == [];
    } else {
      assert (ss + [x])[1..] == ss[1..] + [x];
      if ss[0].At() in Elems(Addrs(servers)) { AddedSnoc(servers, ss[1..], x); } else { AddedSnoc(servers + [ss[0]], ss[1..], x); }
    }
  }

  /** A server that was marked bad is passed over for 300 seconds, and no longer. */
  lemma BadForFiveMinutes(s: State, a: Addr, marked: int, now: int)
    ensures s.Marked(a, marked).Good(a, now) <==> now >= marked + 300
    ensures forall b :: b != a ==> (s.Marked(a, marked).Good(b, now) <==> s.Good(b, now))
  {
  }

  /** The cursor moves just past the server that is returned: all the way round if
      all are bad, and else past the first good one. */
  lemma CursorMoves(s: State, now: int)
    requires s.servers != []
    ensures var n, (server, t) := |s.servers|, s.Next(now);
            var d := t.idx - s.idx;
            && 1 <= d <= n + 1
            && server == s.Ahead(d - 1)
            && (forall i :: 0 <= i < d - 1 ==> !s.Good(s.Ahead(i).At(), now))
            && (d <= n ==> s.Good(server.At(), now))
  {
  }

  /** With every server bad, Next gives the one the cursor stood at. */
  lemma AllBadGivesCurrent(s: State, now: int)
    requires s.servers != []
    requires forall i :: 0 <= i < |s.servers| ==> !s.Good(s.servers[i].At(), now)
    ensures s.Next(now).0 == s.servers[s.idx % |s.servers|]
  {
    var n, j := |s.servers|, s.FirstGood(0, now);
    assert j == n;
  }

  /** If any server is good, Next gives a good one. */
  lemma GoodWins(s: State, now: int, i: nat)
    requires i < |s.servers| && s.Good(s.servers[i].At(), now)
    ensures s.Good(s.Next(now).0.At(), now) && s.Next(now).0 in s.servers
  {
    var n, c := |s.servers|, s.idx % |s.servers|;
    var j := if i >= c then i - c else i + n - c;
    assert s.Ahead(j) == s.servers[i];
  }

  /** k calls in a row, at the times of a clock. */
  function Calls(s: State, clock: nat -> int, k: nat): seq<Server>
    requires s.servers != []
  {
    if k == 0 then [] else Calls(s, clock, k - 1) + [AfterCalls(s, clock, k - 1).Next(clock(k - 1)).0]
  }

  function AfterCalls(s: State, clock: nat -> int, k: nat): (t: State)
    requires s.servers != []
    ensures t.servers == s.servers && t.bad == s.bad
  {
    if k == 0 then s else AfterCalls(s, clock, k - 1).Next(clock(k - 1)).1
  }

  /** At each of the first k calls no server counts as bad. */
  ghost predicate AllGood(s: State, clock: nat -> int, k: nat) {
    forall i, t :: 0 <= i < |s.servers| && 0 <= t < k ==> s.Good(s.servers[i].At(), clock(t))
  }

  /** With none bad, any n consecutive calls give the n servers in cyclic order
      from the cursor, each once. */
  lemma RoundRobin(s: State, clock: nat -> int)
    requires s.servers != [] && AllGood(s, clock, |s.servers|)
    ensures var n, c := |s.servers|, s.idx % |s.servers|;
            Calls(s, clock, n) == s.servers[c..] + s.servers[..c]
  {
    hide State.Next, State.FirstGood, Calls;
    var n, c := |s.servers|, s.idx % |s.servers|;
    RoundRobinSteps(s, clock, n);
    var calls, ring := Calls(s, clock, n), s.servers[c..] + s.servers[..c];
    forall i | 0 <= i < n ensures calls[i] == ring[i] { assert calls[i] == s.Ahead(i); }
  }

  lemma {:induction false} RoundRobinSteps(s: State, clock: nat -> int, k: nat)
    requires s.servers != [] && k <= |s.servers| && AllGood(s, clock, k)
    ensures |Calls(s, clock, k)| == k && forall i :: 0 <= i < k ==> Calls(s, clock, k)[i] == s.Ahead(i)
    ensures AfterCalls(s, clock, k).idx % |s.servers| == Spot(s.idx % |s.servers|, k, |s.servers|)
  {
    hide State.Next, State.Good;
    if k > 0 {
      RoundRobinSteps(s, clock, k - 1);
      var t := AfterCalls(s, clock, k - 1);
      OneCall(s, t, clock(k - 1), k - 1);
    }
  }

  /** The k-th of these calls, k servers past the start. */
  lemma OneCall(s: State, t: State, now: int, k: nat)
    requires s.servers != [] && k < |s.servers| && t.servers == s.servers && t.bad == s.bad
    requires t.idx % |s.servers| == Spot(s.idx % |s.servers|, k, |s.servers|)
    requires forall i :: 0 <= i < |s.servers| ==> s.Good(s.servers[i].At(), now)
    ensures t.Next(now).0 == s.Ahead(k)
    ensures t.Next(now).1.idx % |s.servers| == Spot(s.idx % |s.servers|, k + 1, |s.servers|)
  {
    AheadNext(s, t, k);
    hide Spot, State.Ahead;
    assert s.Good(t.Ahead(0).At(), now) && t.FirstGood(0, now) == 0;
    NextSpot(t.idx, |s.servers|);
  }

  lemma AheadNext(s: State, t: State, k: nat)
    requires s.servers != [] && k < |s.servers| && t.servers == s.servers
    requires t.idx % |s.servers| == Spot(s.idx % |s.servers|, k, |s.servers|)
    ensures t.Ahead(0) == s.Ahead(k) && t.Ahead(0) in s.servers
    ensures var c := t.idx % |s.servers|;
            Spot(s.idx % |s.servers|, k + 1, |s.servers|) == if c + 1 == |s.servers| then 0 else c + 1
  {
  }

  // -------------------------------------------------------- failing attempts

  /** The state after k attempts that all failed: each took the next server and
      marked it bad. The clock is read twice per attempt. */
  function AfterFailures(s: State, clock: nat -> int, k: nat): (t: State)
    requires s.servers != []
    ensures t.servers == s.servers
  {
    if k == 0 then s
    else
      var (server, t) := AfterFailures(s, clock, k - 1).Next(clock(2 * k - 2));
      t.Marked(server.At(), clock(2 * k - 1))
  }

  /** The address the k-th attempt dials, counting from 0. */
  function DialedAt(s: State, clock: nat -> int, k: nat): Addr
    requires s.servers != []
  {
    AfterFailures(s, clock, k).Next(clock(2 * k)).0.At()
  }

  function Dialed(s: State, clock: nat -> int, k: nat): (d: seq<Addr>)
    requires s.servers != []
    ensures |d| == k
  {
    if k == 0 then [] else Dialed(s, clock, k - 1) + [DialedAt(s, clock, k - 1)]
  }

  lemma FailureStep(s: State, clock: nat -> int, i: nat)
    requires s.servers != []
    ensures var (server, t) := AfterFailures(s, clock, i).Next(clock(2 * i));
            && Dialed(s, clock, i + 1) == Dialed(s, clock, i) + [server.At()]
            && AfterFailures(s, clock, i + 1) == t.Marked(server.At(), clock(2 * i + 1))
    ensures Dialed(s, clock, 0) == [] && AfterFailures(s, clock, 0) == s
  {
    hide State.Next;
  }

  const DNS_FALLBACK := Server("cm0.steampowered.com", 27017, false)

  /** The list the attempts start from: an empty one is filled from the Web API,
      or with the DNS name if that fails. */
  function Ready(s: State, webApi: Option<seq<Server>>): State {
    if s.servers != [] then s
    else match webApi
      case Some(ss) => s.(servers := Added([], Kind(ss, true) + Kind(ss, false)))
      case None => s.(servers := [DNS_FALLBACK])
  }

  /** A list that holds servers stays. An empty one gets what the Web API gives,
      each address once: WebSocket servers first, each kind in the order given; or
      else the DNS name. */
  lemma ReadyMeans(s: State, webApi: Option<seq<Server>>)
    ensures var t := Ready(s, webApi);
            && t.bad == s.bad && t.idx == s.idx
            && (s.servers != [] ==> t.servers == s.servers)
            && (s.servers == [] && webApi.None? ==> t.servers == [Server("cm0.steampowered.com", 27017, false)])
            && (s.servers == [] && webApi.Some? ==>
                  && Distinct(Addrs(t.servers)) && Elems(Addrs(t.servers)) == Elems(Addrs(webApi.value))
                  && exists ws: seq<Server>, raw: seq<Server> ::
                       && Selected(webApi.value, (k: nat) => KindAt(webApi.value, true, k), ws)
                       && Selected(webApi.value, (k: nat) => KindAt(webApi.value, false, k), raw)
                       && Selected(ws + raw, (k: nat) => NewAt([], ws + raw, k), t.servers))
  {
    if s.servers == [] && webApi.Some? {
      var ss := webApi.value;
      var ws, raw := Kind(ss, true), Kind(ss, false);
      KindSelected(ss, true);
      KindSelected(ss, false);
      KindAddrs(ss);
      AddedFacts([], ws + raw);
      AddedSelected([], ws + raw);
      var r := Added([], ws + raw);
      assert r[0..] == r && Elems(Addrs([])) == {};
      assert Selected(ss, (k: nat) => KindAt(ss, true, k), ws);
      assert Selected(ss, (k: nat) => KindAt(ss, false, k), raw);
    }
  }

  lemma {:induction false} KindAddrs(ss: seq<Server>)
    ensures Elems(Addrs(Kind(ss, true) + Kind(ss, false))) == Elems(Addrs(ss))
  {
    if ss == [] {
    } else {
      var init, x := ss[..|ss| - 1], ss[|ss| - 1];
      KindAddrs(init);
      assert ss == init + [x];
      var a, b := Kind(init, true), Kind(init, false);
      AddrsSnoc(init, x);
      JoinAddrs(a, b);
      JoinAddrs(Kind(ss, true), Kind(ss, false));
      AddrsSnoc(a, x);
      AddrsSnoc(b, x);
      hide Elems, Addrs;
    }
  }

  lemma JoinAddrs(a: seq<Server>, b: seq<Server>)
    ensures Elems(Addrs(a + b)) == Elems(Addrs(a)) + Elems(Addrs(b))
  {
    assert Addrs(a + b) == Addrs(a) + Addrs(b);
  }

  method Bootstrap(list: ServerList, webApi: Option<seq<Server>>)
    modifies list
    ensures list.Now() == Ready(old(list.Now()), webApi)
  {
    if |list.servers| > 0 { return; }
    if webApi.Some? {
      var ss := SortWSSFirst(webApi.value);
      list.Add(ss);
    } else {
      list.Add([DNS_FALLBACK]);
    }
  }

  /** ConnectAndLogin: `connects(i)` is whether the i-th attempt succeeds, webApi
      what BootstrapWebAPI finds. */
  method ConnectAndLogin(list: ServerList, attempts: int, webApi: Option<seq<Server>>, clock: nat -> int, connects: nat -> bool)
      returns (dialed: seq<Addr>, ok: bool)
    modifies list
    ensures var start := Ready(old(list.Now()), webApi);
            && list.servers == start.servers
            && (start.servers == [] ==> dialed == [] && !ok && list.Now() == start)
            && (start.servers != [] ==>
              && (!ok ==> list.Now() == AfterFailures(start, clock, |dialed|))
              && (ok ==> |dialed| >= 1
                         && list.Now() == AfterFailures(start, clock, |dialed| - 1).Next(clock(2 * |dialed| - 2)).1)
              && dialed == Dialed(start, clock, |dialed|)
              && (forall i :: 0 <= i < |dialed| - 1 ==> !connects(i))
              && (if ok then |dialed| >= 1 && connects(|dialed| - 1)
                  else |dialed| == (if attempts < 1 then 1 else attempts) && !connects(|dialed| - 1)))
  {
    hide State.Next, Dialed, AfterFailures, Ready;
    Bootstrap(list, webApi);
    var n := if attempts < 1 then 1 else attempts;
    dialed, ok := [], false;
    var i := 0;
    ghost var start := list.Now();
    if start.servers != [] { FailureStep(start, clock, 0); }
    while i < n
      invariant 0 <= i <= n && |dialed| == i && !ok
      invariant list.servers == start.servers && (i > 0 ==> start.servers != [])
      invariant start.servers == [] ==> list.Now() == start
      invariant start.servers != [] ==>
                  dialed == Dialed(start, clock, i) && list.Now() == AfterFailures(start, clock, i)
      invariant forall j :: 0 <= j < i ==> !connects(j)
    {
      var srv := list.Next(clock(2 * i));
      if srv.None? { return; }
      FailureStep(start, clock, i);
      dialed := dialed + [srv.value.At()];
      if connects(i) {
        ok := true;
        return;
      }
      list.MarkBad(srv.value.At(), clock(2 * i + 1));
      i := i + 1;
    }
  }

  /** The first n readings of the clock fall in one five-minute window. */
  ghost predicate InWindow(clock: nat -> int, n: nat, start: int) {
    forall i :: 0 <= i < n ==> start <= clock(i) < start + FIVE_MINUTES
  }

  function GoodAddrs(s: State, now: int): set<Addr> {
    set a | a in Elems(Addrs(s.servers)) && s.Good(a, now)
  }

  lemma Position(ss: seq<Server>, a: Addr) returns (p: nat)
    requires a in Elems(Addrs(ss))
    ensures p < |ss| && ss[p].At() == a
  {
    p :| 0 <= p < |ss| && Addrs(ss)[p] == a;
  }

  /** What was dialed is bad until the window closes; the other servers that
      were good at the start still are. */
  predicate Fresh(t: State, d: seq<Addr>, good: set<Addr>, start: int) {
    && Distinct(d) && good <= Elems(Addrs(t.servers))
    && (forall a | a in Elems(d) :: a in t.bad && t.bad[a] >= start)
    && (forall a | a in good - Elems(d) :: t.Good(a, start))
  }

  lemma Undialed(good: set<Addr>, dialed: set<Addr>) returns (a: Addr)
    requires |good| > |dialed|
    ensures a in good - dialed
  {
    if good <= dialed {
      SubsetCount(good, dialed);
    }
    a :| a in good && a !in dialed;
  }

  lemma OneFailure(t: State, d: seq<Addr>, good: set<Addr>, start: int, now: int, mark: int)
    requires t.servers != [] && start <= now < start + FIVE_MINUTES && mark >= start
    requires Fresh(t, d, good, start) && |good| > |d|
    ensures var (server, t') := t.Next(now);
            Fresh(t'.Marked(server.At(), mark), d + [server.At()], good, start)
  {
    hide State.Next, Distinct, Elems, Addrs;
    ElemsCount(d);
    var a := Undialed(good, Elems(d));
    var p := Position(t.servers, a);
    GoodWins(t, now, p);
    var (server, t') := t.Next(now);
    SnocFacts(d, server.At());
    var u := t'.Marked(server.At(), mark);
    forall b | b in good - Elems(d + [server.At()]) ensures u.Good(b, start) {
      assert b in good - Elems(d);
    }
  }

  lemma WindowPrefix(clock: nat -> int, k: nat, start: int)
    requires k > 0 && InWindow(clock, 2 * k, start)
    ensures InWindow(clock, 2 * (k - 1), start)
    ensures start <= clock(2 * k - 2) < start + FIVE_MINUTES && start <= clock(2 * k - 1)
  {
  }

  lemma FreshAtStart(s: State, clock: nat -> int, start: int)
    requires s.servers != []
    ensures Fresh(AfterFailures(s, clock, 0), Dialed(s, clock, 0), GoodAddrs(s, start), start)
  {
  }

  lemma {:induction false} FailuresFresh(s: State, clock: nat -> int, k: nat, start: int)
    requires s.servers != [] && InWindow(clock, 2 * k, start) && |GoodAddrs(s, start)| >= k
    ensures Fresh(AfterFailures(s, clock, k), Dialed(s, clock, k), GoodAddrs(s, start), start)
  {
    if k == 0 {
      FreshAtStart(s, clock, start);
    } else {
      hide State.Next, Fresh, Dialed, AfterFailures, GoodAddrs, InWindow;
      WindowPrefix(clock, k, start);
      FailuresFresh(s, clock, k - 1, start);
      FailureStep(s, clock, k - 1);
      OneFailure(AfterFailures(s, clock, k - 1), Dialed(s, clock, k - 1), GoodAddrs(s, start), start,
                 clock(2 * k - 2), clock(2 * k - 1));
    }
  }

  /** k failing attempts within five minutes dial k distinct addresses if at
      least k were good at the start. */
  lemma DialsDistinct(s: State, clock: nat -> int, k: nat, start: int)
    requires s.servers != [] && InWindow(clock, 2 * k, start) && |GoodAddrs(s, start)| >= k
    ensures Distinct(Dialed(s, clock, k)) && |Elems(Dialed(s, clock, k))| == k
  {
    FailuresFresh(s, clock, k, start);
    ElemsCount(Dialed(s, clock, k));
  }

  // ---------------------------------------------------------- preferred order

  /** sortServerListWSSFirst: WebSocket servers first, each kind in its order. */
  method SortWSSFirst(ss: seq<Server>) returns (r: seq<Server>)
    ensures r == Kind(ss, true) + Kind(ss, false)
  {
    var ws, raw := [], [];
    for k := 0 to |ss|
      invariant ws == Kind(ss[..k], true) && raw == Kind(ss[..k], false)
    {
      assert ss[..k + 1][..k] == ss[..k];
      if ss[k].wss { ws := ws + [ss[k]]; } else { raw := raw + [ss[k]]; }
    }
    assert ss[..|ss|] == ss;
    r := ws + raw;
  }

  function Kind(ss: seq<Server>, wss: bool): seq<Server> {
    if ss == [] then []
    else
      var init, last := Kind(ss[..|ss| - 1], wss), ss[|ss| - 1];
      if last.wss == wss then init + [last] else init
  }

  predicate KindAt(ss: seq<Server>, wss: bool, k: nat) {
    k < |ss| && ss[k].wss == wss
  }

  /** Each kind keeps its servers in the order they were given in. */
  lemma {:induction false} KindSelected(ss: seq<Server>, wss: bool)
    ensures Selected(ss, (k: nat) => KindAt(ss, wss, k), Kind(ss, wss))
  {
    if ss == [] {
      NoneSelected<Server>((k: nat) => KindAt(ss, wss, k));
    } else {
      var init, x := ss[..|ss| - 1], ss[|ss| - 1];
      KindSelected(init, wss);
      assert ss == init + [x];
      SelectedSnoc(init, x, (k: nat) => KindAt(init, wss, k), (k: nat) => KindAt(ss, wss, k), Kind(init, wss));
    }
  }

  /** Nothing is lost or added by the reordering. */
  lemma {:induction false} SortKeepsServers(ss: seq<Server>)
    ensures multiset(Kind(ss, true)) + multiset(Kind(ss, false)) == multiset(ss)
    ensures AllOfKind(Kind(ss, true), true) && AllOfKind(Kind(ss, false), false)
  {
    if ss != [] {
      var init, last := ss[..|ss| - 1], ss[|ss| - 1];
      SortKeepsServers(init);
      assert ss == init + [last];
      KindSnoc(Kind(init, last.wss), last);
      hide AllOfKind;
    }
  }

  predicate AllOfKind(ss: seq<Server>, wss: bool) {
    forall s :: s in ss ==> s.wss == wss
  }

  lemma KindSnoc(ss: seq<Server>, s: Server)
    requires AllOfKind(ss, s.wss)
    ensures AllOfKind(ss + [s], s.wss)
  {
  }
}
