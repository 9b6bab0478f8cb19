/** internal/web/downloads.go: the download job queue. Jobs are identified by the
    number in "dl-<n>"; what is displayed (titles, messages, times) is left out,
    and so is Close. */
module Downloads {
  import opened Results
  import opened Lru
  import Download

  const MAX_HISTORY := 500
  const QUEUE_CAPACITY := 256

  datatype Status = Queued | Running | Done | Failed

  datatype Job = Job(appId: int, workshopId: nat, status: Status)
  {
    predicate Active() { status == Queued || status == Running }
    predicate For(app: int, wid: nat) { appId == app && workshopId == wid }
  }

  /** Between its channel receive and starting the job, the worker holds an id. */
  datatype Worker = Idle | Took(id: nat) | Busy(id: nat)

  /** pushers: the goroutines that wait to send an id on the full channel.
      runs: the ids runOne was called with, in order. */
  datatype State = State(
    jobs: map<nat, Job>,
    order: seq<nat>,
    queue: seq<nat>,
    pushers: set<nat>,
    lastId: nat,
    worker: Worker,
    runs: seq<nat>)

  const INITIAL := State(map[], [], [], {}, 0, Idle, [])

  predicate ActiveFor(s: State, id: nat, app: int, wid: nat) {
    id in s.jobs && s.jobs[id].Active() && s.jobs[id].For(app, wid)
  }

  /** findActiveLocked: the newest listed active job for this item. */
  function FindActive(s: State, app: int, wid: nat, n: nat): (r: Option<nat>)
    requires n <= |s.order|
    ensures r.Some? ==> r.value in s.order && ActiveFor(s, r.value, app, wid)
    ensures r.None? ==> forall i :: 0 <= i < n ==> !ActiveFor(s, s.order[i], app, wid)
  {
    if n == 0 then None
    else if ActiveFor(s, s.order[n - 1], app, wid) then Some(s.order[n - 1])
    else FindActive(s, app, wid, n - 1)
  }

  /** A finished job that falls out of the history is forgotten. */
  function Forget(jobs: map<nat, Job>, id: nat): map<nat, Job> {
    if id in jobs && !jobs[id].Active() then jobs - {id} else jobs
  }

  function ForgetAll(jobs: map<nat, Job>, ids: seq<nat>): map<nat, Job> {
    if ids == [] then jobs else Forget(ForgetAll(jobs, ids[..|ids| - 1]), ids[|ids| - 1])
  }

  /** A new job, listed and sent (or left to a goroutine if the channel is full). */
  function Created(s: State, app: int, wid: nat): State {
    var id := s.lastId + 1;
    var jobs, order := s.jobs[id := Job(app, wid, Queued)], s.order + [id];
    var over := if |order| > MAX_HISTORY then |order| - MAX_HISTORY else 0;
    s.(lastId := id,
       jobs := ForgetAll(jobs, order[..over]),
       order := order[over..],
       queue := if |s.queue| < QUEUE_CAPACITY then s.queue + [id] else s.queue,
       pushers := if |s.queue| < QUEUE_CAPACITY then s.pushers else s.pushers + {id})
  }

  /** One turn of the loop of Enqueue. */
  function Enqueued(s: State, app: int, wid: nat): State {
    if FindActive(s, app, wid, |s.order|).Some? then s else Created(s, app, wid)
  }

  function EnqueuedAll(s: State, app: int, wids: seq<nat>): State {
    if wids == [] then s else Enqueued(EnqueuedAll(s, app, wids[..|wids| - 1]), app, wids[|wids| - 1])
  }

  /** The job Enqueue reports for an item: the active one, or the new one. */
  function IdFor(s: State, app: int, wid: nat): nat {
    FindActive(s, app, wid, |s.order|).GetOr(s.lastId + 1)
  }

  function IdsFor(s: State, app: int, wids: seq<nat>): (ids: seq<nat>)
    ensures |ids| == |wids|
  {
    if wids == [] then []
    else
      var init := wids[..|wids| - 1];
      IdsFor(s, app, init) + [IdFor(EnqueuedAll(s, app, init), app, wids[|wids| - 1])]
  }

  function WithStatus(s: State, id: nat, status: Status): State
    requires id in s.jobs
  {
    s.(jobs := s.jobs[id := s.jobs[id].(status := status)])
  }

  // ------------------------------------------------------------------ the steps

  /** Enqueue of one id; a waiting goroutine sends or gives up; the worker takes
      an id, starts its job (or skips an unknown id), finishes it. */
  datatype Event =
    | Enqueue(app: int, wid: nat)
    | Push(id: nat)
    | GiveUp(id: nat)
    | Take
    | Begin
    | Finish(error: bool, stats: Download.Stats)
  {
    /** The session gave no error and its download did not fail entirely. */
    predicate Ok()
      requires Finish?
    {
      !error && !stats.FullyFailed()
    }
  }

  predicate Enabled(s: State, e: Event) {
    match e
    case Enqueue(_, _) => true
    case Push(id) => id in s.pushers && |s.queue| < QUEUE_CAPACITY
    case GiveUp(id) => id in s.pushers
    case Take => s.worker.Idle? && s.queue != []
    case Begin => s.worker.Took?
    case Finish(_, _) => s.worker.Busy? && s.worker.id in s.jobs
  }

  function Step(s: State, e: Event): State
    requires Enabled(s, e)
  {
    match e
    case Enqueue(app, wid) => Enqueued(s, app, wid)
    case Push(id) => s.(pushers := s.pushers - {id}, queue := s.queue + [id])
    case GiveUp(id) => s.(pushers := s.pushers - {id})
    case Take => s.(worker := Took(s.queue[0]), queue := s.queue[1..])
    case Begin =>
      var id := s.worker.id;
      if id !in s.jobs then s.(worker := Idle)
      else WithStatus(s, id, Running).(worker := Busy(id), runs := s.runs + [id])
    case Finish(_, _) => WithStatus(s, s.worker.id, if e.Ok() then Done else Failed).(worker := Idle)
  }

  class DownloadManager {
    var jobs: map<nat, Job>
    var order: seq<nat>
    var queue: seq<nat>
    var pushers: set<nat>
    var lastId: nat
    var worker: Worker
    ghost var runs: seq<nat>

    ghost function Now(): State
      reads this
    {
      State(jobs, order, queue, pushers, lastId, worker, runs)
    }

    constructor ()
      ensures Now() == INITIAL
    {
      jobs, order, queue, pushers, lastId, worker, runs := map[], [], [], {}, 0, Idle, [];
    }

    method FindActiveLocked(app: int, wid: nat) returns (found: Option<nat>)
      ensures found == FindActive(Now(), app, wid, |order|)
    {
      var i := |order|;
      while i > 0
        invariant 0 <= i <= |order|
        invariant FindActive(Now(), app, wid, |order|) == FindActive(Now(), app, wid, i)
      {
        i := i - 1;
        var id := order[i];
        if id !in jobs { continue; }
        var job := jobs[id];
        if job.appId == app && job.workshopId == wid && (job.status == Queued || job.status == Running) {
          return Some(id);
        }
      }
      return None;
    }

    /** The locked loop of Enqueue over the resolved ids. */
    method EnqueueAll(app: int, wids: seq<nat>) returns (created: seq<nat>)
      modifies this
      ensures Now() == EnqueuedAll(old(Now()), app, wids)
      ensures created == IdsFor(old(Now()), app, wids)
    {
      created := [];
      for k := 0 to |wids|
        invariant Now() == EnqueuedAll(old(Now()), app, wids[..k])
        invariant created == IdsFor(old(Now()), app, wids[..k])
      {
        assert wids[..k + 1][..k] == wids[..k];
        var id := EnqueueOne(app, wids[k]);
        created := created + [id];
      }
      assert wids[..|wids|] == wids;
    }

    method EnqueueOne(app: int, wid: nat) returns (id: nat)
      modifies this
      ensures Now() == Enqueued(old(Now()), app, wid)
      ensures id == IdFor(old(Now()), app, wid)
    {
      var existing := FindActiveLocked(app, wid);
      if existing.Some? { return existing.value; }
      id := lastId + 1;
      lastId := id;
      jobs := jobs[id := Job(app, wid, Queued)];
      order := order + [id];
      ghost var listed, over := order, if |order| > MAX_HISTORY then |order| - MAX_HISTORY else 0;
      ghost var known := jobs;
      if |order| > MAX_HISTORY {
        var drop := order[..|order| - MAX_HISTORY];
        order := order[|order| - MAX_HISTORY..];
        for k := 0 to |drop|
          invariant jobs == ForgetAll(known, drop[..k])
          invariant Now() == old(Now()).(lastId := id, jobs := jobs, order := listed[over..])
        {
          assert drop[..k + 1][..k] == drop[..k];
          var oldId := drop[k];
          if oldId in jobs && jobs[oldId].status != Queued && jobs[oldId].status != Running {
            jobs := jobs - {oldId};
          }
        }
        assert drop[..|drop|] == drop;
      } else {
        assert order[..0] == [] && order[0..] == order;
      }
      assert jobs == ForgetAll(known, listed[..over]) && order == listed[over..];
      if |queue| < QUEUE_CAPACITY {
        queue := queue + [id];
      } else {
        pushers := pushers + {id};
      }
    }

    /** One turn of loop: receive an id, and run its job if there is one. The job
        itself is DownloadItem. */
    method TakeNext()
      requires Enabled(Now(), Take)
      modifies this
      ensures Now() == Step(old(Now()), Take)
    {
      worker := Took(queue[0]);
      queue := queue[1..];
    }

    method BeginRun()
      requires Enabled(Now(), Begin)
      modifies this
      ensures Now() == Step(old(Now()), Begin)
    {
      var id := worker.id;
      if id !in jobs {
        worker := Idle;
        return;
      }
      jobs := jobs[id := jobs[id].(status := Running)];
      worker := Busy(id);
      runs := runs + [id];
    }

    /** The end of runOne: error is what the session returned, stats what the
        download did. */
    method FinishRun(error: bool, stats: Download.Stats)
      requires Enabled(Now(), Finish(error, stats))
      modifies this
      ensures Now() == Step(old(Now()), Finish(error, stats))
    {
      var id := worker.id;
      worker := Idle;
      if error {
        jobs := jobs[id := jobs[id].(status := Failed)];
        return;
      }
      if stats.FullyFailed() {
        jobs := jobs[id := jobs[id].(status := Failed)];
        return;
      }
      jobs := jobs[id := jobs[id].(status := Done)];
    }
  }

  predicate Possible(es: seq<Event>)
    decreases |es|, 0
  {
    es == [] || (Possible(es[..|es| - 1]) && Enabled(After(es[..|es| - 1]), es[|es| - 1]))
  }

  function After(es: seq<Event>): State
    requires Possible(es)
    decreases |es|, 1
  {
    if es == [] then INITIAL else Step(After(es[..|es| - 1]), es[|es| - 1])
  }

  // ------------------------------------------------------------ the invariant

  /** Ids are handed out in order, so order lists the last 500 of them. */
  predicate Listed(s: State, id: nat) {
    1 <= id <= s.lastId && s.lastId < id + MAX_HISTORY
  }

  ghost predicate Recent(s: State) {
    && |s.order| == (if s.lastId < MAX_HISTORY then s.lastId else MAX_HISTORY)
    && forall k :: 0 <= k < |s.order| ==> s.order[k] == s.lastId - |s.order| + 1 + k
  }

  /** Two known active jobs for the same item. */
  predicate Rivals(s: State, a: nat, b: nat) {
    && a in s.jobs && b in s.jobs && s.jobs[a].Active() && s.jobs[b].Active()
    && s.jobs[a].For(s.jobs[b].appId, s.jobs[b].workshopId)
  }

  /** The listed active jobs are for different items. */
  ghost predicate UniqueListed(s: State) {
    forall a: nat, b: nat :: Rivals(s, a, b) && Listed(s, a) && Listed(s, b) ==> a == b
  }

  ghost predicate History(s: State) {
    && Recent(s)
    && (forall id :: Listed(s, id) ==> id in s.jobs)
    && (forall id :: id in s.jobs ==> 1 <= id <= s.lastId)
    && UniqueListed(s)
  }

  /** Ids on their way to the worker, or taken and not started. */
  function Waiting(s: State): set<nat> {
    Elems(s.queue) + s.pushers + (if s.worker.Took? then {s.worker.id} else {})
  }

  /** An id waits in one place and has not run. */
  ghost predicate Handover(s: State) {
    && Distinct(s.queue) && Elems(s.queue) !! s.pushers
    && (s.worker.Took? ==> s.worker.id !in Elems(s.queue) + s.pushers)
    && (forall id :: id in Waiting(s) ==> id in s.jobs && s.jobs[id].status == Queued && id !in Elems(s.runs))
    && Distinct(s.runs) && (forall id :: id in Elems(s.runs) ==> id <= s.lastId)
  }

  /** A running job is the worker's. */
  ghost predicate OneRunning(s: State) {
    && (forall id :: id in s.jobs ==> (s.jobs[id].status == Running <==> s.worker == Busy(id)))
    && (s.worker.Busy? ==> s.worker.id in s.jobs)
  }

  ghost predicate Inv(s: State) {
    History(s) && Handover(s) && OneRunning(s)
  }

  lemma {:induction false} ForgetAllKeeps(jobs: map<nat, Job>, ids: seq<nat>)
    ensures var r := ForgetAll(jobs, ids);
            && (forall id :: id in r <==> id in jobs && (jobs[id].Active() || id !in ids))
            && (forall id :: id in r ==> r[id] == jobs[id])
  {
    if ids != [] {
      var init, last := ids[..|ids| - 1], ids[|ids| - 1];
      ForgetAllKeeps(jobs, init);
      assert ids == init + [last];
    }
  }

  /** What Created changes: the new job appears, and the job that leaves the list,
      if one does, disappears if and only if it is finished. */
  lemma CreatedJobs(s: State, app: int, wid: nat)
    requires History(s)
    ensures var s', id := Created(s, app, wid), s.lastId + 1;
            && Recent(s') && id in s'.jobs && s'.jobs[id] == Job(app, wid, Queued)
            && (forall j :: j in s.jobs && (s.jobs[j].Active() || Listed(s', j)) ==> j in s'.jobs)
            && (forall j :: j in s'.jobs && j != id ==> j in s.jobs && s'.jobs[j] == s.jobs[j])
            && (forall j :: j in s'.jobs && Listed(s, j) && !Listed(s', j) ==> s.jobs[j].Active())
  {
    hide UniqueListed, ActiveFor;
    var id := s.lastId + 1;
    var jobs, order := s.jobs[id := Job(app, wid, Queued)], s.order + [id];
    var over := if |order| > MAX_HISTORY then |order| - MAX_HISTORY else 0;
    ForgetAllKeeps(jobs, order[..over]);
    hide ForgetAll;
    forall j ensures j in order[..over] <==> Listed(s, j) && !Listed(Created(s, app, wid), j) {
      if over > 0 { assert over == 1 && order[..over] == [s.order[0]]; }
    }
  }

  lemma CreatedKeepsHistory(s: State, app: int, wid: nat)
    requires History(s) && FindActive(s, app, wid, |s.order|).None?
    ensures History(Created(s, app, wid))
  {
    CreatedJobs(s, app, wid);
    hide FindActive, ForgetAll;
    var s', id := Created(s, app, wid), s.lastId + 1;
    forall a: nat | Listed(s, a) ensures !ActiveFor(s, a, app, wid) {
      assert s.order[a - s.lastId + |s.order| - 1] == a;
    }
    forall a: nat, b: nat | Rivals(s', a, b) && Listed(s', a) && Listed(s', b) ensures a == b {
      assert !ActiveFor(s, a, app, wid) && !ActiveFor(s, b, app, wid);
      assert a != id && b != id ==> Rivals(s, a, b);
    }
  }

  lemma CreatedKeepsHandover(s: State, app: int, wid: nat)
    requires History(s) && Handover(s)
    ensures Handover(Created(s, app, wid))
  {
    CreatedJobs(s, app, wid);
    hide ForgetAll, Recent, UniqueListed, Listed;
    var s', id := Created(s, app, wid), s.lastId + 1;
    assert id !in Waiting(s);
    SnocFacts<nat>(s.queue, id);
    assert Waiting(s') == Waiting(s) + {id};
  }

  lemma EnqueueKeepsInv(s: State, app: int, wid: nat)
    requires Inv(s)
    ensures Inv(Enqueued(s, app, wid))
  {
    hide Created, ForgetAll, History, Handover, FindActive;
    if FindActive(s, app, wid, |s.order|).None? {
      CreatedKeepsHistory(s, app, wid);
      CreatedKeepsHandover(s, app, wid);
      CreatedKeepsRunning(s, app, wid);
    }
  }

  lemma CreatedKeepsRunning(s: State, app: int, wid: nat)
    requires History(s) && OneRunning(s)
    ensures OneRunning(Created(s, app, wid))
  {
    CreatedJobs(s, app, wid);
    hide ForgetAll, Recent, UniqueListed;
  }

  lemma EnqueueActivates(s: State, app: int, wid: nat)
    requires History(s)
    ensures ActiveFor(Enqueued(s, app, wid), IdFor(s, app, wid), app, wid)
    ensures forall id: nat, w: nat :: ActiveFor(s, id, app, w) ==> ActiveFor(Enqueued(s, app, wid), id, app, w)
  {
    CreatedJobs(s, app, wid);
    hide Recent, UniqueListed, ForgetAll;
  }

  /** Every id asked for ends up as an active job of its own item, however many
      ids there are. */
  lemma {:induction false} EnqueueCovers(s: State, app: int, wids: seq<nat>)
    requires Inv(s)
    ensures Inv(EnqueuedAll(s, app, wids))
    ensures forall k :: 0 <= k < |wids| ==> ActiveFor(EnqueuedAll(s, app, wids), IdsFor(s, app, wids)[k], app, wids[k])
  {
    hide Enqueued, IdFor, Recent, UniqueListed, Handover, OneRunning, ActiveFor;
    if wids != [] {
      var n := |wids| - 1;
      var mid := EnqueuedAll(s, app, wids[..n]);
      EnqueueCovers(s, app, wids[..n]);
      EnqueueKeepsInv(mid, app, wids[n]);
      EnqueueActivates(mid, app, wids[n]);
      forall k | 0 <= k < n ensures ActiveFor(Enqueued(mid, app, wids[n]), IdsFor(s, app, wids)[k], app, wids[k]) {
        assert wids[..n][k] == wids[k] && IdsFor(s, app, wids)[k] == IdsFor(s, app, wids[..n])[k];
      }
    }
  }

  lemma WorkerKeepsHistory(s: State, e: Event)
    requires Inv(s) && Enabled(s, e) && !e.Enqueue?
    ensures History(Step(s, e))
  {
    var s' := Step(s, e);
    if e.Begin? { assert s.worker.id in Waiting(s); }
    assert forall id :: Listed(s', id) <==> Listed(s, id);
    forall a: nat, b: nat | Rivals(s', a, b) ensures Rivals(s, a, b) {
    }
  }

  lemma WorkerKeepsHandover(s: State, e: Event)
    requires Inv(s) && Enabled(s, e) && !e.Enqueue?
    ensures Handover(Step(s, e)) && OneRunning(Step(s, e))
  {
    hide Recent, UniqueListed;
    var s' := Step(s, e);
    match e
    case Push(id) =>
      SnocFacts(s.queue, id);
      assert Waiting(s') == Waiting(s);
    case GiveUp(id) =>
      assert Waiting(s') <= Waiting(s);
    case Take =>
      ElemsCons(s.queue);
      assert Waiting(s') == Waiting(s);
    case Begin =>
      assert s.worker.id in Waiting(s);
      SnocFacts(s.runs, s.worker.id);
      assert Waiting(s') <= Waiting(s) - {s.worker.id};
    case Finish(_, _) =>
      assert Waiting(s') <= Waiting(s);
  }

  lemma InitialInv()
    ensures Inv(INITIAL)
  {
  }

  lemma StepKeepsInv(s: State, e: Event)
    requires Inv(s) && Enabled(s, e)
    ensures Inv(Step(s, e))
  {
    hide Enqueued, History, Handover, OneRunning;
    if e.Enqueue? {
      EnqueueKeepsInv(s, e.app, e.wid);
    } else {
      WorkerKeepsHistory(s, e);
      WorkerKeepsHandover(s, e);
    }
  }

  lemma {:induction false} RunKeepsInv(es: seq<Event>)
    requires Possible(es)
    ensures Inv(After(es))
  {
    hide Step, Enabled, Inv;
    if es == [] {
      InitialInv();
    } else {
      var s, e := After(es[..|es| - 1]), es[|es| - 1];
      RunKeepsInv(es[..|es| - 1]);
      StepKeepsInv(s, e);
    }
  }

  // ------------------------------------------------------------- whole runs

  /** In every reachable state: a job was started at most once and at most one
      runs; the list is the last 500 ids, all known; and no two listed active
      jobs are for the same item. */
  lemma QueueSafety(es: seq<Event>)
    requires Possible(es)
    ensures var s := After(es);
            && Distinct(s.runs)
            && (forall a: nat, b: nat :: a in s.jobs && b in s.jobs && s.jobs[a].status == s.jobs[b].status == Running ==> a == b)
            && |s.order| == (if s.lastId < 500 then s.lastId else 500)
            && (forall k :: 0 <= k < |s.order| ==> s.order[k] == s.lastId - |s.order| + 1 + k)
            && (forall id :: id in s.order ==> id in s.jobs)
            && (forall a: nat, b: nat :: a in s.order && b in s.order && Rivals(s, a, b) ==> a == b)
  {
    RunKeepsInv(es);
    hide Possible, After, Handover;
  }

  /** How a status may change in one step. */
  predicate Moves(a: Status, b: Status) {
    a == b || (a == Queued && b == Running) || (a == Running && (b == Done || b == Failed))
  }

  lemma StatusMoves(s: State, e: Event, id: nat)
    requires Inv(s) && Enabled(s, e) && id <= s.lastId && id in Step(s, e).jobs
    ensures var j' := Step(s, e).jobs[id];
            && id in s.jobs && Moves(s.jobs[id].status, j'.status)
            && j'.For(s.jobs[id].appId, s.jobs[id].workshopId)
            && s.lastId <= Step(s, e).lastId
  {
    match e
    case Enqueue(app, wid) =>
      CreatedJobs(s, app, wid);
      hide Inv, ForgetAll, FindActive;
    case Begin =>
      assert s.worker.id in Waiting(s);
    case _ =>
  }

  /** From any point of a run to any later one. */
  predicate Reaches(a: Status, b: Status) {
    a == b || a == Queued || (a == Running && (b == Done || b == Failed))
  }

  /** Statuses only go forward over a whole run, a job never becomes another
      item's, and a forgotten id does not come back. */
  lemma {:induction false} StatusForward(es: seq<Event>, k: nat, id: nat)
    requires Possible(es) && k <= |es|
    requires Possible(es[..k]) && id <= After(es[..k]).lastId && id in After(es).jobs
    ensures var before, now := After(es[..k]), After(es);
            && before.lastId <= now.lastId
            && id in before.jobs && Reaches(before.jobs[id].status, now.jobs[id].status)
            && now.jobs[id].For(before.jobs[id].appId, before.jobs[id].workshopId)
  {
    if k == |es| {
      assert es[..k] == es;
    } else {
      var init := es[..|es| - 1];
      assert init[..k] == es[..k];
      LastIdGrows(init, k);
      RunKeepsInv(init);
      StatusMoves(After(init), es[|es| - 1], id);
      StatusForward(init, k, id);
    }
  }

  lemma StepGrows(s: State, e: Event)
    requires Enabled(s, e)
    ensures s.lastId <= Step(s, e).lastId
  {
    hide FindActive, ForgetAll;
  }

  lemma {:induction false} LastIdGrows(es: seq<Event>, k: nat)
    requires Possible(es) && k <= |es| && Possible(es[..k])
    ensures After(es[..k]).lastId <= After(es).lastId
  {
    hide Step, Enabled;
    if k == |es| {
      assert es[..k] == es;
    } else {
      assert es[..|es| - 1][..k] == es[..k];
      LastIdGrows(es[..|es| - 1], k);
      StepGrows(After(es[..|es| - 1]), es[|es| - 1]);
    }
  }

  /** How the last run of a job ended: what Finish brought while the worker was
      busy with it. */
  function LastFinish(es: seq<Event>, id: nat): Option<Event>
    requires Possible(es)
  {
    if es == [] then None
    else
      var init, e := es[..|es| - 1], es[|es| - 1];
      if e.Finish? && After(init).worker == Busy(id) then Some(e) else LastFinish(init, id)
  }

  /** The session failed, or its download: some file failed, and none was fetched
      or there already. */
  predicate WentWrong(e: Event) {
    e.Finish? && (e.error || (e.stats.fail > 0 && e.stats.ok == 0 && e.stats.skipped == 0))
  }

  /** Over every run a known job is failed if and only if its last run went wrong,
      and done if and only if it ended and did not. */
  lemma {:induction false} OutcomeExact(es: seq<Event>, id: nat)
    requires Possible(es) && id in After(es).jobs
    ensures var last, status := LastFinish(es, id), After(es).jobs[id].status;
            && (status == Failed <==> last.Some? && WentWrong(last.value))
            && (status == Done <==> last.Some? && !WentWrong(last.value))
  {
    if es != [] {
      var init, e := es[..|es| - 1], es[|es| - 1];
      RunKeepsInv(init);
      if id in After(init).jobs {
        OutcomeExact(init, id);
        OneStepOutcome(After(init), e, id);
      } else {
        NewIsQueued(After(init), e, id);
        NeverFinished(init, id);
      }
    }
  }

  lemma OneStepOutcome(s: State, e: Event, id: nat)
    requires Inv(s) && Enabled(s, e) && id in s.jobs && id in Step(s, e).jobs
    ensures var before, now := s.jobs[id].status, Step(s, e).jobs[id].status;
            if e.Finish? && s.worker == Busy(id) then now == (if WentWrong(e) then Failed else Done)
            else if before == Failed || before == Done then now == before else now != Failed && now != Done
  {
    match e
    case Enqueue(app, wid) =>
      CreatedJobs(s, app, wid);
      hide Inv, ForgetAll, FindActive;
    case Begin =>
      assert s.worker.id in Waiting(s);
    case _ =>
  }

  lemma NewIsQueued(s: State, e: Event, id: nat)
    requires Inv(s) && Enabled(s, e) && id !in s.jobs && id in Step(s, e).jobs
    ensures e.Enqueue? && id == s.lastId + 1 && Step(s, e).jobs[id].status == Queued
  {
    if e.Enqueue? {
      CreatedJobs(s, e.app, e.wid);
      hide Inv, ForgetAll, FindActive;
    }
  }

  lemma {:induction false} NeverFinished(es: seq<Event>, id: nat)
    requires Possible(es) && id > After(es).lastId
    ensures LastFinish(es, id).None?
  {
    if es != [] {
      var init, e := es[..|es| - 1], es[|es| - 1];
      RunKeepsInv(init);
      StepGrows(After(init), e);
      NeverFinished(init, id);
      hide Step, Enabled;
    }
  }

  // --------------------------------------------------------- first come, first

  /** An id is sent at once if there is room for 256, and left to a goroutine
      otherwise; the queue never holds more. */
  lemma SentAtOnce(s: State, app: int, wid: nat)
    requires FindActive(s, app, wid, |s.order|).None?
    ensures var s', id := Enqueued(s, app, wid), s.lastId + 1;
            if |s.queue| < 256 then s'.queue == s.queue + [id] && s'.pushers == s.pushers
            else s'.queue == s.queue && s'.pushers == s.pushers + {id}
  {
    hide ForgetAll, FindActive;
  }

  lemma {:induction false} QueueBounded(es: seq<Event>)
    requires Possible(es)
    ensures |After(es).queue| <= 256
  {
    if es != [] {
      QueueBounded(es[..|es| - 1]);
      hide FindActive, ForgetAll;
    }
  }

  /** The ids that were started, the one the worker has taken, and those in the
      channel, in this order. */
  function Line(s: State): seq<nat> {
    s.runs + (if s.worker.Took? then [s.worker.id] else []) + s.queue
  }

  predicate Increasing(ids: seq<nat>) {
    forall i, j :: 0 <= i < j < |ids| ==> ids[i] < ids[j]
  }

  predicate NoneWaited(es: seq<Event>) {
    forall i :: 0 <= i < |es| ==> !es[i].Push?
  }

  lemma IncreasingSnoc(ids: seq<nat>, id: nat)
    requires Increasing(ids) && forall x :: x in ids ==> x < id
    ensures Increasing(ids + [id])
  {
    forall i | 0 <= i < |ids| ensures ids[i] < id { assert ids[i] in ids; }
  }

  /** Jobs are started first come, first served: unless an id had to wait for room
      in the channel, they are started in the order they were created in. */
  lemma {:induction false} StartedInOrder(es: seq<Event>)
    requires Possible(es) && NoneWaited(es)
    ensures var s := After(es); Increasing(Line(s)) && forall id :: id in Line(s) ==> id <= s.lastId
  {
    hide ForgetAll, FindActive;
    if es != [] {
      var init, e := es[..|es| - 1], es[|es| - 1];
      var s, s' := After(init), After(es);
      assert !e.Push? && forall i :: 0 <= i < |init| ==> init[i] == es[i];
      StartedInOrder(init);
      RunKeepsInv(init);
      LineStep(s, e);
      if Line(s') == Line(s) + [s.lastId + 1] { IncreasingSnoc(Line(s), s.lastId + 1); }
    }
  }

  lemma LineStep(s: State, e: Event)
    requires Inv(s) && Enabled(s, e) && !e.Push?
    ensures var s' := Step(s, e);
            && (Line(s') == Line(s) || (Line(s') == Line(s) + [s.lastId + 1] && s'.lastId == s.lastId + 1))
            && s.lastId <= s'.lastId
  {
    hide ForgetAll, FindActive, History, OneRunning;
    var s' := Step(s, e);
    match e
    case Enqueue(_, _) =>
      var before, id := s.runs + (if s.worker.Took? then [s.worker.id] else []), s.lastId + 1;
      assert before + (s.queue + [id]) == before + s.queue + [id];
    case Take => assert s.queue == [s.queue[0]] + s.queue[1..];
    case Begin => assert s.worker.id in Waiting(s);
    case _ =>
  }

  /** The ids whose push timed out. */
  function GivenUp(es: seq<Event>): set<nat> {
    if es == [] then {}
    else GivenUp(es[..|es| - 1]) + (if es[|es| - 1].GiveUp? then {es[|es| - 1].id} else {})
  }

  ghost predicate NoneForgotten(s: State, givenUp: set<nat>) {
    forall id :: id in s.jobs && s.jobs[id].status == Queued ==> id in Waiting(s) + givenUp
  }

  lemma CreatedForgetsNone(s: State, app: int, wid: nat, givenUp: set<nat>)
    requires History(s) && NoneForgotten(s, givenUp)
    ensures NoneForgotten(Created(s, app, wid), givenUp)
  {
    CreatedJobs(s, app, wid);
    hide ForgetAll, Recent, UniqueListed, Listed;
    assert Waiting(Created(s, app, wid)) >= Waiting(s) + {s.lastId + 1};
  }

  lemma StepForgetsNone(s: State, e: Event, givenUp: set<nat>)
    requires Inv(s) && Enabled(s, e) && NoneForgotten(s, givenUp)
    ensures NoneForgotten(Step(s, e), givenUp + (if e.GiveUp? then {e.id} else {}))
  {
    hide Created, FindActive;
    var s' := Step(s, e);
    match e
    case Enqueue(app, wid) => CreatedForgetsNone(s, app, wid, givenUp);
    case Push(id) => assert Elems(s.queue + [id]) >= Elems(s.queue) + {id};
    case Take => ElemsCons(s.queue);
    case _ =>
  }

  /** No job is lost otherwise: a queued job is on its way to the worker unless
      its push timed out. */
  lemma {:induction false} QueuedMeansWaiting(es: seq<Event>)
    requires Possible(es)
    ensures NoneForgotten(After(es), GivenUp(es))
  {
    hide Step, Enabled, Inv, NoneForgotten;
    if es == [] {
      assert NoneForgotten(INITIAL, {}) by { InitialWaits(); }
    } else {
      QueuedMeansWaiting(es[..|es| - 1]);
      RunKeepsInv(es[..|es| - 1]);
      StepForgetsNone(After(es[..|es| - 1]), es[|es| - 1], GivenUp(es[..|es| - 1]));
    }
  }

  lemma InitialWaits()
    ensures NoneForgotten(INITIAL, {})
  {
  }

  /** A job whose push timed out stays queued for ever: it is never on its way to the
      worker again, never starts, and is never forgotten. */
  lemma {:induction false} GivenUpIsStuck(es: seq<Event>, id: nat)
    requires Possible(es) && id in GivenUp(es)
    ensures var s := After(es);
            id in s.jobs && s.jobs[id].status == Queued && id !in Waiting(s) && id !in Elems(s.runs)
  {
    var init, e := es[..|es| - 1], es[|es| - 1];
    RunKeepsInv(init);
    RunKeepsInv(es);
    if id in GivenUp(init) {
      GivenUpIsStuck(init, id);
      StuckStays(After(init), e, id);
    } else {
      assert id in Waiting(After(init));
      hide ForgetAll, FindActive;
    }
  }

  lemma StuckStays(s: State, e: Event, id: nat)
    requires Inv(s) && Enabled(s, e)
    requires id in s.jobs && s.jobs[id].status == Queued && id !in Waiting(s) && id !in Elems(s.runs)
    ensures var s' := Step(s, e);
            id in s'.jobs && s'.jobs[id].status == Queued && id !in Waiting(s') && id !in Elems(s'.runs)
  {
    match e
    case Enqueue(app, wid) =>
      CreatedJobs(s, app, wid);
      hide Inv, ForgetAll, FindActive;
    case Push(i) => assert Elems(s.queue + [i]) <= Elems(s.queue) + {i};
    case Take => ElemsCons(s.queue);
    case Begin => assert Elems(s.runs + [s.worker.id]) <= Elems(s.runs) + {s.worker.id};
    case _ =>
  }

  /** And while it is listed, asking for its item again gives the same stuck job. */
  lemma StuckBlocks(es: seq<Event>, id: nat)
    requires Possible(es) && id in GivenUp(es) && id in After(es).order
    ensures id in After(es).jobs
    ensures var s, job := After(es), After(es).jobs[id];
            Enqueued(s, job.appId, job.workshopId) == s && IdFor(s, job.appId, job.workshopId) == id
  {
    GivenUpIsStuck(es, id);
    RunKeepsInv(es);
    QueueSafety(es);
    hide Possible, After, GivenUp, Inv;
    var s, job := After(es), After(es).jobs[id];
    var found := FindActive(s, job.appId, job.workshopId, |s.order|);
    if found.Some? { assert Rivals(s, id, found.value); }
    hide FindActive;
    var k :| 0 <= k < |s.order| && s.order[k] == id;
    assert ActiveFor(s, s.order[k], job.appId, job.workshopId);
  }

  // ------------------------------------------------- active jobs off the list

  /** Over all known jobs, listed or not. */
  ghost predicate UniqueActive(s: State) {
    forall a: nat, b: nat :: Rivals(s, a, b) ==> a == b
  }

  /** An active job for the item that has fallen out of the list of 500. */
  ghost predicate Unlisted(s: State, app: int, wid: nat) {
    exists id: nat :: ActiveFor(s, id, app, wid) && !Listed(s, id)
  }

  /** Uniqueness of active jobs over the whole map is not an invariant: Enqueue
      breaks it exactly when an active job of that item is no longer listed. */
  lemma DuplicateIffUnlisted(s: State, app: int, wid: nat)
    requires Inv(s) && UniqueActive(s)
    ensures UniqueActive(Enqueued(s, app, wid)) <==> !Unlisted(s, app, wid)
  {
    var found := FindActive(s, app, wid, |s.order|);
    if found.Some? {
      forall id: nat | ActiveFor(s, id, app, wid) ensures Listed(s, id) {
        assert Rivals(s, id, found.value);
      }
    } else {
      CreatedJobs(s, app, wid);
      CreatedKeepsHistory(s, app, wid);
      NoneListed(s, app, wid);
      hide FindActive, Created, ForgetAll, Inv, Recent;
      var s', id := Created(s, app, wid), s.lastId + 1;
      assert ActiveFor(s', id, app, wid);
      if Unlisted(s, app, wid) {
        var old' :| ActiveFor(s, old', app, wid) && !Listed(s, old');
        assert Rivals(s', old', id);
      } else {
        forall a: nat, b: nat | Rivals(s', a, b) ensures a == b {
          assert !ActiveFor(s, a, app, wid) && !ActiveFor(s, b, app, wid);
          assert a != id && b != id ==> Rivals(s, a, b);
        }
      }
    }
  }

  lemma NoneListed(s: State, app: int, wid: nat)
    requires Recent(s) && FindActive(s, app, wid, |s.order|).None?
    ensures forall id: nat :: Listed(s, id) ==> !ActiveFor(s, id, app, wid)
  {
    forall a: nat | Listed(s, a) ensures !ActiveFor(s, a, app, wid) {
      assert s.order[a - s.lastId + |s.order| - 1] == a;
    }
  }

  /** No other step can break it. */
  lemma WorkerKeepsUnique(s: State, e: Event)
    requires Inv(s) && UniqueActive(s) && Enabled(s, e) && !e.Enqueue?
    ensures UniqueActive(Step(s, e))
  {
    if e.Begin? { assert s.worker.id in Waiting(s); }
    var s' := Step(s, e);
    forall a: nat, b: nat | Rivals(s', a, b) ensures a == b {
      assert Rivals(s, a, b);
    }
  }

  /** n different items of one app, queued one after the other. */
  function Fill(n: nat): (es: seq<Event>)
    ensures |es| == n
  {
    if n == 0 then [] else Fill(n - 1) + [Enqueue(1, n)]
  }

  ghost predicate Filled(s: State, n: nat) {
    && s.lastId == n
    && (forall id :: id in s.jobs <==> 1 <= id <= n)
    && (forall id :: id in s.jobs ==> s.jobs[id] == Job(1, id, Queued))
  }

  lemma FillOne(s: State, n: nat)
    requires History(s) && Filled(s, n)
    ensures Filled(Enqueued(s, 1, n + 1), n + 1)
  {
    assert FindActive(s, 1, n + 1, |s.order|).None?;
    CreatedJobs(s, 1, n + 1);
    hide ForgetAll, FindActive, Recent, UniqueListed;
  }

  /** With no worker step in between, all of them are queued and known. */
  lemma {:induction false} FillState(n: nat)
    ensures Possible(Fill(n)) && Filled(After(Fill(n)), n)
  {
    hide Filled, Enqueued, Handover, OneRunning, Recent, UniqueListed;
    if n > 0 {
      assert Fill(n)[..n - 1] == Fill(n - 1);
      FillState(n - 1);
      RunKeepsInv(Fill(n - 1));
      FillOne(After(Fill(n - 1)), n - 1);
    } else {
      assert Filled(INITIAL, 0) by { NoneFilled(); }
    }
  }

  lemma NoneFilled()
    ensures Filled(INITIAL, 0)
  {
  }

  /** A run that breaks it: 501 items, then the first of them again. */
  lemma TrimmedJobIsDuplicated()
    ensures var es := Fill(501);
            && Possible(es) && UniqueActive(After(es))
            && !UniqueActive(Enqueued(After(es), 1, 1))
  {
    hide Enqueued, Created, Possible, After;
    FillState(501);
    RunKeepsInv(Fill(501));
    var s := After(Fill(501));
    hide Inv;
    assert ActiveFor(s, 1, 1, 1) && !Listed(s, 1);
    DuplicateIffUnlisted(s, 1, 1);
  }
}
