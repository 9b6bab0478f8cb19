/** internal/download/item.go and internal/web/downloads.go: the workers that
    share one item's files, their atomic counters, and the job record they
    report to. Every schedule of every number of workers is a sequence of the
    events below. */
module Pool {
  import opened Download

  /** How far a job got. A worker is represented by the job it holds; the counter
      of its status, the byte counter and the progress report are separate
      steps. Lost: taken from the channel by a worker that then saw the context
      done. */
  datatype Stage =
    | Queued
    | Held
    | Ran(status: Status)
    | Counted(status: Status)
    | Summed(status: Status)
    | Reported(status: Status)
    | Lost
  {
    predicate HasRun() { Ran? || HasCounted() }
    predicate HasCounted() { Counted? || Summed? || Reported? }
    predicate Idle() { Queued? || Reported? || Lost? }
  }

  /** The job record the web UI shows while files are downloaded. */
  datatype Progress = Progress(total: nat, done: nat, stats: Stats)
  {
    /** FileOK, FileSkip or FileFail. */
    function Report(s: Status): Progress {
      this.(done := done + 1, stats := stats.Add(s))
    }

    function EndFiles(end: Stats): Progress {
      this.(stats := end)
    }
  }

  /** stats: okN, failN, skipN and bytesDone. */
  datatype State = State(stages: seq<Stage>, files: Files, stats: Stats, progress: Progress)

  /** EndFiles is the report to the job record after all workers have returned. */
  datatype Event =
    | Take(j: nat)
    | Lose(j: nat)
    | Run(j: nat)
    | Count(j: nat)
    | Sum(j: nat)
    | Report(j: nat)
    | EndFiles

  /** The parameters of one download: World, retries, directory and jobs. */
  datatype Setting = Setting(w: World, retries: nat, files: Files, jobs: seq<FileInfo>)
  {
    /** What job j does alone on the directory at the start. */
    function Alone(j: nat): (Files, Status)
      requires j < |jobs|
    {
      OneFile(w, retries, files, jobs[j])
    }
  }

  const ZERO := Stats(0, 0, 0, 0)

  function AllQueued(n: nat): (stages: seq<Stage>)
    ensures |stages| == n && forall j :: 0 <= j < n ==> stages[j] == Queued
  {
    seq(n, _ => Queued)
  }

  function Start(c: Setting): State {
    State(AllQueued(|c.jobs|), c.files, ZERO, Progress(|c.jobs|, 0, ZERO))
  }

  /** No worker is in the middle of a job. */
  predicate AllIdle(p: State) {
    forall j :: 0 <= j < |p.stages| ==> p.stages[j].Idle()
  }

  predicate Enabled(p: State, e: Event) {
    if e.EndFiles? then AllIdle(p) else
    e.j < |p.stages|
    && match e
       case Take(j) => p.stages[j].Queued?
       case Lose(j) => p.stages[j].Held?
       case Run(j) => p.stages[j].Held?
       case Count(j) => p.stages[j].Ran?
       case Sum(j) => p.stages[j].Counted?
       case Report(j) => p.stages[j].Summed?
       case EndFiles => true
  }

  function Bump(stats: Stats, s: Status): Stats {
    match s
    case Downloaded(_) => stats.(ok := stats.ok + 1)
    case Skipped(_) => stats.(skipped := stats.skipped + 1)
    case Failed => stats.(fail := stats.fail + 1)
  }

  function Step(c: Setting, p: State, e: Event): (p': State)
    requires Enabled(p, e) && |p.stages| == |c.jobs|
    ensures |p'.stages| == |c.jobs|
  {
    if e.EndFiles? then p.(progress := p.progress.EndFiles(p.stats)) else
    var s := p.stages[e.j];
    match e
    case EndFiles => p
    case Take(j) => p.(stages := p.stages[j := Held])
    case Lose(j) => p.(stages := p.stages[j := Lost])
    case Run(j) =>
      var (files, status) := OneFile(c.w, c.retries, p.files, c.jobs[j]);
      p.(stages := p.stages[j := Ran(status)], files := files)
    case Count(j) => p.(stages := p.stages[j := Counted(s.status)], stats := Bump(p.stats, s.status))
    case Sum(j) =>
      p.(stages := p.stages[j := Summed(s.status)],
         stats := if s.status.Downloaded? then p.stats.(bytes := p.stats.bytes + s.status.size) else p.stats)
    case Report(j) => p.(stages := p.stages[j := Reported(s.status)], progress := p.progress.Report(s.status))
  }

  predicate Possible(c: Setting, es: seq<Event>)
    decreases |es|, 0
  {
    es == [] || (Possible(c, es[..|es| - 1]) && Enabled(After(c, es[..|es| - 1]), es[|es| - 1]))
  }

  function After(c: Setting, es: seq<Event>): (p: State)
    requires Possible(c, es)
    ensures |p.stages| == |c.jobs|
    decreases |es|, 1
  {
    if es == [] then Start(c) else Step(c, After(c, es[..|es| - 1]), es[|es| - 1])
  }

  // ------------------------------------------------------- counters as sums

  function Plus(a: Stats, b: Stats): Stats {
    Stats(a.ok + b.ok, a.fail + b.fail, a.skipped + b.skipped, a.bytes + b.bytes)
  }

  /** What a job has added to the pool's counters so far. */
  function Added(s: Stage): Stats {
    if s.Counted? then Bump(ZERO, s.status)
    else if s.Summed? || s.Reported? then ZERO.Add(s.status)
    else ZERO
  }

  /** What a job has added to the job record so far. */
  function Shown(s: Stage): Stats {
    if s.Reported? then ZERO.Add(s.status) else ZERO
  }

  function Total(stages: seq<Stage>, part: Stage -> Stats): Stats {
    if stages == [] then ZERO else Plus(Total(stages[..|stages| - 1], part), part(stages[|stages| - 1]))
  }

  lemma {:induction false} TotalUpdate(stages: seq<Stage>, j: nat, s: Stage, part: Stage -> Stats)
    requires j < |stages|
    ensures Plus(Total(stages[j := s], part), part(stages[j])) == Plus(Total(stages, part), part(s))
  {
    var n := |stages| - 1;
    if j < n {
      assert stages[j := s][..n] == stages[..n][j := s];
      TotalUpdate(stages[..n], j, s, part);
    } else {
      assert stages[j := s][..n] == stages[..n];
    }
  }

  lemma TotalSnoc(stages: seq<Stage>, s: Stage, part: Stage -> Stats)
    ensures Total(stages + [s], part) == Plus(Total(stages, part), part(s))
  {
    assert (stages + [s])[..|stages|] == stages;
  }

  lemma QueuedSnoc(n: nat)
    ensures AllQueued(n + 1) == AllQueued(n) + [Queued]
  {
  }

  lemma {:induction false} TotalOfQueued(n: nat, part: Stage -> Stats)
    requires part(Queued) == ZERO
    ensures Total(AllQueued(n), part) == ZERO
  {
    if n == 0 {
      assert AllQueued(n) == [];
    } else {
      TotalOfQueued(n - 1, part);
      QueuedSnoc(n - 1);
      TotalSnoc(AllQueued(n - 1), Queued, part);
    }
  }

  lemma {:induction false} TotalFiles(stages: seq<Stage>, part: Stage -> Stats)
    requires forall s :: part(s).Files() <= 1
    ensures Total(stages, part).Files() <= |stages|
  {
    if stages != [] { TotalFiles(stages[..|stages| - 1], part); }
  }

  ghost predicate Counters(p: State) {
    && p.stats == Total(p.stages, Added)
    && p.progress.stats == Total(p.stages, Shown)
    && p.progress.done == p.progress.stats.Files()
    && p.progress.total == |p.stages|
  }

  /** A step changes the counters by what it changes of its own job's share. */
  lemma StepChanges(c: Setting, p: State, e: Event)
    requires Enabled(p, e) && |p.stages| == |c.jobs| && !e.EndFiles?
    ensures var p', s := Step(c, p, e), p.stages[e.j];
            && p'.stages == p.stages[e.j := p'.stages[e.j]]
            && Plus(p'.stats, Added(s)) == Plus(p.stats, Added(p'.stages[e.j]))
            && Plus(p'.progress.stats, Shown(s)) == Plus(p.progress.stats, Shown(p'.stages[e.j]))
            && p'.progress.done - p.progress.done == p'.progress.stats.Files() - p.progress.stats.Files()
            && p'.progress.total == p.progress.total
  {
    hide OneFile;
    match e
    case Take(_) =>
    case Lose(_) =>
    case Run(_) =>
    case Count(_) =>
    case Sum(_) =>
    case Report(_) =>
    case EndFiles =>
  }

  lemma Cancel(a: Stats, a': Stats, x: Stats, t': Stats, y: Stats)
    requires Plus(a', x) == Plus(a, y) == Plus(t', x)
    ensures a' == t'
  {
  }

  /** Once every worker is idle, whatever was lost or never taken, the pool has
      counted what the job record shows. */
  lemma EndFilesChangesNothing(c: Setting, p: State)
    requires |p.stages| == |c.jobs| && Counters(p) && AllIdle(p)
    ensures p.progress.EndFiles(p.stats) == p.progress && Step(c, p, EndFiles) == p
  {
    IdleTotals(p.stages);
    hide Total;
  }

  lemma {:induction false} IdleTotals(stages: seq<Stage>)
    requires forall j :: 0 <= j < |stages| ==> stages[j].Idle()
    ensures Total(stages, Added) == Total(stages, Shown)
  {
    if stages != [] {
      var init, s := stages[..|stages| - 1], stages[|stages| - 1];
      IdleTotals(init);
      assert s.Idle() && Added(s) == Shown(s);
    }
  }

  lemma StepKeepsCounters(c: Setting, p: State, e: Event)
    requires Enabled(p, e) && |p.stages| == |c.jobs| && Counters(p)
    ensures Counters(Step(c, p, e))
  {
    if e.EndFiles? {
      EndFilesChangesNothing(c, p);
      return;
    }
    StepChanges(c, p, e);
    hide Step, Total, Added, Shown, Enabled, Plus, Stats.Files;
    var p' := Step(c, p, e);
    var s, s' := p.stages[e.j], p'.stages[e.j];
    TotalUpdate(p.stages, e.j, s', Added);
    TotalUpdate(p.stages, e.j, s', Shown);
    Cancel(p.stats, p'.stats, Added(s), Total(p'.stages, Added), Added(s'));
    Cancel(p.progress.stats, p'.progress.stats, Shown(s), Total(p'.stages, Shown), Shown(s'));
  }

  // --------------------------------------------------------- effects on disk

  /** Each job that ran has the effect and the status it would have alone; until
      then its path is untouched, and so is every other path. */
  ghost predicate Effects(c: Setting, p: State)
    requires |p.stages| == |c.jobs|
  {
    && (forall j :: 0 <= j < |c.jobs| ==> Effect(c, p, j))
    && (forall q :: q !in Names(c.jobs) ==> Same(p.files, c.files, q))
  }

  predicate Effect(c: Setting, p: State, j: nat)
    requires |p.stages| == |c.jobs| && j < |c.jobs|
  {
    var ran := p.stages[j].HasRun();
    && (ran ==> p.stages[j].status == c.Alone(j).1)
    && Same(p.files, if ran then c.Alone(j).0 else c.files, c.jobs[j].name)
  }

  lemma StepKeepsEffects(c: Setting, p: State, e: Event)
    requires UniqueNames(c.jobs) && |p.stages| == |c.jobs| && Effects(c, p) && Enabled(p, e)
    ensures Effects(c, Step(c, p, e))
  {
    hide OneFile;
    if e.EndFiles? {
      forall j | 0 <= j < |c.jobs| ensures Effect(c, Step(c, p, e), j) { assert Effect(c, p, j); }
      return;
    }
    var p', i := Step(c, p, e), e.j;
    var f := c.jobs[i];
    assert Effect(c, p, i) && f.name in Names(c.jobs);
    if e.Run? {
      OneFileLocal(c.w, c.retries, p.files, c.files, f);
      assert Effect(c, p', i);
    }
    forall j | 0 <= j < |c.jobs| && j != i ensures Effect(c, p', j) {
      assert Effect(c, p, j);
      assert c.jobs[j].name != f.name;
      assert Same(p'.files, p.files, c.jobs[j].name);
    }
    forall q | q !in Names(c.jobs) ensures Same(p'.files, c.files, q) {
      assert Same(p'.files, p.files, q);
    }
  }

  lemma StartCounters(c: Setting)
    ensures Counters(Start(c))
  {
    hide Total, AllQueued;
    TotalOfQueued(|c.jobs|, Added);
    TotalOfQueued(|c.jobs|, Shown);
  }

  lemma StartEffects(c: Setting)
    ensures Effects(c, Start(c))
  {
    hide Names, OneFile, AllQueued;
    var p := Start(c);
    forall j | 0 <= j < |c.jobs| ensures Effect(c, p, j) {
      assert p.stages[j] == Queued;
    }
  }

  lemma {:induction false} RunKeepsInvariants(c: Setting, es: seq<Event>)
    requires UniqueNames(c.jobs) && Possible(c, es)
    ensures Counters(After(c, es)) && Effects(c, After(c, es))
  {
    hide Step, Enabled, Counters, Effects, Start;
    if es == [] {
      StartCounters(c);
      StartEffects(c);
    } else {
      RunKeepsInvariants(c, es[..|es| - 1]);
      StepKeepsCounters(c, After(c, es[..|es| - 1]), es[|es| - 1]);
      StepKeepsEffects(c, After(c, es[..|es| - 1]), es[|es| - 1]);
    }
  }

  // ------------------------------------------------------------- whole runs

  /** At every step of every schedule, cancelled or not: FilesDone = FilesOK +
      FilesFail + FilesSkip <= FilesTotal in the job record, the pool has counted
      at most one result per file, nothing outside the item's files changed, and
      EndFiles, when it comes, changes none of the counts. */
  lemma AlwaysConsistent(c: Setting, es: seq<Event>)
    requires UniqueNames(c.jobs) && Possible(c, es)
    ensures var p := After(c, es);
            && p.progress.done == p.progress.stats.Files() <= p.progress.total == |c.jobs|
            && p.stats.Files() <= |c.jobs|
            && (Enabled(p, EndFiles) ==> p.progress.EndFiles(p.stats) == p.progress == Step(c, p, EndFiles).progress)
            && forall q :: q !in Names(c.jobs) ==> Same(p.files, c.files, q)
  {
    hide Possible, After, OneFile, Total;
    RunKeepsInvariants(c, es);
    if AllIdle(After(c, es)) { EndFilesChangesNothing(c, After(c, es)); }
    hide AllIdle;
    TotalFiles(After(c, es).stages, Added);
    TotalFiles(After(c, es).stages, Shown);
  }

  predicate AllReported(p: State) {
    forall j :: 0 <= j < |p.stages| ==> p.stages[j].Reported?
  }

  /** late says which files were not reported in the end: lost, or never taken. */
  predicate Unreported(p: State, late: nat -> bool) {
    forall j :: 0 <= j < |p.stages| ==> (p.stages[j].Reported? <==> !late(j))
  }

  lemma NoneYet()
    ensures Total([], Added) == ZERO
  {
  }

  lemma TotalStep(stages: seq<Stage>, k: nat, part: Stage -> Stats)
    requires 0 < k <= |stages|
    ensures Total(stages[..k], part) == Plus(Total(stages[..k - 1], part), part(stages[k - 1]))
  {
    assert stages[..k][..k - 1] == stages[..k - 1];
  }

  /** What file k adds is what it would add alone, or nothing if it is late. */
  lemma OneShare(c: Setting, p: State, late: nat -> bool, k: nat)
    requires UniqueNames(c.jobs) && |p.stages| == |c.jobs| && k < |c.jobs|
    requires AllIdle(p) && Unreported(p, late) && Effects(c, p)
    ensures var before := Chosen(late, c.jobs[..k]);
            var t := Tally(c.w, c.retries, c.files, before);
            Plus(t, Added(p.stages[k]))
            == if late(k) then t else t.Add(OneFile(c.w, c.retries, AllFiles(c.w, c.retries, c.files, before), c.jobs[k]).1)
  {
    hide OneFile, AllFiles, Tally, Names, Chosen;
    assert Effect(c, p, k) && p.stages[k].Idle();
    PrefixFresh(c.jobs, k);
    ChosenNames(late, c.jobs[..k]);
    StatusIndependent(c.w, c.retries, c.files, Chosen(late, c.jobs[..k]), c.jobs[k]);
  }

  lemma PrefixFresh(jobs: seq<FileInfo>, k: nat)
    requires UniqueNames(jobs) && k < |jobs|
    ensures UniqueNames(jobs[..k]) && jobs[k].name !in Names(jobs[..k])
  {
    forall f | f in jobs[..k] ensures f.name != jobs[k].name { }
  }

  lemma {:induction false} ChosenTotal(c: Setting, p: State, late: nat -> bool, k: nat)
    requires UniqueNames(c.jobs) && |p.stages| == |c.jobs| && k <= |c.jobs|
    requires AllIdle(p) && Unreported(p, late) && Effects(c, p)
    ensures Total(p.stages[..k], Added) == Tally(c.w, c.retries, c.files, Chosen(late, c.jobs[..k]))
  {
    hide OneFile, AllFiles, UniqueNames, Effects, AllIdle, Unreported, Total, Added, Plus;
    if k == 0 {
      NoneYet();
    } else {
      ChosenTotal(c, p, late, k - 1);
      TotalStep(p.stages, k, Added);
      OneShare(c, p, late, k - 1);
      assert c.jobs[..k][..k - 1] == c.jobs[..k - 1];
      var before := Chosen(late, c.jobs[..k - 1]);
      assert (before + [c.jobs[k - 1]])[..|before|] == before;
    }
  }

  /** Whatever the number of workers, the schedule and the moment the context is
      done: once all workers are idle, the directory, the counters and the job
      record are those of processing the reported files one after the other, in
      the order of the manifest. */
  lemma RunIsChosen(c: Setting, es: seq<Event>, late: nat -> bool)
    requires UniqueNames(c.jobs) && Possible(c, es)
    requires AllIdle(After(c, es)) && Unreported(After(c, es), late)
    ensures var p, chosen := After(c, es), Chosen(late, c.jobs);
            && p.files == AllFiles(c.w, c.retries, c.files, chosen)
            && p.stats == p.progress.stats == Tally(c.w, c.retries, c.files, chosen)
  {
    hide Total, Tally, OneFile, AllFiles, Possible, After, Effects, AllIdle, Unreported, Chosen, Step;
    var p, n := After(c, es), |c.jobs|;
    RunKeepsInvariants(c, es);
    EndFilesChangesNothing(c, p);
    ChosenTotal(c, p, late, n);
    assert p.stages[..n] == p.stages && c.jobs[..n] == c.jobs;
    ChosenFiles(c, p, late);
  }

  lemma ChosenFiles(c: Setting, p: State, late: nat -> bool)
    requires UniqueNames(c.jobs) && |p.stages| == |c.jobs|
    requires AllIdle(p) && Unreported(p, late) && Effects(c, p)
    ensures p.files == AllFiles(c.w, c.retries, c.files, Chosen(late, c.jobs))
  {
    hide OneFile, AllFiles, Effects;
    var chosen := Chosen(late, c.jobs);
    var all := AllFiles(c.w, c.retries, c.files, chosen);
    ChosenNames(late, c.jobs);
    JobsIndependent(c.w, c.retries, c.files, chosen);
    hide Chosen;
    forall q ensures Same(p.files, all, q) {
      if f :| f in c.jobs && f.name == q {
        var j :| 0 <= j < |c.jobs| && c.jobs[j] == f;
        PathOfJob(c, p, late, j);
      } else {
        OtherPath(c, p, q);
        assert q !in Names(chosen);
      }
    }
    SameEverywhere(p.files, all);
  }

  lemma OtherPath(c: Setting, p: State, q: Path)
    requires |p.stages| == |c.jobs| && Effects(c, p) && forall f :: f in c.jobs ==> f.name != q
    ensures q !in Names(c.jobs) && Same(p.files, c.files, q)
  {
    hide OneFile;
  }

  lemma PathOfJob(c: Setting, p: State, late: nat -> bool, j: nat)
    requires UniqueNames(c.jobs) && |p.stages| == |c.jobs| && j < |c.jobs|
    requires AllIdle(p) && Unreported(p, late) && Effects(c, p)
    ensures Same(p.files, AllFiles(c.w, c.retries, c.files, Chosen(late, c.jobs)), c.jobs[j].name)
  {
    hide OneFile, AllFiles, Names;
    var chosen := Chosen(late, c.jobs);
    ChosenNames(late, c.jobs);
    JobsIndependent(c.w, c.retries, c.files, chosen);
    assert Effect(c, p, j) && p.stages[j].Idle();
    if !late(j) {
      ChosenFrom(late, c.jobs, c.jobs[j]);
      var i :| 0 <= i < |chosen| && chosen[i] == c.jobs[j];
    }
    hide Chosen;
  }

  lemma PossibleSnoc(c: Setting, es: seq<Event>, e: Event)
    requires Possible(c, es) && Enabled(After(c, es), e)
    ensures Possible(c, es + [e]) && After(c, es + [e]) == Step(c, After(c, es), e)
  {
    hide Enabled, Step;
    assert (es + [e])[..|es|] == es;
  }

  /** What the machine leaves open and the code does not: the channel hands out the
      files in order, and a context that is done stays so. */
  predicate Orderly(es: seq<Event>) {
    && (forall i, k :: 0 <= i < k < |es| && es[i].Take? && es[k].Take? ==> es[i].j < es[k].j)
    && (forall i, k :: 0 <= i < k < |es| && es[i].Lose? ==> es[k].Lose?)
  }

  lemma OrderlySnoc(es: seq<Event>, e: Event)
    requires Orderly(es)
    requires e.Lose? || (NotCancelled(es) && (e.Take? ==> forall i :: 0 <= i < |es| && es[i].Take? ==> es[i].j < e.j))
    ensures Orderly(es + [e]) && (!e.Lose? ==> NotCancelled(es + [e]))
  {
  }

  lemma {:induction false} TakeAll(c: Setting, k: nat) returns (es: seq<Event>)
    requires k <= |c.jobs|
    ensures Possible(c, es) && Orderly(es) && NotCancelled(es)
    ensures forall i :: 0 <= i < |es| && es[i].Take? ==> es[i].j < k
    ensures forall j :: 0 <= j < |c.jobs| ==> After(c, es).stages[j] == if j < k then Held else Queued
  {
    if k == 0 {
      es := [];
    } else {
      var init := TakeAll(c, k - 1);
      hide Possible, After, Orderly;
      PossibleSnoc(c, init, Take(k - 1));
      OrderlySnoc(init, Take(k - 1));
      es := init + [Take(k - 1)];
    }
  }

  /** A file in hand is processed, counted and reported. */
  lemma FinishJob(c: Setting, es: seq<Event>, j: nat) returns (more: seq<Event>)
    requires Possible(c, es) && j < |c.jobs| && After(c, es).stages[j].Held?
    requires Orderly(es) && NotCancelled(es)
    ensures Possible(c, more) && Orderly(more) && NotCancelled(more)
    ensures After(c, more).stages[j].Reported?
    ensures After(c, more).stages == After(c, es).stages[j := After(c, more).stages[j]]
  {
    hide Possible, After, OneFile, Orderly, NotCancelled;
    PossibleSnoc(c, es, Run(j));
    OrderlySnoc(es, Run(j));
    var a := es + [Run(j)];
    PossibleSnoc(c, a, Count(j));
    OrderlySnoc(a, Count(j));
    var b := a + [Count(j)];
    PossibleSnoc(c, b, Sum(j));
    OrderlySnoc(b, Sum(j));
    var d := b + [Sum(j)];
    PossibleSnoc(c, d, Report(j));
    OrderlySnoc(d, Report(j));
    more := d + [Report(j)];
  }

  lemma {:induction false} FinishChosen(c: Setting, late: nat -> bool, k: nat) returns (es: seq<Event>)
    requires k <= |c.jobs|
    ensures Possible(c, es) && Orderly(es) && NotCancelled(es)
    ensures forall j :: 0 <= j < |c.jobs| ==>
              var s := After(c, es).stages[j]; if j < k && !late(j) then s.Reported? else s.Held?
  {
    hide Possible, After, Orderly, NotCancelled;
    if k == 0 {
      es := TakeAll(c, |c.jobs|);
    } else {
      es := FinishChosen(c, late, k - 1);
      if !late(k - 1) { es := FinishJob(c, es, k - 1); }
    }
  }

  lemma {:induction false} LoseRest(c: Setting, late: nat -> bool, k: nat) returns (es: seq<Event>)
    requires k <= |c.jobs|
    ensures Possible(c, es) && Orderly(es)
    ensures forall j :: 0 <= j < |c.jobs| ==>
              var s := After(c, es).stages[j]; if !late(j) then s.Reported? else if j < k then s.Lost? else s.Held?
  {
    hide Possible, After, Orderly, NotCancelled, OneFile;
    if k == 0 {
      es := FinishChosen(c, late, |c.jobs|);
    } else {
      es := LoseRest(c, late, k - 1);
      if late(k - 1) {
        PossibleSnoc(c, es, Lose(k - 1));
        OrderlySnoc(es, Lose(k - 1));
        es := es + [Lose(k - 1)];
      }
    }
  }

  /** And every choice of reported files is the outcome of some schedule, one that
      takes the files in order and in which the context stays done. */
  lemma EveryChoiceRuns(c: Setting, late: nat -> bool) returns (es: seq<Event>)
    ensures Possible(c, es) && Orderly(es) && AllIdle(After(c, es)) && Unreported(After(c, es), late)
  {
    es := LoseRest(c, late, |c.jobs|);
    hide Possible, After, Orderly;
  }

  /** No worker saw the context done. */
  predicate NotCancelled(es: seq<Event>) {
    forall i :: 0 <= i < |es| ==> !es[i].Lose?
  }

  /** Nothing is left to do but to lose a job, or to end. */
  ghost predicate Over(p: State) {
    forall e :: Enabled(p, e) ==> e.Lose? || e.EndFiles?
  }

  lemma {:induction false} NoneLost(c: Setting, es: seq<Event>)
    requires Possible(c, es) && NotCancelled(es)
    ensures forall j :: 0 <= j < |c.jobs| ==> !After(c, es).stages[j].Lost?
  {
    hide OneFile;
    if es != [] {
      var init, e := es[..|es| - 1], es[|es| - 1];
      assert !e.Lose? && forall i :: 0 <= i < |init| ==> init[i] == es[i];
      NoneLost(c, init);
    }
  }

  /** Every file is processed exactly once: a run without cancellation that is
      over has reported every file. */
  lemma AllProcessed(c: Setting, es: seq<Event>)
    requires Possible(c, es) && NotCancelled(es) && Over(After(c, es))
    ensures AllReported(After(c, es))
  {
    NoneLost(c, es);
    var p := After(c, es);
    hide After, Possible, OneFile;
    forall j | 0 <= j < |p.stages| ensures p.stages[j].Reported? {
      assert !Enabled(p, Take(j)) && !Enabled(p, Run(j)) && !Enabled(p, Count(j));
      assert !Enabled(p, Sum(j)) && !Enabled(p, Report(j));
    }
  }

  lemma {:induction false} AllChosen(jobs: seq<FileInfo>)
    ensures Chosen(_ => false, jobs) == jobs
  {
    if jobs != [] { AllChosen(jobs[..|jobs| - 1]); }
  }

  lemma {:induction false} TallyCounts(w: World, retries: nat, files: Files, jobs: seq<FileInfo>)
    ensures Tally(w, retries, files, jobs).Files() == |jobs|
  {
    hide OneFile, AllFiles, Stats.Add, Stats.Files;
    if jobs == [] {
      NoneCounted();
    } else {
      var init, f := jobs[..|jobs| - 1], jobs[|jobs| - 1];
      TallyCounts(w, retries, files, init);
      AddCounts(Tally(w, retries, files, init), OneFile(w, retries, AllFiles(w, retries, files, init), f).1);
    }
  }

  lemma NoneCounted()
    ensures Stats(0, 0, 0, 0).Files() == 0
  {
  }

  lemma AddCounts(t: Stats, s: Status)
    ensures t.Add(s).Files() == t.Files() + 1
  {
  }

  /** Conservation: whatever the number of workers and the schedule, when a run
      without cancellation is over the directory, the counters and the job record
      are those of processing the files one after the other; every file counts
      once, and EndFiles changes none of the counts. */
  lemma ScheduleIrrelevant(c: Setting, es: seq<Event>)
    requires UniqueNames(c.jobs) && Possible(c, es) && NotCancelled(es) && Over(After(c, es))
    ensures var p, n := After(c, es), |c.jobs|;
            && p.stats == Tally(c.w, c.retries, c.files, c.jobs)
            && p.stats.Files() == n == p.progress.done
            && p.progress.EndFiles(p.stats) == p.progress
            && p.files == AllFiles(c.w, c.retries, c.files, c.jobs)
  {
    var p := After(c, es);
    AllProcessed(c, es);
    RunKeepsInvariants(c, es);
    hide Over, Possible, After, Enabled, Total, Tally, AllFiles, Chosen, Effects;
    assert AllIdle(p) && Unreported(p, _ => false);
    AllChosen(c.jobs);
    RunIsChosen(c, es, _ => false);
    EndFilesChangesNothing(c, p);
    TallyCounts(c.w, c.retries, c.files, c.jobs);
  }

  lemma SameEverywhere(a: Files, b: Files)
    requires forall q :: Same(a, b, q)
    ensures a == b
  {
    forall q ensures q in a <==> q in b { assert Same(a, b, q); }
    forall q | q in a ensures a[q] == b[q] { assert Same(a, b, q); }
  }
}
