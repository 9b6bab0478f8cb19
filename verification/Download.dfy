/** internal/download/item.go: one item's files, one by one and by a pool of
    workers. The item directory is the map of its regular files; names are
    already clean relative paths. What the network, the disk and the context do
    is a parameter (World). */
module Download {
  import opened ByteSeq
  import opened Results
  import opened Selection

  type Path = string
  type Files = map<Path, Bytes>

  /** What the download needs of a manifest entry. */
  datatype FileInfo = FileInfo(name: Path, directory: bool, size: nat, sha: Bytes)

  /** read(p, n): the n-th attempt to fetch p. cancelled(p, n): the context is
      done before that attempt; late(k): it is done when a worker comes to the
      k-th file. writes(p): os.WriteFile succeeds. */
  datatype World = World(
    sha1: Bytes -> Bytes,
    read: (Path, nat) -> Option<Bytes>,
    cancelled: (Path, nat) -> bool,
    late: nat -> bool,
    writes: Path -> bool)

  datatype Status = Downloaded(size: nat) | Skipped(size: nat) | Failed

  // ------------------------------------------------------------------ one file

  predicate LocalMatches(w: World, files: Files, f: FileInfo) {
    && |f.sha| == 20
    && f.name in files
    && (f.size > 0 ==> |files[f.name]| == f.size)
    && w.sha1(files[f.name]) == f.sha
  }

  /** What the retry loop writes: the first attempt that can be read. */
  function Fetched(w: World, p: Path, attempt: nat, retries: nat): Option<Bytes>
    decreases retries + 1 - attempt
  {
    if attempt > retries || w.cancelled(p, attempt) then None
    else match w.read(p, attempt)
      case None => Fetched(w, p, attempt + 1, retries)
      case Some(data) => if w.writes(p) then Some(data) else None
  }

  /** The n-th attempt is the one that counts, of those from the first-th on: the
      first whose read succeeds, with no attempt up to it cancelled; and its data
      can be written. */
  predicate Arrives(w: World, p: Path, first: nat, n: nat, retries: nat) {
    && first <= n <= retries && w.read(p, n).Some? && w.writes(p)
    && (forall i :: first <= i < n ==> w.read(p, i).None?)
    && (forall i :: first <= i <= n ==> !w.cancelled(p, i))
  }

  /** A file is fetched with this data if and only if some attempt arrives with it. */
  lemma {:induction false} FetchedIff(w: World, p: Path, first: nat, retries: nat, data: Bytes)
    ensures Fetched(w, p, first, retries) == Some(data)
            <==> exists n: nat :: Arrives(w, p, first, n, retries) && w.read(p, n) == Some(data)
    decreases retries + 1 - first
  {
    if first <= retries && !w.cancelled(p, first) {
      if w.read(p, first).Some? {
        assert w.writes(p) ==> Arrives(w, p, first, first, retries);
        forall n: nat | Arrives(w, p, first, n, retries) ensures n == first { }
      } else {
        FetchedIff(w, p, first + 1, retries, data);
        forall n: nat ensures Arrives(w, p, first, n, retries) <==> Arrives(w, p, first + 1, n, retries) { }
      }
    }
  }

  /** At most one attempt arrives. */
  lemma ArrivesOnce(w: World, p: Path, m: nat, n: nat, retries: nat)
    requires Arrives(w, p, 1, m, retries) && Arrives(w, p, 1, n, retries)
    ensures m == n
  {
  }

  /** downloadOneFile: the directory afterwards, and the status. */
  function OneFile(w: World, retries: nat, files: Files, f: FileInfo): (Files, Status) {
    if LocalMatches(w, files, f) then (files, Skipped(|files[f.name]|))
    else match Fetched(w, f.name, 1, retries)
      case Some(data) => (files[f.name := data], Downloaded(|data|))
      case None => (files - {f.name}, Failed)
  }

  /** What becomes of one file. With a 20-byte hash, the recorded size and that
      hash it is there already and skipped; else the attempt that arrives is
      written; and if none does it is removed. */
  lemma OneFileMeans(w: World, retries: nat, files: Files, f: FileInfo)
    ensures var p := f.name;
            var (after, status) := OneFile(w, retries, files, f);
            if p in files && |f.sha| == 20 && (f.size == 0 || |files[p]| == f.size) && w.sha1(files[p]) == f.sha
            then after == files && status == Skipped(|files[p]|)
            else
              && (forall n: nat :: Arrives(w, p, 1, n, retries) ==>
                    after == files[p := w.read(p, n).value] && status == Downloaded(|w.read(p, n).value|))
              && ((forall n: nat :: !Arrives(w, p, 1, n, retries)) ==> after == files - {p} && status == Failed)
  {
    hide Fetched, Arrives;
    var p := f.name;
    if n: nat :| Arrives(w, p, 1, n, retries) {
      FetchedIff(w, p, 1, retries, w.read(p, n).value) by { ReadAt(w, p, n, retries); }
      forall m: nat | Arrives(w, p, 1, m, retries) ensures m == n { ArrivesOnce(w, p, m, n, retries); }
      ReadAt(w, p, n, retries);
    } else if Fetched(w, p, 1, retries).Some? {
      FetchedIff(w, p, 1, retries, Fetched(w, p, 1, retries).value);
    }
  }

  lemma ReadAt(w: World, p: Path, n: nat, retries: nat)
    requires Arrives(w, p, 1, n, retries)
    ensures w.read(p, n).Some?
  {
  }

  /** Regular files with a name; the others make directories or nothing. */
  predicate IsJob(f: FileInfo) {
    !f.directory && f.name != "" && f.name != "."
  }

  function Jobs(fs: seq<FileInfo>): seq<FileInfo> {
    if fs == [] then []
    else
      var init, f := Jobs(fs[..|fs| - 1]), fs[|fs| - 1];
      if IsJob(f) then init + [f] else init
  }

  /** The k-th entry is no directory, and its clean name is a name. */
  predicate RegularAt(fs: seq<FileInfo>, k: nat) {
    k < |fs| && !fs[k].directory && fs[k].name != "" && fs[k].name != "."
  }

  lemma {:induction false} JobsSelected(fs: seq<FileInfo>)
    ensures Selected(fs, (k: nat) => RegularAt(fs, k), Jobs(fs))
  {
    if fs == [] {
      NoneSelected<FileInfo>((k: nat) => RegularAt(fs, k));
    } else {
      var init, f := fs[..|fs| - 1], fs[|fs| - 1];
      JobsSelected(init);
      assert fs == init + [f];
      SelectedSnoc(init, f, (k: nat) => RegularAt(init, k),
                   (k: nat) => RegularAt(fs, k), Jobs(init));
    }
  }

  function AllFiles(w: World, retries: nat, files: Files, jobs: seq<FileInfo>): Files {
    if jobs == [] then files
    else OneFile(w, retries, AllFiles(w, retries, files, jobs[..|jobs| - 1]), jobs[|jobs| - 1]).0
  }

  datatype Stats = Stats(ok: nat, fail: nat, skipped: nat, bytes: nat)
  {
    function Files(): nat { ok + fail + skipped }

    predicate FullyFailed() { ok == 0 && skipped == 0 && fail > 0 }

    function Add(s: Status): Stats {
      match s
      case Downloaded(n) => this.(ok := ok + 1, bytes := bytes + n)
      case Skipped(_) => this.(skipped := skipped + 1)
      case Failed => this.(fail := fail + 1)
    }
  }

  /** The counters after these jobs, one after the other. */
  function Tally(w: World, retries: nat, files: Files, jobs: seq<FileInfo>): Stats {
    if jobs == [] then Stats(0, 0, 0, 0)
    else
      var init, f := jobs[..|jobs| - 1], jobs[|jobs| - 1];
      Tally(w, retries, files, init).Add(OneFile(w, retries, AllFiles(w, retries, files, init), f).1)
  }

  /** The jobs that are processed: those no worker came to too late. */
  function Chosen(late: nat -> bool, jobs: seq<FileInfo>): seq<FileInfo> {
    if jobs == [] then []
    else
      var n := |jobs| - 1;
      if late(n) then Chosen(late, jobs[..n]) else Chosen(late, jobs[..n]) + [jobs[n]]
  }

  /** One worker comes to the files in order, and a context that is done stays so. */
  ghost predicate StaysDone(late: nat -> bool) {
    forall i, j :: i <= j && late(i) ==> late(j)
  }

  lemma {:induction false} ChosenUpTo(late: nat -> bool, jobs: seq<FileInfo>, k: nat)
    requires StaysDone(late) && k <= |jobs| && (k < |jobs| ==> late(k))
    ensures Chosen(late, jobs) == Chosen(late, jobs[..k])
  {
    if k < |jobs| {
      var n := |jobs| - 1;
      assert late(n) && jobs[..n][..k] == jobs[..k];
      if k < n { ChosenUpTo(late, jobs[..n], k); }
    } else {
      assert jobs[..k] == jobs;
    }
  }

  lemma NoJobs(w: World, retries: nat, files: Files)
    ensures Chosen(w.late, []) == [] && AllFiles(w, retries, files, []) == files && Tally(w, retries, files, []) == Stats(0, 0, 0, 0)
  {
  }

  /** What the k-th file adds, if it is not too late for it. */
  lemma OneJobMore(w: World, retries: nat, files: Files, jobs: seq<FileInfo>, k: nat)
    requires k < |jobs|
    ensures var chosen, more := Chosen(w.late, jobs[..k]), Chosen(w.late, jobs[..k + 1]);
            if w.late(k) then more == chosen
            else
              var (after, status) := OneFile(w, retries, AllFiles(w, retries, files, chosen), jobs[k]);
              && AllFiles(w, retries, files, more) == after
              && Tally(w, retries, files, more) == Tally(w, retries, files, chosen).Add(status)
  {
    hide OneFile;
    assert jobs[..k + 1][..k] == jobs[..k];
    var chosen := Chosen(w.late, jobs[..k]);
    assert (chosen + [jobs[k]])[..|chosen|] == chosen;
    hide Stats.Add;
  }

  class ItemDir {
    var files: Files

    constructor (files: Files)
      ensures this.files == files
    {
      this.files := files;
    }

    method Matches(w: World, f: FileInfo) returns (same: bool)
      requires forall b :: |w.sha1(b)| == 20
      ensures same == LocalMatches(w, files, f)
    {
      if |f.sha| != 20 { return false; }
      if f.name !in files { return false; }
      if f.size > 0 && |files[f.name]| != f.size { return false; }
      var sum := w.sha1(files[f.name]);
      for i := 0 to 20
        invariant sum[..i] == f.sha[..i]
      {
        if sum[i] != f.sha[i] { return false; }
      }
      assert sum[..20] == sum && f.sha[..20] == f.sha;
      return true;
    }

    method DownloadOneFile(w: World, retries: nat, f: FileInfo) returns (status: Status)
      requires forall b :: |w.sha1(b)| == 20
      modifies this
      ensures (files, status) == OneFile(w, retries, old(files), f)
    {
      var same := Matches(w, f);
      if same { return Skipped(|files[f.name]|); }
      files := files - {f.name};
      var attempt := 1;
      while attempt <= retries
        invariant 1 <= attempt <= retries + 1
        invariant Fetched(w, f.name, 1, retries) == Fetched(w, f.name, attempt, retries)
        invariant files == old(files) - {f.name}
      {
        if w.cancelled(f.name, attempt) { return Failed; }
        var data := w.read(f.name, attempt);
        if data.None? {
          assert Fetched(w, f.name, attempt, retries) == Fetched(w, f.name, attempt + 1, retries);
          if attempt < retries { attempt := attempt + 1; continue; }
          break;
        }
        if !w.writes(f.name) { break; }
        files := files[f.name := data.value];
        assert files == old(files)[f.name := data.value];
        return Downloaded(|data.value|);
      }
      assert Fetched(w, f.name, attempt, retries) == None;
      files := files - {f.name};
      assert files == old(files) - {f.name};
      return Failed;
    }

    /** The first loop of DownloadItem. */
    static method JobList(infos: seq<FileInfo>) returns (jobs: seq<FileInfo>)
      ensures jobs == Jobs(infos)
    {
      jobs := [];
      for k := 0 to |infos|
        invariant jobs == Jobs(infos[..k])
      {
        assert infos[..k + 1][..k] == infos[..k];
        var f := infos[k];
        if f.name == "." || f.name == "" { continue; }
        if f.directory { continue; }
        jobs := jobs + [f];
      }
      assert infos[..|infos|] == infos;
    }

    /** DownloadItem. One worker takes the files in order until the context is
        done. Several take them in some order, interleaved, and skip those they
        come to too late; written here in file order, which Pool shows to have
        the outcome of every other schedule. */
    method DownloadItem(w: World, retries: int, workers: nat, infos: seq<FileInfo>) returns (stats: Stats)
      requires forall b :: |w.sha1(b)| == 20
      requires workers == 1 ==> StaysDone(w.late)
      modifies this
      ensures var n := if retries < 1 then 5 else retries;
              var chosen := Chosen(w.late, Jobs(infos));
              && files == AllFiles(w, n, old(files), chosen)
              && stats == Tally(w, n, old(files), chosen)
    {
      hide OneFile, Jobs, Chosen, AllFiles, Tally;
      var tries := if retries < 1 then 5 else retries;
      var jobs := JobList(infos);
      stats := Stats(0, 0, 0, 0);
      NoJobs(w, tries, files);
      assert jobs[..0] == [];
      for k := 0 to |jobs|
        invariant files == AllFiles(w, tries, old(files), Chosen(w.late, jobs[..k]))
        invariant stats == Tally(w, tries, old(files), Chosen(w.late, jobs[..k]))
      {
        if w.late(k) && workers == 1 {
          ChosenUpTo(w.late, jobs, k);
          return;
        }
        OneJobMore(w, tries, old(files), jobs, k);
        if w.late(k) { continue; }
        var st := DownloadOneFile(w, tries, jobs[k]);
        stats := stats.Add(st);
      }
      assert jobs[..|jobs|] == jobs;
    }
  }

  // --------------------------------------------------------- independent jobs

  function Names(jobs: seq<FileInfo>): set<Path> {
    set f | f in jobs :: f.name
  }

  predicate UniqueNames(jobs: seq<FileInfo>) {
    forall i, j :: 0 <= i < j < |jobs| ==> jobs[i].name != jobs[j].name
  }

  /** What one file does depends on its own path only, and changes no other. */
  lemma OneFileLocal(w: World, retries: nat, a: Files, b: Files, f: FileInfo)
    requires f.name in a <==> f.name in b
    requires f.name in a ==> a[f.name] == b[f.name]
    ensures OneFile(w, retries, a, f).1 == OneFile(w, retries, b, f).1
    ensures Same(OneFile(w, retries, a, f).0, OneFile(w, retries, b, f).0, f.name)
    ensures forall p :: p != f.name ==> Same(OneFile(w, retries, a, f).0, a, p)
  {
  }

  /** Two directories agree at a path. */
  predicate Same(a: Files, b: Files, p: Path) {
    (p in a <==> p in b) && (p in a ==> a[p] == b[p])
  }

  lemma NamesSnoc(jobs: seq<FileInfo>)
    requires jobs != []
    ensures Names(jobs) == Names(jobs[..|jobs| - 1]) + {jobs[|jobs| - 1].name}
    ensures UniqueNames(jobs) ==> jobs[|jobs| - 1].name !in Names(jobs[..|jobs| - 1])
  {
    var init, f := jobs[..|jobs| - 1], jobs[|jobs| - 1];
    assert jobs == init + [f];
    forall p | p in Names(jobs) ensures p in Names(init) + {f.name} {
      var g :| g in jobs && g.name == p;
      assert g in init || g == f;
    }
    forall p | p in Names(init) ensures p in Names(jobs) {
      var g :| g in init && g.name == p;
      assert g in jobs;
    }
    assert f in jobs;
  }

  /** With distinct names the jobs do not interact: each does what it would do
      alone on the directory at the start. */
  lemma {:induction false} JobsIndependent(w: World, retries: nat, files: Files, jobs: seq<FileInfo>)
    requires UniqueNames(jobs)
    ensures var all := AllFiles(w, retries, files, jobs);
            && (forall i :: 0 <= i < |jobs| ==> Same(all, OneFile(w, retries, files, jobs[i]).0, jobs[i].name))
            && (forall p :: p !in Names(jobs) ==> Same(all, files, p))
    decreases |jobs|
  {
    hide OneFile;
    if jobs != [] {
      var init, f := jobs[..|jobs| - 1], jobs[|jobs| - 1];
      JobsIndependent(w, retries, files, init);
      var mid := AllFiles(w, retries, files, init);
      NamesSnoc(jobs);
      assert Same(mid, files, f.name);
      OneFileLocal(w, retries, mid, files, f);
      forall i | 0 <= i < |jobs| - 1 ensures Same(AllFiles(w, retries, files, jobs), mid, jobs[i].name) {
        assert jobs[i] == init[i];
      }
      forall p | p !in Names(jobs) ensures Same(AllFiles(w, retries, files, jobs), files, p) {
        assert Same(mid, files, p) && Same(OneFile(w, retries, mid, f).0, mid, p);
      }
    }
  }

  /** A file processed after others of different names has the status it would
      have alone. */
  lemma StatusIndependent(w: World, retries: nat, files: Files, jobs: seq<FileInfo>, f: FileInfo)
    requires UniqueNames(jobs) && f.name !in Names(jobs)
    ensures OneFile(w, retries, AllFiles(w, retries, files, jobs), f).1 == OneFile(w, retries, files, f).1
  {
    hide OneFile;
    JobsIndependent(w, retries, files, jobs);
    assert Same(AllFiles(w, retries, files, jobs), files, f.name);
    OneFileLocal(w, retries, AllFiles(w, retries, files, jobs), files, f);
  }

  lemma {:induction false} ChosenFrom(late: nat -> bool, jobs: seq<FileInfo>, f: FileInfo)
    ensures f in Chosen(late, jobs) <==> exists j :: 0 <= j < |jobs| && !late(j) && jobs[j] == f
  {
    if jobs != [] {
      var n := |jobs| - 1;
      var init := jobs[..n];
      ChosenFrom(late, init, f);
      if j :| 0 <= j < |init| && !late(j) && init[j] == f { assert jobs[j] == f; }
      if j :| 0 <= j < |jobs| && !late(j) && jobs[j] == f {
        if j < n { assert init[j] == f; }
      }
    }
  }

  /** The chosen jobs have different names, and not those of the others. */
  lemma {:induction false} ChosenNames(late: nat -> bool, jobs: seq<FileInfo>)
    requires UniqueNames(jobs)
    ensures UniqueNames(Chosen(late, jobs)) && Names(Chosen(late, jobs)) <= Names(jobs)
    ensures forall j :: 0 <= j < |jobs| && late(j) ==> jobs[j].name !in Names(Chosen(late, jobs))
  {
    forall p | p in Names(Chosen(late, jobs)) ensures p in Names(jobs) {
      var f :| f in Chosen(late, jobs) && f.name == p;
      ChosenFrom(late, jobs, f);
    }
    forall j | 0 <= j < |jobs| && late(j) ensures jobs[j].name !in Names(Chosen(late, jobs)) {
      if f :| f in Chosen(late, jobs) && f.name == jobs[j].name { ChosenFrom(late, jobs, f); }
    }
    if jobs != [] {
      var n := |jobs| - 1;
      ChosenNames(late, jobs[..n]);
      NamesSnoc(jobs);
      if !late(n) { UniqueSnoc(Chosen(late, jobs[..n]), jobs[n]); }
    }
  }

  lemma UniqueSnoc(jobs: seq<FileInfo>, f: FileInfo)
    requires UniqueNames(jobs) && f.name !in Names(jobs)
    ensures UniqueNames(jobs + [f])
  {
    forall i | 0 <= i < |jobs| ensures jobs[i].name != f.name { assert jobs[i] in jobs; }
  }

  // ------------------------------------------------------------ the counters

  /** The statuses the jobs would have alone. */
  function Statuses(w: World, retries: nat, files: Files, jobs: seq<FileInfo>): seq<Status> {
    seq(|jobs|, i requires 0 <= i < |jobs| => OneFile(w, retries, files, jobs[i]).1)
  }

  ghost function Places(ss: seq<Status>, outcome: Status -> bool): set<nat> {
    set i: nat | i < |ss| && outcome(ss[i])
  }

  lemma PlacesSnoc(ss: seq<Status>, s: Status, outcome: Status -> bool)
    ensures |Places(ss + [s], outcome)| == |Places(ss, outcome)| + if outcome(s) then 1 else 0
  {
    var a, b := Places(ss, outcome), Places(ss + [s], outcome);
    if outcome(s) { assert b == a + {|ss|}; } else { assert b == a; }
  }

  /** The counters are the numbers of jobs with each outcome. */
  lemma {:induction false} TallyExact(w: World, retries: nat, files: Files, jobs: seq<FileInfo>)
    requires UniqueNames(jobs)
    ensures var t, ss := Tally(w, retries, files, jobs), Statuses(w, retries, files, jobs);
            && t.ok == |Places(ss, (s: Status) => s.Downloaded?)|
            && t.skipped == |Places(ss, (s: Status) => s.Skipped?)|
            && t.fail == |Places(ss, (s: Status) => s.Failed?)|
  {
    hide OneFile, AllFiles, Places;
    if jobs == [] {
      NoPlaces();
      assert Statuses(w, retries, files, jobs) == [];
    } else {
      var init, f := jobs[..|jobs| - 1], jobs[|jobs| - 1];
      NamesSnoc(jobs);
      TallyExact(w, retries, files, init);
      StatusIndependent(w, retries, files, init, f);
      var ss, last := Statuses(w, retries, files, init), OneFile(w, retries, files, f).1;
      assert Statuses(w, retries, files, jobs) == ss + [last];
      PlacesSnoc(ss, last, (s: Status) => s.Downloaded?);
      PlacesSnoc(ss, last, (s: Status) => s.Skipped?);
      PlacesSnoc(ss, last, (s: Status) => s.Failed?);
    }
  }

  lemma NoPlaces()
    ensures forall outcome: Status -> bool :: Places([], outcome) == {}
  {
  }
}
