/** internal/subscription: the subscription store and the incremental sync. The
    item directories and the store are in memory; saving to JSON, titles, times
    and the directories inside an item directory are not modelled. */
module Subscription {
  import opened ByteSeq
  import opened Results
  import opened Download
  import opened Selection
  import Cdn
  import Manifest
  import Pool

  /** What the store remembers of an item: the last manifest and its files. */
  datatype Entry = Entry(gid: nat, files: seq<Path>)
  {
    predicate NeedsUpdate(remote: nat) {
      remote != 0 && remote != gid
    }
  }

  /** A manifest: its id and its entries. */
  datatype Snapshot = Snapshot(gid: nat, files: seq<FileInfo>)

  function NamesOf(fs: seq<FileInfo>): seq<Path> {
    seq(|fs|, i requires 0 <= i < |fs| => fs[i].name)
  }

  /** manifestFiles: the paths of all real files. */
  function ManifestFiles(m: Snapshot): seq<Path> {
    NamesOf(Jobs(m.files))
  }

  /** Every path the manifest lists, directories included. */
  predicate Wanted(m: Snapshot, p: Path) {
    exists i :: 0 <= i < |m.files| && m.files[i].name == p && p != "" && p != "."
  }

  /** The guard of pruneStaleFiles on a clean path. */
  predicate Outside(p: Path) {
    ".." <= p || "/" <= p
  }

  predicate Stale(m: Snapshot, p: Path) {
    !Wanted(m, p) && !Outside(p)
  }

  function Pruned(files: Files, recorded: seq<Path>, m: Snapshot): Files {
    if recorded == [] then files
    else
      var init, p := Pruned(files, recorded[..|recorded| - 1], m), recorded[|recorded| - 1];
      if Stale(m, p) then init - {p} else init
  }

  datatype Result = NoManifest | UpToDate | AllFailed(stats: Stats) | Synced(stats: Stats)

  datatype SyncOutcome = SyncOutcome(entry: Entry, files: Files, result: Result)

  /** One entry's sync. The manifest is fetched twice: `first` decides, prunes and
      is recorded, `second` is what DownloadItem downloads. */
  function SyncOne(e: Entry, files: Files, first: Option<Snapshot>, second: Option<Snapshot>, w: World, retries: nat): SyncOutcome {
    if first.None? then SyncOutcome(e, files, NoManifest)
    else
      var m := first.value;
      if !e.NeedsUpdate(m.gid) && e.gid != 0 then SyncOutcome(e, files, UpToDate)
      else
        var (after, stats) := Refresh(files, second, w, retries);
        if stats.FullyFailed() then SyncOutcome(e, after, AllFailed(stats))
        else SyncOutcome(Entry(m.gid, ManifestFiles(m)), Pruned(after, e.files, m), Synced(stats))
  }

  /** DownloadItem with its own manifest fetch. */
  function Refresh(files: Files, second: Option<Snapshot>, w: World, retries: nat): (Files, Stats) {
    match second
    case None => (files, Stats(0, 1, 0, 0))
    case Some(m) =>
      var chosen := Chosen(w.late, Jobs(m.files));
      (AllFiles(w, retries, files, chosen), Tally(w, retries, files, chosen))
  }

  /** Store and output directory, item by item. */
  datatype Shelf = Shelf(entries: map<nat, Entry>, dirs: map<nat, Files>)
  {
    function Dir(id: nat): Files {
      if id in dirs then dirs[id] else map[]
    }
  }

  /** What the network and the disk do during one entry's turn, and how many
      workers download its files. */
  datatype Supply = Supply(first: Option<Snapshot>, second: Option<Snapshot>, workers: nat, w: World)
  {
    ghost predicate Sane() {
      (forall b :: |w.sha1(b)| == 20) && (workers == 1 ==> StaysDone(w.late))
    }
  }

  /** An entry to sync: its id and the copy that was taken before the loop. */
  datatype Target = Target(id: nat, entry: Entry)

  function Turn(s: Shelf, t: Target, sup: Supply, retries: nat): (Shelf, Result) {
    var o := SyncOne(t.entry, s.Dir(t.id), sup.first, sup.second, sup.w, retries);
    match o.result
    case NoManifest => (s, o.result)
    case UpToDate => (s, o.result)
    case AllFailed(_) => (s.(dirs := s.dirs[t.id := o.files]), o.result)
    case Synced(_) => (Shelf(s.entries[t.id := o.entry], s.dirs[t.id := o.files]), o.result)
  }

  /** The loop of Sync: the store, the directories and the results after it. */
  function Turns(s: Shelf, ts: seq<Target>, supply: nat -> Supply, retries: nat): (r: (Shelf, seq<Result>))
    ensures |r.1| == |ts|
  {
    if ts == [] then (s, [])
    else
      var n := |ts| - 1;
      var (before, results) := Turns(s, ts[..n], supply, retries);
      var (after, result) := Turn(before, ts[n], supply(n), retries);
      (after, results + [result])
  }

  /** The subscribed ones of these ids, in order, with their entries. */
  function Targets(entries: map<nat, Entry>, ids: seq<nat>): seq<Target> {
    if ids == [] then []
    else
      var init, id := Targets(entries, ids[..|ids| - 1]), ids[|ids| - 1];
      if id in entries then init + [Target(id, entries[id])] else init
  }

  ghost predicate AllSane(supply: nat -> Supply) {
    forall k :: supply(k).Sane()
  }

  class Library {
    var entries: map<nat, Entry>
    var dirs: map<nat, Files>

    function Now(): Shelf
      reads this
    {
      Shelf(entries, dirs)
    }

    method Add(id: nat)
      modifies this`entries
      ensures entries == if id in old(entries) then old(entries) else old(entries)[id := Entry(0, [])]
    {
      if id !in entries { entries := entries[id := Entry(0, [])]; }
    }

    method Remove(id: nat)
      modifies this`entries
      ensures entries == old(entries) - {id}
    {
      entries := entries - {id};
    }

    method MarkSynced(id: nat, gid: nat, files: seq<Path>) returns (ok: bool)
      modifies this`entries
      ensures ok <==> id in old(entries)
      ensures entries == if ok then old(entries)[id := Entry(gid, files)] else old(entries)
    {
      if id !in entries { return false; }
      entries := entries[id := Entry(gid, files)];
      return true;
    }

    method PruneStaleFiles(id: nat, recorded: seq<Path>, m: Snapshot)
      requires id in dirs
      modifies this`dirs
      ensures dirs == old(dirs)[id := Pruned(old(dirs)[id], recorded, m)]
    {
      var want := set i | 0 <= i < |m.files| && m.files[i].name != "" && m.files[i].name != "." :: m.files[i].name;
      for k := 0 to |recorded|
        invariant dirs == old(dirs)[id := Pruned(old(dirs)[id], recorded[..k], m)]
      {
        assert recorded[..k + 1][..k] == recorded[..k];
        var rel := recorded[k];
        assert rel in want <==> Wanted(m, rel);
        if rel in want { continue; }
        if ".." <= rel || "/" <= rel { continue; }
        dirs := dirs[id := dirs[id] - {rel}];
      }
      assert recorded[..|recorded|] == recorded;
    }

    /** One turn of the loop of Sync. */
    method SyncEntry(t: Target, sup: Supply, retries: int) returns (result: Result)
      requires t.id in entries && sup.Sane()
      modifies this
      ensures (Now(), result) == Turn(old(Now()), t, sup, if retries < 1 then 5 else retries)
    {
      hide AllFiles, Tally, Pruned, Jobs;
      var e := t.entry;
      if sup.first.None? { return NoManifest; }
      var m := sup.first.value;
      if !e.NeedsUpdate(m.gid) && e.gid != 0 { return UpToDate; }
      var item := new ItemDir(Now().Dir(t.id));
      var stats := Stats(0, 1, 0, 0);
      if sup.second.Some? {
        stats := item.DownloadItem(sup.w, retries, sup.workers, sup.second.value.files);
      }
      dirs := dirs[t.id := item.files];
      if stats.FullyFailed() { return AllFailed(stats); }
      PruneStaleFiles(t.id, e.files, m);
      assert dirs == old(dirs)[t.id := dirs[t.id]];
      var jobs := ItemDir.JobList(m.files);
      var ok := MarkSynced(t.id, m.gid, NamesOf(jobs));
      return Synced(stats);
    }

    /** Sync of these ids, or, if there are none, of all entries in the order
        List gives them. */
    method Sync(ids: seq<nat>, listed: seq<nat>, supply: nat -> Supply, retries: int) returns (results: seq<Result>)
      requires AllSane(supply)
      modifies this
      ensures var chosen := if ids != [] then ids else listed;
              (Now(), results) == Turns(old(Now()), Targets(old(entries), chosen), supply, if retries < 1 then 5 else retries)
    {
      hide Turn;
      var chosen := if |ids| > 0 then ids else listed;
      var targets := [];
      for k := 0 to |chosen|
        invariant targets == Targets(entries, chosen[..k]) && Now() == old(Now())
        invariant forall i :: 0 <= i < |targets| ==> targets[i].id in entries
      {
        assert chosen[..k + 1][..k] == chosen[..k];
        if chosen[k] in entries { targets := targets + [Target(chosen[k], entries[chosen[k]])]; }
      }
      assert chosen[..|chosen|] == chosen;
      ghost var tries := if retries < 1 then 5 else retries;
      results := [];
      for k := 0 to |targets|
        invariant (Now(), results) == Turns(old(Now()), targets[..k], supply, tries)
        invariant forall i :: 0 <= i < |targets| ==> targets[i].id in entries
      {
        assert targets[..k + 1][..k] == targets[..k];
        TurnKeepsIds(Now(), targets[k], supply(k), tries);
        var result := SyncEntry(targets[k], supply(k), retries);
        results := results + [result];
      }
      assert targets[..|targets|] == targets;
    }
  }

  lemma TurnKeepsIds(s: Shelf, t: Target, sup: Supply, retries: nat)
    ensures s.entries.Keys <= Turn(s, t, sup, retries).0.entries.Keys
  {
    hide SyncOne;
  }

  /** A turn touches its own item only, and does to it what SyncOne does. */
  lemma TurnLocal(s: Shelf, t: Target, sup: Supply, retries: nat)
    requires t.id in s.entries && s.entries[t.id] == t.entry
    ensures var (after, result) := Turn(s, t, sup, retries);
            && SyncOne(t.entry, s.Dir(t.id), sup.first, sup.second, sup.w, retries)
               == SyncOutcome(after.entries[t.id], after.Dir(t.id), result)
            && (forall id :: id != t.id ==> after.Dir(id) == s.Dir(id))
            && after.entries == s.entries[t.id := after.entries[t.id]]
  {
    hide Refresh, Pruned, ManifestFiles;
  }

  predicate DistinctIds(ts: seq<Target>) {
    forall i, j :: 0 <= i < j < |ts| ==> ts[i].id != ts[j].id
  }

  /** The targets of a list of different ids are what SyncsIndependent asks for. */
  lemma {:induction false} TargetsMatch(entries: map<nat, Entry>, ids: seq<nat>)
    requires forall i, j :: 0 <= i < j < |ids| ==> ids[i] != ids[j]
    ensures var ts := Targets(entries, ids);
            && DistinctIds(ts)
            && (forall i :: 0 <= i < |ts| ==> ts[i].id in entries && entries[ts[i].id] == ts[i].entry)
            && (forall id :: id in ids && id in entries <==> Among(ts, id))
  {
    if ids != [] {
      var init, last := ids[..|ids| - 1], ids[|ids| - 1];
      TargetsMatch(entries, init);
      assert ids == init + [last];
      assert last !in init;
      var ts := Targets(entries, ids);
      if last in entries {
        assert ts[..|ts| - 1] == Targets(entries, init) && ts[|ts| - 1] == Target(last, entries[last]);
        forall id { AmongSnoc(ts, id); }
      }
    }
  }

  ghost predicate Among(ts: seq<Target>, id: nat) {
    exists i :: 0 <= i < |ts| && ts[i].id == id
  }

  lemma AmongSnoc(ts: seq<Target>, id: nat)
    requires ts != []
    ensures Among(ts, id) <==> Among(ts[..|ts| - 1], id) || ts[|ts| - 1].id == id
  {
    var init := ts[..|ts| - 1];
    if Among(init, id) {
      var i :| 0 <= i < |init| && init[i].id == id;
      assert ts[i].id == id;
    }
  }

  /** Target i got what its own sync gives from the state s before the loop. */
  predicate Alone(s: Shelf, t: Target, sup: Supply, retries: nat, after: Shelf, result: Result) {
    t.id in after.entries
    && SyncOutcome(after.entries[t.id], after.Dir(t.id), result)
       == SyncOne(t.entry, s.Dir(t.id), sup.first, sup.second, sup.w, retries)
  }

  predicate Unchanged(s: Shelf, after: Shelf, id: nat) {
    && after.Dir(id) == s.Dir(id)
    && (id in after.entries <==> id in s.entries)
    && (id in s.entries ==> after.entries[id] == s.entries[id])
  }

  lemma TurnAlone(s: Shelf, mid: Shelf, t: Target, sup: Supply, retries: nat)
    requires t.id in s.entries && s.entries[t.id] == t.entry && Unchanged(s, mid, t.id)
    ensures var (after, result) := Turn(mid, t, sup, retries);
            && Alone(s, t, sup, retries, after, result)
            && forall id :: id != t.id ==> Unchanged(mid, after, id)
  {
    TurnLocal(mid, t, sup, retries);
    hide Turn, SyncOne, Shelf.Dir;
  }

  /** Syncing several items is syncing each alone: every target ends up with the
      entry, the directory and the result its own sync gives from the state
      before the loop, and no other item changes. */
  lemma {:induction false} SyncsIndependent(s: Shelf, ts: seq<Target>, supply: nat -> Supply, retries: nat)
    requires DistinctIds(ts) && forall i :: 0 <= i < |ts| ==> ts[i].id in s.entries && s.entries[ts[i].id] == ts[i].entry
    ensures var (after, results) := Turns(s, ts, supply, retries);
            && (forall i :: 0 <= i < |ts| ==> Alone(s, ts[i], supply(i), retries, after, results[i]))
            && (forall id :: !Among(ts, id) ==> Unchanged(s, after, id))
  {
    hide SyncOne, Turn, Shelf.Dir, Among;
    if ts != [] {
      var n := |ts| - 1;
      var (mid, results) := Turns(s, ts[..n], supply, retries);
      SyncsIndependent(s, ts[..n], supply, retries);
      NotAmong(ts);
      TurnAlone(s, mid, ts[n], supply(n), retries);
      var after := Turn(mid, ts[n], supply(n), retries).0;
      forall i | 0 <= i < n ensures Alone(s, ts[i], supply(i), retries, after, results[i]) {
        assert ts[..n][i] == ts[i] && Unchanged(mid, after, ts[i].id);
      }
      forall id | !Among(ts, id) ensures Unchanged(s, after, id) {
        AmongSnoc(ts, id);
        assert Unchanged(s, mid, id) && Unchanged(mid, after, id);
      }
    }
  }

  lemma NotAmong(ts: seq<Target>)
    requires ts != [] && DistinctIds(ts)
    ensures !Among(ts[..|ts| - 1], ts[|ts| - 1].id)
  {
  }

  /** The copies are those of the chosen ids that are subscribed, in their order. */
  lemma {:induction false} TargetsSelected(entries: map<nat, Entry>, ids: seq<nat>)
    ensures Selected(ids, (k: nat) => k < |ids| && ids[k] in entries, TargetIds(Targets(entries, ids)))
  {
    if ids == [] {
      NoneSelected<nat>((k: nat) => k < |ids| && ids[k] in entries);
    } else {
      var init, id := ids[..|ids| - 1], ids[|ids| - 1];
      TargetsSelected(entries, init);
      assert ids == init + [id];
      var ts := Targets(entries, init);
      if id in entries { assert TargetIds(Targets(entries, ids)) == TargetIds(ts) + [id]; }
      SelectedSnoc(init, id, (k: nat) => k < |init| && init[k] in entries, (k: nat) => k < |ids| && ids[k] in entries, TargetIds(ts));
    }
  }

  function TargetIds(ts: seq<Target>): seq<nat> {
    seq(|ts|, i requires 0 <= i < |ts| => ts[i].id)
  }

  /** The ways a sync can go. Without a manifest nothing changes. An item that was
      synced before is up to date if the manifest has no id or the recorded one.
      Without a second manifest nothing changes either, and the sync has failed. It
      has failed too if some file did and none was fetched or there already;
      otherwise the first manifest is recorded. */
  lemma SyncCases(e: Entry, files: Files, first: Option<Snapshot>, second: Option<Snapshot>, w: World, retries: nat)
    ensures var o := SyncOne(e, files, first, second, w, retries);
            match first
            case None => o == SyncOutcome(e, files, NoManifest)
            case Some(m) =>
              if e.gid != 0 && (m.gid == 0 || m.gid == e.gid) then o == SyncOutcome(e, files, UpToDate)
              else match second
                case None => o == SyncOutcome(e, files, AllFailed(Stats(0, 1, 0, 0)))
                case Some(n) =>
                  var (after, t) := Refresh(files, Some(n), w, retries);
                  if t.fail > 0 && t.ok == 0 && t.skipped == 0 then o == SyncOutcome(e, after, AllFailed(t))
                  else o.entry == Entry(m.gid, ManifestFiles(m)) && o.result == Synced(t)
  {
    hide AllFiles, Tally, Chosen, Jobs, Pruned;
  }

  // ------------------------------------------------------------------- pruning

  /** What pruning takes for stale: a path that no entry of the manifest has, and
      that starts with neither ".." nor "/". */
  lemma StaleMeans(m: Snapshot, p: Path)
    ensures Stale(m, p)
            <==> (p == "" || p == "." || forall i :: 0 <= i < |m.files| ==> m.files[i].name != p)
                 && !(".." <= p) && !("/" <= p)
  {
  }

  /** Pruning never deletes a path the manifest lists, and deletes nothing that
      was not recorded; what it keeps it does not change. */
  lemma {:induction false} PruneKeeps(files: Files, recorded: seq<Path>, m: Snapshot)
    ensures var r := Pruned(files, recorded, m);
            && (forall p :: p in r <==> p in files && !(p in recorded && Stale(m, p)))
            && (forall p :: p in r ==> r[p] == files[p])
  {
    hide Wanted, Outside;
    if recorded != [] {
      var init, last := recorded[..|recorded| - 1], recorded[|recorded| - 1];
      PruneKeeps(files, init, m);
      assert recorded == init + [last];
    }
  }

  // --------------------------------------------------- incremental is fresh

  /** A manifest together with the contents its files have. */
  datatype Release = Release(m: Snapshot, content: Files)

  /** Names are unique and clean, content is given for the real files only and has
      the recorded hash. */
  ghost predicate WellFormed(r: Release, sha1: Bytes -> Bytes) {
    var jobs := Jobs(r.m.files);
    && r.m.gid != 0 && UniqueNames(jobs) && Names(jobs) == r.content.Keys
    && (forall i :: 0 <= i < |jobs| && |jobs[i].sha| == 20 ==> jobs[i].sha == sha1(r.content[jobs[i].name]))
  }

  /** No two of these contents have the same hash. */
  ghost predicate CollisionFree(contents: set<Bytes>, sha1: Bytes -> Bytes) {
    forall a, b :: a in contents && b in contents && sha1(a) == sha1(b) ==> a == b
  }

  ghost predicate Within(files: Files, contents: set<Bytes>) {
    forall p :: p in files ==> files[p] in contents
  }

  /** No path is a file in one manifest and a directory in the next. */
  ghost predicate NoClash(recorded: seq<Path>, r: Release) {
    forall p :: p in recorded && Wanted(r.m, p) ==> p in r.content
  }

  /** Whatever arrives of the release has its content. */
  ghost predicate Serves(w: World, retries: nat, r: Release) {
    forall p, n: nat :: p in r.content && Arrives(w, p, 1, n, retries) ==> w.read(p, n) == Some(r.content[p])
  }

  lemma ServedFetched(w: World, retries: nat, r: Release, p: Path)
    requires Serves(w, retries, r) && p in r.content && Fetched(w, p, 1, retries).Some?
    ensures Fetched(w, p, 1, retries).value == r.content[p]
  {
    hide Fetched, Arrives;
    FetchedIff(w, p, 1, retries, Fetched(w, p, 1, retries).value);
  }

  /** A read is the assembly of chunks that hold the content, in some order a sort
      by offset may give. */
  ghost predicate ReadsChunks(read: Option<Bytes>, chunks: seq<Manifest.Chunk>, content: Bytes, fetch: Bytes -> Option<Bytes>) {
    && Cdn.Tiles(chunks, |content|) && Cdn.Holds(chunks, content, fetch)
    && exists sorted, perm :: Cdn.SortedBy(sorted, chunks, perm) && read == Cdn.Assembled(sorted, fetch)
  }

  /** Every attempt to read a file of the release is ReadFile on its chunks,
      whichever of them can be fetched that time. */
  ghost predicate FromChunks(w: World, r: Release, chunks: Path -> seq<Manifest.Chunk>, fetch: (Path, nat) -> Bytes -> Option<Bytes>) {
    forall p, n: nat :: p in r.content ==> ReadsChunks(w.read(p, n), chunks(p), r.content[p], fetch(p, n))
  }

  /** Then whatever can be read of the release has its content. */
  lemma ChunksServe(w: World, retries: nat, r: Release, chunks: Path -> seq<Manifest.Chunk>,
                    fetch: (Path, nat) -> Bytes -> Option<Bytes>)
    requires FromChunks(w, r, chunks, fetch)
    ensures Serves(w, retries, r)
  {
    hide Arrives;
    forall p, n: nat | p in r.content && Arrives(w, p, 1, n, retries) ensures w.read(p, n) == Some(r.content[p]) {
      ReadAt(w, p, n, retries);
      AttemptServes(w, n, r, p, chunks, fetch);
    }
  }

  lemma AttemptServes(w: World, n: nat, r: Release, p: Path, chunks: Path -> seq<Manifest.Chunk>,
                      fetch: (Path, nat) -> Bytes -> Option<Bytes>)
    requires FromChunks(w, r, chunks, fetch) && p in r.content && w.read(p, n).Some?
    ensures w.read(p, n) == Some(r.content[p])
  {
    hide Cdn.Tiles, Cdn.Holds, Cdn.SortedBy, Cdn.Assembled, Cdn.AllFetched;
    assert ReadsChunks(w.read(p, n), chunks(p), r.content[p], fetch(p, n));
    var sorted, perm :| Cdn.SortedBy(sorted, chunks(p), perm) && w.read(p, n) == Cdn.Assembled(sorted, fetch(p, n));
    Cdn.AssembledIsContent(sorted, chunks(p), perm, r.content[p], fetch(p, n));
  }

  /** The directory holds nothing that the entry does not record. */
  ghost predicate Recorded(e: Entry, files: Files) {
    forall p :: p in files ==> p in e.files
  }

  /** The guard of the pruning keeps nothing back that should go. */
  ghost predicate Prunable(files: Files, m: Snapshot) {
    forall p :: p in files ==> Wanted(m, p) || !Outside(p)
  }

  /** No name starts with ".." or "/". */
  ghost predicate Inside(r: Release) {
    forall p :: p in r.content ==> !Outside(p)
  }

  /** The file is there already, or one of the attempts to fetch it arrives. */
  ghost predicate Succeeds(w: World, retries: nat, files: Files, f: FileInfo) {
    LocalMatches(w, files, f) || exists n: nat :: Arrives(w, f.name, 1, n, retries)
  }

  lemma SucceedsIff(w: World, retries: nat, files: Files, f: FileInfo)
    ensures Succeeds(w, retries, files, f) <==> LocalMatches(w, files, f) || Fetched(w, f.name, 1, retries).Some?
  {
    hide Fetched, Arrives, LocalMatches;
    if n: nat :| Arrives(w, f.name, 1, n, retries) {
      ReadAt(w, f.name, n, retries);
      FetchedIff(w, f.name, 1, retries, w.read(f.name, n).value);
    }
    if Fetched(w, f.name, 1, retries).Some? {
      FetchedIff(w, f.name, 1, retries, Fetched(w, f.name, 1, retries).value);
    }
  }

  /** Some files were processed, and none of them succeeded. */
  ghost predicate NothingWorked(w: World, retries: nat, files: Files, m: Snapshot) {
    var chosen := Chosen(w.late, Jobs(m.files));
    chosen != [] && forall i :: 0 <= i < |chosen| ==> !Succeeds(w, retries, files, chosen[i])
  }

  /** The i-th file ends right: it is processed and succeeds, or the context was
      done before it and the directory had it. */
  ghost predicate EndsRight(w: World, retries: nat, files: Files, r: Release, i: nat)
    requires i < |Jobs(r.m.files)|
  {
    var f := Jobs(r.m.files)[i];
    if w.late(i) then Right(files, r, f.name) else Succeeds(w, retries, files, f)
  }

  ghost predicate AllEndRight(w: World, retries: nat, files: Files, r: Release) {
    forall i :: 0 <= i < |Jobs(r.m.files)| ==> EndsRight(w, retries, files, r, i)
  }

  predicate Right(files: Files, r: Release, p: Path) {
    p in r.content && p in files && files[p] == r.content[p]
  }

  /** What one job leaves at its path: the release's content, or nothing if it
      failed; and it is skipped exactly when the content is there, with a 20-byte
      hash and the size the manifest gives. */
  lemma JobResult(w: World, retries: nat, files: Files, r: Release, i: nat, contents: set<Bytes>)
    requires WellFormed(r, w.sha1) && Serves(w, retries, r) && i < |Jobs(r.m.files)|
    requires CollisionFree(contents, w.sha1) && Within(files, contents) && Within(r.content, contents)
    ensures var f := Jobs(r.m.files)[i];
            var (after, status) := OneFile(w, retries, files, f);
            && f.name in r.content
            && (status.Failed? <==> !Succeeds(w, retries, files, f))
            && (Right(after, r, f.name) <==> Succeeds(w, retries, files, f))
            && (f.name in after ==> Right(after, r, f.name))
            && (status.Skipped? <==>
                  Right(files, r, f.name) && |f.sha| == 20 && (f.size == 0 || f.size == |r.content[f.name]|))
            && (status.Downloaded? ==> status.size == |r.content[f.name]|)
  {
    var f := Jobs(r.m.files)[i];
    assert f.name in Names(Jobs(r.m.files));
    SucceedsIff(w, retries, files, f);
    if Fetched(w, f.name, 1, retries).Some? { ServedFetched(w, retries, r, f.name); }
    hide Succeeds, Fetched, Serves, Arrives;
  }

  lemma FailedIff(w: World, retries: nat, files: Files, f: FileInfo)
    ensures OneFile(w, retries, files, f).1.Failed? <==> !Succeeds(w, retries, files, f)
  {
    hide Fetched, LocalMatches, Succeeds;
    SucceedsIff(w, retries, files, f);
  }

  lemma InitNames(jobs: seq<FileInfo>)
    requires UniqueNames(jobs) && jobs != []
    ensures UniqueNames(jobs[..|jobs| - 1]) && jobs[|jobs| - 1].name !in Names(jobs[..|jobs| - 1])
  {
    NamesSnoc(jobs);
  }

  lemma {:induction false} SomeWorked(w: World, retries: nat, files: Files, jobs: seq<FileInfo>, i: nat)
    requires i < |jobs| && UniqueNames(jobs) && Succeeds(w, retries, files, jobs[i])
    ensures Tally(w, retries, files, jobs).ok + Tally(w, retries, files, jobs).skipped > 0
    decreases |jobs|
  {
    hide AllFiles, OneFile, Succeeds, UniqueNames, Names;
    var init, f := jobs[..|jobs| - 1], jobs[|jobs| - 1];
    InitNames(jobs);
    StatusIndependent(w, retries, files, init, f);
    FailedIff(w, retries, files, f);
    if i < |jobs| - 1 { SomeWorked(w, retries, files, init, i); }
  }

  lemma {:induction false} NoneWorked(w: World, retries: nat, files: Files, jobs: seq<FileInfo>)
    requires UniqueNames(jobs) && forall i :: 0 <= i < |jobs| ==> !Succeeds(w, retries, files, jobs[i])
    ensures var t := Tally(w, retries, files, jobs); t.ok == 0 && t.skipped == 0 && t.fail == |jobs|
  {
    hide AllFiles, OneFile, Succeeds, UniqueNames, Names;
    if jobs != [] {
      var init, f := jobs[..|jobs| - 1], jobs[|jobs| - 1];
      InitNames(jobs);
      NoneWorked(w, retries, files, init);
      StatusIndependent(w, retries, files, init, f);
      FailedIff(w, retries, files, f);
    }
  }

  /** The download counts as failed exactly when nothing worked. */
  lemma FullyFailedIff(w: World, retries: nat, files: Files, m: Snapshot)
    requires UniqueNames(Jobs(m.files))
    ensures Refresh(files, Some(m), w, retries).1.FullyFailed() <==> NothingWorked(w, retries, files, m)
  {
    hide AllFiles, Tally, Jobs, Succeeds, Chosen;
    var chosen := Chosen(w.late, Jobs(m.files));
    ChosenNames(w.late, Jobs(m.files));
    if forall i :: 0 <= i < |chosen| ==> !Succeeds(w, retries, files, chosen[i]) {
      NoneWorked(w, retries, files, chosen);
    } else {
      var i :| 0 <= i < |chosen| && Succeeds(w, retries, files, chosen[i]);
      SomeWorked(w, retries, files, chosen, i);
    }
  }

  /** What the whole download leaves at the path of one of its jobs. */
  ghost predicate Leaves(w: World, retries: nat, files: Files, r: Release, i: nat)
    requires i < |Jobs(r.m.files)|
  {
    var after, p := Refresh(files, Some(r.m), w, retries).0, Jobs(r.m.files)[i].name;
    && p in r.content
    && (Right(after, r, p) <==> EndsRight(w, retries, files, r, i))
    && (p in after ==> Right(after, r, p) || (p in files && after[p] == files[p]))
    && (!w.late(i) && p in after ==> Right(after, r, p))
  }

  lemma JobLeaves(w: World, retries: nat, files: Files, r: Release, i: nat, contents: set<Bytes>)
    requires WellFormed(r, w.sha1) && Serves(w, retries, r) && i < |Jobs(r.m.files)|
    requires CollisionFree(contents, w.sha1) && Within(files, contents) && Within(r.content, contents)
    ensures Leaves(w, retries, files, r, i)
  {
    var jobs := Jobs(r.m.files);
    var chosen := Chosen(w.late, jobs);
    ChosenNames(w.late, jobs);
    JobsIndependent(w, retries, files, chosen);
    JobResult(w, retries, files, r, i, contents);
    ChosenFrom(w.late, jobs, jobs[i]);
    hide OneFile, AllFiles, Jobs, Names, CollisionFree, Within, Serves, WellFormed, Tally, Succeeds, Chosen;
    var after := AllFiles(w, retries, files, chosen);
    if w.late(i) {
      assert Same(after, files, jobs[i].name);
    } else {
      var k :| 0 <= k < |chosen| && chosen[k] == jobs[i];
      assert Same(after, OneFile(w, retries, files, jobs[i]).0, jobs[i].name);
    }
  }

  lemma JobNamed(jobs: seq<FileInfo>, p: Path) returns (i: nat)
    requires p in Names(jobs)
    ensures i < |jobs| && jobs[i].name == p
  {
    var f :| f in jobs && f.name == p;
    i :| 0 <= i < |jobs| && jobs[i] == f;
  }

  lemma PathLeaves(w: World, retries: nat, files: Files, r: Release, p: Path, contents: set<Bytes>) returns (i: nat)
    requires WellFormed(r, w.sha1) && Serves(w, retries, r) && p in r.content
    requires CollisionFree(contents, w.sha1) && Within(files, contents) && Within(r.content, contents)
    ensures i < |Jobs(r.m.files)| && Jobs(r.m.files)[i].name == p && Leaves(w, retries, files, r, i)
  {
    hide Leaves, Names, CollisionFree, Within, Serves, Jobs;
    i := JobNamed(Jobs(r.m.files), p);
    JobLeaves(w, retries, files, r, i, contents);
  }

  /** The files a download leaves: each listed one as Leaves says, every other
      path as it was. */
  lemma DownloadLeaves(w: World, retries: nat, files: Files, r: Release, contents: set<Bytes>)
    requires WellFormed(r, w.sha1) && Serves(w, retries, r)
    requires CollisionFree(contents, w.sha1) && Within(files, contents) && Within(r.content, contents)
    ensures var after := Refresh(files, Some(r.m), w, retries).0;
            && (forall p :: p !in r.content ==> Same(after, files, p))
            && (forall p :: p in r.content && p in after ==> Right(after, r, p) || (p in files && after[p] == files[p]))
            && ((forall p :: p in r.content ==> Right(after, r, p)) <==> AllEndRight(w, retries, files, r))
  {
    hide OneFile, AllFiles, Tally, CollisionFree, Within, Serves, EndsRight, Right, Jobs;
    var jobs := Jobs(r.m.files);
    ChosenNames(w.late, jobs);
    JobsIndependent(w, retries, files, Chosen(w.late, jobs));
    hide Names, Chosen;
    var after := Refresh(files, Some(r.m), w, retries).0;
    forall i | 0 <= i < |jobs| ensures Leaves(w, retries, files, r, i) { JobLeaves(w, retries, files, r, i, contents); }
    forall p | p in r.content && p in after ensures Right(after, r, p) || (p in files && after[p] == files[p]) {
      var i := PathLeaves(w, retries, files, r, p, contents);
    }
    if AllEndRight(w, retries, files, r) {
      forall p | p in r.content ensures Right(after, r, p) {
        var i := PathLeaves(w, retries, files, r, p, contents);
      }
    } else {
      var i :| 0 <= i < |jobs| && !EndsRight(w, retries, files, r, i);
      assert Leaves(w, retries, files, r, i);
    }
  }

  /** A sync that downloads, in general: the manifest is fetched twice, and the
      second fetch may give another one. What is recorded and what is pruned goes
      by the first, what is downloaded by the second; nothing is recorded and
      nothing pruned if nothing worked. */
  lemma SyncLeaves(w: World, retries: nat, e: Entry, files: Files, first: Snapshot, r: Release, contents: set<Bytes>)
    requires WellFormed(r, w.sha1) && Serves(w, retries, r)
    requires CollisionFree(contents, w.sha1) && Within(files, contents) && Within(r.content, contents)
    requires e.NeedsUpdate(first.gid)
    ensures var o := SyncOne(e, files, Some(first), Some(r.m), w, retries);
            var recorded := !NothingWorked(w, retries, files, r.m);
            var after := Refresh(files, Some(r.m), w, retries).0;
            && o.entry == (if recorded then Entry(first.gid, ManifestFiles(first)) else e)
            && (forall p :: p in o.files <==> p in after && !(recorded && p in e.files && Stale(first, p)))
            && (forall p :: p in o.files ==> o.files[p] == after[p])
            && (forall p :: p !in r.content ==> Same(after, files, p))
            && ((forall p :: p in r.content ==> Right(after, r, p)) <==> AllEndRight(w, retries, files, r))
  {
    hide Pruned, Wanted, Outside, WellFormed, Serves, CollisionFree, Within, Refresh, NothingWorked, Jobs, Stale;
    DownloadLeaves(w, retries, files, r, contents);
    JobsUnique(r, w.sha1);
    FullyFailedIff(w, retries, files, r.m);
    PruneKeeps(Refresh(files, Some(r.m), w, retries).0, e.files, first);
  }

  lemma JobsUnique(r: Release, sha1: Bytes -> Bytes)
    requires WellFormed(r, sha1)
    ensures UniqueNames(Jobs(r.m.files))
  {
  }

  /** A sync that downloads leaves exactly the manifest's files if and only if
      every file ends right and no file to be pruned has a name the guard takes
      for one outside the directory. The directory before may lack any file. */
  lemma SyncExact(w: World, retries: nat, e: Entry, files: Files, r: Release, contents: set<Bytes>)
    requires WellFormed(r, w.sha1) && Serves(w, retries, r)
    requires CollisionFree(contents, w.sha1) && Within(files, contents) && Within(r.content, contents)
    requires Recorded(e, files) && NoClash(e.files, r) && e.NeedsUpdate(r.m.gid)
    ensures var o := SyncOne(e, files, Some(r.m), Some(r.m), w, retries);
            && (o.files == r.content <==> AllEndRight(w, retries, files, r) && Prunable(files, r.m))
            && o.entry == (if NothingWorked(w, retries, files, r.m) then e else Entry(r.m.gid, ManifestFiles(r.m)))
  {
    hide SyncOne, Pruned, Outside, WellFormed, Serves, CollisionFree, Within, Refresh, AllEndRight;
    SyncLeaves(w, retries, e, files, r.m, r, contents);
    var o, after := SyncOne(e, files, Some(r.m), Some(r.m), w, retries), Refresh(files, Some(r.m), w, retries).0;
    forall p | p in r.content ensures Wanted(r.m, p) { ContentWanted(r, w.sha1, p); }
    hide Wanted;
    if NothingWorked(w, retries, files, r.m) {
      MissesOne(w, retries, files, r, contents);
    } else {
      PrunedExactly(after, o.files, files, e, r);
    }
  }

  /** What pruning leaves, against the release. */
  lemma PrunedExactly(after: Files, left: Files, files: Files, e: Entry, r: Release)
    requires Recorded(e, files) && NoClash(e.files, r) && forall p :: p in r.content ==> Wanted(r.m, p)
    requires forall p :: p in left <==> p in after && !(p in e.files && Stale(r.m, p))
    requires forall p :: p in left ==> left[p] == after[p]
    requires forall p :: p !in r.content ==> Same(after, files, p)
    ensures left == r.content <==> (forall p :: p in r.content ==> Right(after, r, p)) && Prunable(files, r.m)
  {
    hide Wanted, Outside;
    forall p | p !in r.content ensures p in left <==> p in files && Outside(p) {
      assert Same(after, files, p);
    }
    forall p | p in r.content ensures Right(left, r, p) <==> Right(after, r, p) {
    }
    if left == r.content {
      forall p | p in r.content ensures Right(after, r, p) { assert Right(left, r, p); }
      forall p | p in files ensures Wanted(r.m, p) || !Outside(p) { assert p in r.content || p !in left; }
    }
    if (forall p :: p in r.content ==> Right(after, r, p)) && Prunable(files, r.m) {
      forall p | p in r.content ensures Right(left, r, p) { assert Right(after, r, p); }
      forall p | p in left ensures p in r.content { }
      assert left.Keys == r.content.Keys;
      forall p | p in left ensures left[p] == r.content[p] { assert Right(left, r, p); }
    }
  }

  /** If nothing worked some file is missing. */
  lemma MissesOne(w: World, retries: nat, files: Files, r: Release, contents: set<Bytes>)
    requires WellFormed(r, w.sha1) && Serves(w, retries, r) && NothingWorked(w, retries, files, r.m)
    requires CollisionFree(contents, w.sha1) && Within(files, contents) && Within(r.content, contents)
    ensures !AllEndRight(w, retries, files, r) && Refresh(files, Some(r.m), w, retries).0 != r.content
  {
    var jobs := Jobs(r.m.files);
    var chosen := Chosen(w.late, jobs);
    ChosenFrom(w.late, jobs, chosen[0]);
    var i :| 0 <= i < |jobs| && !w.late(i) && jobs[i] == chosen[0];
    JobLeaves(w, retries, files, r, i, contents);
    hide Refresh, Succeeds, Jobs, WellFormed, Serves, CollisionFree, Within, Chosen;
    assert !EndsRight(w, retries, files, r, i);
  }

  /** Every schedule of every number of workers, with the context done at any
      moment: once they are idle the download is the one Refresh describes, late
      being the files that were not reported. */
  lemma PoolRefreshes(w: World, retries: nat, files: Files, m: Snapshot, es: seq<Pool.Event>)
    requires var c := Pool.Setting(w, retries, files, Jobs(m.files));
             && UniqueNames(c.jobs) && Pool.Possible(c, es)
             && Pool.AllIdle(Pool.After(c, es)) && Pool.Unreported(Pool.After(c, es), w.late)
    ensures var p := Pool.After(Pool.Setting(w, retries, files, Jobs(m.files)), es);
            Refresh(files, Some(m), w, retries) == (p.files, p.stats)
  {
    Pool.RunIsChosen(Pool.Setting(w, retries, files, Jobs(m.files)), es, w.late);
  }

  /** SyncExact over the runs of the pool: the directory is the manifest's files if
      and only if every file was reported and succeeds, or was not reported and was
      there already, and the guard of the pruning holds nothing back. */
  lemma PoolSyncExact(w: World, retries: nat, e: Entry, files: Files, r: Release, contents: set<Bytes>, es: seq<Pool.Event>)
    requires WellFormed(r, w.sha1) && Serves(w, retries, r)
    requires CollisionFree(contents, w.sha1) && Within(files, contents) && Within(r.content, contents)
    requires Recorded(e, files) && NoClash(e.files, r) && e.NeedsUpdate(r.m.gid)
    requires var c := Pool.Setting(w, retries, files, Jobs(r.m.files));
             Pool.Possible(c, es) && Pool.AllIdle(Pool.After(c, es)) && Pool.Unreported(Pool.After(c, es), w.late)
    ensures var jobs := Jobs(r.m.files);
            var p := Pool.After(Pool.Setting(w, retries, files, jobs), es);
            var o := SyncOne(e, files, Some(r.m), Some(r.m), w, retries);
            && Refresh(files, Some(r.m), w, retries) == (p.files, p.stats)
            && (o.files == r.content
                <==> Prunable(files, r.m)
                     && forall j :: 0 <= j < |jobs| ==>
                          if p.stages[j].Reported? then Succeeds(w, retries, files, jobs[j]) else Right(files, r, jobs[j].name))
  {
    JobsUnique(r, w.sha1);
    PoolRefreshes(w, retries, files, r.m, es);
    SyncExact(w, retries, e, files, r, contents);
    hide SyncOne, Refresh, Succeeds, Right, Prunable, WellFormed, Serves, CollisionFree, Within, Recorded, NoClash;
    hide Pool.After, Pool.Possible, Pool.AllIdle, Jobs, NothingWorked;
    var jobs := Jobs(r.m.files);
    var p := Pool.After(Pool.Setting(w, retries, files, jobs), es);
    forall j | 0 <= j < |jobs|
      ensures EndsRight(w, retries, files, r, j)
              <==> if p.stages[j].Reported? then Succeeds(w, retries, files, jobs[j]) else Right(files, r, jobs[j].name)
    {
    }
  }

  lemma ContentWanted(r: Release, sha1: Bytes -> Bytes, p: Path)
    requires WellFormed(r, sha1) && p in r.content
    ensures Wanted(r.m, p)
  {
    assert p in Names(Jobs(r.m.files));
    var f :| f in Jobs(r.m.files) && f.name == p;
    JobsListed(r.m.files, f);
  }

  lemma {:induction false} JobsListed(fs: seq<FileInfo>, f: FileInfo)
    ensures f in Jobs(fs) <==> f in fs && IsJob(f)
  {
    if fs != [] {
      var init, last := fs[..|fs| - 1], fs[|fs| - 1];
      JobsListed(init, f);
      assert fs == init + [last];
    }
  }

  /** A sync of the manifest that is recorded is skipped and changes nothing. */
  lemma RepeatIsSkipped(e: Entry, files: Files, m: Snapshot, second: Option<Snapshot>, w: World, retries: nat)
    requires m.gid == e.gid
    ensures SyncOne(e, files, Some(m), second, w, retries) == SyncOutcome(e, files, UpToDate) <==> e.gid != 0
  {
  }

  /** A run of syncs of one item, one release after the other. */
  function AfterSyncs(rs: seq<Release>, ws: seq<World>, retries: nat): (Entry, Files)
    requires |rs| == |ws|
  {
    if rs == [] then (Entry(0, []), map[])
    else
      var (e, files) := AfterSyncs(rs[..|rs| - 1], ws[..|rs| - 1], retries);
      var m := Some(rs[|rs| - 1].m);
      var o := SyncOne(e, files, m, m, ws[|rs| - 1], retries);
      (o.entry, o.files)
  }

  /** Every file of the release can be fetched, and the context is not done. */
  ghost predicate Reaches(w: World, retries: nat, r: Release) {
    && (forall p :: p in r.content ==> exists n: nat :: Arrives(w, p, 1, n, retries) && w.read(p, n) == Some(r.content[p]))
    && (forall k :: 0 <= k < |Jobs(r.m.files)| ==> !w.late(k))
  }

  ghost predicate GoodRun(rs: seq<Release>, ws: seq<World>, retries: nat, sha1: Bytes -> Bytes, contents: set<Bytes>) {
    && |rs| == |ws| && CollisionFree(contents, sha1)
    && (forall i :: 0 <= i < |rs| ==>
          WellFormed(rs[i], sha1) && Inside(rs[i]) && Within(rs[i].content, contents)
          && ws[i].sha1 == sha1 && Reaches(ws[i], retries, rs[i]))
    && (forall i :: 0 <= i < |rs| - 1 ==> NoClash(ManifestFiles(rs[i].m), rs[i + 1]))
    && (forall i :: 0 <= i < |rs| - 1 && rs[i].m.gid == rs[i + 1].m.gid ==> rs[i] == rs[i + 1])
  }

  /** Incremental equals fresh: over every run of syncs in which all files can be
      fetched, the item directory after the last sync is a fresh download of the
      last manifest, and the store records that manifest and its files. */
  lemma {:induction false} IncrementalIsFresh(rs: seq<Release>, ws: seq<World>, retries: nat, sha1: Bytes -> Bytes, contents: set<Bytes>)
    requires GoodRun(rs, ws, retries, sha1, contents) && rs != []
    ensures var (e, files) := AfterSyncs(rs, ws, retries);
            var last := rs[|rs| - 1];
            && files == last.content
            && e == Entry(last.m.gid, ManifestFiles(last.m))
  {
    hide WellFormed, Inside, Within, NoClash, Reaches, CollisionFree, SyncOne;
    var n := |rs| - 1;
    var init, r, w := rs[..n], rs[n], ws[n];
    var (e, files) := AfterSyncs(init, ws[..n], retries);
    FirstIsClear(r, sha1, contents);
    if n > 0 {
      IncrementalIsFresh(init, ws[..n], retries, sha1, contents);
      assert init[n - 1] == rs[n - 1] && NoClash(ManifestFiles(rs[n - 1].m), rs[n]);
      FilesRecorded(rs[n - 1], sha1);
      InsidePrunable(rs[n - 1], r.m);
    }
    if e.NeedsUpdate(r.m.gid) {
      StepIsFresh(w, retries, e, files, r, contents);
    } else {
      RepeatIsSkipped(e, files, r.m, Some(r.m), w, retries);
    }
  }

  /** The same, in terms of DownloadItem on an empty directory. */
  lemma SameAsFreshDownload(rs: seq<Release>, ws: seq<World>, retries: nat, sha1: Bytes -> Bytes, contents: set<Bytes>)
    requires GoodRun(rs, ws, retries, sha1, contents) && rs != []
    ensures var last := |rs| - 1;
            AfterSyncs(rs, ws, retries).1 == AllFiles(ws[last], retries, map[], Jobs(rs[last].m.files))
  {
    var r, w := rs[|rs| - 1], ws[|rs| - 1];
    IncrementalIsFresh(rs, ws, retries, sha1, contents);
    FirstIsClear(r, sha1, contents);
    StepIsFresh(w, retries, Entry(0, []), map[], r, contents);
    AllTaken(w.late, Jobs(r.m.files));
    hide AllFiles, Tally, WellFormed, Within, NoClash, Reaches, CollisionFree, AfterSyncs, Chosen;
    assert SyncOne(Entry(0, []), map[], Some(r.m), Some(r.m), w, retries).files
           == Refresh(map[], Some(r.m), w, retries).0;
  }

  lemma {:induction false} AllTaken(late: nat -> bool, jobs: seq<FileInfo>)
    requires forall k :: 0 <= k < |jobs| ==> !late(k)
    ensures Chosen(late, jobs) == jobs
  {
    if jobs != [] { AllTaken(late, jobs[..|jobs| - 1]); }
  }

  /** One more sync of the last manifest is skipped and changes nothing, whatever
      could be fetched now. */
  lemma RepeatAfterRun(rs: seq<Release>, ws: seq<World>, retries: nat, sha1: Bytes -> Bytes, contents: set<Bytes>,
                       second: Option<Snapshot>, again: World)
    requires GoodRun(rs, ws, retries, sha1, contents) && rs != []
    ensures var (e, files) := AfterSyncs(rs, ws, retries);
            SyncOne(e, files, Some(rs[|rs| - 1].m), second, again, retries) == SyncOutcome(e, files, UpToDate)
  {
    IncrementalIsFresh(rs, ws, retries, sha1, contents);
    FirstIsClear(rs[|rs| - 1], sha1, contents);
    hide AfterSyncs, Reaches, NoClash, Within, CollisionFree, Refresh, Pruned;
  }

  lemma FirstIsClear(r: Release, sha1: Bytes -> Bytes, contents: set<Bytes>)
    requires WellFormed(r, sha1)
    ensures r.m.gid != 0
    ensures Recorded(Entry(0, []), map[]) && Prunable(map[], r.m) && NoClash([], r) && Within(map[], contents)
  {
  }

  lemma InsidePrunable(r: Release, next: Snapshot)
    requires Inside(r)
    ensures Prunable(r.content, next)
  {
  }

  lemma FilesRecorded(r: Release, sha1: Bytes -> Bytes)
    requires WellFormed(r, sha1)
    ensures forall p :: p in ManifestFiles(r.m) <==> p in r.content
    ensures Recorded(Entry(r.m.gid, ManifestFiles(r.m)), r.content)
  {
    var jobs, names := Jobs(r.m.files), ManifestFiles(r.m);
    forall p ensures p in names <==> p in Names(jobs) {
      if p in Names(jobs) {
        var f :| f in jobs && f.name == p;
        var i :| 0 <= i < |jobs| && jobs[i] == f;
        assert names[i] == p;
      }
      if p in names {
        var i :| 0 <= i < |names| && names[i] == p;
        assert jobs[i] in jobs;
      }
    }
  }

  lemma ReachesAll(w: World, retries: nat, files: Files, r: Release)
    requires WellFormed(r, w.sha1) && Reaches(w, retries, r)
    ensures Serves(w, retries, r)
    ensures AllEndRight(w, retries, files, r) && !NothingWorked(w, retries, files, r.m)
  {
    hide Succeeds, Jobs, Names, Fetched, Chosen;
    var jobs := Jobs(r.m.files);
    AllTaken(w.late, jobs);
    forall i | 0 <= i < |jobs| ensures Succeeds(w, retries, files, jobs[i]) { ReachedSucceeds(w, retries, files, r, i); }
    hide WellFormed, Reaches;
    if jobs != [] { assert Succeeds(w, retries, files, jobs[0]); }
  }

  lemma ReachedSucceeds(w: World, retries: nat, files: Files, r: Release, i: nat)
    requires WellFormed(r, w.sha1) && Reaches(w, retries, r) && i < |Jobs(r.m.files)|
    ensures Succeeds(w, retries, files, Jobs(r.m.files)[i])
  {
    hide Fetched, Jobs, LocalMatches;
    var jobs := Jobs(r.m.files);
    assert jobs[i].name in Names(jobs);
  }

  /** One download of a release whose files can all be fetched. */
  lemma StepIsFresh(w: World, retries: nat, e: Entry, files: Files, r: Release, contents: set<Bytes>)
    requires WellFormed(r, w.sha1) && Reaches(w, retries, r)
    requires CollisionFree(contents, w.sha1) && Within(files, contents) && Within(r.content, contents)
    requires Recorded(e, files) && Prunable(files, r.m) && NoClash(e.files, r) && e.NeedsUpdate(r.m.gid)
    ensures var o := SyncOne(e, files, Some(r.m), Some(r.m), w, retries);
            o.files == r.content && o.entry == Entry(r.m.gid, ManifestFiles(r.m))
  {
    hide SyncOne, WellFormed, Reaches, CollisionFree, Within, Recorded, Prunable, NoClash, AllEndRight, NothingWorked;
    ReachesAll(w, retries, files, r);
    SyncExact(w, retries, e, files, r, contents);
  }

  // ------------------------------------------------- runs with failed files

  ghost predicate GoodStep(r: Release, w: World, retries: nat, sha1: Bytes -> Bytes, contents: set<Bytes>) {
    WellFormed(r, sha1) && Inside(r) && Within(r.content, contents) && w.sha1 == sha1 && Serves(w, retries, r)
  }

  /** Any run: files and whole downloads may fail, manifests may come back. */
  ghost predicate AnyRun(rs: seq<Release>, ws: seq<World>, retries: nat, sha1: Bytes -> Bytes, contents: set<Bytes>) {
    && |rs| == |ws| && CollisionFree(contents, sha1)
    && (forall i :: 0 <= i < |rs| ==> GoodStep(rs[i], ws[i], retries, sha1, contents))
    && (forall i, j :: 0 <= i < j < |rs| ==> NoClash(ManifestFiles(rs[i].m), rs[j]))
  }

  /** The entry is new, or was recorded for one of these releases. */
  ghost predicate FromRun(e: Entry, rs: seq<Release>) {
    e == Entry(0, []) || exists i :: 0 <= i < |rs| && e == Entry(rs[i].m.gid, ManifestFiles(rs[i].m))
  }

  ghost predicate Known(e: Entry, files: Files, rs: seq<Release>, contents: set<Bytes>) {
    FromRun(e, rs) && Recorded(e, files) && Within(files, contents)
  }

  lemma NoneEndsRight(w: World, retries: nat, files: Files, r: Release, i: nat)
    requires NothingWorked(w, retries, files, r.m) && i < |Jobs(r.m.files)| && !w.late(i)
    ensures !EndsRight(w, retries, files, r, i)
  {
    hide Succeeds, Jobs, Chosen;
    var jobs := Jobs(r.m.files);
    ChosenFrom(w.late, jobs, jobs[i]);
    var chosen := Chosen(w.late, jobs);
    var k :| 0 <= k < |chosen| && chosen[k] == jobs[i];
  }

  /** A download in which nothing worked only removes. */
  lemma FailureOnlyRemoves(w: World, retries: nat, files: Files, r: Release, contents: set<Bytes>)
    requires WellFormed(r, w.sha1) && Serves(w, retries, r) && NothingWorked(w, retries, files, r.m)
    requires CollisionFree(contents, w.sha1) && Within(files, contents) && Within(r.content, contents)
    ensures var after := Refresh(files, Some(r.m), w, retries).0;
            forall p :: p in after ==> p in files && after[p] == files[p]
  {
    hide Jobs, CollisionFree, Within, Serves, WellFormed, Succeeds, Refresh, NothingWorked;
    DownloadLeaves(w, retries, files, r, contents);
    var after := Refresh(files, Some(r.m), w, retries).0;
    forall p | p in after ensures p in files && after[p] == files[p] {
      if p in r.content {
        var i := PathLeaves(w, retries, files, r, p, contents);
        if !w.late(i) { NoneEndsRight(w, retries, files, r, i); }
      } else {
        assert Same(after, files, p);
      }
    }
  }

  lemma StepKnown(w: World, retries: nat, e: Entry, files: Files, rs: seq<Release>, r: Release, contents: set<Bytes>)
    requires GoodStep(r, w, retries, w.sha1, contents) && CollisionFree(contents, w.sha1)
    requires Known(e, files, rs, contents) && NoClash(e.files, r) && Prunable(files, r.m)
    ensures var o := SyncOne(e, files, Some(r.m), Some(r.m), w, retries);
            Known(o.entry, o.files, rs + [r], contents)
  {
    hide CollisionFree, Serves, Refresh, Pruned, ManifestFiles, AllEndRight, NothingWorked, Wanted, Outside, Jobs;
    FromLonger(e, rs, r);
    if e.NeedsUpdate(r.m.gid) {
      SyncLeaves(w, retries, e, files, r.m, r, contents);
      DownloadLeaves(w, retries, files, r, contents);
      hide SyncOne, FromRun, WellFormed;
      if NothingWorked(w, retries, files, r.m) {
        FailureOnlyRemoves(w, retries, files, r, contents);
      } else {
        FilesRecorded(r, w.sha1);
        StillRecorded(SyncOne(e, files, Some(r.m), Some(r.m), w, retries).files,
                      Refresh(files, Some(r.m), w, retries).0, files, e, r, contents);
      }
    }
  }

  lemma StillRecorded(left: Files, after: Files, files: Files, e: Entry, r: Release, contents: set<Bytes>)
    requires Recorded(e, files) && NoClash(e.files, r) && Prunable(files, r.m)
    requires Within(files, contents) && Within(r.content, contents)
    requires forall p :: p in left <==> p in after && !(p in e.files && Stale(r.m, p))
    requires forall p :: p in left ==> left[p] == after[p]
    requires forall p :: p !in r.content ==> Same(after, files, p)
    requires forall p :: p in r.content && p in after ==> Right(after, r, p) || (p in files && after[p] == files[p])
    ensures Within(left, contents) && forall p :: p in left ==> p in r.content
  {
    hide Wanted, Outside;
    forall p | p !in r.content ensures p !in left { assert Same(after, files, p); }
  }

  lemma FromLonger(e: Entry, rs: seq<Release>, r: Release)
    ensures FromRun(e, rs) ==> FromRun(e, rs + [r])
    ensures FromRun(Entry(r.m.gid, ManifestFiles(r.m)), rs + [r])
  {
    hide ManifestFiles;
    var longer := rs + [r];
    assert longer[|rs|] == r;
    if FromRun(e, rs) && e != Entry(0, []) {
      var i :| 0 <= i < |rs| && e == Entry(rs[i].m.gid, ManifestFiles(rs[i].m));
      assert longer[i] == rs[i];
    }
  }

  /** What the entry records, and what is there, suits the next release. */
  lemma KnownSuits(e: Entry, files: Files, rs: seq<Release>, r: Release, sha1: Bytes -> Bytes, contents: set<Bytes>)
    requires Known(e, files, rs, contents)
    requires forall i :: 0 <= i < |rs| ==> WellFormed(rs[i], sha1) && Inside(rs[i])
    requires forall i :: 0 <= i < |rs| ==> NoClash(ManifestFiles(rs[i].m), r)
    ensures NoClash(e.files, r) && Prunable(files, r.m)
  {
    hide WellFormed, ManifestFiles, Within, Wanted, Outside;
    if e != Entry(0, []) {
      var i :| 0 <= i < |rs| && e == Entry(rs[i].m.gid, ManifestFiles(rs[i].m));
      FilesRecorded(rs[i], sha1);
    }
  }

  lemma {:induction false} RunKnown(rs: seq<Release>, ws: seq<World>, retries: nat, sha1: Bytes -> Bytes, contents: set<Bytes>)
    requires AnyRun(rs, ws, retries, sha1, contents)
    ensures var (e, files) := AfterSyncs(rs, ws, retries); Known(e, files, rs, contents)
  {
    hide WellFormed, Inside, Within, NoClash, Serves, CollisionFree, SyncOne, Recorded, ManifestFiles, FromRun, Prunable;
    if rs == [] {
      NothingKnown(contents);
    } else {
      var n := |rs| - 1;
      var (e, files) := AfterSyncs(rs[..n], ws[..n], retries);
      RunKnown(rs[..n], ws[..n], retries, sha1, contents);
      KnownSuits(e, files, rs[..n], rs[n], sha1, contents);
      StepKnown(ws[n], retries, e, files, rs[..n], rs[n], contents);
      assert rs[..n] + [rs[n]] == rs;
    }
  }

  lemma NothingKnown(contents: set<Bytes>)
    ensures Known(Entry(0, []), map[], [], contents)
  {
  }

  /** Whatever failed or was cancelled before, in whichever syncs: after a sync
      that downloads, the directory is exactly the files of its manifest if and
      only if in this last one every file ends right. */
  lemma LastSyncDecides(rs: seq<Release>, ws: seq<World>, retries: nat, sha1: Bytes -> Bytes, contents: set<Bytes>)
    requires AnyRun(rs, ws, retries, sha1, contents) && rs != []
    ensures var n := |rs| - 1;
            var (e, files) := AfterSyncs(rs[..n], ws[..n], retries);
            e.NeedsUpdate(rs[n].m.gid) ==>
              (AfterSyncs(rs, ws, retries).1 == rs[n].content <==> AllEndRight(ws[n], retries, files, rs[n]))
  {
    hide WellFormed, Inside, Within, NoClash, Serves, CollisionFree, SyncOne, ManifestFiles, FromRun, Prunable, AllEndRight;
    var n := |rs| - 1;
    var (e, files) := AfterSyncs(rs[..n], ws[..n], retries);
    RunKnown(rs[..n], ws[..n], retries, sha1, contents);
    KnownSuits(e, files, rs[..n], rs[n], sha1, contents);
    if e.NeedsUpdate(rs[n].m.gid) { SyncExact(ws[n], retries, e, files, rs[n], contents); }
  }

  // -------------------------------------------------------------- a lost file

  /** A recorded file whose name starts with ".." is not pruned. */
  lemma DottedFileStays(data: Bytes, m: Snapshot)
    requires !Wanted(m, "..notes")
    ensures Pruned(map["..notes" := data], ["..notes"], m) == map["..notes" := data]
  {
    assert ".." <= "..notes";
    PruneKeeps(map["..notes" := data], ["..notes"], m);
  }

  function TwoFiles(): Snapshot {
    Snapshot(7, [FileInfo("a", false, 0, []), FileInfo("b", false, 0, [])])
  }

  lemma TwoJobs()
    ensures Jobs(TwoFiles().files) == TwoFiles().files && NamesOf(TwoFiles().files) == ["a", "b"]
  {
    var f, g := FileInfo("a", false, 0, []), FileInfo("b", false, 0, []);
    var fs := [f, g];
    assert fs[..1] == [f] && [f][..0] == [];
    assert Jobs([]) == [] && Jobs([f]) == [f] && Jobs(fs) == [f, g];
  }

  lemma ChosenOfTwo(late: nat -> bool)
    ensures var fs := TwoFiles().files;
            Chosen(late, fs) == (if late(0) then [] else fs[..1]) + (if late(1) then [] else fs[1..])
  {
    var fs := TwoFiles().files;
    assert fs[..1][..0] == [] && fs[..1] == [fs[0]] && fs[1..] == [fs[1]];
    assert Chosen(late, []) == [];
    assert Chosen(late, fs[..1]) == if late(0) then [] else [fs[0]];
  }

  /** The first file of two is fetched. */
  lemma FirstFile(w: World, a: Bytes)
    requires w.read("a", 1) == Some(a) && w.writes("a") && !w.cancelled("a", 1)
    ensures var fs := TwoFiles().files;
            AllFiles(w, 5, map[], fs[..1]) == map["a" := a] && Tally(w, 5, map[], fs[..1]) == Stats(1, 0, 0, |a|)
  {
    var fs := TwoFiles().files;
    assert fs[..1][..0] == [] && fs[..1][0] == fs[0];
    assert Fetched(w, "a", 1, 5) == Some(a);
    assert OneFile(w, 5, map[], fs[0]) == (map["a" := a], Downloaded(|a|));
    assert AllFiles(w, 5, map[], []) == map[] && Tally(w, 5, map[], []) == Stats(0, 0, 0, 0);
  }

  /** A file that fails while another succeeds is lost for good: the sync records
      the new manifest, so the next one is skipped although a file of the manifest
      is missing. */
  lemma FailedFileStaysLost(w: World, again: World, a: Bytes)
    requires w.read("a", 1) == Some(a) && w.writes("a") && !w.cancelled("a", 1) && w.cancelled("b", 1)
    requires !w.late(0) && !w.late(1)
    ensures var m := TwoFiles();
            var o := SyncOne(Entry(0, []), map[], Some(m), Some(m), w, 5);
            && o == SyncOutcome(Entry(7, ["a", "b"]), map["a" := a], Synced(Stats(1, 1, 0, |a|)))
            && SyncOne(o.entry, o.files, Some(m), Some(m), again, 5) == SyncOutcome(o.entry, o.files, UpToDate)
  {
    var fs := TwoFiles().files;
    TwoJobs();
    ChosenOfTwo(w.late);
    FirstFile(w, a);
    assert fs[..1] + fs[1..] == fs;
    assert Fetched(w, "b", 1, 5) == None;
    assert OneFile(w, 5, map["a" := a], fs[1]) == (map["a" := a] - {"b"}, Failed);
    assert map["a" := a] - {"b"} == map["a" := a];
    hide Jobs, Chosen, Fetched;
    assert AllFiles(w, 5, map[], fs) == map["a" := a];
    assert Tally(w, 5, map[], fs) == Stats(1, 1, 0, |a|);
  }

  /** So is a file the context was done before: no file failed, and the sync is
      recorded all the same. */
  lemma CancelledFileStaysLost(w: World, again: World, a: Bytes)
    requires w.read("a", 1) == Some(a) && w.writes("a") && !w.cancelled("a", 1)
    requires !w.late(0) && w.late(1)
    ensures var m := TwoFiles();
            var o := SyncOne(Entry(0, []), map[], Some(m), Some(m), w, 5);
            && o == SyncOutcome(Entry(7, ["a", "b"]), map["a" := a], Synced(Stats(1, 0, 0, |a|)))
            && SyncOne(o.entry, o.files, Some(m), Some(m), again, 5) == SyncOutcome(o.entry, o.files, UpToDate)
  {
    hide Jobs, Chosen, Fetched, AllFiles, Tally;
    var fs := TwoFiles().files;
    TwoJobs();
    ChosenOfTwo(w.late);
    FirstFile(w, a);
    assert Chosen(w.late, fs) == fs[..1] by { assert fs[..1] + [] == fs[..1]; }
  }

  /** Even a download that did nothing at all is recorded. */
  lemma NothingDoneIsRecorded(w: World, again: World)
    requires w.late(0) && w.late(1)
    ensures var m := TwoFiles();
            var o := SyncOne(Entry(0, []), map[], Some(m), Some(m), w, 5);
            && o == SyncOutcome(Entry(7, ["a", "b"]), map[], Synced(Stats(0, 0, 0, 0)))
            && SyncOne(o.entry, o.files, Some(m), Some(m), again, 5) == SyncOutcome(o.entry, o.files, UpToDate)
  {
    TwoJobs();
    ChosenOfTwo(w.late);
    hide Jobs, Chosen, Fetched;
  }
}
