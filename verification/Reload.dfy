/** The ruleset manager: coalesced reload requests, parallel refreshes through temporary files, and the
    publication of a rebuilt matcher, under arbitrary scheduling (cmd/dns/internal/dns/ruleset.go). */
module Reloads {
  import opened Wrappers
  import opened Rules
  import opened Matching
  import opened Rulesets

  type Disk = map<string, string>

  /** The rulesets, the cache directory, the hash that names their files, and the decoder. */
  datatype Config = Config(entries: seq<RulesetEntry>, dir: string, hash: string -> string,
                           decode: string -> Option<seq<Site>>)

  const TMP := ".tmp"

  function CachePath(cfg: Config, url: string): string {
    cfg.dir + "/" + cfg.hash(url) + ".dat"
  }

  function Dest(cfg: Config, i: nat): string
    requires i < |cfg.entries|
  {
    CachePath(cfg, cfg.entries[i].url)
  }

  /** No URL is configured twice and no two of their hashes collide. */
  ghost predicate NoCollisions(cfg: Config) {
    forall i, j :: 0 <= i < j < |cfg.entries| ==> cfg.hash(cfg.entries[i].url) != cfg.hash(cfg.entries[j].url)
  }

  /** Then no two workers share a path, not even a final path with a temporary one. */
  lemma PathsAreApart(cfg: Config, i: nat, j: nat)
    requires NoCollisions(cfg) && i < |cfg.entries| && j < |cfg.entries|
    ensures Dest(cfg, i) != Dest(cfg, j) + TMP
    ensures i != j ==> Dest(cfg, i) != Dest(cfg, j) && Dest(cfg, i) + TMP != Dest(cfg, j) + TMP
    ensures i != j ==> cfg.entries[i].url != cfg.entries[j].url
  {
    var a, b := Dest(cfg, i), Dest(cfg, j);
    assert a[|a| - 1] == 't' && (b + TMP)[|b + TMP| - 1] == 'p';
    if i != j {
      var g, h := cfg.hash(cfg.entries[i].url), cfg.hash(cfg.entries[j].url);
      var from := |cfg.dir| + 1;
      assert a[from..|a| - 4] == g && b[from..|b| - 4] == h;
      assert (a + TMP)[..|a|] == a && (b + TMP)[..|b|] == b;
    }
  }

  // ---------------------------------------------------------------- one refresh worker

  datatype Phase = Off | Starting | Requesting | Opening | Copying | Closing(copied: bool) | Renaming | Removing
    | Done(ok: bool)

  /** What the worker does next and how it turns out; a response may also fail to come. */
  datatype WorkerAct = Connect(ok: bool) | Respond(status: Option<int>) | Open(ok: bool) | Chunk(data: string) | CopyEnd(ok: bool)
    | CloseFile(ok: bool) | Rename(ok: bool) | Remove(ok: bool)

  predicate CanDo(p: Phase, a: WorkerAct) {
    match a
    case Connect(_) => p.Starting?
    case Respond(_) => p.Requesting?
    case Open(_) => p.Opening?
    case Chunk(_) => p.Copying?
    case CopyEnd(_) => p.Copying?
    case CloseFile(_) => p.Closing?
    case Rename(_) => p.Renaming?
    case Remove(_) => p.Removing?
  }

  function PhaseAfter(disk: Disk, p: Phase, dest: string, a: WorkerAct): Phase
    requires CanDo(p, a)
  {
    match a
    case Connect(ok) => if ok then Requesting else Done(false)
    case Respond(status) => if status.Some? && 200 <= status.value <= 299 then Opening else Done(false)
    case Open(ok) => if ok then Copying else Done(false)
    case Chunk(_) => Copying
    case CopyEnd(ok) => Closing(ok)
    case CloseFile(ok) => if p.copied && ok then Renaming else Removing
    case Rename(ok) => if ok && dest + TMP in disk then Done(true) else Removing
    case Remove(_) => Done(false)
  }

  function DiskAfter(disk: Disk, dest: string, a: WorkerAct): Disk {
    var tmp := dest + TMP;
    match a
    case Open(ok) => if ok then disk[tmp := ""] else disk
    case Chunk(data) => if tmp in disk then disk[tmp := disk[tmp] + data] else disk
    case Rename(ok) => if ok && tmp in disk then disk[dest := disk[tmp]] - {tmp} else disk
    case Remove(ok) => if ok then disk - {tmp} else disk
    case _ => disk
  }

  /** A worker with the disk to itself. */
  datatype Lone = Lone(phase: Phase, disk: Disk)

  function Alone(start: Lone, dest: string, acts: seq<WorkerAct>): Option<Lone> {
    if acts == [] then Some(start)
    else
      var before := Alone(start, dest, acts[..|acts| - 1]);
      var a := acts[|acts| - 1];
      if before.Some? && CanDo(before.value.phase, a)
      then Some(Lone(PhaseAfter(before.value.disk, before.value.phase, dest, a), DiskAfter(before.value.disk, dest, a)))
      else None
  }

  /** Everything the worker has copied. */
  function Body(acts: seq<WorkerAct>): string {
    if acts == [] then ""
    else Body(acts[..|acts| - 1]) + (if acts[|acts| - 1].Chunk? then acts[|acts| - 1].data else "")
  }

  function At(disk: Disk, path: string): Option<string> {
    if path in disk then Some(disk[path]) else None
  }

  /** The server answered 200 to 299. */
  ghost predicate Responded(acts: seq<WorkerAct>) {
    exists code :: 200 <= code <= 299 && Respond(Some(code)) in acts
  }

  lemma RespondedBefore(acts: seq<WorkerAct>, a: WorkerAct)
    ensures Responded(acts) ==> Responded(acts + [a])
    ensures a.Respond? && a.status.Some? && 200 <= a.status.value <= 299 ==> Responded(acts + [a])
  {
    if Responded(acts) {
      var code :| 200 <= code <= 299 && Respond(Some(code)) in acts;
      assert Respond(Some(code)) in acts + [a];
    }
    if a.Respond? && a.status.Some? && 200 <= a.status.value <= 299 {
      assert a in acts + [a] && a == Respond(Some(a.status.value));
    }
  }

  /** What holds of a worker's two files after it alone has run. */
  ghost predicate FilesFit(was: Disk, l: Lone, dest: string, acts: seq<WorkerAct>) {
    var tmp := dest + TMP;
    var writing := l.phase.Copying? || l.phase.Closing? || l.phase.Renaming?;
    && (l.phase.Off? || l.phase.Starting? || l.phase.Requesting? || l.phase.Opening? ==>
          Body(acts) == "" && At(l.disk, tmp) == At(was, tmp))
    && (writing ==> At(l.disk, tmp) == Some(Body(acts)))
    && (l.phase == Closing(true) ==> CopyEnd(true) in acts)
    && (l.phase.Renaming? || l.phase == Done(true) ==> CopyEnd(true) in acts && CloseFile(true) in acts)
    && (l.phase.Opening? || writing || l.phase == Done(true) ==> Responded(acts))
    && (l.phase == Done(true) <==> Rename(true) in acts)
    && At(l.disk, dest) == (if l.phase == Done(true) then Some(Body(acts)) else At(was, dest))
    && (l.phase.Done? && tmp !in was && Remove(false) !in acts ==> tmp !in l.disk)
  }

  /** At every moment a worker's file is either the old one or, from the rename on, the whole download. */
  lemma {:induction false} OldOrWhole(start: Lone, dest: string, acts: seq<WorkerAct>)
    requires start.phase.Off? || start.phase.Starting?
    requires Alone(start, dest, acts).Some?
    ensures FilesFit(start.disk, Alone(start, dest, acts).value, dest, acts)
  {
    if acts != [] {
      var before, a := acts[..|acts| - 1], acts[|acts| - 1];
      assert acts == before + [a];
      OldOrWhole(start, dest, before);
      assert dest != dest + TMP;
      hide At;
      OldOrWholeStep(start.disk, Alone(start, dest, before).value, dest, before, a);
    }
  }

  lemma OldOrWholeStep(was: Disk, l: Lone, dest: string, acts: seq<WorkerAct>, a: WorkerAct)
    requires FilesFit(was, l, dest, acts) && CanDo(l.phase, a)
    ensures FilesFit(was, Lone(PhaseAfter(l.disk, l.phase, dest, a), DiskAfter(l.disk, dest, a)), dest, acts + [a])
  {
    assert (acts + [a])[..|acts|] == acts;
    assert Body(acts + [a]) == Body(acts) + (if a.Chunk? then a.data else "");
    assert Body(acts) + "" == Body(acts);
    RespondedBefore(acts, a);
    hide Body, Responded;
    assert dest != dest + TMP;
  }

  // ---------------------------------------------------------------- workers in parallel

  /** One refresh: a worker for each ruleset taking part, over the shared disk. */
  datatype Batch = Batch(phases: seq<Phase>, disk: Disk)

  datatype Step = Step(who: nat, act: WorkerAct)

  predicate CanStep(cfg: Config, b: Batch, st: Step) {
    st.who < |b.phases| && |b.phases| == |cfg.entries| && CanDo(b.phases[st.who], st.act)
  }

  function StepBatch(cfg: Config, b: Batch, st: Step): Batch
    requires CanStep(cfg, b, st)
  {
    var dest := Dest(cfg, st.who);
    Batch(b.phases[st.who := PhaseAfter(b.disk, b.phases[st.who], dest, st.act)], DiskAfter(b.disk, dest, st.act))
  }

  function RunBatch(cfg: Config, b: Batch, steps: seq<Step>): Option<Batch> {
    if steps == [] then Some(b)
    else
      var before := RunBatch(cfg, b, steps[..|steps| - 1]);
      var st := steps[|steps| - 1];
      if before.Some? && CanStep(cfg, before.value, st) then Some(StepBatch(cfg, before.value, st)) else None
  }

  /** What worker i does, in its own order. */
  function Only(steps: seq<Step>, i: nat): seq<WorkerAct> {
    if steps == [] then []
    else Only(steps[..|steps| - 1], i) + (if steps[|steps| - 1].who == i then [steps[|steps| - 1].act] else [])
  }

  /** Worker i cannot tell whether the others ran. */
  ghost predicate SeesOnlyItself(b: Batch, l: Lone, dest: string, i: nat)
    requires i < |b.phases|
  {
    && b.phases[i] == l.phase
    && At(b.disk, dest) == At(l.disk, dest)
    && At(b.disk, dest + TMP) == At(l.disk, dest + TMP)
  }

  /** A step changes nothing but its worker's two files. */
  lemma TouchesOwnFiles(disk: Disk, dest: string, a: WorkerAct, path: string)
    requires path != dest && path != dest + TMP
    ensures At(DiskAfter(disk, dest, a), path) == At(disk, path)
  {
  }

  /** What a step does depends on those two files alone. */
  lemma DependsOnOwnFiles(x: Disk, y: Disk, p: Phase, dest: string, a: WorkerAct)
    requires CanDo(p, a) && At(x, dest) == At(y, dest) && At(x, dest + TMP) == At(y, dest + TMP)
    ensures PhaseAfter(x, p, dest, a) == PhaseAfter(y, p, dest, a)
    ensures At(DiskAfter(x, dest, a), dest) == At(DiskAfter(y, dest, a), dest)
    ensures At(DiskAfter(x, dest, a), dest + TMP) == At(DiskAfter(y, dest, a), dest + TMP)
  {
    assert dest != dest + TMP;
  }

  lemma {:induction false} ProjectsToAlone(cfg: Config, b: Batch, steps: seq<Step>, i: nat)
    requires NoCollisions(cfg) && i < |b.phases| == |cfg.entries| && RunBatch(cfg, b, steps).Some?
    ensures var r, l := RunBatch(cfg, b, steps).value, Alone(Lone(b.phases[i], b.disk), Dest(cfg, i), Only(steps, i));
      |r.phases| == |b.phases| && l.Some? && SeesOnlyItself(r, l.value, Dest(cfg, i), i)
  {
    if steps != [] {
      var before, st := steps[..|steps| - 1], steps[|steps| - 1];
      ProjectsToAlone(cfg, b, before, i);
      var r, dest := RunBatch(cfg, b, before).value, Dest(cfg, i);
      if st.who == i {
        var acts := Only(before, i);
        assert (acts + [st.act])[..|acts|] == acts;
        var l := Alone(Lone(b.phases[i], b.disk), dest, acts).value;
        DependsOnOwnFiles(r.disk, l.disk, l.phase, dest, st.act);
      } else {
        assert Only(before, i) + [] == Only(before, i);
        PathsAreApart(cfg, i, st.who);
        PathsAreApart(cfg, st.who, i);
        TouchesOwnFiles(r.disk, Dest(cfg, st.who), st.act, dest);
        TouchesOwnFiles(r.disk, Dest(cfg, st.who), st.act, dest + TMP);
      }
      hide Dest, DiskAfter, PhaseAfter, CanDo, At;
    }
  }

  /** Paths that belong to no worker are never touched. */
  lemma {:induction false} OthersUntouched(cfg: Config, b: Batch, steps: seq<Step>, path: string)
    requires RunBatch(cfg, b, steps).Some?
    requires forall i: nat :: i < |cfg.entries| ==> path != Dest(cfg, i) && path != Dest(cfg, i) + TMP
    ensures At(RunBatch(cfg, b, steps).value.disk, path) == At(b.disk, path)
  {
    if steps != [] {
      var st := steps[|steps| - 1];
      OthersUntouched(cfg, b, steps[..|steps| - 1], path);
      TouchesOwnFiles(RunBatch(cfg, b, steps[..|steps| - 1]).value.disk, Dest(cfg, st.who), st.act, path);
    }
  }

  lemma SamePath(cfg: Config, b: Batch, s: seq<Step>, t: seq<Step>, path: string)
    requires NoCollisions(cfg) && |b.phases| == |cfg.entries|
    requires RunBatch(cfg, b, s).Some? && RunBatch(cfg, b, t).Some?
    requires forall i: nat :: i < |cfg.entries| ==> Only(s, i) == Only(t, i)
    ensures At(RunBatch(cfg, b, s).value.disk, path) == At(RunBatch(cfg, b, t).value.disk, path)
  {
    if i: nat :| i < |cfg.entries| && (path == Dest(cfg, i) || path == Dest(cfg, i) + TMP) {
      ProjectsToAlone(cfg, b, s, i);
      ProjectsToAlone(cfg, b, t, i);
    } else {
      OthersUntouched(cfg, b, s, path);
      OthersUntouched(cfg, b, t, path);
    }
  }

  /** Two interleavings of the same worker runs end with the same phases and the same files, contents
      included. */
  lemma SameFilesInEveryOrder(cfg: Config, b: Batch, s: seq<Step>, t: seq<Step>)
    requires NoCollisions(cfg) && |b.phases| == |cfg.entries|
    requires RunBatch(cfg, b, s).Some? && RunBatch(cfg, b, t).Some?
    requires forall i: nat :: i < |cfg.entries| ==> Only(s, i) == Only(t, i)
    ensures RunBatch(cfg, b, s) == RunBatch(cfg, b, t)
  {
    var x, y := RunBatch(cfg, b, s).value, RunBatch(cfg, b, t).value;
    forall i: nat | i < |cfg.entries| ensures |x.phases| == |y.phases| == |b.phases| && x.phases[i] == y.phases[i] {
      ProjectsToAlone(cfg, b, s, i);
      ProjectsToAlone(cfg, b, t, i);
    }
    KeepsWorkers(cfg, b, s);
    KeepsWorkers(cfg, b, t);
    forall path ensures At(x.disk, path) == At(y.disk, path) {
      SamePath(cfg, b, s, t, path);
    }
    assert forall path :: path in x.disk <==> At(x.disk, path).Some?;
    assert forall path :: path in y.disk <==> At(y.disk, path).Some?;
    assert x.disk == y.disk;
    assert x.phases == y.phases;
  }

  lemma {:induction false} KeepsWorkers(cfg: Config, b: Batch, steps: seq<Step>)
    requires RunBatch(cfg, b, steps).Some?
    ensures |RunBatch(cfg, b, steps).value.phases| == |b.phases|
  {
    if steps != [] {
      KeepsWorkers(cfg, b, steps[..|steps| - 1]);
    }
  }

  // ---------------------------------------------------------------- colliding paths

  /** A download that succeeds, in one piece. */
  function Download(i: nat, body: string): seq<Step> {
    [Step(i, Connect(true)), Step(i, Respond(Some(200))), Step(i, Open(true)), Step(i, Chunk(body)),
     Step(i, CopyEnd(true)), Step(i, CloseFile(true)), Step(i, Rename(true))]
  }

  lemma DownloadRuns(cfg: Config, b: Batch, i: nat, body: string)
    requires i < |b.phases| == |cfg.entries| && b.phases[i].Starting?
    ensures RunBatch(cfg, b, Download(i, body)) ==
      Some(Batch(b.phases[i := Done(true)], b.disk[Dest(cfg, i) := body] - {Dest(cfg, i) + TMP}))
  {
    hide RunBatch, DiskAfter, Dest;
    var dest, disk, ps := Dest(cfg, i), b.disk, b.phases;
    var begun, written := disk[dest + TMP := ""], disk[dest + TMP := body];
    var steps := Download(i, body);
    DiskSteps(disk, dest, body);
    NoSteps(cfg, b);
    assert steps[..0] == [];
    MoreSteps(cfg, b, steps, 0, Batch(ps[i := Requesting], disk));
    MoreSteps(cfg, b, steps, 1, Batch(ps[i := Opening], disk));
    MoreSteps(cfg, b, steps, 2, Batch(ps[i := Copying], begun));
    MoreSteps(cfg, b, steps, 3, Batch(ps[i := Copying], written));
    MoreSteps(cfg, b, steps, 4, Batch(ps[i := Closing(true)], written));
    MoreSteps(cfg, b, steps, 5, Batch(ps[i := Renaming], written));
    MoreSteps(cfg, b, steps, 6, Batch(ps[i := Done(true)], disk[dest := body] - {dest + TMP}));
    assert steps[..7] == steps;
  }

  lemma NoSteps(cfg: Config, b: Batch)
    ensures RunBatch(cfg, b, []) == Some(b)
  {
  }

  lemma MoreSteps(cfg: Config, start: Batch, steps: seq<Step>, k: nat, next: Batch)
    requires k < |steps| && RunBatch(cfg, start, steps[..k]).Some?
    requires var b := RunBatch(cfg, start, steps[..k]).value; CanStep(cfg, b, steps[k]) && StepBatch(cfg, b, steps[k]) == next
    ensures RunBatch(cfg, start, steps[..k + 1]) == Some(next)
  {
    assert steps[..k + 1][..k] == steps[..k];
  }

  lemma DiskSteps(disk: Disk, dest: string, body: string)
    ensures var begun, written := disk[dest + TMP := ""], disk[dest + TMP := body];
      && (forall ok :: DiskAfter(disk, dest, Connect(ok)) == disk)
      && (forall status :: DiskAfter(disk, dest, Respond(status)) == disk)
      && DiskAfter(disk, dest, Open(true)) == begun
      && DiskAfter(begun, dest, Chunk(body)) == written
      && DiskAfter(written, dest, CopyEnd(true)) == written == DiskAfter(written, dest, CloseFile(true))
      && DiskAfter(written, dest, Rename(true)) == disk[dest := body] - {dest + TMP}
  {
    assert dest != dest + TMP;
    assert "" + body == body;
  }

  lemma {:induction false} RunJoined(cfg: Config, b: Batch, s: seq<Step>, t: seq<Step>)
    requires RunBatch(cfg, b, s).Some?
    ensures RunBatch(cfg, b, s + t) == RunBatch(cfg, RunBatch(cfg, b, s).value, t)
  {
    if t == [] {
      assert s + t == s;
    } else {
      assert (s + t)[..|s + t| - 1] == s + t[..|t| - 1];
      RunJoined(cfg, b, s, t[..|t| - 1]);
    }
  }

  lemma {:induction false} OnlyJoined(s: seq<Step>, t: seq<Step>, i: nat)
    ensures Only(s + t, i) == Only(s, i) + Only(t, i)
  {
    if t == [] {
      assert s + t == s;
    } else {
      assert (s + t)[..|s + t| - 1] == s + t[..|t| - 1];
      OnlyJoined(s, t[..|t| - 1], i);
    }
  }

  lemma {:induction false} OnlyOthers(steps: seq<Step>, i: nat)
    requires forall st <- steps :: st.who != i
    ensures Only(steps, i) == []
  {
    if steps != [] {
      OnlyOthers(steps[..|steps| - 1], i);
    }
  }

  lemma OrderShows(cfg: Config, i: nat, j: nat)
    requires i != j && i < |cfg.entries| && j < |cfg.entries| && Dest(cfg, i) == Dest(cfg, j)
    ensures var b := Batch(seq(|cfg.entries|, _ => Starting), map[]);
      var s := RunBatch(cfg, b, Download(i, "x") + Download(j, "y"));
      var t := RunBatch(cfg, b, Download(j, "y") + Download(i, "x"));
      s.Some? && t.Some? && s != t
  {
    hide RunBatch, Dest;
    var b := Batch(seq(|cfg.entries|, _ => Starting), map[]);
    var dest := Dest(cfg, i);
    assert dest != dest + TMP;
    DownloadRuns(cfg, b, i, "x");
    RunJoined(cfg, b, Download(i, "x"), Download(j, "y"));
    DownloadRuns(cfg, RunBatch(cfg, b, Download(i, "x")).value, j, "y");
    DownloadRuns(cfg, b, j, "y");
    RunJoined(cfg, b, Download(j, "y"), Download(i, "x"));
    DownloadRuns(cfg, RunBatch(cfg, b, Download(j, "y")).value, i, "x");
    hide Download;
    var s := RunBatch(cfg, b, Download(i, "x") + Download(j, "y")).value;
    var t := RunBatch(cfg, b, Download(j, "y") + Download(i, "x")).value;
    assert s.disk[dest] == "y" && t.disk[dest] == "x";
  }

  lemma SameOnly(i: nat, j: nat, k: nat)
    requires i != j
    ensures Only(Download(i, "x") + Download(j, "y"), k) == Only(Download(j, "y") + Download(i, "x"), k)
  {
    var s, t := Download(i, "x"), Download(j, "y");
    OnlyJoined(s, t, k);
    OnlyJoined(t, s, k);
    if k != i {
      OnlyOthers(s, k);
    }
    if k != j {
      OnlyOthers(t, k);
    }
    hide Only;
  }

  ghost predicate SameWork(cfg: Config, s: seq<Step>, t: seq<Step>) {
    forall i: nat :: i < |cfg.entries| ==> Only(s, i) == Only(t, i)
  }

  /** For every configuration: the interleaving never matters if and only if no two rulesets have the same
      file, by the same URL or by colliding hashes. */
  lemma OrderIsImmaterialExactly(cfg: Config)
    ensures NoCollisions(cfg) <==>
      forall b: Batch, s, t :: |b.phases| == |cfg.entries| && RunBatch(cfg, b, s).Some? && RunBatch(cfg, b, t).Some? && SameWork(cfg, s, t)
        ==> RunBatch(cfg, b, s) == RunBatch(cfg, b, t)
  {
    if NoCollisions(cfg) {
      forall b: Batch, s, t | |b.phases| == |cfg.entries| && RunBatch(cfg, b, s).Some? && RunBatch(cfg, b, t).Some? && SameWork(cfg, s, t)
        ensures RunBatch(cfg, b, s) == RunBatch(cfg, b, t)
      {
        SameFilesInEveryOrder(cfg, b, s, t);
      }
    } else {
      var i, j :| 0 <= i < j < |cfg.entries| && cfg.hash(cfg.entries[i].url) == cfg.hash(cfg.entries[j].url);
      OrderShows(cfg, i, j);
      hide RunBatch, Only, Download;
      var s, t := Download(i, "x") + Download(j, "y"), Download(j, "y") + Download(i, "x");
      assert SameWork(cfg, s, t) by {
        forall k: nat | k < |cfg.entries| ensures Only(s, k) == Only(t, k) {
          SameOnly(i, j, k);
        }
      }
    }
  }

  predicate AboutToStart(b: Batch) {
    forall p <- b.phases :: p.Off? || p.Starting?
  }

  /** In a parallel refresh too: whatever the others do, a ruleset's file is the old one until its own
      rename, and then exactly the whole body of a copy and a close that succeeded. */
  lemma FailedDownloadKeepsFile(cfg: Config, b: Batch, steps: seq<Step>, i: nat)
    requires NoCollisions(cfg) && AboutToStart(b) && i < |b.phases| == |cfg.entries| && RunBatch(cfg, b, steps).Some?
    ensures var r, acts := RunBatch(cfg, b, steps).value, Only(steps, i);
      && |r.phases| == |b.phases|
      && (r.phases[i] == Done(true) <==> Rename(true) in acts)
      && (r.phases[i] == Done(true) ==> CopyEnd(true) in acts && CloseFile(true) in acts && Responded(acts))
      && At(r.disk, Dest(cfg, i)) == (if r.phases[i] == Done(true) then Some(Body(acts)) else At(b.disk, Dest(cfg, i)))
  {
    ProjectsToAlone(cfg, b, steps, i);
    OldOrWhole(Lone(b.phases[i], b.disk), Dest(cfg, i), Only(steps, i));
  }

  // ---------------------------------------------------------------- the manager loop

  /** `work` is what the workers of the current refresh have done since `start`. */
  datatype Loop = NotStarted | Fetching | Reading(next: nat, seen: map<string, File>) | Waiting | Stopped

  datatype State = State(
    batch: Batch, start: Batch, work: seq<Step>, loop: Loop, token: bool, ticks: seq<nat>, cancelled: bool,
    published: Option<map<string, File>>, fullRefreshes: nat)

  datatype Act = Begin | Trigger | Tick(entry: nat) | Cancel | TakeToken | TakeTick | Work(step: Step) | Join
    | ReadFile(ok: bool) | Publish | Stop

  predicate Settled(p: Phase) {
    p.Off? || p.Done?
  }

  predicate AllSettled(b: Batch) {
    forall p <- b.phases :: Settled(p)
  }

  function Init(cfg: Config, disk: Disk): State {
    var b := Batch(seq(|cfg.entries|, _ => Off), disk);
    State(b, b, [], NotStarted, false, [], false, None, 0)
  }

  /** A trigger never blocks; a ticker waits for room in its channel; the loop serves one event at a
      time, picking any that is ready. */
  predicate Enabled(cfg: Config, s: State, a: Act) {
    match a
    case Begin => s.loop.NotStarted?
    case Trigger => true
    case Tick(i) => i < |cfg.entries| && s.published.Some? && |s.ticks| < |cfg.entries|
    case Cancel => true
    case TakeToken => s.loop.Waiting? && s.token
    case TakeTick => s.loop.Waiting? && s.ticks != [] && s.ticks[0] < |cfg.entries|
    case Work(st) => s.loop.Fetching? && CanStep(cfg, s.batch, st)
    case Join => s.loop.Fetching? && AllSettled(s.batch)
    case ReadFile(_) => s.loop.Reading? && s.loop.next < |cfg.entries|
    case Publish => s.loop.Reading? && s.loop.next == |cfg.entries|
    case Stop => s.loop.Waiting? && s.cancelled
  }

  /** What decoding the file of ruleset i gives. */
  function Content(cfg: Config, disk: Disk, i: nat): File
    requires i < |cfg.entries|
  {
    match At(disk, Dest(cfg, i))
    case None => Unreadable
    case Some(raw) =>
      var sites := cfg.decode(raw);
      if sites.Some? then Decoded(sites.value) else Garbled
  }

  function Refresh(s: State, phases: seq<Phase>): State {
    var b := Batch(phases, s.batch.disk);
    s.(batch := b, start := b, work := [], loop := Fetching)
  }

  function Next(cfg: Config, s: State, a: Act): State
    requires Enabled(cfg, s, a)
  {
    var n := |cfg.entries|;
    match a
    case Begin => Refresh(s, seq(n, _ => Starting)).(fullRefreshes := s.fullRefreshes + 1)
    case Trigger => s.(token := true)
    case Tick(i) => s.(ticks := s.ticks + [i])
    case Cancel => s.(cancelled := true)
    case TakeToken => Refresh(s, seq(n, _ => Starting)).(token := false, fullRefreshes := s.fullRefreshes + 1)
    case TakeTick => Refresh(s, seq(n, i => if i == s.ticks[0] then Starting else Off)).(ticks := s.ticks[1..])
    case Work(st) => s.(batch := StepBatch(cfg, s.batch, st), work := s.work + [st])
    case Join => s.(loop := Reading(0, map[]))
    case ReadFile(ok) =>
      var i := s.loop.next;
      var f := if ok then Content(cfg, s.batch.disk, i) else Unreadable;
      s.(loop := Reading(i + 1, s.loop.seen[cfg.entries[i].url := f]))
    case Publish => s.(loop := Waiting, published := Some(s.loop.seen))
    case Stop => s.(loop := Stopped)
  }

  function After(cfg: Config, disk: Disk, acts: seq<Act>): Option<State> {
    if acts == [] then Some(Init(cfg, disk))
    else
      var before := After(cfg, disk, acts[..|acts| - 1]);
      var a := acts[|acts| - 1];
      if before.Some? && Enabled(cfg, before.value, a) then Some(Next(cfg, before.value, a)) else None
  }

  // ---------------------------------------------------------------- reload requests

  /** What a step does to the token and to the count of full refreshes. */
  lemma TokenStep(cfg: Config, s: State, a: Act)
    requires Enabled(cfg, s, a)
    ensures var s' := Next(cfg, s, a);
      && s'.token == (a == Trigger || (s.token && a != TakeToken))
      && (a == TakeToken ==> s.token)
      && s'.fullRefreshes == s.fullRefreshes + (if a == Begin || a == TakeToken then 1 else 0)
      && (s'.loop.NotStarted? <==> s.loop.NotStarted? && a != Begin)
      && (a == Begin ==> s.loop.NotStarted?) && (a == TakeToken ==> !s.loop.NotStarted?)
  {
    hide CanStep, StepBatch, AllSettled, Content;
  }

  /** A token is pending exactly if some trigger came after the last token was taken. */
  lemma {:induction false} TriggersAreNotLost(cfg: Config, disk: Disk, acts: seq<Act>)
    requires After(cfg, disk, acts).Some?
    ensures After(cfg, disk, acts).value.token <==>
      exists t :: 0 <= t < |acts| && acts[t] == Trigger && forall u :: t < u < |acts| ==> acts[u] != TakeToken
  {
    if acts != [] {
      var before, a := acts[..|acts| - 1], acts[|acts| - 1];
      TriggersAreNotLost(cfg, disk, before);
      TokenStep(cfg, After(cfg, disk, before).value, a);
      hide Next, Enabled;
      assert forall u :: 0 <= u < |before| ==> before[u] == acts[u];
      if After(cfg, disk, before).value.token {
        var t :| 0 <= t < |before| && before[t] == Trigger && forall u :: t < u < |before| ==> before[u] != TakeToken;
        assert acts[t] == Trigger;
      }
      if a == Trigger {
        assert acts[|before|] == Trigger;
      }
    }
  }

  function CountOf(acts: seq<Act>, a: Act): nat {
    if acts == [] then 0 else CountOf(acts[..|acts| - 1], a) + (if acts[|acts| - 1] == a then 1 else 0)
  }

  /** There are never more full refreshes than triggers plus the initial one; a pending token uses up
      one trigger. */
  lemma {:induction false} TriggersAreCoalesced(cfg: Config, disk: Disk, acts: seq<Act>)
    requires After(cfg, disk, acts).Some?
    ensures var s := After(cfg, disk, acts).value;
      s.fullRefreshes + (if s.token then 1 else 0) <= CountOf(acts, Trigger) + (if s.loop.NotStarted? then 0 else 1)
  {
    if acts != [] {
      TriggersAreCoalesced(cfg, disk, acts[..|acts| - 1]);
      TokenStep(cfg, After(cfg, disk, acts[..|acts| - 1]).value, acts[|acts| - 1]);
      hide Next, Enabled;
    }
  }

  lemma {:induction false} PrefixRuns(cfg: Config, disk: Disk, acts: seq<Act>, k: nat)
    requires After(cfg, disk, acts).Some? && k <= |acts|
    ensures After(cfg, disk, acts[..k]).Some?
  {
    if k < |acts| {
      PrefixRuns(cfg, disk, acts[..|acts| - 1], k);
      assert acts[..|acts| - 1][..k] == acts[..k];
    } else {
      assert acts[..k] == acts;
    }
  }

  /** A loop that has been fetching and is idle again has published in between. */
  lemma {:induction false} IdleHasPublished(cfg: Config, disk: Disk, acts: seq<Act>, p: nat)
    requires After(cfg, disk, acts).Some? && p <= |acts|
    requires After(cfg, disk, acts[..p]).Some? && After(cfg, disk, acts[..p]).value.loop.Fetching?
    requires var loop := After(cfg, disk, acts).value.loop; loop.Waiting? || loop.Stopped?
    ensures exists q :: p <= q < |acts| && acts[q] == Publish
  {
    assert acts[..|acts|] == acts;
    var before, a := acts[..|acts| - 1], acts[|acts| - 1];
    if a == Publish {
      assert acts[|acts| - 1] == Publish;
    } else {
      assert before[..p] == acts[..p];
      IdleHasPublished(cfg, disk, before, p);
      var q :| p <= q < |before| && before[q] == Publish;
      assert acts[q] == Publish;
    }
  }

  /** A refresh of everything, in which no worker has done anything yet. */
  ghost predicate StartsFresh(cfg: Config, s: State) {
    s.loop.Fetching? && s.work == [] && |s.batch.phases| == |cfg.entries| && forall p <- s.batch.phases :: p.Starting?
  }

  /** Every trigger is answered by a full refresh that starts from scratch after it: if no token is
      pending, one was taken later, and at that moment no worker had started; and once the loop is idle
      the matcher rebuilt by it has been published. */
  lemma TriggersAreServed(cfg: Config, disk: Disk, acts: seq<Act>, t: nat)
    requires After(cfg, disk, acts).Some? && t < |acts| && acts[t] == Trigger
    ensures var s := After(cfg, disk, acts).value;
      s.token || exists p ::
        && t < p < |acts| && acts[p] == TakeToken
        && After(cfg, disk, acts[..p + 1]).Some? && StartsFresh(cfg, After(cfg, disk, acts[..p + 1]).value)
        && (s.loop.Waiting? || s.loop.Stopped? ==> exists q :: p < q < |acts| && acts[q] == Publish)
  {
    hide Next, Enabled, After, StartsFresh;
    TriggersAreNotLost(cfg, disk, acts);
    var s := After(cfg, disk, acts).value;
    if !s.token {
      var p := TakenAfter(cfg, disk, acts, t);
      if s.loop.Waiting? || s.loop.Stopped? {
        assert After(cfg, disk, acts[..p + 1]).value.loop.Fetching? by {
          TakeStarts(cfg, disk, acts, p);
        }
        IdleHasPublished(cfg, disk, acts, p + 1);
      }
    }
  }

  lemma TakenAfter(cfg: Config, disk: Disk, acts: seq<Act>, t: nat) returns (p: nat)
    requires After(cfg, disk, acts).Some? && t < |acts| && acts[t] == Trigger
    requires !After(cfg, disk, acts).value.token
    ensures t < p < |acts| && acts[p] == TakeToken
    ensures After(cfg, disk, acts[..p + 1]).Some? && StartsFresh(cfg, After(cfg, disk, acts[..p + 1]).value)
  {
    hide Next, Enabled, After, StartsFresh;
    TriggersAreNotLost(cfg, disk, acts);
    var q :| t < q < |acts| && acts[q] == TakeToken;
    p := q;
    TakeStarts(cfg, disk, acts, p);
  }

  lemma TakeStarts(cfg: Config, disk: Disk, acts: seq<Act>, p: nat)
    requires After(cfg, disk, acts).Some? && p < |acts| && acts[p] == TakeToken
    ensures After(cfg, disk, acts[..p + 1]).Some?
    ensures var s := After(cfg, disk, acts[..p + 1]).value; StartsFresh(cfg, s) && s.loop.Fetching?
  {
    hide Next, Enabled, StartsFresh;
    PrefixRuns(cfg, disk, acts, p + 1);
    assert acts[..p + 1][..p] == acts[..p];
    TakeIsFresh(cfg, After(cfg, disk, acts[..p]).value);
  }

  lemma TakeIsFresh(cfg: Config, s: State)
    requires Enabled(cfg, s, TakeToken)
    ensures StartsFresh(cfg, Next(cfg, s, TakeToken)) && Next(cfg, s, TakeToken).loop.Fetching?
  {
  }

  /** What each event makes the loop fetch: the first one and a token every ruleset, a tick the one ruleset
      it names; a token and a tick are used up, and nothing on disk or published changes yet. */
  lemma EventsStartRefreshes(cfg: Config, s: State, a: Act)
    requires Enabled(cfg, s, a) && (a.Begin? || a.TakeToken? || a.TakeTick?)
    ensures var s' := Next(cfg, s, a);
      && s'.loop.Fetching? && s'.work == [] && s'.published == s.published && s'.batch.disk == s.batch.disk
      && |s'.batch.phases| == |cfg.entries|
      && (forall i :: 0 <= i < |cfg.entries| ==>
           s'.batch.phases[i] == if a.TakeTick? && i != s.ticks[0] then Off else Starting)
      && s'.token == (s.token && !a.TakeToken?)
      && s'.ticks == (if a.TakeTick? then s.ticks[1..] else s.ticks)
  {
  }

  /** What reading a file gives: its decoded list if it is there, can be read and decodes. */
  lemma ReadGives(cfg: Config, s: State, ok: bool)
    requires Enabled(cfg, s, ReadFile(ok))
    ensures var s', i := Next(cfg, s, ReadFile(ok)), s.loop.next; var url := cfg.entries[i].url;
      var path := cfg.dir + "/" + cfg.hash(url) + ".dat";
      && s'.loop == Reading(i + 1, s'.loop.seen) && url in s'.loop.seen
      && s'.loop.seen[url] == (if !ok || path !in s.batch.disk then Unreadable
           else if cfg.decode(s.batch.disk[path]).Some? then Decoded(cfg.decode(s.batch.disk[path]).value)
           else Garbled)
  {
  }

  /** The loop stops only when it is cancelled, and between refreshes. */
  lemma StopsOnlyWhenCancelled(cfg: Config, s: State, a: Act)
    requires Enabled(cfg, s, a) && Next(cfg, s, a).loop.Stopped?
    ensures s.loop.Stopped? || (s.cancelled && s.loop.Waiting?)
  {
  }

  // ---------------------------------------------------------------- publication

  /** `f` is what reading ruleset i from the disk can give: its content, or nothing on a read error. */
  ghost predicate ReadFrom(cfg: Config, disk: Disk, i: nat, f: File)
    requires i < |cfg.entries|
  {
    f == Content(cfg, disk, i) || f.Unreadable?
  }

  /** The first k rulesets as read from one disk. */
  ghost predicate Snapshot(cfg: Config, disk: Disk, k: nat, files: map<string, File>)
    requires k <= |cfg.entries|
  {
    && (forall i: nat :: i < k ==> cfg.entries[i].url in files && ReadFrom(cfg, disk, i, files[cfg.entries[i].url]))
    && (forall u <- files :: exists i: nat :: i < k && cfg.entries[i].url == u)
  }

  ghost predicate Inv(cfg: Config, s: State) {
    && |s.batch.phases| == |s.start.phases| == |cfg.entries|
    && AboutToStart(s.start)
    && RunBatch(cfg, s.start, s.work) == Some(s.batch)
    && (!s.loop.Fetching? ==> AllSettled(s.batch))
    && (s.loop.NotStarted? ==> s.published.None?)
    && (s.loop.Reading? ==> s.loop.next <= |cfg.entries| && Snapshot(cfg, s.batch.disk, s.loop.next, s.loop.seen))
    && (s.loop.Waiting? || s.loop.Stopped? ==>
          s.published.Some? && Snapshot(cfg, s.batch.disk, |cfg.entries|, s.published.value))
    && (s.published.Some? && (s.loop.Fetching? || s.loop.Reading?) ==>
          Snapshot(cfg, s.start.disk, |cfg.entries|, s.published.value))
  }

  lemma ReadExtends(cfg: Config, disk: Disk, k: nat, files: map<string, File>, f: File)
    requires NoCollisions(cfg) && k < |cfg.entries| && Snapshot(cfg, disk, k, files) && ReadFrom(cfg, disk, k, f)
    ensures Snapshot(cfg, disk, k + 1, files[cfg.entries[k].url := f])
  {
    var grown := files[cfg.entries[k].url := f];
    forall i: nat | i < k ensures cfg.entries[i].url != cfg.entries[k].url {
      PathsAreApart(cfg, i, k);
    }
    hide ReadFrom;
    forall u | u in grown ensures exists i: nat :: i < k + 1 && cfg.entries[i].url == u {
      if u == cfg.entries[k].url {
        assert k < k + 1;
      } else {
        var i: nat :| i < k && cfg.entries[i].url == u;
        assert i < k + 1;
      }
    }
  }

  lemma WorkKeepsInv(cfg: Config, s: State, st: Step)
    requires Inv(cfg, s) && Enabled(cfg, s, Work(st))
    ensures Inv(cfg, Next(cfg, s, Work(st)))
  {
    hide RunBatch, StepBatch, CanStep, Snapshot, AllSettled, AboutToStart;
    OneMoreStep(cfg, s.start, s.work, s.batch, st);
  }

  lemma OneMoreStep(cfg: Config, start: Batch, steps: seq<Step>, b: Batch, st: Step)
    requires RunBatch(cfg, start, steps) == Some(b) && CanStep(cfg, b, st)
    ensures RunBatch(cfg, start, steps + [st]) == Some(StepBatch(cfg, b, st))
    ensures |StepBatch(cfg, b, st).phases| == |b.phases|
  {
    hide PhaseAfter, DiskAfter, CanDo;
    assert (steps + [st])[..|steps|] == steps;
  }

  lemma ReadKeepsInv(cfg: Config, s: State, ok: bool)
    requires NoCollisions(cfg) && Inv(cfg, s) && Enabled(cfg, s, ReadFile(ok))
    ensures Inv(cfg, Next(cfg, s, ReadFile(ok)))
  {
    hide Content, RunBatch, AllSettled, AboutToStart;
    var f := if ok then Content(cfg, s.batch.disk, s.loop.next) else Unreadable;
    ReadExtends(cfg, s.batch.disk, s.loop.next, s.loop.seen, f);
    hide Snapshot, NoCollisions;
  }

  lemma JoinKeepsInv(cfg: Config, s: State)
    requires Inv(cfg, s) && Enabled(cfg, s, Join)
    ensures Inv(cfg, Next(cfg, s, Join))
  {
    assert Snapshot(cfg, s.batch.disk, 0, map[]);
    hide Snapshot, RunBatch, AllSettled, AboutToStart;
  }

  lemma StepKeepsInv(cfg: Config, s: State, a: Act)
    requires NoCollisions(cfg) && Inv(cfg, s) && Enabled(cfg, s, a)
    ensures Inv(cfg, Next(cfg, s, a))
  {
    match a {
      case Work(st) => WorkKeepsInv(cfg, s, st);
      case ReadFile(ok) => ReadKeepsInv(cfg, s, ok);
      case Join => JoinKeepsInv(cfg, s);
      case _ => hide Snapshot, CanDo, StepBatch, Content, NoCollisions;
    }
  }

  lemma {:induction false} RunKeepsInv(cfg: Config, disk: Disk, acts: seq<Act>)
    requires NoCollisions(cfg) && After(cfg, disk, acts).Some?
    ensures Inv(cfg, After(cfg, disk, acts).value)
  {
    if acts != [] {
      RunKeepsInv(cfg, disk, acts[..|acts| - 1]);
      StepKeepsInv(cfg, After(cfg, disk, acts[..|acts| - 1]).value, acts[|acts| - 1]);
    }
  }

  /** After the first k steps no worker was running, and `files` is what the disk then held. */
  ghost predicate ReadAt(cfg: Config, disk: Disk, acts: seq<Act>, k: int, files: map<string, File>) {
    && 0 <= k <= |acts| && After(cfg, disk, acts[..k]).Some?
    && AllSettled(After(cfg, disk, acts[..k]).value.batch)
    && Snapshot(cfg, After(cfg, disk, acts[..k]).value.batch.disk, |cfg.entries|, files)
  }

  lemma PublishReads(cfg: Config, disk: Disk, acts: seq<Act>)
    requires NoCollisions(cfg) && After(cfg, disk, acts).Some? && acts != [] && acts[|acts| - 1] == Publish
    requires After(cfg, disk, acts).value.published.Some?
    ensures ReadAt(cfg, disk, acts, |acts|, After(cfg, disk, acts).value.published.value)
  {
    RunKeepsInv(cfg, disk, acts);
    assert acts[..|acts|] == acts;
    hide Snapshot, AllSettled, RunBatch, NoCollisions, CanStep, StepBatch, Content;
  }

  lemma OthersKeepPublished(cfg: Config, s: State, a: Act)
    requires Enabled(cfg, s, a) && a != Publish
    ensures Next(cfg, s, a).published == s.published
  {
    hide CanStep, StepBatch, AllSettled, Content;
  }

  lemma ReadAtExtends(cfg: Config, disk: Disk, acts: seq<Act>, k: int, files: map<string, File>)
    requires acts != [] && ReadAt(cfg, disk, acts[..|acts| - 1], k, files)
    ensures ReadAt(cfg, disk, acts, k, files)
  {
    hide After, AllSettled, Snapshot;
    assert acts[..|acts| - 1][..k] == acts[..k];
  }

  /** Whatever matcher is published was read from the disk of one moment at which no worker ran. */
  lemma {:induction false} PublishedIsConsistent(cfg: Config, disk: Disk, acts: seq<Act>)
    requires NoCollisions(cfg) && After(cfg, disk, acts).Some? && After(cfg, disk, acts).value.published.Some?
    ensures exists k :: ReadAt(cfg, disk, acts, k, After(cfg, disk, acts).value.published.value)
  {
    hide Next, Enabled, ReadAt, NoCollisions;
    var before, a := acts[..|acts| - 1], acts[|acts| - 1];
    if a == Publish {
      PublishReads(cfg, disk, acts);
    } else {
      OthersKeepPublished(cfg, After(cfg, disk, before).value, a);
      PublishedIsConsistent(cfg, disk, before);
      var files := After(cfg, disk, before).value.published.value;
      var k :| ReadAt(cfg, disk, before, k, files);
      ReadAtExtends(cfg, disk, acts, k, files);
    }
  }

  /** The rules a reader finds: a matcher starts empty, and a published one is built from the files read
      (Rulesets.RebuildMatcher, Manager.Rebuild). */
  function ObservableRules(env: Env, cfg: Config, s: State): seq<Rule> {
    if s.published.None? then [] else RulesOfAll(env, Readable(cfg.entries, s.published.value))
  }

  lemma {:induction false} PublishedIffPublish(cfg: Config, disk: Disk, acts: seq<Act>)
    requires After(cfg, disk, acts).Some?
    ensures After(cfg, disk, acts).value.published.Some? <==> Publish in acts
  {
    if acts != [] {
      var before, a := acts[..|acts| - 1], acts[|acts| - 1];
      assert acts == before + [a];
      PublishedIffPublish(cfg, disk, before);
    }
  }

  /** Whatever a reader can observe: no rules before the first publication, and afterwards exactly the
      rules, ruleset by ruleset, of the files of one moment at which no worker ran. */
  lemma ReadersSeeOneMoment(env: Env, cfg: Config, disk: Disk, acts: seq<Act>)
    requires NoCollisions(cfg) && After(cfg, disk, acts).Some?
    ensures var rules := ObservableRules(env, cfg, After(cfg, disk, acts).value);
      if Publish !in acts then rules == []
      else exists k, files :: ReadAt(cfg, disk, acts, k, files) && rules == RulesOfAll(env, Readable(cfg.entries, files))
  {
    hide ReadAt, RulesOfAll, Readable, NoCollisions;
    PublishedIffPublish(cfg, disk, acts);
    if Publish in acts {
      PublishedIsConsistent(cfg, disk, acts);
    }
  }

  /** A ruleset whose download failed, or that took no part, contributes to the next matcher what it
      contributed to the last one, unless reading its file back failed for one of the two. */
  lemma FailureKeepsContribution(cfg: Config, disk: Disk, acts: seq<Act>, i: nat)
    requires NoCollisions(cfg) && After(cfg, disk, acts).Some? && i < |cfg.entries|
    requires var s := After(cfg, disk, acts).value;
      Enabled(cfg, s, Publish) && s.published.Some? && i < |s.batch.phases| && s.batch.phases[i] != Done(true)
    ensures var s := After(cfg, disk, acts).value;
      var now, url := Next(cfg, s, Publish).published.value, cfg.entries[i].url;
      && url in now && url in s.published.value
      && (now[url] == s.published.value[url]
          || (Dest(cfg, i) in s.batch.disk && (now[url].Unreadable? || s.published.value[url].Unreadable?)))
  {
    RunKeepsInv(cfg, disk, acts);
    var s := After(cfg, disk, acts).value;
    FailedDownloadKeepsFile(cfg, s.start, s.work, i);
  }

  /** The code has a list of a ruleset to fall back on after a failed update, except after one: a
      ruleset that had a list keeps having one (if its file can be read back) if and only if the refresh
      did not end with a download that succeeds and whose body does not decode. In that case the file is
      replaced before it is decoded, and the ruleset contributes nothing. */
  lemma ListIsLostExactly(cfg: Config, disk: Disk, acts: seq<Act>, i: nat)
    requires NoCollisions(cfg) && After(cfg, disk, acts).Some? && i < |cfg.entries|
    requires var s := After(cfg, disk, acts).value; var url := cfg.entries[i].url;
      && Enabled(cfg, s, Publish) && s.published.Some? && i < |s.batch.phases|
      && url in s.published.value && s.published.value[url].Decoded?
      && url in s.loop.seen && !s.loop.seen[url].Unreadable?
    ensures var s := After(cfg, disk, acts).value; var url := cfg.entries[i].url;
      var now := Next(cfg, s, Publish).published.value;
      var replaced, body := s.batch.phases[i] == Done(true), cfg.decode(Body(Only(s.work, i)));
      && (now[url].Decoded? <==> !(replaced && body.None?))
      && now[url] == (if !replaced then s.published.value[url] else if body.Some? then Decoded(body.value) else Garbled)
  {
    RunKeepsInv(cfg, disk, acts);
    var s := After(cfg, disk, acts).value;
    FailedDownloadKeepsFile(cfg, s.start, s.work, i);
  }

  /** The one ruleset of the example, and a decoder that knows one good list. */
  function ExampleConfig(): Config {
    Config([RulesetEntry("https://lists.example/geosite.dat", [])], "/var/cache", url => url,
      raw => if raw == "list" then Some([]) else None)
  }

  /** A refresh that downloads a web page in place of the list takes the list away: it decoded before, and
      what is there now does not. */
  lemma WrongDownloadLosesList()
    ensures var cfg := ExampleConfig(); var dest := Dest(cfg, 0);
      var start := Batch([Starting], map[dest := "list"]);
      var after := RunBatch(cfg, start, Download(0, "<html>"));
      && NoCollisions(cfg) && AboutToStart(start)
      && Content(cfg, start.disk, 0) == Decoded([])
      && after.Some? && after.value.phases == [Done(true)] && Content(cfg, after.value.disk, 0) == Garbled
  {
    var cfg := ExampleConfig();
    var dest := Dest(cfg, 0);
    assert dest != dest + TMP;
    hide Dest, RunBatch;
    DownloadRuns(cfg, Batch([Starting], map[dest := "list"]), 0, "<html>");
  }

  // ---------------------------------------------------------------- progress

  predicate FromOutside(a: Act) {
    a.Begin? || a.Trigger? || a.Tick? || a.Cancel?
  }

  ghost predicate TicksFit(cfg: Config, ticks: seq<nat>) {
    forall j :: 0 <= j < |ticks| ==> ticks[j] < |cfg.entries|
  }

  lemma TicksStay(cfg: Config, s: State, a: Act)
    requires Enabled(cfg, s, a) && TicksFit(cfg, s.ticks)
    ensures TicksFit(cfg, Next(cfg, s, a).ticks)
  {
    hide CanStep, StepBatch, AllSettled, Content;
  }

  /** Every tick waiting to be served names a configured ruleset. */
  lemma {:induction false} TicksAreInRange(cfg: Config, disk: Disk, acts: seq<Act>)
    requires After(cfg, disk, acts).Some?
    ensures TicksFit(cfg, After(cfg, disk, acts).value.ticks)
  {
    if acts != [] {
      var before := acts[..|acts| - 1];
      TicksAreInRange(cfg, disk, before);
      TicksStay(cfg, After(cfg, disk, before).value, acts[|acts| - 1]);
      hide Next, Enabled, TicksFit;
    }
  }

  /** The loop never gets stuck: unless it waits with no token, no tick and no cancellation to serve, some
      step of its own is possible. */
  lemma LoopMakesProgress(cfg: Config, disk: Disk, acts: seq<Act>)
    requires NoCollisions(cfg) && After(cfg, disk, acts).Some?
    requires var s := After(cfg, disk, acts).value;
      !s.loop.NotStarted? && !s.loop.Stopped? && (s.loop.Waiting? ==> s.token || s.ticks != [] || s.cancelled)
    ensures exists a :: !FromOutside(a) && Enabled(cfg, After(cfg, disk, acts).value, a)
  {
    RunKeepsInv(cfg, disk, acts);
    TicksAreInRange(cfg, disk, acts);
    var s := After(cfg, disk, acts).value;
    hide After, NoCollisions;
    if s.loop.Fetching? {
      FetchingCanStep(cfg, s);
    } else {
      hide Inv, CanStep, AllSettled;
      assert Enabled(cfg, s,
        if s.loop.Reading? then (if s.loop.next < |cfg.entries| then ReadFile(true) else Publish)
        else if s.token then TakeToken else if s.cancelled then Stop else TakeTick);
    }
  }

  lemma FetchingCanStep(cfg: Config, s: State)
    requires Inv(cfg, s) && s.loop.Fetching?
    ensures exists a :: !FromOutside(a) && Enabled(cfg, s, a)
  {
    hide RunBatch, Snapshot, AboutToStart;
    if i :| 0 <= i < |s.batch.phases| && !Settled(s.batch.phases[i]) {
      var p := s.batch.phases[i];
      var a := if p.Starting? then Connect(true) else if p.Requesting? then Respond(Some(200))
        else if p.Opening? then Open(true) else if p.Copying? then CopyEnd(true)
        else if p.Closing? then CloseFile(true) else if p.Renaming? then Rename(true) else Remove(true);
      assert Enabled(cfg, s, Work(Step(i, a)));
    } else {
      assert Enabled(cfg, s, Join);
    }
  }

  // ---------------------------------------------------------------- the matcher readers see

  class Manager {
    const env: Env
    const entries: seq<RulesetEntry>
    var matcher: Matcher

    constructor (env: Env, entries: seq<RulesetEntry>)
      ensures this.env == env && this.entries == entries
      ensures fresh(matcher) && matcher.Valid() && matcher.env == env && matcher.log == []
    {
      this.env, this.entries := env, entries;
      matcher := new Matcher(env);
    }

    /** rebuildMatcher: swap in a new matcher over the files read. The old one, which readers may still
        hold, is left as it was. */
    method Rebuild(files: map<string, File>)
      modifies this`matcher
      ensures fresh(matcher) && matcher.Valid() && matcher.env == env
      ensures matcher.log == RulesOfAll(env, Readable(entries, files))
      ensures old(matcher).log == old(matcher.log)
    {
      matcher := RebuildMatcher(env, entries, files);
    }
  }
}
