/** The files downloads are put in before they are extracted: all pollers share one directory, and the
    name of a file is made from bucket and key (cmd/relocator/internal/relocator/pipeline.go). */
module WorkFiles {
  import opened Wrappers

  // ---------------------------------------------------------------- names

  /** sanitizeFileName: slashes, backslashes, colons and pairs of dots become underscores. */
  function Sanitize(s: string): string {
    if s == "" then ""
    else if |s| >= 2 && s[0] == '.' && s[1] == '.' then "_" + Sanitize(s[2..])
    else if s[0] == '/' || s[0] == '\\' || s[0] == ':' then "_" + Sanitize(s[1..])
    else [s[0]] + Sanitize(s[1..])
  }

  function WorkFile(bucket: string, key: string): string {
    Sanitize(bucket + "-" + key)
  }

  predicate DotsAt(s: string) {
    |s| >= 2 && s[0] == '.' && s[1] == '.'
  }

  function Safe(c: char): char {
    if c == '/' || c == '\\' || c == ':' then '_' else c
  }

  lemma OneStep(s: string)
    requires s != ""
    ensures Sanitize(s) == if DotsAt(s) then ['_'] + Sanitize(s[2..]) else [Safe(s[0])] + Sanitize(s[1..])
  {
  }

  lemma {:induction false} DashStays(x: string, y: string)
    ensures Sanitize(x + "-" + y) == Sanitize(x) + "-" + Sanitize(y)
  {
    hide Sanitize;
    var s := x + "-" + y;
    OneStep(s);
    if x == "" {
      assert s[1..] == y;
      NothingToReplace();
    } else {
      OneStep(x);
      var n := if DotsAt(x) then 2 else 1;
      assert s[n..] == x[n..] + "-" + y;
      DashStays(x[n..], y);
      InFront(if DotsAt(x) then '_' else Safe(x[0]), Sanitize(x[n..]), Sanitize(y));
    }
  }

  lemma NothingToReplace()
    ensures Sanitize("") == ""
  {
  }

  lemma InFront(c: char, x: string, y: string)
    ensures [c] + (x + "-" + y) == ([c] + x) + "-" + y
  {
  }

  predicate PlainAt(s: string, i: nat)
    requires i < |s|
  {
    s[i] != '/' && s[i] != '\\' && s[i] != ':' && !(s[i] == '.' && i + 1 < |s| && s[i + 1] == '.')
  }

  /** There is nothing to replace. */
  ghost predicate Plain(s: string) {
    forall i :: 0 <= i < |s| ==> PlainAt(s, i)
  }

  lemma {:induction false} PlainStays(s: string)
    requires Plain(s)
    ensures Sanitize(s) == s
  {
    if s != "" {
      assert PlainAt(s, 0);
      forall i | 0 <= i < |s[1..]| ensures PlainAt(s[1..], i) {
        assert PlainAt(s, i + 1);
      }
      PlainStays(s[1..]);
    }
  }

  lemma {:induction false} NoDotInFront(s: string)
    requires s == "" || s[0] != '.'
    ensures Sanitize(s) == "" || Sanitize(s)[0] != '.'
  {
  }

  lemma PlainPrepend(c: char, s: string)
    requires Plain(s) && c != '/' && c != '\\' && c != ':' && (c == '.' ==> s == "" || s[0] != '.')
    ensures Plain([c] + s)
  {
    forall i | 0 <= i < |s| + 1 ensures PlainAt([c] + s, i) {
      assert i > 0 ==> PlainAt(s, i - 1);
    }
  }

  lemma {:induction false} SanitizedIsPlain(s: string)
    ensures Plain(Sanitize(s))
  {
    if s != "" {
      if |s| >= 2 && s[0] == '.' && s[1] == '.' {
        SanitizedIsPlain(s[2..]);
        PlainPrepend('_', Sanitize(s[2..]));
      } else {
        SanitizedIsPlain(s[1..]);
        if s[0] == '.' {
          NoDotInFront(s[1..]);
        }
        PlainPrepend(Sanitize(s)[0], Sanitize(s[1..]));
        assert Sanitize(s) == [Sanitize(s)[0]] + Sanitize(s[1..]);
      }
    }
  }

  predicate IsPrefix(x: string, y: string) {
    |x| <= |y| && y[..|x|] == x
  }

  /** One sanitised name, with a dash, begins the other. */
  predicate Related(a: string, b: string) {
    var x, y := Sanitize(a) + "-", Sanitize(b) + "-";
    IsPrefix(x, y) || IsPrefix(y, x)
  }

  /** Two buckets have objects that share a work file if and only if their names are related. */
  lemma SharedExactly(a: string, b: string)
    ensures (exists k, l :: WorkFile(a, k) == WorkFile(b, l)) <==> Related(a, b)
  {
    if k, l :| WorkFile(a, k) == WorkFile(b, l) {
      SharedMeansRelated(a, b, k, l);
    }
    if IsPrefix(Sanitize(a) + "-", Sanitize(b) + "-") {
      var k := RelatedShares(a, b);
    } else if IsPrefix(Sanitize(b) + "-", Sanitize(a) + "-") {
      var l := RelatedShares(b, a);
      assert WorkFile(a, "") == WorkFile(b, l);
    }
  }

  lemma SharedMeansRelated(a: string, b: string, k: string, l: string)
    requires WorkFile(a, k) == WorkFile(b, l)
    ensures Related(a, b)
  {
    DashStays(a, k);
    DashStays(b, l);
    var x, y := Sanitize(a) + "-", Sanitize(b) + "-";
    var w := WorkFile(a, k);
    assert w == x + Sanitize(k) == y + Sanitize(l);
    assert w[..|x|] == x && w[..|y|] == y;
    if |x| <= |y| {
      assert y[..|x|] == w[..|y|][..|x|] == w[..|x|];
    } else {
      assert x[..|y|] == w[..|x|][..|y|] == w[..|y|];
    }
  }

  lemma RelatedShares(a: string, b: string) returns (k: string)
    requires IsPrefix(Sanitize(a) + "-", Sanitize(b) + "-")
    ensures WorkFile(a, k) == WorkFile(b, "")
  {
    hide Sanitize, Plain;
    var x, y := Sanitize(a) + "-", Sanitize(b) + "-";
    k := y[|x|..];
    SanitizedIsPlain(b);
    PlainTail(Sanitize(b), |x|);
    PlainStays(k);
    NothingToReplace();
    assert x + k == y && y + "" == y;
    DashStays(a, k);
    DashStays(b, "");
  }

  lemma PlainTail(s: string, n: nat)
    requires Plain(s) && n <= |s| + 1
    ensures Plain((s + "-")[n..])
  {
    var t := (s + "-")[n..];
    forall i | 0 <= i < |t| ensures PlainAt(t, i) {
      assert n + i < |s| ==> PlainAt(s, n + i);
    }
  }

  /** Object "b-c" of bucket "a" and object "c" of bucket "a-b". */
  lemma SharedExample()
    ensures WorkFile("a", "b-c") == WorkFile("a-b", "c")
  {
    assert "a" + "-" + "b-c" == "a-b" + "-" + "c";
  }

  // ---------------------------------------------------------------- pollers at work in one directory

  /** Between passes; copying an object into an open file; or done copying, with the file closed. */
  datatype Worker = Idle | Copying(path: string, inode: nat, body: string) | Ready(path: string, body: string)

  /** Names of files, contents of files (some of which no longer have a name), and one worker a bucket. */
  datatype State = State(dir: map<string, nat>, files: seq<string>, workers: map<string, Worker>)

  /** Removing a file may fail. A pass releases its file at its end, by removal or by quarantine. */
  datatype Step = Open(bucket: string, key: string) | Chunk(bucket: string, data: string) | Finish(bucket: string)
    | Fail(bucket: string, removed: bool) | Release(bucket: string, removed: bool) | Restart

  function WorkerOf(s: State, b: string): Worker {
    if b in s.workers then s.workers[b] else Idle
  }

  /** Writing into an open file at the writer's own position. */
  function WriteAt(content: string, position: nat, data: string): string {
    var padded := content + (if |content| < position then seq(position - |content|, _ => '\0') else "");
    padded[..position] + data + (if position + |data| < |padded| then padded[position + |data|..] else "")
  }

  function Unlink(dir: map<string, nat>, path: string, removed: bool): map<string, nat> {
    if removed then dir - {path} else dir
  }

  /** A step the worker cannot take changes nothing. Opening truncates a file that is there already. */
  function Next(s: State, st: Step): State {
    match st
    case Open(b, key) =>
      var path := WorkFile(b, key);
      if !WorkerOf(s, b).Idle? then s
      else if path in s.dir && s.dir[path] < |s.files| then
        State(s.dir, s.files[s.dir[path] := ""], s.workers[b := Copying(path, s.dir[path], "")])
      else
        State(s.dir[path := |s.files|], s.files + [""], s.workers[b := Copying(path, |s.files|, "")])
    case Chunk(b, data) =>
      var w := WorkerOf(s, b);
      if !w.Copying? || w.inode >= |s.files| then s
      else State(s.dir, s.files[w.inode := WriteAt(s.files[w.inode], |w.body|, data)],
             s.workers[b := Copying(w.path, w.inode, w.body + data)])
    case Finish(b) =>
      var w := WorkerOf(s, b);
      if !w.Copying? then s else s.(workers := s.workers[b := Ready(w.path, w.body)])
    case Fail(b, removed) =>
      var w := WorkerOf(s, b);
      if !w.Copying? then s else State(Unlink(s.dir, w.path, removed), s.files, s.workers[b := Idle])
    case Release(b, removed) =>
      var w := WorkerOf(s, b);
      if !w.Ready? then s else State(Unlink(s.dir, w.path, removed), s.files, s.workers[b := Idle])
    case Restart => s.(workers := map[])
  }

  function After(steps: seq<Step>): State {
    if steps == [] then State(map[], [], map[]) else Next(After(steps[..|steps| - 1]), steps[|steps| - 1])
  }

  predicate Concerns(st: Step, buckets: set<string>) {
    st.Restart? || st.bucket in buckets
  }

  /** What extraction would read. */
  function Content(s: State, path: string): Option<string> {
    if path in s.dir && s.dir[path] < |s.files| then Some(s.files[s.dir[path]]) else None
  }

  /** What is extracted is what was downloaded. */
  ghost predicate ReadsOwn(s: State, b: string) {
    var w := WorkerOf(s, b);
    w.Ready? ==> Content(s, w.path) == Some(w.body)
  }

  ghost predicate Separate(buckets: set<string>) {
    forall a <- buckets, b <- buckets :: a != b ==> !Related(a, b)
  }

  // ---------------------------------------------------------------- unrelated names keep files apart

  ghost predicate Tidy(s: State) {
    && (forall p <- s.dir :: s.dir[p] < |s.files|)
    && (forall p <- s.dir, q <- s.dir :: s.dir[p] == s.dir[q] ==> p == q)
  }

  ghost predicate Holds(s: State, b: string) {
    var w := WorkerOf(s, b);
    && (!w.Idle? ==> Content(s, w.path) == Some(w.body) && exists k :: w.path == WorkFile(b, k))
    && (w.Copying? ==> s.dir[w.path] == w.inode)
  }

  lemma TidyStays(s: State, st: Step)
    requires Tidy(s)
    ensures Tidy(Next(s, st))
  {
    hide WorkFile, WriteAt;
  }

  lemma OwnStep(s: State, st: Step)
    requires Tidy(s) && !st.Restart? && Holds(s, st.bucket)
    ensures Holds(Next(s, st), st.bucket)
  {
    hide WorkFile;
    if st.Chunk? {
      var w := WorkerOf(s, st.bucket);
      if w.Copying? {
        WriteAppends(w.body, st.data);
      }
    }
    hide WriteAt;
  }

  lemma WriteAppends(content: string, data: string)
    ensures WriteAt(content, |content|, data) == content + data
  {
    assert content + "" == content;
  }

  lemma OtherStep(s: State, st: Step, b: string)
    requires Tidy(s) && !st.Restart? && st.bucket != b && !Related(st.bucket, b)
    requires Holds(s, b) && Holds(s, st.bucket)
    ensures Holds(Next(s, st), b)
  {
    var w, v := WorkerOf(s, b), WorkerOf(s, st.bucket);
    if !w.Idle? {
      var k :| w.path == WorkFile(b, k);
      SharedExactly(st.bucket, b);
      assert forall l :: WorkFile(st.bucket, l) != w.path;
      assert !v.Idle? ==> v.path != w.path;
    }
    hide WorkFile, WriteAt, Related;
  }

  lemma {:induction false} SeparateHold(buckets: set<string>, steps: seq<Step>, b: string)
    requires Separate(buckets) && b in buckets && forall st <- steps :: Concerns(st, buckets)
    ensures Tidy(After(steps)) && Holds(After(steps), b)
  {
    hide Related, Tidy, Holds, Next;
    if steps == [] {
      StartHolds(b);
    } else {
      var before, st := steps[..|steps| - 1], steps[|steps| - 1];
      assert st in steps;
      SeparateHold(buckets, before, b);
      TidyStays(After(before), st);
      if st.Restart? {
        RestartHolds(After(before), b);
      } else {
        SeparateHold(buckets, before, st.bucket);
        if st.bucket == b {
          OwnStep(After(before), st);
        } else {
          OtherStep(After(before), st, b);
        }
      }
    }
  }

  lemma StartHolds(b: string)
    ensures Tidy(After([])) && Holds(After([]), b)
  {
  }

  lemma RestartHolds(s: State, b: string)
    ensures Holds(Next(s, Restart), b)
  {
  }

  // ---------------------------------------------------------------- related names do not

  /** One worker has copied its object; before it is extracted the other opens the same file. */
  function Collision(a: string, k: string, b: string, l: string): seq<Step> {
    [Open(a, k), Chunk(a, "x"), Finish(a), Open(b, l)]
  }

  lemma CollisionMixes(a: string, k: string, b: string, l: string)
    requires a != b && WorkFile(a, k) == WorkFile(b, l)
    ensures !ReadsOwn(After(Collision(a, k, b, l)), a)
  {
    var path, steps := WorkFile(a, k), Collision(a, k, b, l);
    hide WorkFile;
    assert steps[..3][..2][..1][..0] == [];
    assert steps[..3][..2][..1] == [Open(a, k)];
    assert steps[..3][..2] == [Open(a, k), Chunk(a, "x")];
    assert steps[..3] == [Open(a, k), Chunk(a, "x"), Finish(a)];
    assert After([Open(a, k)]) == State(map[path := 0], [""], map[a := Copying(path, 0, "")]);
    assert "" + "x" == "x" && WriteAt("", 0, "x") == "x";
    assert After([Open(a, k), Chunk(a, "x")]) == State(map[path := 0], ["x"], map[a := Copying(path, 0, "x")]);
    assert After(steps[..3]) == State(map[path := 0], ["x"], map[a := Ready(path, "x")]);
    assert WorkerOf(After(steps), a) == Ready(path, "x");
  }

  /** For every set of buckets: in every schedule of their downloads, failures, removals and restarts every
      pass reads back, for extraction, the object it downloaded, if and only if no two of the names are
      related. */
  lemma FilesStayApartExactly(buckets: set<string>)
    ensures Separate(buckets) <==>
      forall steps, b :: (forall st <- steps :: Concerns(st, buckets)) && b in buckets ==> ReadsOwn(After(steps), b)
  {
    hide Related;
    if Separate(buckets) {
      forall steps, b | (forall st <- steps :: Concerns(st, buckets)) && b in buckets ensures ReadsOwn(After(steps), b) {
        SeparateHold(buckets, steps, b);
        hide After;
      }
    } else {
      var a, b :| a in buckets && b in buckets && a != b && Related(a, b);
      SharedExactly(a, b);
      var k, l :| WorkFile(a, k) == WorkFile(b, l);
      CollisionMixes(a, k, b, l);
      hide WorkFile, After;
      assert forall st <- Collision(a, k, b, l) :: Concerns(st, buckets);
    }
  }
}
