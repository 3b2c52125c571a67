/** Whole histories of passes over one store, starting empty: deduplication, deletion, counters
    (cmd/relocator/internal/relocator/pipeline.go and store.go). */
module History {
  import opened Posting
  import opened Pipeline

  datatype Pass = Pass(bucket: Bucket, item: Object, world: PassWorld)

  function OutcomeIn(cfg: PostConfig, db: Db, p: Pass): Outcome {
    OutcomeOf(cfg, p.bucket, db.processed, p.item, p.world)
  }

  function AfterPass(cfg: PostConfig, db: Db, p: Pass): Db {
    DbAfter(db, p.bucket, p.item, p.world, OutcomeIn(cfg, db, p))
  }

  /** The store after a history of passes, under one post configuration. */
  function Replay(cfg: PostConfig, h: seq<Pass>): Db {
    if h == [] then Db(map[], map[])
    else AfterPass(cfg, Replay(cfg, h[..|h| - 1]), h[|h| - 1])
  }

  /** The outcome of the i-th pass. */
  function Result(cfg: PostConfig, h: seq<Pass>, i: nat): Outcome
    requires i < |h|
  {
    OutcomeIn(cfg, Replay(cfg, h[..i]), h[i])
  }

  ghost predicate Named(h: seq<Pass>) {
    forall p <- h :: NulFree(p.bucket.name)
  }

  function KeyOf(p: Pass): string {
    ProcessedKey(p.bucket.name, p.item.key)
  }

  predicate SameItem(p: Pass, q: Pass) {
    p.bucket.name == q.bucket.name && p.item.key == q.item.key
  }

  lemma SameKeySameItem(p: Pass, q: Pass)
    requires NulFree(p.bucket.name) && NulFree(q.bucket.name)
    ensures KeyOf(p) == KeyOf(q) <==> SameItem(p, q)
  {
    if KeyOf(p) == KeyOf(q) {
      ProcessedKeyInjective(p.bucket.name, p.item.key, q.bucket.name, q.item.key);
    }
  }

  /** Every file was posted and the mark was stored. */
  predicate Succeeded(p: Pass, out: Outcome) {
    out.Relocated? && out.failed == 0 && p.world.markOk
  }

  /** Passes of different buckets do not affect one another, so the interleaving of the per-bucket
      pollers is immaterial. */
  lemma PassesCommute(cfg: PostConfig, db: Db, p: Pass, q: Pass)
    requires NulFree(p.bucket.name) && NulFree(q.bucket.name) && p.bucket.name != q.bucket.name
    ensures OutcomeIn(cfg, AfterPass(cfg, db, q), p) == OutcomeIn(cfg, db, p)
    ensures OutcomeIn(cfg, AfterPass(cfg, db, p), q) == OutcomeIn(cfg, db, q)
    ensures AfterPass(cfg, AfterPass(cfg, db, p), q) == AfterPass(cfg, AfterPass(cfg, db, q), p)
  {
    SameKeySameItem(p, q);
    var outP, outQ := OutcomeIn(cfg, db, p), OutcomeIn(cfg, db, q);
    CountsCommute(db.stats, p.bucket.name, MutationsOf(p.item, outP), p.world, q.bucket.name, MutationsOf(q.item, outQ), q.world);
    hide CountAll, MutationsOf, DeliveredCount, NulFree, ProcessedKey, Wrapped, Mutate;
  }

  lemma {:induction false} CountsCommute(stats: map<string, Stats>, b: string, ms: seq<Mutation>, v: PassWorld,
                                         c: string, ns: seq<Mutation>, w: PassWorld)
    requires b != c
    ensures CountAll(CountAll(stats, b, ms, v), c, ns, w) == CountAll(CountAll(stats, c, ns, w), b, ms, v)
  {
    if ms != [] {
      var rest, m := ms[..|ms| - 1], ms[|ms| - 1];
      CountsCommute(stats, b, rest, v, c, ns, w);
      OneCommutes(CountAll(stats, b, rest, v), b, m, v.statsOk(m), v.now(m), c, ns, w);
    }
  }

  lemma {:induction false} OneCommutes(stats: map<string, Stats>, b: string, m: Mutation, ok: bool, now: int,
                                       c: string, ns: seq<Mutation>, w: PassWorld)
    requires b != c
    ensures CountAll(Count(stats, b, m, ok, now), c, ns, w) == Count(CountAll(stats, c, ns, w), b, m, ok, now)
  {
    hide Mutate, Wrapped;
    if ns != [] {
      OneCommutes(stats, b, m, ok, now, c, ns[..|ns| - 1], w);
    }
  }

  lemma StepOf(cfg: PostConfig, h: seq<Pass>, k: nat)
    requires k < |h|
    ensures Replay(cfg, h[..k + 1]) == AfterPass(cfg, Replay(cfg, h[..k]), h[k])
  {
    assert h[..k + 1][..k] == h[..k];
  }

  // ---------------------------------------------------------------- deduplication

  /** A version marked done stays done until a pass over the same item with another ETag. */
  lemma {:induction false} DoneUntilOtherVersion(cfg: PostConfig, h: seq<Pass>, i: nat, j: nat)
    requires i < j <= |h| && Named(h) && Succeeded(h[i], Result(cfg, h, i))
    requires forall m :: i < m < j && SameItem(h[m], h[i]) ==> h[m].item.etag == h[i].item.etag
    ensures IsDone(Replay(cfg, h[..j]).processed, h[i].bucket.name, h[i].item.key, h[i].item.etag)
    decreases j
  {
    hide CountAll, MutationsOf, DeliveredCount, NulFree, ProcessedKey;
    StepOf(cfg, h, j - 1);
    if j - 1 > i {
      DoneUntilOtherVersion(cfg, h, i, j - 1);
      SameKeySameItem(h[j - 1], h[i]);
    }
  }

  /** Between any two fully successful passes over the same bucket, key and ETag there is a pass over
      that key with a different ETag. */
  lemma NoVersionTwice(cfg: PostConfig, h: seq<Pass>, i: nat, j: nat)
    requires i < j < |h| && Named(h)
    requires Succeeded(h[i], Result(cfg, h, i)) && Succeeded(h[j], Result(cfg, h, j))
    requires SameItem(h[i], h[j]) && h[i].item.etag == h[j].item.etag
    ensures exists m :: i < m < j && SameItem(h[m], h[i]) && h[m].item.etag != h[i].item.etag
  {
    if forall m :: i < m < j && SameItem(h[m], h[i]) ==> h[m].item.etag == h[i].item.etag {
      DoneUntilOtherVersion(cfg, h, i, j);
    }
  }

  /** A completed entry was left by a fully successful pass over that key. */
  lemma {:induction false} DoneHasACause(cfg: PostConfig, h: seq<Pass>, k: nat, key: string, etag: string)
    requires k <= |h|
    requires var db := Replay(cfg, h[..k]).processed; key in db && db[key].etag == etag && db[key].status == "ok"
    ensures exists i :: 0 <= i < k && Succeeded(h[i], Result(cfg, h, i)) && KeyOf(h[i]) == key && h[i].item.etag == etag
    decreases k
  {
    hide CountAll, MutationsOf, DeliveredCount, ProcessedKey;
    if k > 0 {
      StepOf(cfg, h, k - 1);
      var out := Result(cfg, h, k - 1);
      if out.Relocated? && h[k - 1].world.markOk && KeyOf(h[k - 1]) == key {
        assert Succeeded(h[k - 1], out);
      } else {
        DoneHasACause(cfg, h, k - 1, key, etag);
      }
    }
  }

  /** An object is skipped as a duplicate only if an earlier pass over the same item and version posted
      every one of its files, each answered 2xx. */
  lemma DuplicateWasPosted(cfg: PostConfig, h: seq<Pass>, j: nat)
    requires j < |h| && Named(h) && Result(cfg, h, j).Duplicate?
    ensures exists i :: (0 <= i < j && SameItem(h[i], h[j]) && h[i].item.etag == h[j].item.etag
      && Succeeded(h[i], Result(cfg, h, i)) && AllAccepted2xx(cfg, h[i].world))
  {
    hide Replay, DeliveredCount, NulFree, ProcessedKey, AllAccepted2xx;
    DoneHasACause(cfg, h, j, KeyOf(h[j]), h[j].item.etag);
    var i :| 0 <= i < j && Succeeded(h[i], Result(cfg, h, i)) && KeyOf(h[i]) == KeyOf(h[j]) && h[i].item.etag == h[j].item.etag;
    SameKeySameItem(h[i], h[j]);
    SuccessMeansAllPosted(cfg, h[i].world);
  }

  /** Every extracted file has an attempt answered 2xx. */
  ghost predicate AllAccepted2xx(cfg: PostConfig, w: PassWorld) {
    w.extraction.Files? && forall f :: 0 <= f < w.extraction.count ==> FileAccepted(cfg, w.post(f))
  }

  ghost predicate FileAccepted(cfg: PostConfig, w: PostWorld) {
    exists k :: 0 <= k < SendOutcome(cfg, w).1 && Accepted2xx(w.attempt(k))
  }

  lemma {:induction false} FullCountMeansAll(cfg: PostConfig, w: PassWorld, n: nat)
    requires DeliveredCount(cfg, w, n) == n
    ensures forall f :: 0 <= f < n ==> FileDelivered(cfg, w, f)
  {
    if n > 0 {
      FullCountMeansAll(cfg, w, n - 1);
    }
  }

  lemma SuccessMeansAllPosted(cfg: PostConfig, w: PassWorld)
    requires w.extraction.Files? && DeliveredCount(cfg, w, w.extraction.count) == w.extraction.count
    ensures AllAccepted2xx(cfg, w)
  {
    FullCountMeansAll(cfg, w, w.extraction.count);
    forall f | 0 <= f < w.extraction.count ensures FileAccepted(cfg, w.post(f)) {
      assert FileDelivered(cfg, w, f);
      SendIsExplained(cfg, w.post(f));
      assert Accepted2xx(w.post(f).attempt(SendOutcome(cfg, w.post(f)).1 - 1));
    }
  }

  // ---------------------------------------------------------------- deletion

  lemma {:induction false} AttemptShowsUp(cfg: PostConfig, w: PassWorld, n: nat, f: nat, k: nat)
    requires f < n && k < SendOutcome(cfg, w.post(f)).1
    ensures Attempted(f, w.post(f).attempt(k)) in PostActs(cfg, w, n)
  {
    var acts := AttemptsOf(w.post(n - 1), n - 1, SendOutcome(cfg, w.post(n - 1)).1);
    if f < n - 1 {
      AttemptShowsUp(cfg, w, n - 1, f, k);
    } else {
      assert acts[k] == Attempted(f, w.post(f).attempt(k));
    }
  }

  lemma {:induction false} PostsOnlyAttempt(cfg: PostConfig, w: PassWorld, n: nat)
    ensures forall i :: 0 <= i < |PostActs(cfg, w, n)| ==> PostActs(cfg, w, n)[i].Attempted?
  {
    if n > 0 {
      PostsOnlyAttempt(cfg, w, n - 1);
    }
  }

  /** A remote delete is issued only when the bucket asks for it and, earlier in the same pass, every
      file extracted in the pass had an attempt answered 2xx and the pass was marked. (Whether those are
      the files of the object itself is a question of bucket names: WorkFiles.FilesStayApartExactly.) */
  lemma DeleteIsSafe(cfg: PostConfig, b: Bucket, processed: map<string, Entry>, o: Object, w: PassWorld, d: nat)
    requires var acts := ActsOf(cfg, o, w, OutcomeOf(cfg, b, processed, o, w)); d < |acts| && acts[d].DeleteIssued?
    ensures var acts := ActsOf(cfg, o, w, OutcomeOf(cfg, b, processed, o, w));
      && acts[d].key == o.key && b.deleteAfter && w.extraction.Files?
      && (forall f :: 0 <= f < w.extraction.count ==> ShownAccepted(acts[..d], f))
      && (exists e: Entry :: e.status == "ok" && e.etag == o.etag && Marked(e, w.markOk) in acts[..d])
  {
    var out := OutcomeOf(cfg, b, processed, o, w);
    var acts := ActsOf(cfg, o, w, out);
    var n := out.posted + out.failed;
    var posts := PostActs(cfg, w, n);
    PostsOnlyAttempt(cfg, w, n);
    assert out.Relocated?;
    assert forall i :: 0 <= i < |posts| ==> acts[i] == posts[i];
    assert !out.removal.Kept?;
    assert out.failed == 0 && b.deleteAfter;
    SuccessMeansAllPosted(cfg, w);
    assert d == |posts| + 1 && acts[..d] == posts + [Marked(EntryOf(o, w, out), w.markOk)];
    forall f | 0 <= f < w.extraction.count ensures ShownAccepted(acts[..d], f) {
      assert FileAccepted(cfg, w.post(f));
      var k :| 0 <= k < SendOutcome(cfg, w.post(f)).1 && Accepted2xx(w.post(f).attempt(k));
      AttemptShowsUp(cfg, w, n, f, k);
    }
  }

  ghost predicate ShownAccepted(acts: seq<Act>, f: nat) {
    exists a <- acts :: a.Attempted? && a.file == f && Accepted2xx(a.attempt)
  }

  // ---------------------------------------------------------------- counters

  /** Passes over a bucket that got past the duplicate lookup. */
  function Handled(cfg: PostConfig, h: seq<Pass>, bucket: string): nat {
    if h == [] then 0
    else
      var k := |h| - 1;
      Handled(cfg, h[..k], bucket) + (if h[k].bucket.name == bucket && !Result(cfg, h, k).DedupError? then 1 else 0)
  }

  /** JSON files over all archives of a bucket that were extracted. */
  function TotalFiles(cfg: PostConfig, h: seq<Pass>, bucket: string): nat {
    if h == [] then 0
    else
      var k := |h| - 1;
      TotalFiles(cfg, h[..k], bucket) +
      (if h[k].bucket.name == bucket && Result(cfg, h, k).Relocated? then h[k].world.extraction.count else 0)
  }

  ghost predicate StoreWorks(h: seq<Pass>) {
    forall p <- h, m: Mutation :: p.world.statsOk(m)
  }

  function MutateAll(ms: seq<Mutation>, s: Stats): Stats {
    if ms == [] then s else Mutate(ms[|ms| - 1], MutateAll(ms[..|ms| - 1], s))
  }

  /** What the updates of one pass add up to. */
  lemma NetEffect(o: Object, out: Outcome, s: Stats)
    ensures var t := MutateAll(MutationsOf(o, out), s);
      && t.skipped == s.skipped + (if out.Duplicate? || out.TooBig? then 1 else 0)
      && t.downloadFailed == s.downloadFailed + (if out.NotDownloaded? then 1 else 0)
      && t.downloaded == s.downloaded + (if out.NoPassword? || out.NotExtracted? || out.Relocated? then 1 else 0)
      && t.passwordFailed == s.passwordFailed + (if out.NoPassword? then 1 else 0)
      && t.extractFailed == s.extractFailed + (if out.NotExtracted? then 1 else 0)
      && t.extracted == s.extracted + (if out.Relocated? then 1 else 0)
      && t.posted == s.posted + (if out.Relocated? then out.posted else 0)
      && t.postFailed == s.postFailed + (if out.Relocated? then out.failed else 0)
      && t.bytesDownloaded == s.bytesDownloaded
           + (if o.size > 0 && (out.NoPassword? || out.NotExtracted? || out.Relocated?) then o.size else 0)
      && t.deleted == s.deleted + (if out.Relocated? && out.removal.Removed? then 1 else 0)
      && t.lastError == (if out.NotDownloaded? || out.NoPassword? || out.NotExtracted? then out.err else s.lastError)
      && t.lastActivity == s.lastActivity
  {
    hide MutateAll;
    var d, x, p := Download(o.size), Extract, if out.Relocated? then Posts(out.posted, out.failed) else Skip;
    var err := if out.NotDownloaded? || out.NoPassword? || out.NotExtracted? then out.err else "";
    MutateFew(d, x, p, Delete, s);
    MutateFew(d, PasswordFail(err), p, Delete, s);
    MutateFew(d, ExtractFail(err), p, Delete, s);
    MutateFew(Skip, x, p, Delete, s);
    MutateFew(DownloadFail(err), x, p, Delete, s);
    assert [d, x, p] + [Delete] == [d, x, p, Delete];
    assert [d, x, p] + [] == [d, x, p];
  }

  lemma MutateFew(a: Mutation, b: Mutation, c: Mutation, d: Mutation, s: Stats)
    ensures MutateAll([], s) == s
    ensures MutateAll([a], s) == Mutate(a, s)
    ensures MutateAll([a, b], s) == Mutate(b, Mutate(a, s))
    ensures MutateAll([a, b, c], s) == Mutate(c, Mutate(b, Mutate(a, s)))
    ensures MutateAll([a, b, c, d], s) == Mutate(d, Mutate(c, Mutate(b, Mutate(a, s))))
  {
    hide Mutate;
    MutateSnoc([], a, s);
    MutateSnoc([a], b, s);
    MutateSnoc([a, b], c, s);
    MutateSnoc([a, b, c], d, s);
    assert [] + [a] == [a] && [a] + [b] == [a, b] && [a, b] + [c] == [a, b, c] && [a, b, c] + [d] == [a, b, c, d];
  }

  lemma MutateSnoc(ms: seq<Mutation>, m: Mutation, s: Stats)
    ensures MutateAll(ms + [m], s) == Mutate(m, MutateAll(ms, s))
  {
    assert (ms + [m])[..|ms|] == ms;
  }

  /** The counters and the last error, but not the time of the last update. */
  function Counters(s: Stats): Stats {
    s.(lastActivity := 0)
  }

  /** With a working store, the updates of a pass do to its own bucket what they say, modulo 2^64, and
      nothing to any other; the last one leaves its time. */
  lemma {:induction false} CountedInOrder(stats: map<string, Stats>, name: string, ms: seq<Mutation>, w: PassWorld, bucket: string)
    requires forall m: Mutation :: w.statsOk(m)
    ensures var t := StatsOf(CountAll(stats, name, ms, w), bucket);
      if name != bucket || ms == [] then t == StatsOf(stats, bucket)
      else Counters(t) == Counters(Wrapped(MutateAll(ms, StatsOf(stats, bucket)))) && t.lastActivity == w.now(ms[|ms| - 1])
  {
    if ms != [] {
      var rest, last := ms[..|ms| - 1], ms[|ms| - 1];
      CountedInOrder(stats, name, rest, w, bucket);
      if name == bucket {
        var s, t := MutateAll(rest, StatsOf(stats, bucket)), StatsOf(CountAll(stats, name, rest, w), bucket);
        MutateIgnoresTime(last, t, s);
      }
    }
  }

  lemma MutateIgnoresTime(m: Mutation, t: Stats, s: Stats)
    requires Counters(t) == Counters(s) || Counters(t) == Counters(Wrapped(s))
    ensures Counters(Wrapped(Mutate(m, t))) == Counters(Wrapped(Mutate(m, s)))
  {
    WrapLate(m, s);
    hide Wrap;
  }

  /** What the counters of a bucket would be without a bound. */
  function Totals(cfg: PostConfig, h: seq<Pass>, bucket: string): Stats {
    if h == [] then ZERO
    else
      var k := |h| - 1;
      var before := Totals(cfg, h[..k], bucket);
      if h[k].bucket.name == bucket then MutateAll(MutationsOf(h[k].item, Result(cfg, h, k)), before) else before
  }

  lemma {:induction false} MutateAllWrapped(ms: seq<Mutation>, t: Stats, s: Stats)
    requires Counters(t) == Counters(Wrapped(s))
    ensures Counters(Wrapped(MutateAll(ms, t))) == Counters(Wrapped(MutateAll(ms, s)))
  {
    if ms != [] {
      var rest, last := ms[..|ms| - 1], ms[|ms| - 1];
      MutateAllWrapped(rest, t, s);
      WrapLate(last, MutateAll(rest, t));
      WrapLate(last, MutateAll(rest, s));
      SameButTime(last, Wrapped(MutateAll(rest, t)), Wrapped(MutateAll(rest, s)));
    }
  }

  lemma SameButTime(m: Mutation, x: Stats, y: Stats)
    requires Counters(x) == Counters(y)
    ensures Counters(Wrapped(Mutate(m, x))) == Counters(Wrapped(Mutate(m, y)))
  {
  }

  /** The stored counters are the totals modulo 2^64. */
  lemma {:induction false} CountersAreTotals(cfg: PostConfig, h: seq<Pass>, bucket: string)
    requires StoreWorks(h)
    ensures Counters(StatsOf(Replay(cfg, h).stats, bucket)) == Counters(Wrapped(Totals(cfg, h, bucket)))
  {
    if h != [] {
      var k := |h| - 1;
      var p, db, out := h[k], Replay(cfg, h[..k]), Result(cfg, h, k);
      CountersAreTotals(cfg, h[..k], bucket);
      assert p in h;
      var ms := MutationsOf(p.item, out);
      CountedInOrder(db.stats, p.bucket.name, ms, p.world, bucket);
      MutateAllWrapped(ms, StatsOf(db.stats, bucket), Totals(cfg, h[..k], bucket));
      hide MutationsOf, CountAll, Wrapped, Mutate;
    }
  }

  ghost predicate Balanced(s: Stats, handled: nat, files: nat) {
    && s.skipped + s.downloadFailed + s.downloaded == handled
    && s.downloaded == s.extracted + s.extractFailed + s.passwordFailed
    && s.posted + s.postFailed == files
    && s.deleted <= s.extracted
  }

  ghost predicate BalancedModulo(s: Stats, handled: nat, files: nat) {
    && Wrap(s.skipped + s.downloadFailed + s.downloaded) == Wrap(handled)
    && s.downloaded == Wrap(s.extracted + s.extractFailed + s.passwordFailed)
    && Wrap(s.posted + s.postFailed) == Wrap(files)
  }

  lemma {:induction false} TotalsBalance(cfg: PostConfig, h: seq<Pass>, bucket: string)
    ensures Balanced(Totals(cfg, h, bucket), Handled(cfg, h, bucket), TotalFiles(cfg, h, bucket))
  {
    if h != [] {
      var k := |h| - 1;
      TotalsBalance(cfg, h[..k], bucket);
      NetEffect(h[k].item, Result(cfg, h, k), Totals(cfg, h[..k], bucket));
      hide MutateAll, MutationsOf;
    }
  }

  lemma WrappedBalance(s: Stats, handled: nat, files: nat)
    requires Balanced(s, handled, files)
    ensures BalancedModulo(Wrapped(s), handled, files)
    ensures handled < 0x1_0000_0000_0000_0000 && files < 0x1_0000_0000_0000_0000 ==> Balanced(Wrapped(s), handled, files)
  {
    hide Wrap;
    WrapThree(s.skipped, s.downloadFailed, s.downloaded);
    WrapThree(s.extracted, s.extractFailed, s.passwordFailed);
    WrapThree(s.posted, s.postFailed, 0);
    if handled < UINT64 && files < UINT64 {
      SmallWrap(s.skipped);
      SmallWrap(s.downloadFailed);
      SmallWrap(s.downloaded);
      SmallWrap(s.extracted);
      SmallWrap(s.extractFailed);
      SmallWrap(s.passwordFailed);
      SmallWrap(s.posted);
      SmallWrap(s.postFailed);
      SmallWrap(s.deleted);
    }
  }

  lemma SmallWrap(n: nat)
    requires n < UINT64
    ensures Wrap(n) == n
  {
  }

  lemma WrapThree(x: nat, y: nat, z: nat)
    ensures Wrap(Wrap(x) + Wrap(y) + Wrap(z)) == Wrap(x + y + z)
    ensures Wrap(0) == 0
  {
    WrapSum(x, Wrap(y) + Wrap(z));
    WrapSum(y, x + Wrap(z));
    WrapSum(z, x + y);
    hide Wrap;
  }

  /** Over any history whose store operations succeed, the counters of every bucket balance: modulo 2^64,
      and exactly as long as fewer than 2^64 objects were handled and files extracted. */
  lemma CountersBalance(cfg: PostConfig, h: seq<Pass>, bucket: string)
    requires StoreWorks(h)
    ensures var s := StatsOf(Replay(cfg, h).stats, bucket);
      var handled, files := Handled(cfg, h, bucket), TotalFiles(cfg, h, bucket);
      && BalancedModulo(s, handled, files)
      && (handled < 0x1_0000_0000_0000_0000 && files < 0x1_0000_0000_0000_0000 ==> Balanced(s, handled, files))
  {
    hide Totals, Handled, TotalFiles, Replay, Balanced, BalancedModulo, Wrapped, Counters;
    CountersAreTotals(cfg, h, bucket);
    TotalsBalance(cfg, h, bucket);
    WrappedBalance(Totals(cfg, h, bucket), Handled(cfg, h, bucket), TotalFiles(cfg, h, bucket));
    BalanceIgnoresTime(StatsOf(Replay(cfg, h).stats, bucket), Wrapped(Totals(cfg, h, bucket)),
      Handled(cfg, h, bucket), TotalFiles(cfg, h, bucket));
  }

  lemma BalanceIgnoresTime(s: Stats, t: Stats, handled: nat, files: nat)
    requires Counters(s) == Counters(t)
    ensures Balanced(s, handled, files) <==> Balanced(t, handled, files)
    ensures BalancedModulo(s, handled, files) <==> BalancedModulo(t, handled, files)
  {
    hide Wrap;
  }
}
