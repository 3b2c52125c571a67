/** One object's way through the relocator and what whole histories of passes guarantee
    (cmd/relocator/internal/relocator/pipeline.go and store.go). */
module Pipeline {
  import opened Posting

  // ---------------------------------------------------------------- the store

  datatype Entry = Entry(etag: string, size: int, status: string, files: nat, processedAt: int)

  datatype Stats = Stats(
    downloaded: nat, extracted: nat, posted: nat, deleted: nat, skipped: nat,
    downloadFailed: nat, extractFailed: nat, passwordFailed: nat, postFailed: nat, bytesDownloaded: nat,
    lastError: string, lastActivity: int)

  const ZERO := Stats(0, 0, 0, 0, 0, 0, 0, 0, 0, 0, "", 0)

  /** The counter updates a pass may ask for. */
  datatype Mutation = Skip | DownloadFail(err: string) | Download(size: int) | PasswordFail(err: string)
    | ExtractFail(err: string) | Extract
    | Posts(posted: nat, failed: nat) | Delete

  /** The update on counters without bound. */
  function Mutate(m: Mutation, s: Stats): Stats {
    match m
    case Skip => s.(skipped := s.skipped + 1)
    case DownloadFail(err) => s.(downloadFailed := s.downloadFailed + 1, lastError := err)
    case Download(size) => s.(downloaded := s.downloaded + 1, bytesDownloaded := s.bytesDownloaded + (if size > 0 then size else 0))
    case PasswordFail(err) => s.(passwordFailed := s.passwordFailed + 1, lastError := err)
    case ExtractFail(err) => s.(extractFailed := s.extractFailed + 1, lastError := err)
    case Extract => s.(extracted := s.extracted + 1)
    case Posts(p, f) => s.(posted := s.posted + p, postFailed := s.postFailed + f)
    case Delete => s.(deleted := s.deleted + 1)
  }

  const UINT64: nat := 0x1_0000_0000_0000_0000

  /** The counters are 64 bits wide. */
  function Wrap(n: nat): nat {
    n % UINT64
  }

  function Wrapped(s: Stats): Stats {
    Stats(Wrap(s.downloaded), Wrap(s.extracted), Wrap(s.posted), Wrap(s.deleted), Wrap(s.skipped),
      Wrap(s.downloadFailed), Wrap(s.extractFailed), Wrap(s.passwordFailed), Wrap(s.postFailed),
      Wrap(s.bytesDownloaded), s.lastError, s.lastActivity)
  }

  lemma WrapSum(x: nat, y: nat)
    ensures Wrap(Wrap(x) + y) == Wrap(x + y)
  {
  }

  /** Wrapping may as well be left to the end. */
  lemma WrapLate(m: Mutation, s: Stats)
    ensures Wrapped(Mutate(m, Wrapped(s))) == Wrapped(Mutate(m, s))
  {
    hide Wrap;
    var t := Mutate(m, s);
    WrapSum(s.downloaded, t.downloaded - s.downloaded);
    WrapSum(s.extracted, t.extracted - s.extracted);
    WrapSum(s.posted, t.posted - s.posted);
    WrapSum(s.deleted, t.deleted - s.deleted);
    WrapSum(s.skipped, t.skipped - s.skipped);
    WrapSum(s.downloadFailed, t.downloadFailed - s.downloadFailed);
    WrapSum(s.extractFailed, t.extractFailed - s.extractFailed);
    WrapSum(s.passwordFailed, t.passwordFailed - s.passwordFailed);
    WrapSum(s.postFailed, t.postFailed - s.postFailed);
    WrapSum(s.bytesDownloaded, t.bytesDownloaded - s.bytesDownloaded);
  }

  function StatsOf(stats: map<string, Stats>, bucket: string): Stats {
    if bucket in stats then stats[bucket] else ZERO
  }

  /** UpdateStats at time `now`: nothing is stored when the transaction fails. */
  function Count(stats: map<string, Stats>, bucket: string, m: Mutation, ok: bool, now: int): map<string, Stats> {
    if ok then stats[bucket := Wrapped(Mutate(m, StatsOf(stats, bucket))).(lastActivity := now)] else stats
  }

  function ProcessedKey(bucket: string, key: string): string {
    bucket + "\0" + key
  }

  predicate NulFree(name: string) {
    '\0' !in name
  }

  /** Bucket names without NUL keep the composed keys apart. */
  lemma ProcessedKeyInjective(b1: string, o1: string, b2: string, o2: string)
    requires NulFree(b1) && NulFree(b2) && ProcessedKey(b1, o1) == ProcessedKey(b2, o2)
    ensures b1 == b2 && o1 == o2
  {
    var k := ProcessedKey(b1, o1);
    assert k[|b1|] == '\0' && k[|b2|] == '\0';
    assert forall i :: 0 <= i < |b1| ==> k[i] == b1[i];
    assert forall i :: 0 <= i < |b2| ==> k[i] == b2[i];
    assert |b1| == |b2|;
    assert b1 == k[..|b1|] && b2 == k[..|b2|];
    assert o1 == k[|b1| + 1..] && o2 == k[|b2| + 1..];
  }

  datatype Db = Db(processed: map<string, Entry>, stats: map<string, Stats>)

  /** IsProcessed: the same version was handled, and completely. */
  predicate IsDone(processed: map<string, Entry>, bucket: string, key: string, etag: string) {
    var k := ProcessedKey(bucket, key);
    k in processed && processed[k].etag == etag && processed[k].status == "ok"
  }

  class Store {
    var db: Db

    constructor ()
      ensures db == Db(map[], map[])
    {
      db := Db(map[], map[]);
    }

    method IsProcessed(bucket: string, key: string, etag: string, fails: bool) returns (found: bool, err: bool)
      ensures err == fails
      ensures !err ==> found == IsDone(db.processed, bucket, key, etag)
    {
      if fails {
        return false, true;
      }
      var k := ProcessedKey(bucket, key);
      if k !in db.processed {
        return false, false;
      }
      var entry := db.processed[k];
      found := entry.etag == etag && entry.status == "ok";
      err := false;
    }

    method MarkProcessed(bucket: string, key: string, entry: Entry, ok: bool) returns (err: bool)
      modifies this
      ensures err == !ok
      ensures db == if ok then old(db).(processed := old(db).processed[ProcessedKey(bucket, key) := entry]) else old(db)
    {
      if !ok {
        return true;
      }
      db := db.(processed := db.processed[ProcessedKey(bucket, key) := entry]);
      err := false;
    }

    method UpdateStats(bucket: string, m: Mutation, ok: bool, now: int)
      modifies this
      ensures db == old(db).(stats := Count(old(db).stats, bucket, m, ok, now))
    {
      if ok {
        var stats := if bucket in db.stats then db.stats[bucket] else ZERO;
        db := db.(stats := db.stats[bucket := Wrapped(Mutate(m, stats)).(lastActivity := now)]);
      }
    }
  }

  // ---------------------------------------------------------------- one pass

  datatype Bucket = Bucket(name: string, maxObjectSize: int, deleteAfter: bool)
  datatype Object = Object(key: string, etag: string, size: int)

  /** ExtractJSON: the JSON files of the archive, or why there are none. */
  datatype Extraction = Files(count: nat) | PasswordRequired(err: string) | Broken(err: string)

  /** What the world does during one pass: failures of the store, outcomes of download, extraction,
      every attempt to post every file, and of the remote delete, and what the clock shows. */
  datatype PassWorld = PassWorld(
    dedupFails: bool, downloadOk: bool, downloadError: string, extraction: Extraction, post: nat -> PostWorld,
    markOk: bool, deleteOk: bool, statsOk: Mutation -> bool,
    now: Mutation -> int, markedAt: int)

  datatype Level = Info | Warn | Error

  /** Visible effects of a pass, in order. */
  datatype Act = Attempted(file: nat, attempt: Attempt) | Marked(entry: Entry, ok: bool) | DeleteIssued(key: string)
    | Logged(level: Level)

  datatype Removal = Kept | Removed | RemoveFailed

  datatype Outcome = DedupError | Duplicate | TooBig | NotDownloaded(err: string) | NoPassword(err: string)
    | NotExtracted(err: string)
    | Relocated(posted: nat, failed: nat, removal: Removal)

  predicate FileDelivered(cfg: PostConfig, w: PassWorld, file: nat) {
    SendOutcome(cfg, w.post(file)).0 == Delivered
  }

  /** How many of the first n files were delivered. */
  function DeliveredCount(cfg: PostConfig, w: PassWorld, n: nat): (c: nat)
    ensures c <= n
  {
    if n == 0 then 0 else DeliveredCount(cfg, w, n - 1) + (if FileDelivered(cfg, w, n - 1) then 1 else 0)
  }

  function OutcomeOf(cfg: PostConfig, b: Bucket, processed: map<string, Entry>, o: Object, w: PassWorld): Outcome {
    if w.dedupFails then DedupError
    else if IsDone(processed, b.name, o.key, o.etag) then Duplicate
    else if b.maxObjectSize > 0 && o.size > b.maxObjectSize then TooBig
    else if !w.downloadOk then NotDownloaded(w.downloadError)
    else
      match w.extraction
      case PasswordRequired(err) => NoPassword(err)
      case Broken(err) => NotExtracted(err)
      case Files(n) =>
        var posted := DeliveredCount(cfg, w, n);
        Relocated(posted, n - posted,
          if posted < n || !b.deleteAfter then Kept else if w.deleteOk then Removed else RemoveFailed)
  }

  function ProcessedStatus(failed: nat): string {
    if failed > 0 then "partial" else "ok"
  }

  function EntryOf(o: Object, w: PassWorld, out: Outcome): Entry
    requires out.Relocated?
  {
    Entry(o.etag, o.size, ProcessedStatus(out.failed), out.posted + out.failed, w.markedAt)
  }

  /** The counter updates of a pass, in order. */
  function MutationsOf(o: Object, out: Outcome): seq<Mutation> {
    match out
    case DedupError => []
    case Duplicate => [Skip]
    case TooBig => [Skip]
    case NotDownloaded(err) => [DownloadFail(err)]
    case NoPassword(err) => [Download(o.size), PasswordFail(err)]
    case NotExtracted(err) => [Download(o.size), ExtractFail(err)]
    case Relocated(p, f, removal) => [Download(o.size), Extract, Posts(p, f)] + (if removal.Removed? then [Delete] else [])
  }

  function CountAll(stats: map<string, Stats>, bucket: string, ms: seq<Mutation>, w: PassWorld): map<string, Stats> {
    if ms == [] then stats
    else
      var last := ms[|ms| - 1];
      Count(CountAll(stats, bucket, ms[..|ms| - 1], w), bucket, last, w.statsOk(last), w.now(last))
  }

  lemma CountNone(stats: map<string, Stats>, bucket: string, w: PassWorld)
    ensures CountAll(stats, bucket, [], w) == stats
  {
  }

  lemma CountSnoc(stats: map<string, Stats>, bucket: string, ms: seq<Mutation>, m: Mutation, w: PassWorld)
    ensures CountAll(stats, bucket, ms + [m], w) == Count(CountAll(stats, bucket, ms, w), bucket, m, w.statsOk(m), w.now(m))
  {
    assert (ms + [m])[..|ms|] == ms;
  }

  function DbAfter(db: Db, b: Bucket, o: Object, w: PassWorld, out: Outcome): Db {
    Db(
      if out.Relocated? && w.markOk then db.processed[ProcessedKey(b.name, o.key) := EntryOf(o, w, out)] else db.processed,
      CountAll(db.stats, b.name, MutationsOf(o, out), w))
  }

  /** The attempts of one file, in order. */
  function AttemptsOf(w: PostWorld, file: nat, made: nat): seq<Act> {
    seq(made, k requires 0 <= k => Attempted(file, w.attempt(k)))
  }

  function PostActs(cfg: PostConfig, w: PassWorld, n: nat): seq<Act> {
    if n == 0 then [] else PostActs(cfg, w, n - 1) + AttemptsOf(w.post(n - 1), n - 1, SendOutcome(cfg, w.post(n - 1)).1)
  }

  function ActsOf(cfg: PostConfig, o: Object, w: PassWorld, out: Outcome): seq<Act> {
    match out
    case DedupError => []
    case Duplicate => []
    case TooBig => [Logged(Warn)]
    case NotDownloaded(_) => [Logged(Error)]
    case NoPassword(_) => [Logged(Error)]
    case NotExtracted(_) => [Logged(Error)]
    case Relocated(p, f, removal) =>
      PostActs(cfg, w, p + f) + ActsAfterPosts(o, w, out)
  }

  function ActsAfterPosts(o: Object, w: PassWorld, out: Outcome): seq<Act>
    requires out.Relocated?
  {
    (if out.failed > 0 then [Logged(Warn)] else []) + [Marked(EntryOf(o, w, out), w.markOk)]
    + (match out.removal
       case Kept => []
       case Removed => [DeleteIssued(o.key), Logged(Info)]
       case RemoveFailed => [DeleteIssued(o.key), Logged(Warn)])
  }

  // ---------------------------------------------------------------- what is asked of a pass

  /** A version of the object is marked as completely handled. */
  predicate Known(processed: map<string, Entry>, b: Bucket, o: Object) {
    var k := b.name + "\0" + o.key;
    k in processed && processed[k].etag == o.etag && processed[k].status == "ok"
  }

  predicate Oversized(b: Bucket, o: Object) {
    b.maxObjectSize > 0 && o.size > b.maxObjectSize
  }

  ghost predicate AttemptAt(acts: seq<Act>, f: nat, i: int) {
    0 <= i < |acts| && acts[i].Attempted? && acts[i].file == f
  }

  ghost predicate AcceptedAt(acts: seq<Act>, f: nat, i: int) {
    AttemptAt(acts, f, i) && acts[i].attempt.Status? && 200 <= acts[i].attempt.code <= 299
  }

  /** The last attempt to post the file was answered 2xx. */
  ghost predicate LastAccepted(acts: seq<Act>, f: nat) {
    exists i :: AcceptedAt(acts, f, i) && forall j :: AttemptAt(acts, f, j) ==> j <= i
  }

  ghost function AcceptedFiles(acts: seq<Act>, n: nat): set<nat> {
    set f: nat | f < n && LastAccepted(acts, f)
  }

  /** The pass over an object, from what it is given to what it does and leaves behind. */
  ghost predicate AsAsked(cfg: PostConfig, b: Bucket, before: Db, after: Db, acts: seq<Act>, o: Object, w: PassWorld) {
    if w.dedupFails then
      after == before && acts == []
    else if Known(before.processed, b, o) || Oversized(b, o) then
      && after == Db(before.processed, CountAll(before.stats, b.name, [Skip], w))
      && acts == (if Known(before.processed, b, o) then [] else [Logged(Warn)])
    else if !w.downloadOk then
      && after == Db(before.processed, CountAll(before.stats, b.name, [DownloadFail(w.downloadError)], w))
      && acts == [Logged(Error)]
    else
      match w.extraction
      case PasswordRequired(err) =>
        && after == Db(before.processed, CountAll(before.stats, b.name, [Download(o.size), PasswordFail(err)], w))
        && acts == [Logged(Error)]
      case Broken(err) =>
        && after == Db(before.processed, CountAll(before.stats, b.name, [Download(o.size), ExtractFail(err)], w))
        && acts == [Logged(Error)]
      case Files(n) =>
        FilesHandled(cfg, b, before, after, acts, o, w, n)
  }

  /** When the archive held files: each has an attempt, if there is where to post it; the object is marked
      ok if the last attempt of every file was answered 2xx and partial otherwise; it is deleted if and only
      if it is ok and that is configured; and the counters say how many files went which way. */
  ghost predicate FilesHandled(cfg: PostConfig, b: Bucket, before: Db, after: Db, acts: seq<Act>, o: Object,
                               w: PassWorld, n: nat) {
    var posted := |AcceptedFiles(acts, n)|;
    var all := forall f :: 0 <= f < n ==> LastAccepted(acts, f);
    var entry := Entry(o.etag, o.size, if all then "ok" else "partial", n, w.markedAt);
    && posted <= n && (posted == n <==> all)
    && (cfg.url != "" ==> forall f :: 0 <= f < n ==> Attempted(f, w.post(f).attempt(0)) in acts)
    && Marked(entry, w.markOk) in acts
    && after.processed == (if w.markOk then before.processed[b.name + "\0" + o.key := entry] else before.processed)
    && (DeleteIssued(o.key) in acts <==> all && b.deleteAfter)
    && after.stats == CountAll(before.stats, b.name,
         [Download(o.size), Extract, Posts(posted, n - posted)]
         + (if all && b.deleteAfter && w.deleteOk then [Delete] else []), w)
  }

  lemma OthersAdded(acts: seq<Act>, more: seq<Act>, f: nat)
    requires forall i :: !AttemptAt(more, f, i)
    ensures LastAccepted(acts + more, f) <==> LastAccepted(acts, f)
  {
    forall i ensures AttemptAt(acts + more, f, i) <==> AttemptAt(acts, f, i) {
      if |acts| <= i < |acts + more| {
        assert !AttemptAt(more, f, i - |acts|);
      }
    }
    forall i | AttemptAt(acts, f, i) ensures (acts + more)[i] == acts[i] {
    }
    forall i ensures AcceptedAt(acts + more, f, i) <==> AcceptedAt(acts, f, i) {
    }
    hide AttemptAt, AcceptedAt;
  }

  lemma {:induction false} PostsAreOf(cfg: PostConfig, w: PassWorld, n: nat, f: nat)
    requires f >= n
    ensures forall i :: !AttemptAt(PostActs(cfg, w, n), f, i)
  {
    if n > 0 {
      PostsAreOf(cfg, w, n - 1, f);
      var own := AttemptsOf(w.post(n - 1), n - 1, SendOutcome(cfg, w.post(n - 1)).1);
      var before := PostActs(cfg, w, n - 1);
      hide SendOutcome, PostActs;
      forall i ensures !AttemptAt(before + own, f, i) {
        assert !AttemptAt(before, f, i);
      }
    }
  }

  lemma LastOfOwn(before: seq<Act>, w: PostWorld, f: nat, made: nat)
    requires forall i :: !AttemptAt(before, f, i)
    ensures LastAccepted(before + AttemptsOf(w, f, made), f) <==> made > 0 && Accepted2xx(w.attempt(made - 1))
  {
    var own := AttemptsOf(w, f, made);
    var acts := before + own;
    forall i ensures AttemptAt(acts, f, i) <==> |before| <= i < |acts| {
      assert !AttemptAt(before, f, i);
    }
    if made > 0 {
      assert acts[|acts| - 1] == Attempted(f, w.attempt(made - 1));
      assert AttemptAt(acts, f, |acts| - 1);
      assert AcceptedAt(acts, f, |acts| - 1) <==> Accepted2xx(w.attempt(made - 1));
    }
    hide AttemptsOf;
    if LastAccepted(acts, f) {
      var i :| AcceptedAt(acts, f, i) && forall j :: AttemptAt(acts, f, j) ==> j <= i;
      assert i == |acts| - 1;
    }
  }

  /** A file was delivered exactly if its last attempt was answered 2xx. */
  lemma {:induction false} LastAttemptTells(cfg: PostConfig, w: PassWorld, n: nat, f: nat)
    requires f < n
    ensures LastAccepted(PostActs(cfg, w, n), f) <==> FileDelivered(cfg, w, f)
  {
    var before, made := PostActs(cfg, w, n - 1), SendOutcome(cfg, w.post(n - 1)).1;
    if f == n - 1 {
      PostsAreOf(cfg, w, n - 1, f);
      LastOfOwn(before, w.post(f), f, made);
      hide LastAccepted;
      if cfg.url != "" {
        SendIsExplained(cfg, w.post(f));
      }
    } else {
      LastAttemptTells(cfg, w, n - 1, f);
      OthersAdded(before, AttemptsOf(w.post(n - 1), n - 1, made), f);
    }
  }

  lemma {:induction false} FirstAttemptShows(cfg: PostConfig, w: PassWorld, n: nat, f: nat)
    requires cfg.url != "" && f < n
    ensures Attempted(f, w.post(f).attempt(0)) in PostActs(cfg, w, n)
  {
    var own := AttemptsOf(w.post(n - 1), n - 1, SendOutcome(cfg, w.post(n - 1)).1);
    if f < n - 1 {
      FirstAttemptShows(cfg, w, n - 1, f);
    } else {
      SendIsExplained(cfg, w.post(f));
      assert own[0] == Attempted(f, w.post(f).attempt(0));
    }
  }

  ghost function DeliveredSet(cfg: PostConfig, w: PassWorld, n: nat): set<nat> {
    set f: nat | f < n && FileDelivered(cfg, w, f)
  }

  lemma {:induction false} DeliveredAreCounted(cfg: PostConfig, w: PassWorld, n: nat)
    ensures |DeliveredSet(cfg, w, n)| == DeliveredCount(cfg, w, n)
    ensures DeliveredCount(cfg, w, n) == n <==> forall f :: 0 <= f < n ==> FileDelivered(cfg, w, f)
  {
    hide FileDelivered;
    if n > 0 {
      DeliveredAreCounted(cfg, w, n - 1);
      assert DeliveredSet(cfg, w, n) ==
        DeliveredSet(cfg, w, n - 1) + (if FileDelivered(cfg, w, n - 1) then {n - 1} else {});
    } else {
      assert DeliveredSet(cfg, w, n) == {};
    }
  }

  /** What a pass is asked to do is what its outcome, store and trace say. */
  lemma PassIsAsAsked(cfg: PostConfig, b: Bucket, db: Db, o: Object, w: PassWorld)
    ensures var out := OutcomeOf(cfg, b, db.processed, o, w);
      AsAsked(cfg, b, db, DbAfter(db, b, o, w, out), ActsOf(cfg, o, w, out), o, w)
  {
    hide CountAll, DeliveredCount, PostActs, FilesHandled;
    var out := OutcomeOf(cfg, b, db.processed, o, w);
    if out.Relocated? {
      FilesAreHandled(cfg, b, db, o, w, out);
    } else if out.DedupError? {
      CountNone(db.stats, b.name, w);
    }
  }

  lemma FilesAreHandled(cfg: PostConfig, b: Bucket, db: Db, o: Object, w: PassWorld, out: Outcome)
    requires out == OutcomeOf(cfg, b, db.processed, o, w) && out.Relocated?
    ensures FilesHandled(cfg, b, db, DbAfter(db, b, o, w, out), ActsOf(cfg, o, w, out), o, w, w.extraction.count)
  {
    hide CountAll, SendOutcome, LastAccepted, FileDelivered;
    var n := w.extraction.count;
    var posts, acts := PostActs(cfg, w, n), ActsOf(cfg, o, w, out);
    var after := ActsAfterPosts(o, w, out);
    DeliveredAreCounted(cfg, w, n);
    hide DeliveredCount;
    assert acts == posts + after;
    forall f: nat | f < n ensures LastAccepted(acts, f) <==> FileDelivered(cfg, w, f) {
      assert forall i :: !AttemptAt(after, f, i);
      LastAttemptTells(cfg, w, n, f);
      OthersAdded(posts, after, f);
    }
    assert AcceptedFiles(acts, n) == DeliveredSet(cfg, w, n);
    var all := forall f :: 0 <= f < n ==> LastAccepted(acts, f);
    assert all <==> out.failed == 0 by {
      assert all <==> forall f: nat :: f < n ==> FileDelivered(cfg, w, f);
    }
    if cfg.url != "" {
      forall f | 0 <= f < n ensures Attempted(f, w.post(f).attempt(0)) in acts {
        FirstAttemptShows(cfg, w, n, f);
      }
    }
    OnlyAttempts(cfg, w, n, o.key);
    hide PostActs;
    assert Marked(EntryOf(o, w, out), w.markOk) in after;
    assert DeleteIssued(o.key) in after <==> all && b.deleteAfter;
    assert MutationsOf(o, out) == [Download(o.size), Extract, Posts(out.posted, out.failed)]
      + (if all && b.deleteAfter && w.deleteOk then [Delete] else []);
  }

  lemma {:induction false} OnlyAttempts(cfg: PostConfig, w: PassWorld, n: nat, key: string)
    ensures DeleteIssued(key) !in PostActs(cfg, w, n)
  {
    if n > 0 {
      OnlyAttempts(cfg, w, n - 1, key);
    }
  }

  // ---------------------------------------------------------------- the service

  class Runtime {
    const cfg: Bucket
    var busy: int

    constructor (cfg: Bucket)
      ensures this.cfg == cfg && busy == 0
    {
      this.cfg, busy := cfg, 0;
    }
  }

  class Service {
    const post: PostConfig
    const store: Store
    ghost var trace: seq<Act>

    constructor (post: PostConfig, store: Store)
      ensures this.post == post && this.store == store && trace == []
    {
      this.post, this.store, trace := post, store, [];
    }

    /** Posts every file, failed or not, and counts both kinds. */
    method SendFiles(n: nat, w: PassWorld) returns (posted: nat, failed: nat)
      modifies `trace
      ensures posted == DeliveredCount(post, w, n) && posted + failed == n
      ensures trace == old(trace) + PostActs(post, w, n)
    {
      posted, failed := 0, 0;
      for i := 0 to n
        invariant posted == DeliveredCount(post, w, i) && posted + failed == i
        invariant trace == old(trace) + PostActs(post, w, i)
      {
        var result, made := Send(post, w.post(i));
        trace := trace + AttemptsOf(w.post(i), i, made);
        if result != Delivered {
          failed := failed + 1;
          continue;
        }
        posted := posted + 1;
      }
    }

    method ProcessObject(runtime: Runtime, o: Object, w: PassWorld, ghost out: Outcome)
      requires out == OutcomeOf(post, runtime.cfg, store.db.processed, o, w)
      requires !out.DedupError? && !out.Duplicate? && !out.TooBig?
      modifies `trace, store
      ensures store.db == DbAfter(old(store.db), runtime.cfg, o, w, out)
      ensures trace == old(trace) + ActsOf(post, o, w, out)
    {
      hide SendOutcome, DeliveredCount, PostActs, CountAll, ProcessedStatus, ProcessedKey, Count, Mutate, Wrapped;
      var b := runtime.cfg;
      ghost var before := store.db.stats;
      ghost var done: seq<Mutation> := [];
      CountNone(before, b.name, w);
      if !w.downloadOk {
        Tally(b.name, done, DownloadFail(w.downloadError), w, before);
        assert done + [DownloadFail(w.downloadError)] == MutationsOf(o, out);
        trace := trace + [Logged(Error)];
        return;
      }
      Tally(b.name, done, Download(o.size), w, before);
      done := done + [Download(o.size)];
      if w.extraction.PasswordRequired? {
        Tally(b.name, done, PasswordFail(w.extraction.err), w, before);
        assert done + [PasswordFail(w.extraction.err)] == MutationsOf(o, out);
        trace := trace + [Logged(Error)];
        return;
      }
      if w.extraction.Broken? {
        Tally(b.name, done, ExtractFail(w.extraction.err), w, before);
        assert done + [ExtractFail(w.extraction.err)] == MutationsOf(o, out);
        trace := trace + [Logged(Error)];
        return;
      }
      Tally(b.name, done, Extract, w, before);
      done := done + [Extract];
      var posted, failed := SendFiles(w.extraction.count, w);
      Tally(b.name, done, Posts(posted, failed), w, before);
      done := done + [Posts(posted, failed)];
      assert done == [Download(o.size), Extract, Posts(posted, failed)];
      Conclude(runtime, o, w, posted, failed, out, before);
    }

    /** After the posts: mark the object and, if asked for and all went well, delete it. */
    method Conclude(runtime: Runtime, o: Object, w: PassWorld, posted: nat, failed: nat, ghost out: Outcome,
                    ghost before: map<string, Stats>)
      requires out.Relocated? && out.posted == posted && out.failed == failed
      requires out.removal ==
        if failed > 0 || !runtime.cfg.deleteAfter then Kept else if w.deleteOk then Removed else RemoveFailed
      requires store.db.stats == CountAll(before, runtime.cfg.name, [Download(o.size), Extract, Posts(posted, failed)], w)
      modifies `trace, store
      ensures store.db == DbAfter(Db(old(store.db).processed, before), runtime.cfg, o, w, out)
      ensures trace == old(trace) + ActsAfterPosts(o, w, out)
    {
      hide CountAll, ProcessedStatus, ProcessedKey, Count, Mutate, Wrapped;
      var b := runtime.cfg;
      ghost var done := [Download(o.size), Extract, Posts(posted, failed)];
      if failed > 0 {
        trace := trace + [Logged(Warn)];
      }
      var entry := Entry(o.etag, o.size, ProcessedStatus(failed), posted + failed, w.markedAt);
      var err := store.MarkProcessed(b.name, o.key, entry, w.markOk);
      trace := trace + [Marked(entry, w.markOk)];
      if failed == 0 && b.deleteAfter {
        trace := trace + [DeleteIssued(o.key)];
        if !w.deleteOk {
          trace := trace + [Logged(Warn)];
        } else {
          Tally(b.name, done, Delete, w, before);
          done := done + [Delete];
          trace := trace + [Logged(Info)];
        }
      }
      assert done == MutationsOf(o, out);
    }

    /** One UpdateStats call, after those in `done`. */
    method Tally(bucket: string, ghost done: seq<Mutation>, m: Mutation, w: PassWorld, ghost before: map<string, Stats>)
      requires store.db.stats == CountAll(before, bucket, done, w)
      modifies store
      ensures store.db == old(store.db).(stats := CountAll(before, bucket, done + [m], w))
    {
      store.UpdateStats(bucket, m, w.statsOk(m), w.now(m));
      CountSnoc(before, bucket, done, m, w);
    }

    /** Deduplicate, check the size, and process; the busy count is back where it was on every path. */
    method HandleObject(runtime: Runtime, o: Object, w: PassWorld)
      modifies `trace, store, runtime
      ensures var out := OutcomeOf(post, runtime.cfg, old(store.db.processed), o, w);
        && store.db == DbAfter(old(store.db), runtime.cfg, o, w, out)
        && trace == old(trace) + ActsOf(post, o, w, out)
      ensures runtime.busy == old(runtime.busy)
      ensures |trace| >= |old(trace)|
      ensures AsAsked(post, runtime.cfg, old(store.db), store.db, trace[|old(trace)|..], o, w)
    {
      hide AsAsked, CountAll, Count, Mutate, Wrapped, ProcessedKey, DeliveredCount, PostActs;
      var b := runtime.cfg;
      ghost var out := OutcomeOf(post, b, store.db.processed, o, w);
      CountNone(store.db.stats, b.name, w);
      PassIsAsAsked(post, b, store.db, o, w);
      assert trace + [] == trace;
      var processed, err := store.IsProcessed(b.name, o.key, o.etag, w.dedupFails);
      if err {
        return;
      }
      ghost var before := store.db.stats;
      if processed {
        Tally(b.name, [], Skip, w, before);
        assert [] + [Skip] == [Skip];
        return;
      }
      if b.maxObjectSize > 0 && o.size > b.maxObjectSize {
        trace := trace + [Logged(Warn)];
        Tally(b.name, [], Skip, w, before);
        assert [] + [Skip] == [Skip];
        return;
      }
      runtime.busy := runtime.busy + 1;
      ProcessObject(runtime, o, w, out);
      runtime.busy := runtime.busy - 1;
    }
  }
}
