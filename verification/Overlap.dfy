/** Pollers of different buckets at work at the same time: single store transactions of their passes
    interleave, and the process may stop and start again between any two of them
    (cmd/relocator/internal/relocator/pipeline.go, poller.go and store.go). */
module Overlap {
  import opened Posting
  import opened Pipeline
  import opened History

  /** A store transaction that succeeded. */
  datatype Tx = Mark(bucket: string, key: string, entry: Entry) | Tally(bucket: string, mutation: Mutation, now: int)

  function ApplyTx(db: Db, tx: Tx): Db {
    match tx
    case Mark(b, key, e) => db.(processed := db.processed[ProcessedKey(b, key) := e])
    case Tally(b, m, now) => db.(stats := Count(db.stats, b, m, true, now))
  }

  function RunTxs(db: Db, txs: seq<Tx>): Db
    decreases |txs|
  {
    if txs == [] then db else RunTxs(ApplyTx(db, txs[0]), txs[1..])
  }

  function Tallies(b: string, ms: seq<Mutation>, w: PassWorld): seq<Tx> {
    if ms == [] then [] else Tallies(b, ms[..|ms| - 1], w) + [Tally(b, ms[|ms| - 1], w.now(ms[|ms| - 1]))]
  }

  /** The transactions of a pass, in order, if none fails: the mark comes before the count of a delete. */
  function Plan(p: Pass, out: Outcome): seq<Tx> {
    var b, w := p.bucket.name, p.world;
    if out.Relocated? then
      Tallies(b, [Download(p.item.size), Extract, Posts(out.posted, out.failed)], w)
      + [Mark(b, p.item.key, EntryOf(p.item, w, out))]
      + (if out.removal.Removed? then Tallies(b, [Delete], w) else [])
    else
      Tallies(b, MutationsOf(p.item, out), w)
  }

  predicate Succeeds(w: PassWorld, tx: Tx) {
    if tx.Mark? then w.markOk else w.statsOk(tx.mutation)
  }

  function Keep(txs: seq<Tx>, w: PassWorld): seq<Tx> {
    if txs == [] then []
    else Keep(txs[..|txs| - 1], w) + (if Succeeds(w, txs[|txs| - 1]) then [txs[|txs| - 1]] else [])
  }

  /** The transactions of a pass that succeed. */
  function TxsOf(p: Pass, out: Outcome): seq<Tx> {
    Keep(Plan(p, out), p.world)
  }

  // ---------------------------------------------------------------- a pass is its transactions

  lemma {:induction false} RunConcat(db: Db, s: seq<Tx>, t: seq<Tx>)
    ensures RunTxs(db, s + t) == RunTxs(RunTxs(db, s), t)
    decreases |s|
  {
    if s == [] {
      assert s + t == t;
    } else {
      assert (s + t)[1..] == s[1..] + t;
      RunConcat(ApplyTx(db, s[0]), s[1..], t);
    }
  }

  lemma {:induction false} KeepConcat(s: seq<Tx>, t: seq<Tx>, w: PassWorld)
    ensures Keep(s + t, w) == Keep(s, w) + Keep(t, w)
  {
    if t == [] {
      assert s + t == s;
    } else {
      assert (s + t)[..|s + t| - 1] == s + t[..|t| - 1];
      KeepConcat(s, t[..|t| - 1], w);
    }
  }

  lemma {:induction false} TalliesCount(db: Db, b: string, ms: seq<Mutation>, w: PassWorld)
    ensures RunTxs(db, Keep(Tallies(b, ms, w), w)) == Db(db.processed, CountAll(db.stats, b, ms, w))
  {
    if ms != [] {
      var rest, last := ms[..|ms| - 1], ms[|ms| - 1];
      var tx := Tally(b, last, w.now(last));
      var step := if w.statsOk(last) then [tx] else [];
      TalliesCount(db, b, rest, w);
      assert Tallies(b, ms, w)[..|Tallies(b, ms, w)| - 1] == Tallies(b, rest, w);
      RunConcat(db, Keep(Tallies(b, rest, w), w), step);
      RunOne(RunTxs(db, Keep(Tallies(b, rest, w), w)), step);
      hide Mutate, Wrapped;
    }
  }

  lemma RunOne(db: Db, txs: seq<Tx>)
    ensures |txs| == 1 ==> RunTxs(db, txs) == ApplyTx(db, txs[0])
    ensures txs == [] ==> RunTxs(db, txs) == db
  {
    if |txs| == 1 {
      assert txs[1..] == [];
    }
  }

  lemma KeepOne(tx: Tx, w: PassWorld)
    ensures Keep([tx], w) == if Succeeds(w, tx) then [tx] else []
  {
    assert [tx][..0] == [];
  }

  /** Counting three mutations and then perhaps a fourth. */
  lemma CountMore(stats: map<string, Stats>, b: string, ms: seq<Mutation>, m: Mutation, w: PassWorld)
    ensures CountAll(CountAll(stats, b, ms, w), b, [m], w) == CountAll(stats, b, ms + [m], w)
  {
    hide Count;
    CountSnoc(stats, b, ms, m, w);
    CountSnoc(CountAll(stats, b, ms, w), b, [], m, w);
    assert [] + [m] == [m];
  }

  /** Executed one after the other, the transactions of a pass do what the pass does. */
  lemma PassIsItsTransactions(cfg: PostConfig, db: Db, p: Pass)
    ensures RunTxs(db, TxsOf(p, OutcomeIn(cfg, db, p))) == AfterPass(cfg, db, p)
  {
    hide OutcomeOf;
    var out := OutcomeIn(cfg, db, p);
    if out.Relocated? {
      RelocationIsItsTransactions(db, p, out);
    } else {
      hide RunTxs, Keep, Tallies, CountAll;
      TalliesCount(db, p.bucket.name, MutationsOf(p.item, out), p.world);
    }
  }

  lemma RelocationIsItsTransactions(db: Db, p: Pass, out: Outcome)
    requires out.Relocated?
    ensures RunTxs(db, TxsOf(p, out)) == DbAfter(db, p.bucket, p.item, p.world, out)
  {
    hide RunTxs, Keep, Tallies, CountAll, Count, ProcessedKey;
    var b, w := p.bucket.name, p.world;
    var ms := [Download(p.item.size), Extract, Posts(out.posted, out.failed)];
    var mark := Mark(b, p.item.key, EntryOf(p.item, w, out));
    var deletes := if out.removal.Removed? then [Delete] else [];
    var last := if out.removal.Removed? then Tallies(b, [Delete], w) else [];
    KeepConcat(Tallies(b, ms, w) + [mark], last, w);
    KeepConcat(Tallies(b, ms, w), [mark], w);
    KeepOne(mark, w);
    var counts, marks := Keep(Tallies(b, ms, w), w), Keep([mark], w);
    RunConcat(db, counts + marks, Keep(last, w));
    RunConcat(db, counts, marks);
    TalliesCount(db, b, ms, w);
    RunOne(RunTxs(db, counts), marks);
    var marked := RunTxs(db, counts + marks);
    assert marked == Db(if w.markOk then db.processed[ProcessedKey(b, p.item.key) := EntryOf(p.item, w, out)] else db.processed,
      CountAll(db.stats, b, ms, w));
    assert MutationsOf(p.item, out) == ms + deletes;
    if out.removal.Removed? {
      TalliesCount(marked, b, [Delete], w);
      CountMore(db.stats, b, ms, Delete, w);
    } else {
      KeepNone(w);
      RunOne(marked, []);
      assert ms + deletes == ms;
    }
  }

  lemma KeepNone(w: PassWorld)
    ensures Keep([], w) == []
  {
  }

  // ---------------------------------------------------------------- what a bucket sees

  function Lookup(db: Db, b: string, key: string): seq<Entry> {
    var k := ProcessedKey(b, key);
    if k in db.processed then [db.processed[k]] else []
  }

  /** The two stores agree on everything under this bucket's name. */
  ghost predicate SameView(x: Db, y: Db, b: string) {
    StatsOf(x.stats, b) == StatsOf(y.stats, b) && forall key :: Lookup(x, b, key) == Lookup(y, b, key)
  }

  lemma TxInvisible(db: Db, tx: Tx, b: string)
    requires tx.bucket != b && NulFree(tx.bucket) && NulFree(b)
    ensures SameView(ApplyTx(db, tx), db, b)
  {
    forall key ensures Lookup(ApplyTx(db, tx), b, key) == Lookup(db, b, key) {
      if tx.Mark? && ProcessedKey(tx.bucket, tx.key) == ProcessedKey(b, key) {
        ProcessedKeyInjective(tx.bucket, tx.key, b, key);
      }
    }
  }

  lemma {:induction false} SameAfterSame(x: Db, y: Db, txs: seq<Tx>, b: string)
    requires SameView(x, y, b) && forall tx <- txs :: tx.bucket == b
    ensures SameView(RunTxs(x, txs), RunTxs(y, txs), b)
    decreases |txs|
  {
    if txs != [] {
      var x', y' := ApplyTx(x, txs[0]), ApplyTx(y, txs[0]);
      forall key ensures Lookup(x', b, key) == Lookup(y', b, key) {
        assert Lookup(x, b, key) == Lookup(y, b, key);
      }
      SameAfterSame(x', y', txs[1..], b);
    }
  }

  lemma SameOutcome(cfg: PostConfig, x: Db, y: Db, p: Pass)
    requires SameView(x, y, p.bucket.name)
    ensures OutcomeIn(cfg, x, p) == OutcomeIn(cfg, y, p)
  {
    assert Lookup(x, p.bucket.name, p.item.key) == Lookup(y, p.bucket.name, p.item.key);
  }

  lemma {:induction false} TalliesAreOwn(b: string, ms: seq<Mutation>, w: PassWorld)
    ensures forall tx <- Tallies(b, ms, w) :: tx.bucket == b
  {
    if ms != [] {
      TalliesAreOwn(b, ms[..|ms| - 1], w);
    }
  }

  lemma {:induction false} KeepIsPart(txs: seq<Tx>, w: PassWorld)
    ensures forall tx <- Keep(txs, w) :: tx in txs
  {
    if txs != [] {
      KeepIsPart(txs[..|txs| - 1], w);
    }
  }

  lemma TxsAreOwn(p: Pass, out: Outcome)
    ensures forall tx <- TxsOf(p, out) :: tx.bucket == p.bucket.name
  {
    KeepIsPart(Plan(p, out), p.world);
    hide Keep, Tallies;
    TalliesAreOwn(p.bucket.name, MutationsOf(p.item, out), p.world);
    TalliesAreOwn(p.bucket.name, [Delete], p.world);
    if out.Relocated? {
      TalliesAreOwn(p.bucket.name, [Download(p.item.size), Extract, Posts(out.posted, out.failed)], p.world);
    }
  }

  // ---------------------------------------------------------------- a pass that is cut short

  /** The pass as it stands when the process stops before these transactions: as if they had failed. */
  function Cut(p: Pass, todo: seq<Tx>): Pass {
    var w := p.world;
    p.(world := w.(
      statsOk := m => w.statsOk(m) && Tally(p.bucket.name, m, w.now(m)) !in todo,
      markOk := w.markOk && forall tx <- todo :: !tx.Mark?))
  }

  ghost predicate Distinct(txs: seq<Tx>) {
    forall i, j :: 0 <= i < j < |txs| ==> txs[i] != txs[j]
  }

  lemma SplitEnd(kept: seq<Tx>, x: Tx, made: seq<Tx>, todo: seq<Tx>)
    requires kept + [x] == made + todo
    ensures if todo == [] then made == kept + [x]
      else todo == todo[..|todo| - 1] + [x] && kept == made + todo[..|todo| - 1]
  {
    if todo == [] {
      assert made + todo == made;
    } else {
      assert (made + todo)[|made + todo| - 1] == todo[|todo| - 1];
      assert (kept + [x])[|kept|] == x && (kept + [x])[..|kept|] == kept;
      assert (made + todo)[..|made + todo| - 1] == made + todo[..|todo| - 1];
    }
  }

  lemma DistinctInit(txs: seq<Tx>)
    requires Distinct(txs) && txs != []
    ensures Distinct(txs[..|txs| - 1]) && txs[|txs| - 1] !in txs[..|txs| - 1]
    ensures forall tx <- txs[..|txs| - 1] :: tx in txs
  {
  }

  lemma {:induction false} KeepCut(plan: seq<Tx>, w: PassWorld, w': PassWorld, made: seq<Tx>, todo: seq<Tx>)
    requires Distinct(plan) && Keep(plan, w) == made + todo
    requires forall tx <- plan :: Succeeds(w', tx) <==> Succeeds(w, tx) && tx !in todo
    ensures Keep(plan, w') == made
  {
    hide Succeeds, Distinct;
    if plan == [] {
      assert made == [];
    } else {
      var rest, x := plan[..|plan| - 1], plan[|plan| - 1];
      var kept := Keep(rest, w);
      DistinctInit(plan);
      assert x in plan;
      if Succeeds(w, x) {
        SplitEnd(kept, x, made, todo);
        if todo == [] {
          assert kept + [] == kept;
          KeepCut(rest, w, w', kept, []);
        } else {
          KeepCut(rest, w, w', made, todo[..|todo| - 1]);
        }
      } else {
        assert kept + [] == kept;
        KeepCut(rest, w, w', made, todo);
      }
    }
  }

  lemma {:induction false} TalliesAt(b: string, ms: seq<Mutation>, w: PassWorld)
    ensures |Tallies(b, ms, w)| == |ms|
    ensures forall i :: 0 <= i < |ms| ==> Tallies(b, ms, w)[i] == Tally(b, ms[i], w.now(ms[i]))
  {
    if ms != [] {
      TalliesAt(b, ms[..|ms| - 1], w);
    }
  }

  lemma PlanIsDistinct(p: Pass, out: Outcome)
    ensures Distinct(Plan(p, out))
    ensures forall tx <- Plan(p, out) :: tx.bucket == p.bucket.name && (tx.Tally? ==> tx.now == p.world.now(tx.mutation))
  {
    hide Tallies;
    var b, w := p.bucket.name, p.world;
    if out.Relocated? {
      TalliesAt(b, [Download(p.item.size), Extract, Posts(out.posted, out.failed)], w);
      TalliesAt(b, [Delete], w);
    } else {
      TalliesAt(b, MutationsOf(p.item, out), w);
    }
  }

  lemma PlanHasOneMark(p: Pass, out: Outcome, x: Tx, y: Tx)
    requires x in Plan(p, out) && y in Plan(p, out) && x.Mark? && y.Mark?
    ensures x == y
  {
    hide Tallies;
    var b, w := p.bucket.name, p.world;
    if out.Relocated? {
      TalliesAt(b, [Download(p.item.size), Extract, Posts(out.posted, out.failed)], w);
      TalliesAt(b, [Delete], w);
    } else {
      TalliesAt(b, MutationsOf(p.item, out), w);
    }
  }

  /** What a cut pass still does is what it had done. */
  lemma CutKeepsMade(p: Pass, out: Outcome, made: seq<Tx>, todo: seq<Tx>)
    requires TxsOf(p, out) == made + todo
    ensures TxsOf(Cut(p, todo), out) == made
  {
    hide Keep;
    var plan, p' := Plan(p, out), Cut(p, todo);
    PlanIsDistinct(p, out);
    KeepIsPart(plan, p.world);
    assert forall tx <- todo :: tx in made + todo;
    SamePlan(p, todo, out);
    forall tx | tx in plan ensures Succeeds(p'.world, tx) <==> Succeeds(p.world, tx) && tx !in todo {
      if tx.Mark? {
        forall y | y in todo && y.Mark? ensures y == tx {
          PlanHasOneMark(p, out, y, tx);
        }
      }
    }
    hide Plan, Succeeds, Cut, Distinct;
    KeepCut(plan, p.world, p'.world, made, todo);
  }

  lemma SamePlan(p: Pass, todo: seq<Tx>, out: Outcome)
    ensures Plan(Cut(p, todo), out) == Plan(p, out)
  {
    hide Tallies;
    var b, w, w' := p.bucket.name, p.world, Cut(p, todo).world;
    SameTallies(b, MutationsOf(p.item, out), w, w');
    SameTallies(b, [Delete], w, w');
    if out.Relocated? {
      SameTallies(b, [Download(p.item.size), Extract, Posts(out.posted, out.failed)], w, w');
    }
  }

  lemma {:induction false} SameTallies(b: string, ms: seq<Mutation>, w: PassWorld, w': PassWorld)
    requires w.now == w'.now
    ensures Tallies(b, ms, w) == Tallies(b, ms, w')
  {
    if ms != [] {
      SameTallies(b, ms[..|ms| - 1], w, w');
    }
  }

  lemma CutOutcome(cfg: PostConfig, db: Db, p: Pass, todo: seq<Tx>)
    ensures OutcomeIn(cfg, db, Cut(p, todo)) == OutcomeIn(cfg, db, p)
  {
    SameDeliveries(cfg, p.world, Cut(p, todo).world, if p.world.extraction.Files? then p.world.extraction.count else 0);
  }

  lemma {:induction false} SameDeliveries(cfg: PostConfig, v: PassWorld, w: PassWorld, n: nat)
    requires v.post == w.post
    ensures DeliveredCount(cfg, v, n) == DeliveredCount(cfg, w, n)
  {
    if n > 0 {
      SameDeliveries(cfg, v, w, n - 1);
    }
  }

  // ---------------------------------------------------------------- pollers side by side

  /** Per bucket: the transactions its running pass has made and has still to make, the passes it has
      started (one that a restart cut short counts as if what it had left had failed), and what each of
      them found. */
  datatype State = State(
    db: Db, made: map<string, seq<Tx>>, pending: map<string, seq<Tx>>,
    histories: map<string, seq<Pass>>, outcomes: map<string, seq<Outcome>>)

  /** A poller begins a pass, for which it looks the object up, or makes its next transaction; or the
      process stops, with whatever its passes have left, and starts again on the same store. */
  datatype Step = Begin(pass: Pass) | Proceed(bucket: string) | Restart

  function Of<T>(m: map<string, seq<T>>, b: string): seq<T> {
    if b in m then m[b] else []
  }

  function CutLast(h: seq<Pass>, todo: seq<Tx>): seq<Pass> {
    if h == [] || todo == [] then h else h[..|h| - 1] + [Cut(h[|h| - 1], todo)]
  }

  /** A poller runs one pass at a time; a step it cannot take changes nothing. */
  function Next(cfg: PostConfig, s: State, step: Step): State {
    match step
    case Begin(p) =>
      var b := p.bucket.name;
      if Of(s.pending, b) != [] then s
      else
        var out := OutcomeIn(cfg, s.db, p);
        State(s.db, s.made[b := []], s.pending[b := TxsOf(p, out)],
          s.histories[b := Of(s.histories, b) + [p]], s.outcomes[b := Of(s.outcomes, b) + [out]])
    case Proceed(b) =>
      var todo := Of(s.pending, b);
      if todo == [] then s
      else s.(db := ApplyTx(s.db, todo[0]), made := s.made[b := Of(s.made, b) + [todo[0]]], pending := s.pending[b := todo[1..]])
    case Restart =>
      State(s.db, map[], map[], map b <- s.histories :: CutLast(s.histories[b], Of(s.pending, b)), s.outcomes)
  }

  function After(cfg: PostConfig, steps: seq<Step>): State {
    if steps == [] then State(Db(map[], map[]), map[], map[], map[], map[])
    else Next(cfg, After(cfg, steps[..|steps| - 1]), steps[|steps| - 1])
  }

  /** The bucket a step is about, if any. */
  function BucketOf(step: Step): string {
    match step
    case Begin(p) => p.bucket.name
    case Proceed(b) => b
    case Restart => ""
  }

  ghost predicate ResultsAre(cfg: PostConfig, h: seq<Pass>, outs: seq<Outcome>) {
    |outs| == |h| && forall i :: 0 <= i < |h| ==> outs[i] == Result(cfg, h, i)
  }

  /** The store holds for this bucket what running its passes alone gives, up to what the running pass has
      still to do; and every pass found what it would have found alone. */
  ghost predicate AsIfAlone(cfg: PostConfig, s: State, b: string) {
    OneAlone(cfg, s.db, Of(s.made, b), Of(s.pending, b), Of(s.histories, b), Of(s.outcomes, b), b)
  }

  ghost predicate OneAlone(cfg: PostConfig, db: Db, made: seq<Tx>, todo: seq<Tx>, h: seq<Pass>, outs: seq<Outcome>, b: string) {
    && (forall tx <- todo :: tx.bucket == b)
    && (forall p <- h :: p.bucket.name == b)
    && ResultsAre(cfg, h, outs)
    && (todo == [] ==> SameView(db, Replay(cfg, h), b))
    && (todo != [] ==>
          && h != [] && TxsOf(h[|h| - 1], outs[|h| - 1]) == made + todo
          && SameView(db, RunTxs(Replay(cfg, h[..|h| - 1]), made), b))
  }

  lemma ViewsChain(x: Db, y: Db, z: Db, b: string)
    requires SameView(x, y, b) && SameView(y, z, b)
    ensures SameView(x, z, b)
  {
  }

  lemma OthersStepIsInvisible(cfg: PostConfig, s: State, step: Step, b: string)
    requires NulFree(b) && NulFree(BucketOf(step)) && !step.Restart? && BucketOf(step) != b
    requires AsIfAlone(cfg, s, b) && AsIfAlone(cfg, s, BucketOf(step))
    ensures AsIfAlone(cfg, Next(cfg, s, step), b)
  {
    hide Replay, ResultsAre, TxsOf, OutcomeIn, RunTxs, ApplyTx, NulFree, SameView;
    var h, made, todo := Of(s.histories, b), Of(s.made, b), Of(s.pending, BucketOf(step));
    if step.Proceed? && todo != [] {
      TxInvisible(s.db, todo[0], b);
      if Of(s.pending, b) == [] {
        ViewsChain(ApplyTx(s.db, todo[0]), s.db, Replay(cfg, h), b);
      } else {
        ViewsChain(ApplyTx(s.db, todo[0]), s.db, RunTxs(Replay(cfg, h[..|h| - 1]), made), b);
      }
    }
  }

  /** What one more pass adds to a bucket's own history. */
  lemma OneMorePass(cfg: PostConfig, h: seq<Pass>, outs: seq<Outcome>, p: Pass, out: Outcome)
    requires ResultsAre(cfg, h, outs) && out == OutcomeIn(cfg, Replay(cfg, h), p)
    ensures Replay(cfg, h + [p]) == AfterPass(cfg, Replay(cfg, h), p)
    ensures ResultsAre(cfg, h + [p], outs + [out])
  {
    hide OutcomeIn, AfterPass;
    assert (h + [p])[..|h|] == h;
    forall i | 0 <= i <= |h| ensures (outs + [out])[i] == Result(cfg, h + [p], i) {
      assert (h + [p])[..i] == h[..i];
      assert h[..|h|] == h;
    }
  }

  lemma BeginKeeps(cfg: PostConfig, db: Db, h: seq<Pass>, outs: seq<Outcome>, p: Pass)
    requires OneAlone(cfg, db, [], [], h, outs, p.bucket.name)
    ensures var out := OutcomeIn(cfg, db, p);
      OneAlone(cfg, db, [], TxsOf(p, out), h + [p], outs + [out], p.bucket.name)
  {
    hide SameView, TxsOf, OutcomeIn, AfterPass, ResultsAre;
    var alone, out, b := Replay(cfg, h), OutcomeIn(cfg, db, p), p.bucket.name;
    SameOutcome(cfg, db, alone, p);
    TxsAreOwn(p, out);
    OneMorePass(cfg, h, outs, p, out);
    PassIsItsTransactions(cfg, alone, p);
    assert (h + [p])[..|h|] == h;
    assert [] + TxsOf(p, out) == TxsOf(p, out);
    hide Replay;
    assert ResultsAre(cfg, h + [p], outs + [out]);
    assert |outs| == |h| by {
      SameLength(cfg, h, outs);
    }
  }

  lemma SameLength(cfg: PostConfig, h: seq<Pass>, outs: seq<Outcome>)
    requires ResultsAre(cfg, h, outs)
    ensures |outs| == |h|
  {
  }

  lemma LastResult(cfg: PostConfig, h: seq<Pass>, outs: seq<Outcome>)
    requires ResultsAre(cfg, h, outs) && h != []
    ensures |outs| == |h| && outs[|h| - 1] == OutcomeIn(cfg, Replay(cfg, h[..|h| - 1]), h[|h| - 1])
  {
  }

  lemma ProceedKeeps(cfg: PostConfig, db: Db, made: seq<Tx>, todo: seq<Tx>, h: seq<Pass>, outs: seq<Outcome>, b: string)
    requires OneAlone(cfg, db, made, todo, h, outs, b) && todo != []
    ensures OneAlone(cfg, ApplyTx(db, todo[0]), made + [todo[0]], todo[1..], h, outs, b)
  {
    hide SameView, TxsOf, OutcomeIn, ApplyTx, ResultsAre;
    var base, t := Replay(cfg, h[..|h| - 1]), [todo[0]];
    SameAfterSame(db, RunTxs(base, made), t, b);
    RunOne(db, t);
    RunConcat(base, made, t);
    assert made + todo == (made + t) + todo[1..];
    LastResult(cfg, h, outs);
    if todo[1..] == [] {
      assert made + t == made + todo;
      PassIsItsTransactions(cfg, base, h[|h| - 1]);
    }
    hide RunTxs;
  }

  lemma RestartKeeps(cfg: PostConfig, db: Db, made: seq<Tx>, todo: seq<Tx>, h: seq<Pass>, outs: seq<Outcome>, b: string)
    requires OneAlone(cfg, db, made, todo, h, outs, b)
    ensures OneAlone(cfg, db, [], [], CutLast(h, todo), outs, b)
  {
    hide SameView, TxsOf, OutcomeIn, AfterPass, ResultsAre, RunTxs, Cut;
    if todo != [] {
      LastResult(cfg, h, outs);
      var rest, p, out := h[..|h| - 1], h[|h| - 1], outs[|h| - 1];
      var base, p' := Replay(cfg, rest), Cut(p, todo);
      CutOutcome(cfg, base, p, todo);
      CutKeepsMade(p, out, made, todo);
      PassIsItsTransactions(cfg, base, p');
      EarlierResults(cfg, h, outs);
      OneMorePass(cfg, rest, outs[..|h| - 1], p', out);
      assert outs == outs[..|h| - 1] + [out];
      SameBucket(p, todo);
      hide Replay;
    }
  }

  lemma SameBucket(p: Pass, todo: seq<Tx>)
    ensures Cut(p, todo).bucket == p.bucket && Cut(p, todo).item == p.item
  {
  }

  lemma EarlierResults(cfg: PostConfig, h: seq<Pass>, outs: seq<Outcome>)
    requires ResultsAre(cfg, h, outs) && h != []
    ensures ResultsAre(cfg, h[..|h| - 1], outs[..|h| - 1])
  {
    hide OutcomeIn, Replay;
    forall i | 0 <= i < |h| - 1 ensures outs[i] == Result(cfg, h[..|h| - 1], i) {
      assert h[..|h| - 1][..i] == h[..i];
    }
  }

  lemma OwnStepKeeps(cfg: PostConfig, s: State, step: Step)
    requires !step.Restart? && AsIfAlone(cfg, s, BucketOf(step))
    ensures AsIfAlone(cfg, Next(cfg, s, step), BucketOf(step))
  {
    hide OneAlone, TxsOf, OutcomeIn, ApplyTx;
    var b := BucketOf(step);
    var made, todo, h, outs := Of(s.made, b), Of(s.pending, b), Of(s.histories, b), Of(s.outcomes, b);
    if todo != [] && step.Proceed? {
      ProceedKeeps(cfg, s.db, made, todo, h, outs, b);
    } else if todo == [] && step.Begin? {
      IdleMade(cfg, s.db, made, h, outs, b);
      BeginKeeps(cfg, s.db, h, outs, step.pass);
    }
  }

  lemma IdleMade(cfg: PostConfig, db: Db, made: seq<Tx>, h: seq<Pass>, outs: seq<Outcome>, b: string)
    requires OneAlone(cfg, db, made, [], h, outs, b)
    ensures OneAlone(cfg, db, [], [], h, outs, b) && SameView(db, Replay(cfg, h), b) && ResultsAre(cfg, h, outs)
  {
  }

  lemma RestartIsInvisible(cfg: PostConfig, s: State, b: string)
    requires AsIfAlone(cfg, s, b)
    ensures AsIfAlone(cfg, Next(cfg, s, Restart), b)
  {
    hide OneAlone, CutLast;
    assert Of(Next(cfg, s, Restart).histories, b) == CutLast(Of(s.histories, b), Of(s.pending, b)) by {
      NothingToCut(Of(s.pending, b));
    }
    RestartKeeps(cfg, s.db, Of(s.made, b), Of(s.pending, b), Of(s.histories, b), Of(s.outcomes, b), b);
  }

  lemma NothingToCut(todo: seq<Tx>)
    ensures CutLast([], todo) == []
  {
  }

  function Proceeds(b: string, n: nat): seq<Step> {
    if n == 0 then [] else Proceeds(b, n - 1) + [Proceed(b)]
  }

  /** A poller that is let run makes all transactions of its pass, whatever state it starts from. */
  lemma {:induction false} PollerFinishes(cfg: PostConfig, steps: seq<Step>, b: string, n: nat)
    requires n <= |Of(After(cfg, steps).pending, b)|
    ensures var s, t := After(cfg, steps), After(cfg, steps + Proceeds(b, n));
      && Of(t.pending, b) == Of(s.pending, b)[n..]
      && t.db == RunTxs(s.db, Of(s.pending, b)[..n])
      && t.histories == s.histories && t.outcomes == s.outcomes
  {
    hide ApplyTx, OutcomeIn, TxsOf, After, Next, RunTxs;
    var s := After(cfg, steps);
    var todo := Of(s.pending, b);
    if n == 0 {
      assert steps + Proceeds(b, 0) == steps;
      RunOne(s.db, todo[..0]);
      assert todo[0..] == todo;
    } else {
      PollerFinishes(cfg, steps, b, n - 1);
      var before, t := steps + Proceeds(b, n - 1), [todo[n - 1]];
      assert steps + Proceeds(b, n) == before + [Proceed(b)];
      OneMore(cfg, before, Proceed(b));
      ProceedOnce(cfg, After(cfg, before), b);
      assert todo[..n] == todo[..n - 1] + t;
      RunConcat(s.db, todo[..n - 1], t);
      RunOne(RunTxs(s.db, todo[..n - 1]), t);
      assert todo[n - 1..][1..] == todo[n..];
    }
  }

  lemma OneMore(cfg: PostConfig, steps: seq<Step>, step: Step)
    ensures After(cfg, steps + [step]) == Next(cfg, After(cfg, steps), step)
  {
    assert (steps + [step])[..|steps|] == steps;
  }

  lemma ProceedOnce(cfg: PostConfig, s: State, b: string)
    requires Of(s.pending, b) != []
    ensures var t, todo := Next(cfg, s, Proceed(b)), Of(s.pending, b);
      t.db == ApplyTx(s.db, todo[0]) && Of(t.pending, b) == todo[1..] && t.histories == s.histories && t.outcomes == s.outcomes
  {
    hide ApplyTx;
  }

  lemma ResultsOfAlone(cfg: PostConfig, s: State, b: string)
    requires AsIfAlone(cfg, s, b)
    ensures ResultsAre(cfg, Of(s.histories, b), Of(s.outcomes, b))
    ensures Of(s.pending, b) == [] ==> SameView(s.db, Replay(cfg, Of(s.histories, b)), b)
  {
  }

  lemma StartIsAlone(cfg: PostConfig, b: string)
    ensures AsIfAlone(cfg, After(cfg, []), b)
  {
  }

  /** For every schedule of single transactions and restarts, every bucket fares, as far as the store goes,
      as if its poller ran alone and without interruption: each of its passes finds what it finds in the
      history of this bucket's passes, and when the poller is between passes its entries and counters are
      exactly those of that history. A pass that a restart cut short counts in it as a pass whose
      remaining transactions failed. */
  lemma {:induction false} EachBucketRunsAlone(cfg: PostConfig, steps: seq<Step>, b: string)
    requires NulFree(b) && forall st <- steps :: NulFree(BucketOf(st))
    ensures AsIfAlone(cfg, After(cfg, steps), b)
    ensures ResultsAre(cfg, Of(After(cfg, steps).histories, b), Of(After(cfg, steps).outcomes, b))
    ensures Of(After(cfg, steps).pending, b) == [] ==>
      SameView(After(cfg, steps).db, Replay(cfg, Of(After(cfg, steps).histories, b)), b)
  {
    hide AsIfAlone, ResultsAre, SameView, Replay, NulFree, Next, BucketOf;
    if steps == [] {
      StartIsAlone(cfg, b);
    } else {
      var before, step := steps[..|steps| - 1], steps[|steps| - 1];
      var s, c := After(cfg, before), BucketOf(step);
      EachBucketRunsAlone(cfg, before, b);
      EachBucketRunsAlone(cfg, before, c);
      if step.Restart? {
        RestartIsInvisible(cfg, s, b);
      } else if c != b {
        OthersStepIsInvisible(cfg, s, step, b);
      } else {
        OwnStepKeeps(cfg, s, step);
      }
    }
    ResultsOfAlone(cfg, After(cfg, steps), b);
  }

  /** Deduplication survives overlap and restarts: in every schedule, between two fully successful passes
      over one version (every file posted, and the mark made) lies a pass over another version of that
      object. */
  lemma DeduplicationUnderOverlap(cfg: PostConfig, steps: seq<Step>, b: string, i: nat, j: nat)
    requires NulFree(b) && forall st <- steps :: NulFree(BucketOf(st))
    requires var s := After(cfg, steps); var h, outs := Of(s.histories, b), Of(s.outcomes, b);
      && i < j < |h| && |outs| == |h| && SameItem(h[i], h[j]) && h[i].item.etag == h[j].item.etag
      && Succeeded(h[i], outs[i]) && Succeeded(h[j], outs[j])
    ensures var h := Of(After(cfg, steps).histories, b);
      exists m :: i < m < j && SameItem(h[m], h[i]) && h[m].item.etag != h[i].item.etag
  {
    hide After, OutcomeIn;
    EachBucketRunsAlone(cfg, steps, b);
    var s := After(cfg, steps);
    AllNamed(cfg, s, b);
    NoVersionTwice(cfg, Of(s.histories, b), i, j);
  }

  lemma AllNamed(cfg: PostConfig, s: State, b: string)
    requires NulFree(b) && AsIfAlone(cfg, s, b)
    ensures Named(Of(s.histories, b))
  {
    hide NulFree;
  }

  /** In every schedule, restarts included, a pass that takes its object for a duplicate follows one over
      the same version, of the same bucket, that had every file answered 2xx and made its mark. */
  lemma DuplicateUnderOverlap(cfg: PostConfig, steps: seq<Step>, b: string, j: nat)
    requires NulFree(b) && forall st <- steps :: NulFree(BucketOf(st))
    requires var s := After(cfg, steps);
      j < |Of(s.histories, b)| == |Of(s.outcomes, b)| && Of(s.outcomes, b)[j].Duplicate?
    ensures var h, outs := Of(After(cfg, steps).histories, b), Of(After(cfg, steps).outcomes, b);
      exists i :: (0 <= i < j && SameItem(h[i], h[j]) && h[i].item.etag == h[j].item.etag
        && Succeeded(h[i], outs[i]) && AllAccepted2xx(cfg, h[i].world))
  {
    hide After, OutcomeIn, AllAccepted2xx;
    EachBucketRunsAlone(cfg, steps, b);
    var s := After(cfg, steps);
    AllNamed(cfg, s, b);
    DuplicateWasPosted(cfg, Of(s.histories, b), j);
  }

  /** The counters of an idle poller's bucket balance, whatever the other pollers are doing, if every
      update of a counter was made (no restart came between). */
  lemma CountersBalanceUnderOverlap(cfg: PostConfig, steps: seq<Step>, b: string)
    requires NulFree(b) && forall st <- steps :: NulFree(BucketOf(st))
    requires Of(After(cfg, steps).pending, b) == [] && StoreWorks(Of(After(cfg, steps).histories, b))
    ensures var s, h := StatsOf(After(cfg, steps).db.stats, b), Of(After(cfg, steps).histories, b);
      var handled, files := Handled(cfg, h, b), TotalFiles(cfg, h, b);
      && BalancedModulo(s, handled, files)
      && (handled < 0x1_0000_0000_0000_0000 && files < 0x1_0000_0000_0000_0000 ==> Balanced(s, handled, files))
  {
    hide After, Handled, TotalFiles, Balanced, BalancedModulo, StoreWorks, Replay, Lookup;
    EachBucketRunsAlone(cfg, steps, b);
    CountersBalance(cfg, Of(After(cfg, steps).histories, b), b);
  }
}
