/** Queries in flight at the same time: each looks the cache up, may wait for the upstreams, and may
    store what they answered, and these steps of different queries interleave
    (cmd/dns/internal/dns/resolver.go). */
module Traffic {
  import opened Messages
  import opened Durations
  import opened Wrappers
  import opened Lru
  import opened Caching
  import opened Freshness
  import opened Residence
  import opened Resolving

  /** A query arrives and looks the cache up, or the upstreams' outcome for a waiting one arrives. */
  datatype Event = Ask(question: Question, t1: int, t2: int, wild: uint32)
    | Answered(query: nat, upstream: Option<Msg>, t: int)

  /** The cache, the queries that went to the upstreams, and which of them are still waiting. */
  datatype Desk = Desk(slots: seq<Slot>, queries: seq<Question>, waiting: set<nat>)

  predicate Stores(r: Resolver, upstream: Option<Msg>) {
    r.cacheEnabled && upstream.Some? && upstream.value.rcode == SUCCESS
  }

  /** What the event does to the cache: nothing, a lookup or a store. */
  ghost function OpsOf(r: Resolver, s: Desk, ev: Event): seq<Op> {
    match ev
    case Ask(q, t1, _, _) => if r.cacheEnabled then [Get(r.CacheKey(q), t1)] else []
    case Answered(i, up, t) =>
      if i in s.waiting && i < |s.queries| && Stores(r, up)
      then [Put(r.CacheKey(s.queries[i]), up.value, PutTtl(r.ttlOverride, up.value), t)]
      else []
  }

  ghost function Next(r: Resolver, s: Desk, ev: Event): Desk {
    var slots := Apply(r.cache.maxSize, s.slots, OpsOf(r, s, ev));
    match ev
    case Ask(q, t1, _, _) =>
      if r.cacheEnabled && Hit(s.slots, r.CacheKey(q), t1).Some? then s.(slots := slots)
      else Desk(slots, s.queries + [q], s.waiting + {|s.queries|})
    case Answered(i, _, _) => s.(slots := slots, waiting := s.waiting - {i})
  }

  ghost function After(r: Resolver, evs: seq<Event>): Desk {
    if evs == [] then Desk([], [], {}) else Next(r, After(r, evs[..|evs| - 1]), evs[|evs| - 1])
  }

  /** All cache operations of a history, in order. */
  ghost function AllOps(r: Resolver, evs: seq<Event>): seq<Op> {
    if evs == [] then []
    else AllOps(r, evs[..|evs| - 1]) + OpsOf(r, After(r, evs[..|evs| - 1]), evs[|evs| - 1])
  }

  /** A query that meets no other in between does what HandleUpstream does. */
  lemma UndisturbedQuery(r: Resolver, s: Desk, q: Question, w: World)
    requires forall i <- s.waiting :: i < |s.queries|
    ensures var asked := Next(r, s, Ask(q, w.t1, w.t2, w.wild));
      if |asked.queries| == |s.queries| then asked.slots == r.AfterQuery(s.slots, q, w)
      else Next(r, asked, Answered(|s.queries|, w.upstream, w.t3)).slots == r.AfterQuery(s.slots, q, w)
  {
    var cap, k := r.cache.maxSize, r.CacheKey(q);
    var ask := Ask(q, w.t1, w.t2, w.wild);
    ApplyShort(cap, s.slots, r.OpsOfQuery(s.slots, q, w));
    ApplyShort(cap, s.slots, OpsOf(r, s, ask));
    var asked := Next(r, s, ask);
    if |asked.queries| > |s.queries| {
      ApplyShort(cap, asked.slots, OpsOf(r, asked, Answered(|s.queries|, w.upstream, w.t3)));
    }
    hide Step, Hit, PutTtl;
  }

  /** Applying operations after a run is the longer run. */
  lemma {:induction false} ApplyAfterRun(cap: nat, before: seq<Op>, ops: seq<Op>)
    ensures Apply(cap, Run(cap, before), ops) == Run(cap, before + ops)
  {
    if ops == [] {
      assert before + ops == before;
    } else {
      hide Step;
      var rest, all := ops[..|ops| - 1], before + ops;
      assert all[..|all| - 1] == before + rest && all[|all| - 1] == ops[|ops| - 1];
      assert Run(cap, all) == Step(cap, Run(cap, before + rest), ops[|ops| - 1]);
      ApplyAfterRun(cap, before, rest);
    }
  }

  /** Two questions of one type for one name, whatever its case. */
  predicate SameQuestion(r: Resolver, p: Question, q: Question) {
    p.qtype == q.qtype && r.rules.env.lower(p.name) == r.rules.env.lower(q.name)
  }

  /** They share a cache entry, and questions that differ in type or name never do. */
  lemma KeyTellsQuestion(r: Resolver, p: Question, q: Question)
    ensures r.CacheKey(p) == r.CacheKey(q) <==> SameQuestion(r, p, q)
  {
  }

  /** Step j is the upstreams' answer m, with status success and kept, to a query of this question that
      was waiting for it, at time t. */
  ghost predicate StoredAt(r: Resolver, evs: seq<Event>, j: nat, q: Question, m: Msg, t: int) {
    && r.cacheEnabled && j < |evs| && evs[j].Answered? && evs[j].upstream == Some(m) && evs[j].t == t
    && m.rcode == 0 && PutTtl(r.ttlOverride, m) > 0
    && var s := After(r, evs[..j]);
       evs[j].query in s.waiting && evs[j].query < |s.queries| && SameQuestion(r, s.queries[evs[j].query], q)
  }

  /** ... and no later step stored an answer to this question. */
  ghost predicate LastStoredAt(r: Resolver, evs: seq<Event>, j: nat, q: Question, m: Msg, t: int) {
    StoredAt(r, evs, j, q, m, t) && forall i: nat, m', t' :: StoredAt(r, evs, i, q, m', t') ==> i <= j
  }

  lemma StepIsARun(r: Resolver, s: Desk, ev: Event, before: seq<Op>)
    requires s.slots == Run(r.cache.maxSize, before) && FromResolver(r.ttlOverride, before)
    ensures Next(r, s, ev).slots == Run(r.cache.maxSize, before + OpsOf(r, s, ev))
    ensures FromResolver(r.ttlOverride, before + OpsOf(r, s, ev))
  {
    hide PutTtl, Run, Apply;
    ApplyAfterRun(r.cache.maxSize, before, OpsOf(r, s, ev));
  }

  /** However the queries interleave, the cache goes through a run of the kind the TTL results are
      about. */
  lemma {:induction false} QueriesAreARun(r: Resolver, evs: seq<Event>)
    ensures After(r, evs).slots == Run(r.cache.maxSize, AllOps(r, evs))
    ensures FromResolver(r.ttlOverride, AllOps(r, evs))
  {
    if evs != [] {
      hide OpsOf, Next;
      var before, ev := evs[..|evs| - 1], evs[|evs| - 1];
      QueriesAreARun(r, before);
      StepIsARun(r, After(r, before), ev, AllOps(r, before));
    }
  }

  /** Does this step store something under this key? */
  ghost predicate StoresUnder(r: Resolver, s: Desk, ev: Event, k: Key) {
    exists op <- OpsOf(r, s, ev) :: op.Put? && Uses(op, k)
  }

  lemma LatestPutAfter(r: Resolver, s: Desk, ev: Event, before: seq<Op>, k: Key)
    ensures var ops := before + OpsOf(r, s, ev);
      if StoresUnder(r, s, ev, k) then LatestPut(ops, k) == Some(OpsOf(r, s, ev)[0])
      else LatestPut(ops, k) == LatestPut(before, k)
  {
    var own := OpsOf(r, s, ev);
    hide PutTtl;
    if own == [] {
      assert before + own == before;
    } else {
      assert own == [own[0]];
      assert (before + own)[..|before|] == before;
    }
  }

  lemma StoredEarlier(r: Resolver, evs: seq<Event>, i: nat, q: Question, m: Msg, t: int)
    requires evs != [] && i < |evs| - 1
    ensures StoredAt(r, evs, i, q, m, t) <==> StoredAt(r, evs[..|evs| - 1], i, q, m, t)
  {
    assert evs[..|evs| - 1][..i] == evs[..i];
    hide After, PutTtl;
  }

  lemma StoredNow(r: Resolver, evs: seq<Event>, q: Question)
    requires evs != []
    ensures var last := |evs| - 1; var s := After(r, evs[..last]);
      && ((exists m, t :: StoredAt(r, evs, last, q, m, t)) <==> StoresUnder(r, s, evs[last], r.CacheKey(q)))
      && (StoresUnder(r, s, evs[last], r.CacheKey(q)) ==>
           var op := OpsOf(r, s, evs[last])[0]; op.Put? && StoredAt(r, evs, last, q, op.msg, op.t))
  {
    hide After, PutTtl;
    var last := |evs| - 1;
    var s := After(r, evs[..last]);
    if StoresUnder(r, s, evs[last], r.CacheKey(q)) {
      var op := OpsOf(r, s, evs[last])[0];
      assert StoredAt(r, evs, last, q, op.msg, op.t);
    }
    if m, t :| StoredAt(r, evs, last, q, m, t) {
      assert OpsOf(r, s, evs[last])[0] in OpsOf(r, s, evs[last]);
    }
  }

  /** The latest Put under a key is what the last step that stored something under it has stored. */
  lemma {:induction false} LatestPutIsLastStored(r: Resolver, evs: seq<Event>, q: Question)
    requires LatestPut(AllOps(r, evs), r.CacheKey(q)).Some?
    ensures var put := LatestPut(AllOps(r, evs), r.CacheKey(q)).value;
      put.Put? && exists j: nat :: LastStoredAt(r, evs, j, q, put.msg, put.t)
  {
    hide OpsOf, After, StoredAt, StoresUnder, LatestPut, SameQuestion;
    var k := r.CacheKey(q);
    if evs == [] {
      EmptyHasNoPut(k);
    } else {
      var before, last := evs[..|evs| - 1], |evs| - 1;
      LatestPutAfter(r, After(r, before), evs[last], AllOps(r, before), k);
      StoredNow(r, evs, q);
      forall i: nat, m, t | StoredAt(r, evs, i, q, m, t) ensures i <= last {
        StoredInRange(r, evs, i, q, m, t);
      }
      if StoresUnder(r, After(r, before), evs[last], k) {
        var put := LatestPut(AllOps(r, evs), k).value;
        assert LastStoredAt(r, evs, last, q, put.msg, put.t);
      } else {
        LatestPutIsLastStored(r, before, q);
        var put := LatestPut(AllOps(r, before), k).value;
        var j: nat :| LastStoredAt(r, before, j, q, put.msg, put.t);
        StoredInRange(r, before, j, q, put.msg, put.t);
        StoredEarlier(r, evs, j, q, put.msg, put.t);
        forall i: nat, m, t | StoredAt(r, evs, i, q, m, t) ensures i <= j {
          if i < last {
            StoredEarlier(r, evs, i, q, m, t);
          }
        }
        assert LastStoredAt(r, evs, j, q, put.msg, put.t);
      }
    }
  }

  lemma EmptyHasNoPut(k: Key)
    ensures LatestPut([], k).None?
  {
  }

  lemma StoredInRange(r: Resolver, evs: seq<Event>, i: nat, q: Question, m: Msg, t: int)
    requires StoredAt(r, evs, i, q, m, t)
    ensures i < |evs|
  {
  }

  /** The last response stored for this question was not stored later than now, nor, with the override on,
      with a zero TTL. */
  ghost predicate StoredInOrder(r: Resolver, evs: seq<Event>, q: Question, now: int) {
    forall j: nat, m, t :: LastStoredAt(r, evs, j, q, m, t) ==>
      t <= now && (r.ttlOverride ==> forall rr <- Records(m) :: rr.ttl != 0)
  }

  /** End to end: whatever queries came before, however their steps interleaved and went, an answer the
      resolver takes from its cache is the upstreams' last stored answer to a query
      of this type for this name (whatever its case), still within its
      smallest TTL, and every record of it claims at most its original TTL minus its age, up to 238
      nanoseconds if it is kept longer than 2^24 seconds. With the override on this takes that this
      response had no zero TTL. The clock must not have run backwards since it was stored, and the two
      readings must be less than a second apart. */
  lemma CachedAnswersAreSafe(r: Resolver, evs: seq<Event>, q: Question, w: World)
    requires r.cache.maxSize >= 1
    requires r.cacheEnabled && Hit(After(r, evs).slots, r.CacheKey(q), w.t1).Some?
    requires StoredInOrder(r, evs, q, w.t1)
    requires w.t1 <= w.t2 < w.t1 + SECOND
    ensures r.UpstreamReply(After(r, evs).slots, q, w).Cached?
    ensures exists j: nat, m, t ::
      && LastStoredAt(r, evs, j, q, m, t)
      && (forall rr <- Records(m) :: w.t1 - t <= rr.ttl * SECOND)
      && AgedWithin(r.UpstreamReply(After(r, evs).slots, q, w).msg, m, w.t1 - t,
           if PutTtl(r.ttlOverride, m) <= EXACT_TTL then 0 else MAX_EXCESS)
  {
    hide Run, AgedWithin, Records, Answer, Aged, Hit, LastStoredAt, StoredInOrder, After, AllOps, FromResolver, LatestPut, PutTtl;
    var cap, ops, k := r.cache.maxSize, AllOps(r, evs), r.CacheKey(q);
    HitIsCached(r, After(r, evs).slots, q, w);
    QueriesAreARun(r, evs);
    var put := CachedFrom(cap, ops, k, w);
    LatestPutIsLastStored(r, evs, q);
    var j: nat :| LastStoredAt(r, evs, j, q, put.msg, put.t);
    InOrder(r, evs, q, w.t1, j, put.msg, put.t);
    ServedTtlIsSafe(r.ttlOverride, cap, ops, k, w.t1, w.t2, w.wild);
    StoredTtl(r.ttlOverride, ops, put);
  }

  /** And it is served: if the p-th cache operation was the last to store something for this question,
      fewer other questions than the capacity were stored or looked up since, and this one was not looked
      up too late, then the query is answered from the cache if and only if it comes within the TTL the
      response was stored with; otherwise the upstreams decide, and their failure is a server failure. */
  lemma AnsweredFromCacheExactly(r: Resolver, evs: seq<Event>, p: nat, q: Question, w: World)
    requires r.cacheEnabled && r.cache.maxSize >= 1
    requires p < |AllOps(r, evs)| && AllOps(r, evs)[p].Put? && AllOps(r, evs)[p].ttl > 0
    requires AllOps(r, evs)[p].key == Key(r.rules.env.lower(q.name), q.qtype)
    requires Undisturbed(AllOps(r, evs), p)
    requires |OthersUsed(AllOps(r, evs)[p + 1..], AllOps(r, evs)[p].key)| < r.cache.maxSize
    ensures var put := AllOps(r, evs)[p]; var reply := r.UpstreamReply(After(r, evs).slots, q, w);
      if w.t1 <= put.t + put.ttl * SECOND then reply.Cached?
      else if w.upstream.Some? then reply == Forwarded(w.upstream.value)
      else reply == Failure(2)
  {
    var ops := AllOps(r, evs);
    hide AllOps, After, Undisturbed, OthersUsed, Run, Aged;
    QueriesAreARun(r, evs);
    ServedExactlyInTime(r.cache.maxSize, ops, p, w.t1);
  }

  /** With the cache off, the upstreams decide always. */
  lemma WithoutCache(r: Resolver, s: seq<Slot>, q: Question, w: World)
    requires !r.cacheEnabled
    ensures r.UpstreamReply(s, q, w) == if w.upstream.Some? then Forwarded(w.upstream.value) else Failure(2)
    ensures r.AfterQuery(s, q, w) == s
  {
  }

  lemma InOrder(r: Resolver, evs: seq<Event>, q: Question, now: int, j: nat, m: Msg, t: int)
    requires StoredInOrder(r, evs, q, now) && LastStoredAt(r, evs, j, q, m, t)
    ensures t <= now && (r.ttlOverride ==> forall rr <- Records(m) :: rr.ttl != 0)
  {
    hide LastStoredAt;
  }

  lemma StoredTtl(overrideTtl: bool, ops: seq<Op>, put: Op)
    requires FromResolver(overrideTtl, ops) && put in ops && put.Put?
    ensures put.ttl == PutTtl(overrideTtl, put.msg)
  {
  }

  lemma HitIsCached(r: Resolver, s: seq<Slot>, q: Question, w: World)
    requires r.cacheEnabled && Hit(s, r.CacheKey(q), w.t1).Some?
    ensures Answer(s, r.CacheKey(q), w.t1, w.t2, w.wild).Some?
    ensures r.UpstreamReply(s, q, w) == Cached(Answer(s, r.CacheKey(q), w.t1, w.t2, w.wild).value)
  {
    hide Aged, Hit;
  }

  lemma CachedFrom(cap: nat, ops: seq<Op>, k: Key, w: World) returns (put: Op)
    requires cap >= 1 && Answer(Run(cap, ops), k, w.t1, w.t2, w.wild).Some?
    ensures LatestPut(ops, k) == Some(put) && put in ops && put.Put? && put.key == k
  {
    HitComesFromPut(cap, ops, k, w.t1);
    LatestPutIsThere(ops, k);
    put := LatestPut(ops, k).value;
  }
}
