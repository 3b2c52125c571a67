/** Answering a query from rules, fake addresses, cache and upstreams
    (cmd/dns/internal/dns/resolver.go). */
module Resolving {
  import opened Rules
  import opened Matching
  import opened Lookups
  import opened Messages
  import opened Wrappers
  import opened Lru
  import opened Caching
  import opened Freshness
  import opened FakeIps
  import opened Labels
  import opened Numbers

  // ---------------------------------------------------------------- the resolver

  datatype Question = Question(name: string, qtype: nat)

  const TYPE_A: nat := 1
  const TYPE_AAAA: nat := 28

  /** An error reply, a fake reply (with or without an address), a cached or a forwarded response. */
  datatype Response = Failure(rcode: nat) | Fake(addr: Option<seq<byte>>) | Cached(msg: Msg) | Forwarded(msg: Msg)

  /** What the outside world does during one query: two clock readings for the lookup, the outcome of
      the upstream race (None is an error), and the clock reading for the store. */
  datatype World = World(t1: int, t2: int, wild: uint32, upstream: Option<Msg>, t3: int)

  ghost predicate SomeRule(env: Env, log: seq<Rule>, d: string, action: string) {
    exists r <- log :: Matches(env, r, d) && r.action == action
  }

  class Resolver {
    const rules: Matcher
    const fakeip: FakeIpPool
    const cache: DnsCache
    const cacheEnabled: bool
    const ttlOverride: bool

    constructor (rules: Matcher, fakeip: FakeIpPool, cache: DnsCache, cacheEnabled: bool, ttlOverride: bool)
      ensures this.rules == rules && this.fakeip == fakeip && this.cache == cache
      ensures this.cacheEnabled == cacheEnabled && this.ttlOverride == ttlOverride
    {
      this.rules, this.fakeip, this.cache := rules, fakeip, cache;
      this.cacheEnabled, this.ttlOverride := cacheEnabled, ttlOverride;
    }

    ghost predicate Valid()
      reads rules, rules.nodes.Values, fakeip, cache
    {
      rules.Valid() && fakeip.Valid() && cache.Valid()
    }

    /** The name as the matcher sees it. */
    function MatchName(q: Question): string {
      rules.env.Norm(rules.env.lower(q.name))
    }

    function CacheKey(q: Question): Key {
      Key(rules.env.lower(q.name), q.qtype)
    }

    method MaybeCache(q: Question, resp: Msg, t: int)
      requires cache.Valid()
      modifies cache, cache.lru
      ensures cache.Valid()
      ensures cache.Model() == if cacheEnabled && resp.rcode == SUCCESS
        then PutStep(old(cache.Model()), cache.maxSize, CacheKey(q), resp, PutTtl(ttlOverride, resp), t)
        else old(cache.Model())
    {
      if !cacheEnabled {
        return;
      }
      if resp.rcode != SUCCESS {
        return;
      }
      var ttl := MinAnswerTtl(resp);
      if ttlOverride && ttl == 0 {
        ttl := DEFAULT_CACHE_TTL;
      }
      cache.Put(rules.env.lower(q.name), q.qtype, Some(resp), ttl, t);
    }

    /** A cached answer if there is one, else the upstreams' message, else a server failure. */
    ghost function UpstreamReply(s: seq<Slot>, q: Question, w: World): Response {
      var hit := if cacheEnabled then Answer(s, CacheKey(q), w.t1, w.t2, w.wild) else None;
      if hit.Some? then Cached(hit.value)
      else if w.upstream.None? then Failure(SERVER_FAILURE)
      else Forwarded(w.upstream.value)
    }

    /** Serve from the cache if possible, otherwise forward and maybe store. */
    method HandleUpstream(q: Question, w: World) returns (resp: Response)
      requires cache.Valid()
      modifies cache, cache.lru
      ensures cache.Valid()
      ensures resp == UpstreamReply(old(cache.Model()), q, w)
      ensures cache.Model() == AfterQuery(old(cache.Model()), q, w)
    {
      hide Bijective, Slots, GetStep, PutStep, CacheTtl, Aged;
      if cacheEnabled {
        ApplyShort(cache.maxSize, cache.Model(), OpsOfQuery(cache.Model(), q, w));
        var cached := cache.Get(rules.env.lower(q.name), q.qtype, w.t1, w.t2, w.wild);
        if cached.Some? {
          return Cached(cached.value);
        }
      }
      if w.upstream.None? {
        return Failure(SERVER_FAILURE);
      }
      assert forall i :: 0 <= i < |cache.lru| ==> cache.lru[i] in old(cache.lru);
      MaybeCache(q, w.upstream.value, w.t3);
      return Forwarded(w.upstream.value);
    }

    /** The operations one forwarded or cached query performs on the cache. */
    ghost function OpsOfQuery(s: seq<Slot>, q: Question, w: World): seq<Op> {
      if !cacheEnabled then
        []
      else if Hit(s, CacheKey(q), w.t1).None? && w.upstream.Some? && w.upstream.value.rcode == SUCCESS then
        [Get(CacheKey(q), w.t1), Put(CacheKey(q), w.upstream.value, PutTtl(ttlOverride, w.upstream.value), w.t3)]
      else
        [Get(CacheKey(q), w.t1)]
    }

    ghost function AfterQuery(s: seq<Slot>, q: Question, w: World): seq<Slot> {
      Apply(cache.maxSize, s, OpsOfQuery(s, q, w))
    }

    /** A fake address for a type whose range is configured, otherwise an empty answer. */
    ghost function FakeReply(q: Question): (r: Response)
      reads fakeip
      ensures r.Fake?
    {
      var hash := fakeip.hash(fakeip.lower(TrimDot(rules.env.lower(q.name))));
      Fake(
        if q.qtype == TYPE_A && fakeip.hasV4 then Some(FakeV4(fakeip.v4Base, fakeip.v4Size, hash))
        else if q.qtype == TYPE_AAAA && fakeip.hasV6 then Some(FakeV6(fakeip.v6Base, fakeip.v6Size, hash))
        else None)
    }

    method FakeResponse(q: Question) returns (resp: Response)
      requires fakeip.Valid()
      modifies fakeip`v4Cache, fakeip`v6Cache
      ensures fakeip.Valid() && resp == FakeReply(q)
      ensures q.qtype == 1 && fakeip.hasV4 ==>
        resp.addr.Some? && |resp.addr.value| == 4 && fakeip.IsFakeV4(resp.addr.value)
        && var h, size := fakeip.hash(fakeip.lower(TrimDot(rules.env.lower(q.name)))), fakeip.v4Size;
           FromBytes(resp.addr.value) == fakeip.v4Base + (if size >= 4 then 1 + h % (size - 2) else h % size)
      ensures q.qtype == 28 && fakeip.hasV6 ==>
        resp.addr.Some? && |resp.addr.value| == 16
        && FromBytes(resp.addr.value) ==
             fakeip.v6Base + fakeip.hash(fakeip.lower(TrimDot(rules.env.lower(q.name)))) % fakeip.v6Size
      ensures !(q.qtype == 1 && fakeip.hasV4) && !(q.qtype == 28 && fakeip.hasV6) ==> resp.addr.None?
    {
      hide FakeV4, FakeV6, FromBytes, RangeOk;
      var name := rules.env.lower(q.name);
      if q.qtype == TYPE_A {
        if !fakeip.hasV4 {
          return Fake(None);
        }
        var addr := fakeip.ForA(name);
        return Fake(Some(addr));
      } else if q.qtype == TYPE_AAAA {
        if !fakeip.hasV6 {
          return Fake(None);
        }
        var addr := fakeip.ForAAAA(name);
        return Fake(Some(addr));
      }
      return Fake(None);
    }

    /** block beats fakeip beats everything else: a query with a matching block rule is refused; one
        with a matching fakeip rule and no block rule gets a fake reply; only the others ever touch the
        cache or the upstreams. */
    method Handle(questions: seq<Question>, w: World) returns (resp: Response)
      requires Valid()
      modifies cache, cache.lru, fakeip`v4Cache, fakeip`v6Cache
      ensures Valid()
      ensures questions == [] ==> resp == Failure(1) && cache.Model() == old(cache.Model())
      ensures questions != [] ==> (var d := MatchName(questions[0]);
        && (SomeRule(rules.env, rules.log, d, "block") ==>
          resp == Failure(3) && cache.Model() == old(cache.Model()))
        && (SomeRule(rules.env, rules.log, d, "fakeip") && !SomeRule(rules.env, rules.log, d, "block") ==>
          resp == FakeReply(questions[0]) && cache.Model() == old(cache.Model()))
        && (!SomeRule(rules.env, rules.log, d, "fakeip") && !SomeRule(rules.env, rules.log, d, "block") ==>
          && resp == UpstreamReply(old(cache.Model()), questions[0], w)
          && cache.Model() == AfterQuery(old(cache.Model()), questions[0], w)))
    {
      hide Shape, Filled, FullAgrees, ListsAgree, StatsAgree, Bijective, Slots, FlatScan, IsBest, RangeOk, FakeV4, FakeV6;
      if questions == [] {
        return Failure(FORMAT_ERROR);
      }
      var q := questions[0];
      var best := rules.Lookup(rules.env.lower(q.name));
      PartsAccepted(rules.log, rules.full, rules.keywords, rules.regexps, rules.stats);
      WinnerTellsRules(rules.env, rules.log, MatchName(q));
      hide SomeRule, PartsAgree;
      if best.matched && best.action != "direct" {
        if best.action == "block" {
          return Failure(NAME_ERROR);
        }
        resp := FakeResponse(q);
        return;
      }
      resp := HandleUpstream(q, w);
    }
  }

  /** The name a rule has to match is the name asked for, lower-cased, without a final dot. */
  lemma MatchNameIs(r: Resolver, q: Question)
    ensures r.MatchName(q) == r.rules.env.lower(TrimDot(r.rules.env.lower(q.name)))
  {
  }

  /** The name a question asks for, as the rules see it: lower-cased, without its final dot. */
  lemma NameAsked(r: Resolver, q: Question, name: string)
    requires LowerCases(r.rules.env.lower) && !EndsInDot(name) && (q.name == name || q.name == name + ".")
    ensures r.MatchName(q) == r.rules.env.lower(name)
  {
    var lower := r.rules.env.lower;
    TrimDotIs(name);
    assert lower(TrimDot(lower(q.name))) == lower(lower(TrimDot(q.name)));
  }

  /** A suffix rule applies to questions for its domain and for any name below it. */
  lemma SuffixRuleMeetsQuestion(r: Resolver, q: Question, d: string, x: string, action: string, tag: string, source: string)
    requires LowerCases(r.rules.env.lower) && LowersParts(r.rules.env.lower) && d != "" && !EndsInDot(d)
    requires Rule(Suffix, r.rules.env.lower(d), action, tag, source) in r.rules.log
    requires q.name == d + "." || q.name == x + "." + d + "."
    ensures SomeRule(r.rules.env, r.rules.log, r.MatchName(q), action)
  {
    var env, rule := r.rules.env, Rule(Suffix, r.rules.env.lower(d), action, tag, source);
    if q.name == d + "." {
      NameAsked(r, q, d);
      SuffixIs(env.lower(d), env.lower(d));
    } else {
      var name := x + "." + d;
      assert name[|name| - 1] == d[|d| - 1];
      NameAsked(r, q, name);
      SuffixIs(env.lower(name), env.lower(d));
    }
    hide HasSuffix;
    assert Matches(env, rule, r.MatchName(q));
  }

  /** Applying operations one by one. */
  function Apply(cap: nat, s: seq<Slot>, ops: seq<Op>): seq<Slot> {
    if ops == [] then s else Step(cap, Apply(cap, s, ops[..|ops| - 1]), ops[|ops| - 1])
  }

  lemma ApplyShort(cap: nat, s: seq<Slot>, ops: seq<Op>)
    ensures |ops| == 1 ==> Apply(cap, s, ops) == Step(cap, s, ops[0])
    ensures |ops| == 2 ==> Apply(cap, s, ops) == Step(cap, Step(cap, s, ops[0]), ops[1])
  {
    if |ops| == 2 {
      assert ops[..1][..0] == [];
    }
  }

  /** The winning action, in terms of the rules that match. */
  lemma WinnerTellsRules(env: Env, log: seq<Rule>, d: string)
    requires AllAccepted(log)
    ensures var w := FlatScan(env, log, d);
      && (w.action == "block" <==> SomeRule(env, log, d, "block"))
      && (w.action == "fakeip" <==> SomeRule(env, log, d, "fakeip") && !SomeRule(env, log, d, "block"))
      && (w.matched <==> w.action == "block" || w.action == "fakeip" || w.action == "direct")
  {
    NothingOutranks(env, log, d);
  }
}
