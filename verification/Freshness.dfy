/** How long responses are kept, and how old an answer from the cache can be
    (cmd/dns/internal/dns/resolver.go and minAnswerTTL in cache.go). */
module Freshness {
  import opened Messages
  import opened Durations
  import opened Wrappers
  import opened Lru
  import opened Caching

  const DEFAULT_CACHE_TTL: uint32 := 60

  // ---------------------------------------------------------------- how long to keep a response

  function Records(m: Msg): seq<Record> {
    m.answer + m.ns + m.extra
  }

  /** All three sections count. */
  lemma RecordsAre(m: Msg, r: Record)
    ensures r in Records(m) <==> r in m.answer || r in m.ns || r in m.extra
    ensures |Records(m)| == |m.answer| + |m.ns| + |m.extra|
  {
  }

  function Least(rrs: seq<Record>): uint32 {
    if rrs == [] then MAX_TTL
    else
      var rest := Least(rrs[..|rrs| - 1]);
      if rrs[|rrs| - 1].ttl < rest then rrs[|rrs| - 1].ttl else rest
  }

  lemma {:induction false} LeastIsLeast(rrs: seq<Record>)
    ensures forall r <- rrs :: Least(rrs) <= r.ttl
    ensures Least(rrs) < MAX_TTL ==> exists r <- rrs :: r.ttl == Least(rrs)
  {
    if rrs != [] {
      assert rrs == rrs[..|rrs| - 1] + [rrs[|rrs| - 1]];
      LeastIsLeast(rrs[..|rrs| - 1]);
    }
  }

  /** minAnswerTTL */
  function CacheTtl(m: Msg): uint32 {
    if Least(Records(m)) == MAX_TTL then 0 else Least(Records(m))
  }

  /** How long a response is kept: its smallest TTL; 60 seconds, with the override on, where it would not
      be kept. */
  lemma KeptFor(overrideTtl: bool, m: Msg)
    ensures CacheTtl(m) != 0 ==>
      && PutTtl(overrideTtl, m) == CacheTtl(m)
      && (exists r <- Records(m) :: r.ttl == CacheTtl(m)) && (forall r <- Records(m) :: CacheTtl(m) <= r.ttl)
    ensures CacheTtl(m) == 0 ==> PutTtl(overrideTtl, m) == if overrideTtl then 60 else 0
  {
    LeastIsLeast(Records(m));
  }

  /** A response is not kept (with the override off) exactly if all its TTLs are the largest possible,
      in particular if it has no records, or one of them is 0. */
  lemma NotKeptExactly(m: Msg)
    ensures CacheTtl(m) == 0 <==>
      (forall r <- Records(m) :: r.ttl == MAX_TTL) || (exists r <- Records(m) :: r.ttl == 0)
  {
    hide Records;
    LeastIsLeast(Records(m));
  }

  lemma {:induction false} LeastConcat(a: seq<Record>, b: seq<Record>)
    ensures Least(a + b) == if Least(b) < Least(a) then Least(b) else Least(a)
  {
    if b == [] {
      assert a + b == a;
    } else {
      assert (a + b)[..|a + b| - 1] == a + b[..|b| - 1];
      LeastConcat(a, b[..|b| - 1]);
    }
  }

  method Scan(rrs: seq<Record>, minTtl: uint32) returns (out: uint32)
    ensures out == if Least(rrs) < minTtl then Least(rrs) else minTtl
  {
    out := minTtl;
    for i := 0 to |rrs|
      invariant out == if Least(rrs[..i]) < minTtl then Least(rrs[..i]) else minTtl
    {
      assert rrs[..i + 1][..i] == rrs[..i];
      if rrs[i].ttl < out {
        out := rrs[i].ttl;
      }
    }
    assert rrs[..|rrs|] == rrs;
  }

  /** The least TTL over all three sections; 0 for a response without records (or whose TTLs are all
      the largest possible). */
  method MinAnswerTtl(m: Msg) returns (ttl: uint32)
    ensures ttl == CacheTtl(m)
  {
    ttl := Scan(m.answer, MAX_TTL);
    ttl := Scan(m.ns, ttl);
    ttl := Scan(m.extra, ttl);
    LeastConcat(m.answer, m.ns);
    LeastConcat(m.answer + m.ns, m.extra);
    if ttl == MAX_TTL {
      ttl := 0;
    }
  }

  /** The TTL a response is cached with. */
  function PutTtl(overrideTtl: bool, m: Msg): uint32 {
    if overrideTtl && CacheTtl(m) == 0 then DEFAULT_CACHE_TTL else CacheTtl(m)
  }

  // ---------------------------------------------------------------- TTL safety over whole runs

  /** Every Put stores a successful response under the TTL the resolver derives from it. */
  ghost predicate FromResolver(overrideTtl: bool, ops: seq<Op>) {
    forall op <- ops :: op.Put? ==> op.msg.rcode == SUCCESS && op.ttl == PutTtl(overrideTtl, op.msg)
  }

  lemma {:induction false} LatestPutIsThere(ops: seq<Op>, k: Key)
    requires LatestPut(ops, k).Some?
    ensures LatestPut(ops, k).value in ops && LatestPut(ops, k).value.Put? && LatestPut(ops, k).value.ttl > 0
    ensures LatestPut(ops, k).value.key == k
  {
    if !(ops[|ops| - 1].Put? && Uses(ops[|ops| - 1], k)) {
      LatestPutIsThere(ops[..|ops| - 1], k);
    }
  }

  lemma StampedRecords(m: Msg, ttl: uint32)
    ensures var out := Msg(m.rcode, Stamped(m.answer, ttl), Stamped(m.ns, ttl), Stamped(m.extra, ttl));
      Records(out) == Stamped(Records(m), ttl)
  {
  }

  lemma HitComesFromPut(cap: nat, ops: seq<Op>, k: Key, t1: int)
    requires cap >= 1 && Hit(Run(cap, ops), k, t1).Some?
    ensures var e := Hit(Run(cap, ops), k, t1).value;
      e.key == k && FromLatestPut(ops, e) && LatestPut(ops, k).value in ops && t1 <= e.expires
  {
    SlotsAreLatestPuts(cap, ops);
    LatestPutIsThere(ops, k);
  }

  /** Each record keeps its data, and claims at most its original TTL minus its age, plus the excess in
      nanoseconds. */
  ghost predicate AgedWithin(served: Msg, stored: Msg, age: int, excess: int) {
    && served.rcode == stored.rcode && |Records(served)| == |Records(stored)|
    && |served.answer| == |stored.answer| && |served.ns| == |stored.ns|
    && forall i :: 0 <= i < |Records(stored)| ==>
      Records(served)[i].data == Records(stored)[i].data &&
      Records(served)[i].ttl * SECOND + age <= Records(stored)[i].ttl * SECOND + excess
  }

  ghost predicate AgedSafely(served: Msg, stored: Msg, age: int) {
    AgedWithin(served, stored, age, 0)
  }

  // ---------------------------------------------------------------- one lookup

  /** The most that rounding ever adds, in nanoseconds. */
  const MAX_EXCESS: nat := 238
  /** Up to this TTL rounding adds nothing: 2^24 seconds. */
  const EXACT_TTL: nat := 0x100_0000

  /** What rounding adds that the time between the two clock readings does not make up for. */
  function Excess(expires: int, t1: int, t2: int): nat {
    if Overshoot(expires - t2) > t2 - t1 then Overshoot(expires - t2) - (t2 - t1) else 0
  }

  lemma ExcessIsSmall(expires: int, t1: int, t2: int)
    requires t1 <= t2
    ensures Excess(expires, t1, t2) <= MAX_EXCESS
    ensures expires - t2 <= EXACT_TTL * SECOND ==> Excess(expires, t1, t2) == 0
  {
  }

  /** The TTL served, less than a second past the expiry at the latest. */
  lemma RemainingIs(expires: int, t: int, wild: uint32)
    requires -SECOND < expires - t <= MAX_TTL * SECOND
    ensures var d := expires - t;
      Remaining(expires, t, wild) * SECOND == if d < 0 then 0 else d + Overshoot(d) - (if Overshoot(d) > 0 then 0 else d % SECOND)
  {
    if expires - t >= 0 {
      WholeSeconds(expires - t);
    }
    hide Seconds, Truncate;
  }

  /** A record as served: its data, with the whole seconds that are left, as the conversion gives them. */
  ghost predicate ServedRecordIs(served: Record, stored: Record, left: int) {
    && served.data == stored.data
    && served.ttl == if left < 0 then 0 else left / SECOND + (if SECOND - left % SECOND <= Slack(left / SECOND) then 1 else 0)
  }

  ghost predicate SectionIs(served: seq<Record>, stored: seq<Record>, left: int) {
    |served| == |stored| && forall i :: 0 <= i < |stored| ==> ServedRecordIs(served[i], stored[i], left)
  }

  /** What a lookup returns is what is stored, section by section and record by record, with the time that
      is left, no more and no less. */
  lemma AnswerIs(s: seq<Slot>, k: Key, t1: int, t2: int, wild: uint32)
    requires Hit(s, k, t1).Some?
    requires -SECOND < Hit(s, k, t1).value.expires - t2 <= MAX_TTL * SECOND
    ensures var e, out := Hit(s, k, t1).value, Answer(s, k, t1, t2, wild);
      && out.Some? && out.value.rcode == e.msg.rcode
      && SectionIs(out.value.answer, e.msg.answer, e.expires - t2)
      && SectionIs(out.value.ns, e.msg.ns, e.expires - t2)
      && SectionIs(out.value.extra, e.msg.extra, e.expires - t2)
  {
    var e := Hit(s, k, t1).value;
    if e.expires - t2 >= 0 {
      WholeSeconds(e.expires - t2);
    }
    hide Seconds, Truncate, Slack, Hit;
  }

  /** One record of 60 seconds, read 40 seconds after it was stored, says 20. */
  lemma TwentySecondsLeft(k: Key, data: string)
    ensures var m := Msg(SUCCESS, [Record(data, 60)], [], []);
      Answer([Slot(k, m, 60_000_000_000)], k, 40_000_000_000, 40_000_000_000, 0)
        == Some(Msg(SUCCESS, [Record(data, 20)], [], []))
  {
    var m := Msg(SUCCESS, [Record(data, 60)], [], []);
    var s := [Slot(k, m, 60_000_000_000)];
    AnswerIs(s, k, 40_000_000_000, 40_000_000_000, 0);
    var out := Answer(s, k, 40_000_000_000, 40_000_000_000, 0).value;
    hide Answer;
    assert out.answer == [Record(data, 20)];
  }

  lemma ServedAs(e: Slot, t0: int, t1: int, t2: int, wild: uint32, excess: int)
    requires forall i :: 0 <= i < |Records(e.msg)| ==>
      Remaining(e.expires, t2, wild) * SECOND + (t1 - t0) <= Records(e.msg)[i].ttl * SECOND + excess
    ensures AgedWithin(Aged(e, t2, wild), e.msg, t1 - t0, excess)
  {
    hide Remaining;
    StampedRecords(e.msg, Remaining(e.expires, t2, wild));
  }

  lemma AgedInTime(e: Slot, t0: int, t1: int, t2: int, wild: uint32, excess: int)
    requires e.expires - t0 <= MAX_TTL * SECOND
    requires t0 <= t1 <= t2 < e.expires + SECOND && t1 <= e.expires && excess >= 0
    requires forall r <- Records(e.msg) ::
      e.expires - t0 + Excess(e.expires, t1, t2) <= r.ttl * SECOND + excess
    ensures AgedWithin(Aged(e, t2, wild), e.msg, t1 - t0, excess)
  {
    RemainingIs(e.expires, t2, wild);
    hide Remaining, Slack;
    forall i | 0 <= i < |Records(e.msg)|
      ensures Remaining(e.expires, t2, wild) * SECOND + (t1 - t0) <= Records(e.msg)[i].ttl * SECOND + excess
    {
      assert Records(e.msg)[i] in Records(e.msg);
    }
    ServedAs(e, t0, t1, t2, wild, excess);
  }

  /** The TTL of record i as served. */
  lemma ServedRecord(e: Slot, t: int, wild: uint32, i: nat)
    requires i < |Records(e.msg)|
    ensures |Records(Aged(e, t, wild))| == |Records(e.msg)|
    ensures Records(Aged(e, t, wild))[i].ttl == Remaining(e.expires, t, wild)
  {
    hide Remaining;
    StampedRecords(e.msg, Remaining(e.expires, t, wild));
  }

  lemma ServedTooLong(e: Slot, t: int, wild: uint32, i: nat, age: int)
    requires i < |Records(e.msg)| && Remaining(e.expires, t, wild) * SECOND + age > Records(e.msg)[i].ttl * SECOND
    ensures !AgedSafely(Aged(e, t, wild), e.msg, age)
  {
    hide Remaining, Aged;
    ServedRecord(e, t, wild, i);
  }

  /** One lookup, exactly. The code reads the clock twice and converts through a double. For a stored
      entry with a record below the largest TTL, what is served is safe for every value the out-of-range
      conversion may yield if and only if the second reading is less than a second past the expiry and
      the excess stays within what the entry was stored short of its smallest TTL. */
  lemma SafeExactlyInTime(e: Slot, t0: int, t1: int, t2: int)
    requires e.expires - t0 <= Least(Records(e.msg)) * SECOND
    requires exists r <- Records(e.msg) :: r.ttl < MAX_TTL
    requires t0 <= t1 <= t2 && t1 <= e.expires
    ensures (forall wild: uint32 :: AgedSafely(Aged(e, t2, wild), e.msg, t1 - t0)) <==>
      t2 < e.expires + SECOND &&
      Excess(e.expires, t1, t2) <= Least(Records(e.msg)) * SECOND - (e.expires - t0)
  {
    var rrs := Records(e.msg);
    LeastIsLeast(rrs);
    var i :| 0 <= i < |rrs| && rrs[i].ttl == Least(rrs);
    if t2 >= e.expires + SECOND {
      assert Remaining(e.expires, t2, MAX_TTL) == MAX_TTL;
      hide Remaining, Aged, AgedSafely, Least, Excess;
      ServedTooLong(e, t2, MAX_TTL, i, t1 - t0);
    } else if Excess(e.expires, t1, t2) > Least(rrs) * SECOND - (e.expires - t0) {
      hide Remaining, Aged, AgedSafely, Least, Slack;
      RemainingIs(e.expires, t2, 0);
      ServedTooLong(e, t2, 0, i, t1 - t0);
    } else {
      hide Remaining, Aged, Excess, Least;
      forall wild: uint32 ensures AgedSafely(Aged(e, t2, wild), e.msg, t1 - t0) {
        AgedInTime(e, t0, t1, t2, wild, 0);
      }
    }
  }

  /** A record of one second, read at its expiry and a second later, may come out with any TTL. */
  lemma LateReadingIsUnsafe(k: Key)
    ensures var m := Msg(SUCCESS, [Record("192.0.2.1", 1)], [], []);
      var e := Slot(k, m, SECOND);
      && CacheTtl(m) == 1
      && Aged(e, 2 * SECOND, MAX_TTL).answer[0].ttl == MAX_TTL
      && !AgedSafely(Aged(e, 2 * SECOND, MAX_TTL), m, SECOND)
  {
    var m := Msg(SUCCESS, [Record("192.0.2.1", 1)], [], []);
    var e := Slot(k, m, SECOND);
    assert Records(m) == m.answer && Records(m)[..0] == [];
    StampedRecords(m, MAX_TTL);
    assert Remaining(SECOND, 2 * SECOND, MAX_TTL) == MAX_TTL;
    assert Records(Aged(e, 2 * SECOND, MAX_TTL))[0].ttl == MAX_TTL;
  }

  // ---------------------------------------------------------------- one entry at all times

  /** An entry stored at t0 and looked up at t1 and t2: what is served if both readings are in time. */
  ghost predicate SafeAt(e: Slot, t0: int, t1: int, t2: int, wild: uint32, excess: int) {
    t0 <= t1 <= t2 < t1 + SECOND && t1 <= e.expires ==> AgedWithin(Aged(e, t2, wild), e.msg, t1 - t0, excess)
  }

  lemma PutTtlWithin(overrideTtl: bool, m: Msg)
    ensures (forall r <- Records(m) :: r.ttl != 0) ==> forall r <- Records(m) :: PutTtl(overrideTtl, m) <= r.ttl
    ensures !overrideTtl ==> forall r <- Records(m) :: PutTtl(overrideTtl, m) <= r.ttl
    ensures PutTtl(overrideTtl, m) > DEFAULT_CACHE_TTL ==> exists r <- Records(m) :: r.ttl == PutTtl(overrideTtl, m)
  {
    LeastIsLeast(Records(m));
  }

  lemma UnsafeRightAway(e: Slot, t0: int, i: nat, excess: int)
    requires excess < SECOND && i < |Records(e.msg)| && Records(e.msg)[i].ttl == 0
    requires t0 + SECOND <= e.expires <= t0 + MAX_TTL * SECOND
    ensures !SafeAt(e, t0, t0, t0, 0, excess)
  {
    RemainingIs(e.expires, t0, 0);
    ServedRecord(e, t0, 0, i);
    hide Remaining, Slack, Aged;
  }

  lemma UnsafeByRounding(e: Slot, t0: int, i: nat)
    requires i < |Records(e.msg)| && Records(e.msg)[i].ttl > EXACT_TTL
    requires e.expires == t0 + Records(e.msg)[i].ttl * SECOND
    ensures !SafeAt(e, t0, t0 + 1, t0 + 1, 0, 0)
  {
    var t, ttl := t0 + 1, Records(e.msg)[i].ttl;
    assert e.expires - t == (ttl - 1) * SECOND + (SECOND - 1);
    RemainingIs(e.expires, t, 0);
    ServedRecord(e, t, 0, i);
    hide Remaining, Aged;
  }

  lemma SafeAtAllTimes(overrideTtl: bool, k: Key, m: Msg, t0: int, t1: int, t2: int, wild: uint32, excess: int)
    requires PutTtl(overrideTtl, m) > 0 && forall r <- Records(m) :: r.ttl != 0
    requires excess >= if PutTtl(overrideTtl, m) <= EXACT_TTL then 0 else MAX_EXCESS
    ensures SafeAt(Slot(k, m, t0 + PutTtl(overrideTtl, m) * SECOND), t0, t1, t2, wild, excess)
  {
    var e := Slot(k, m, t0 + PutTtl(overrideTtl, m) * SECOND);
    PutTtlWithin(overrideTtl, m);
    hide PutTtl, Excess;
    if t0 <= t1 <= t2 < t1 + SECOND && t1 <= e.expires {
      ExcessIsSmall(e.expires, t1, t2);
      AgedInTime(e, t0, t1, t2, wild, excess);
    }
  }

  /** One stored response, exactly. Whatever the clock readings (less than a second apart, the first
      within the lifetime) and the out-of-range conversion: every answer served from it is safe, if and
      only if no record had TTL 0 and it was stored for at most 2^24 seconds; and safe up to 238
      nanoseconds if and only if no record had TTL 0. A zero TTL is stored only with the override on, and
      is then wrong at once; a longer life is wrong one nanosecond after the store, when the double rounds
      up. */
  lemma StoredIsSafeExactly(overrideTtl: bool, k: Key, m: Msg, t0: int)
    requires PutTtl(overrideTtl, m) > 0
    ensures var e := Slot(k, m, t0 + PutTtl(overrideTtl, m) * SECOND);
      && ((forall t1, t2, wild :: SafeAt(e, t0, t1, t2, wild, 0)) <==>
          (forall r <- Records(m) :: r.ttl != 0) && PutTtl(overrideTtl, m) <= EXACT_TTL)
      && ((forall t1, t2, wild :: SafeAt(e, t0, t1, t2, wild, MAX_EXCESS)) <==>
          (forall r <- Records(m) :: r.ttl != 0))
  {
    var ttl := PutTtl(overrideTtl, m);
    var e := Slot(k, m, t0 + ttl * SECOND);
    if i :| 0 <= i < |Records(m)| && Records(m)[i].ttl == 0 {
      hide PutTtl, Excess, SafeAt;
      UnsafeRightAway(e, t0, i, 0);
      UnsafeRightAway(e, t0, i, MAX_EXCESS);
    } else {
      forall t1, t2, wild
        ensures SafeAt(e, t0, t1, t2, wild, MAX_EXCESS)
        ensures ttl <= EXACT_TTL ==> SafeAt(e, t0, t1, t2, wild, 0)
      {
        SafeAtAllTimes(overrideTtl, k, m, t0, t1, t2, wild, MAX_EXCESS);
        if ttl <= EXACT_TTL {
          SafeAtAllTimes(overrideTtl, k, m, t0, t1, t2, wild, 0);
        }
      }
      if ttl > EXACT_TTL {
        PutTtlWithin(overrideTtl, m);
        var i :| 0 <= i < |Records(m)| && Records(m)[i].ttl == ttl;
        hide PutTtl, Excess, SafeAt;
        UnsafeByRounding(e, t0, i);
      }
    }
  }

  /** With the override on, where every response with status success is stored. */
  lemma OverrideIsSafeExactly(k: Key, m: Msg, t0: int)
    ensures var e := Slot(k, m, t0 + PutTtl(true, m) * SECOND);
      && ((forall t1, t2, wild :: SafeAt(e, t0, t1, t2, wild, MAX_EXCESS)) <==> (forall r <- Records(m) :: r.ttl != 0))
      && (PutTtl(true, m) <= EXACT_TTL ==>
          ((forall t1, t2, wild :: SafeAt(e, t0, t1, t2, wild, 0)) <==> (forall r <- Records(m) :: r.ttl != 0)))
  {
    StoredIsSafeExactly(true, k, m, t0);
  }

  /** 2^25 seconds, a nanosecond after the store, still come out as 2^25. */
  lemma RoundingExample()
    ensures Remaining(0x200_0000 * SECOND, 1, 0) == 0x200_0000
  {
    var d := 0x200_0000 * SECOND - 1;
    assert d / SECOND == 0x1ff_ffff && d % SECOND == SECOND - 1;
    WholeSeconds(d);
    hide Seconds, Truncate;
  }

  // ---------------------------------------------------------------- whole runs

  /** Over any run of lookups and stores, with the override off, or on and the latest Put without a zero
      TTL: a response served from the cache was stored by the latest Put on its key; it is never served
      once the smallest original TTL has passed, and no record claims more time than its original TTL
      minus the time since it was stored (section 3.2.1 of RFC 1035), up to 238 nanoseconds of rounding
      for responses kept longer than 2^24 seconds. The clock must not run backwards past the store, and
      the two readings of one lookup must be less than a second apart. */
  lemma ServedTtlIsSafe(overrideTtl: bool, cap: nat, ops: seq<Op>, k: Key, t1: int, t2: int, wild: uint32)
    requires cap >= 1 && FromResolver(overrideTtl, ops)
    requires Answer(Run(cap, ops), k, t1, t2, wild).Some?
    requires LatestPut(ops, k).Some? ==>
      (var put := LatestPut(ops, k).value;
       put.t <= t1 <= t2 < t1 + SECOND && (overrideTtl && put.Put? ==> forall r <- Records(put.msg) :: r.ttl != 0))
    ensures LatestPut(ops, k).Some?
    ensures var put := LatestPut(ops, k).value;
      && put in ops && put.Put?
      && (forall r <- Records(put.msg) :: t1 - put.t <= r.ttl * SECOND)
      && AgedWithin(Answer(Run(cap, ops), k, t1, t2, wild).value, put.msg, t1 - put.t,
           if put.ttl <= EXACT_TTL then 0 else MAX_EXCESS)
  {
    HitComesFromPut(cap, ops, k, t1);
    var e, put := Hit(Run(cap, ops), k, t1).value, LatestPut(ops, k).value;
    PutTtlWithin(overrideTtl, put.msg);
    ExcessIsSmall(e.expires, t1, t2);
    hide PutTtl, Excess, Run;
    AgedInTime(e, put.t, t1, t2, wild, if put.ttl <= EXACT_TTL then 0 else MAX_EXCESS);
  }
}
