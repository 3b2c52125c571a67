/** The response cache as a most-recent-first sequence, and what whole runs of it guarantee
    (cmd/dns/internal/dns/cache.go). Times are integer nanoseconds. */
module Lru {
  import opened Messages
  import opened Durations
  import opened Wrappers

  datatype Key = Key(name: string, qtype: nat)
  datatype Slot = Slot(key: Key, msg: Msg, expires: int)

  function Find(s: seq<Slot>, k: Key): (r: Option<Slot>)
    ensures r.Some? <==> exists e <- s :: e.key == k
    ensures r.Some? ==> r.value in s && r.value.key == k
  {
    if s == [] then None else if s[0].key == k then Some(s[0]) else Find(s[1..], k)
  }

  function Drop(s: seq<Slot>, k: Key): seq<Slot> {
    if s == [] then [] else if s[0].key == k then Drop(s[1..], k) else [s[0]] + Drop(s[1..], k)
  }

  /** A lookup at time t: the slot, unless it is missing or expired. */
  function Hit(s: seq<Slot>, k: Key, t: int): Option<Slot> {
    var e := Find(s, k);
    if e.Some? && t <= e.value.expires then e else None
  }

  /** A hit moves to the front; an expired slot is removed. */
  function GetStep(s: seq<Slot>, k: Key, t: int): seq<Slot> {
    if Hit(s, k, t).Some? then [Hit(s, k, t).value] + Drop(s, k) else Drop(s, k)
  }

  /** Push to the front, and evict the last when over capacity. */
  function Inserted(s: seq<Slot>, cap: nat, e: Slot): seq<Slot> {
    if |s| + 1 > cap then ([e] + s)[..|s|] else [e] + s
  }

  /** Overwrite in place and move to the front, or insert. */
  function PutStep(s: seq<Slot>, cap: nat, k: Key, m: Msg, ttl: uint32, t: int): seq<Slot> {
    if ttl == 0 then s
    else
      var e := Slot(k, m, t + ttl * SECOND);
      if Find(s, k).Some? then [e] + Drop(s, k)
      else Inserted(s, cap, e)
  }

  datatype Op = Get(key: Key, t: int) | Put(key: Key, msg: Msg, ttl: uint32, t: int)

  function Step(cap: nat, s: seq<Slot>, op: Op): seq<Slot> {
    match op
    case Get(k, t) => GetStep(s, k, t)
    case Put(k, m, ttl, t) => PutStep(s, cap, k, m, ttl, t)
  }

  /** The cache after a run of operations, in any order and at any times. */
  function Run(cap: nat, ops: seq<Op>): seq<Slot> {
    if ops == [] then [] else Step(cap, Run(cap, ops[..|ops| - 1]), ops[|ops| - 1])
  }

  // ---------------------------------------------------------------- keys and capacity

  ghost predicate Distinct(s: seq<Slot>) {
    forall i, j :: 0 <= i < j < |s| ==> s[i].key != s[j].key
  }

  lemma FrontDistinct(e: Slot, d: seq<Slot>)
    requires Distinct(d) && forall f <- d :: f.key != e.key
    ensures Distinct([e] + d)
  {
    assert forall i :: 0 <= i < |d| ==> d[i] in d;
  }

  lemma {:induction false} DropFacts(s: seq<Slot>, k: Key)
    requires Distinct(s)
    ensures Distinct(Drop(s, k))
    ensures forall e: Slot :: e in Drop(s, k) <==> e in s && e.key != k
    ensures |Drop(s, k)| == if Find(s, k).Some? then |s| - 1 else |s|
    ensures Find(s, k).None? ==> Drop(s, k) == s
  {
    if s != [] {
      DropFacts(s[1..], k);
      assert s == [s[0]] + s[1..];
      assert forall f <- s[1..] :: f.key != s[0].key;
      hide Distinct;
      if s[0].key != k {
        FrontDistinct(s[0], Drop(s[1..], k));
      } else {
        assert Find(s[1..], k).None?;
      }
    }
  }

  lemma StepKeepsBounds(cap: nat, s: seq<Slot>, op: Op)
    requires cap >= 1 && Distinct(s) && |s| <= cap
    ensures Distinct(Step(cap, s, op)) && |Step(cap, s, op)| <= cap
  {
    var d := Drop(s, op.key);
    DropFacts(s, op.key);
    hide Drop, Distinct;
    match op {
      case Get(k, t) =>
        if Hit(s, k, t).Some? {
          FrontDistinct(Hit(s, k, t).value, d);
        }
      case Put(k, m, ttl, t) =>
        if ttl > 0 {
          FrontDistinct(Slot(k, m, t + ttl * SECOND), d);
          if Find(s, k).None? {
            TakeDistinct([Slot(k, m, t + ttl * SECOND)] + s, |s|);
          }
        }
    }
  }

  lemma TakeDistinct(s: seq<Slot>, n: nat)
    requires n <= |s|
    ensures Distinct(s) ==> Distinct(s[..n])
  {
  }

  lemma {:induction false} RunKeepsBounds(cap: nat, ops: seq<Op>)
    requires cap >= 1
    ensures Distinct(Run(cap, ops)) && |Run(cap, ops)| <= cap
  {
    if ops != [] {
      RunKeepsBounds(cap, ops[..|ops| - 1]);
      StepKeepsBounds(cap, Run(cap, ops[..|ops| - 1]), ops[|ops| - 1]);
    }
  }

  // ---------------------------------------------------------------- inclusion between sizes

  ghost predicate Subseq(a: seq<Slot>, b: seq<Slot>) {
    a == [] || (b != [] && ((a[0] == b[0] && Subseq(a[1..], b[1..])) || Subseq(a, b[1..])))
  }

  lemma {:induction false} SubseqMembers(a: seq<Slot>, b: seq<Slot>)
    requires Subseq(a, b)
    ensures |a| <= |b| && forall e <- a :: e in b
  {
    if a != [] {
      if a[0] == b[0] && Subseq(a[1..], b[1..]) {
        SubseqMembers(a[1..], b[1..]);
        assert a == [a[0]] + a[1..];
      } else {
        SubseqMembers(a, b[1..]);
      }
    }
  }

  lemma {:induction false} SubseqDrop(a: seq<Slot>, b: seq<Slot>, k: Key)
    requires Subseq(a, b)
    ensures Subseq(Drop(a, k), Drop(b, k))
  {
    if a != [] {
      if a[0] == b[0] && Subseq(a[1..], b[1..]) {
        SubseqDrop(a[1..], b[1..], k);
      } else {
        SubseqDrop(a, b[1..], k);
      }
      if b[0].key != k {
        assert Drop(b, k)[1..] == Drop(b[1..], k);
        if a[0] == b[0] {
          assert Drop(a, k)[1..] == Drop(a[1..], k);
        }
      }
    }
  }

  /** Cutting the last element off the smaller one alone, or off both. */
  lemma {:induction false} SubseqCut(a: seq<Slot>, b: seq<Slot>)
    requires Subseq(a, b) && a != []
    ensures Subseq(a[..|a| - 1], b) && Subseq(a[..|a| - 1], b[..|b| - 1])
  {
    var a', b' := a[..|a| - 1], b[..|b| - 1];
    if a[0] == b[0] && Subseq(a[1..], b[1..]) {
      if |a| > 1 {
        SubseqCut(a[1..], b[1..]);
        assert a'[1..] == a[1..][..|a| - 2] && b'[1..] == b[1..][..|b| - 2];
        SubseqMembers(a[1..], b[1..]);
      }
    } else {
      SubseqCut(a, b[1..]);
      SubseqMembers(a, b[1..]);
      assert b'[1..] == b[1..][..|b| - 2];
    }
  }

  /** The smaller cache holds a subsequence, and lags by no more than the difference in size. */
  ghost predicate Included(n: nat, m: nat, a: seq<Slot>, b: seq<Slot>) {
    Subseq(a, b) && |b| - |a| <= m - n
  }

  lemma SameKeySameSlot(a: seq<Slot>, b: seq<Slot>, k: Key)
    requires Subseq(a, b) && Distinct(b)
    ensures Find(a, k).Some? ==> Find(a, k) == Find(b, k)
  {
    SubseqMembers(a, b);
  }

  lemma GetKeepsInclusion(n: nat, m: nat, a: seq<Slot>, b: seq<Slot>, k: Key, t: int)
    requires Included(n, m, a, b) && n <= m && Distinct(a) && Distinct(b)
    requires |a| <= n && |b| <= m
    ensures Included(n, m, GetStep(a, k, t), GetStep(b, k, t))
  {
    SameKeySameSlot(a, b, k);
    SubseqDrop(a, b, k);
    DropFacts(a, k);
    DropFacts(b, k);
    var a', b' := GetStep(a, k, t), GetStep(b, k, t);
    if Hit(a, k, t).Some? {
      assert a'[1..] == Drop(a, k) && b'[1..] == Drop(b, k);
    } else if Hit(b, k, t).Some? {
      assert b'[1..] == Drop(b, k);
    }
  }

  lemma PutKeepsInclusion(n: nat, m: nat, a: seq<Slot>, b: seq<Slot>, k: Key, msg: Msg, ttl: uint32, t: int)
    requires 1 <= n <= m && Included(n, m, a, b) && Distinct(a) && Distinct(b)
    requires |a| <= n && |b| <= m
    ensures Included(n, m, PutStep(a, n, k, msg, ttl, t), PutStep(b, m, k, msg, ttl, t))
  {
    SameKeySameSlot(a, b, k);
    SubseqDrop(a, b, k);
    SubseqMembers(a, b);
    DropFacts(a, k);
    DropFacts(b, k);
    var e := Slot(k, msg, t + ttl * SECOND);
    var a1, b1 := [e] + Drop(a, k), [e] + Drop(b, k);
    assert a1[1..] == Drop(a, k) && b1[1..] == Drop(b, k);
    assert Subseq(a1, b1);
    hide Subseq, Drop, Find, Distinct;
    SubseqCut(a1, b1);
  }

  /** LRU inclusion: driven by the same operations at the same times, a cache of size n always holds
      a subsequence of what a cache of size m >= n holds, with equal messages and expiries. */
  lemma {:induction false} Inclusion(n: nat, m: nat, ops: seq<Op>)
    requires 1 <= n <= m
    ensures Included(n, m, Run(n, ops), Run(m, ops))
  {
    if ops != [] {
      var before, op := ops[..|ops| - 1], ops[|ops| - 1];
      Inclusion(n, m, before);
      RunKeepsBounds(n, before);
      RunKeepsBounds(m, before);
      match op {
        case Get(k, t) => GetKeepsInclusion(n, m, Run(n, before), Run(m, before), k, t);
        case Put(k, msg, ttl, t) => PutKeepsInclusion(n, m, Run(n, before), Run(m, before), k, msg, ttl, t);
      }
    }
  }

  /** Every hit in the smaller cache is the same hit in the larger one. */
  lemma HitsCarryOver(n: nat, m: nat, ops: seq<Op>, k: Key, t: int)
    requires 1 <= n <= m && Hit(Run(n, ops), k, t).Some?
    ensures Hit(Run(m, ops), k, t) == Hit(Run(n, ops), k, t)
  {
    Inclusion(n, m, ops);
    RunKeepsBounds(m, ops);
    SameKeySameSlot(Run(n, ops), Run(m, ops), k);
  }

  // ---------------------------------------------------------------- least recently used

  /** Does the operation use the key? A Put with TTL 0 does nothing. */
  predicate Uses(op: Op, k: Key) {
    op.key == k && (op.Put? ==> op.ttl > 0)
  }

  /** One more than the index of the last operation that used the key; 0 if there is none. */
  function LastUse(ops: seq<Op>, k: Key): nat {
    if ops == [] then 0
    else if Uses(ops[|ops| - 1], k) then |ops|
    else LastUse(ops[..|ops| - 1], k)
  }

  /** From front to back, each slot was last used later than all behind it. */
  ghost predicate ByRecency(ops: seq<Op>, s: seq<Slot>) {
    forall i, j :: 0 <= i < j < |s| ==> LastUse(ops, s[i].key) > LastUse(ops, s[j].key)
  }

  lemma {:induction false} DropKeepsRecency(ops: seq<Op>, s: seq<Slot>, k: Key)
    requires Distinct(s) && ByRecency(ops, s)
    ensures ByRecency(ops, Drop(s, k))
  {
    hide LastUse;
    if s != [] {
      var d := Drop(s[1..], k);
      DropKeepsRecency(ops, s[1..], k);
      DropFacts(s[1..], k);
      forall e | e in d ensures LastUse(ops, s[0].key) > LastUse(ops, e.key) {
        var j :| 0 <= j < |s[1..]| && s[1..][j] == e;
        assert s[j + 1] == e;
      }
      InFront(ops, s[0], d);
    }
  }

  lemma InFront(ops: seq<Op>, e: Slot, s: seq<Slot>)
    requires ByRecency(ops, s) && forall f <- s :: LastUse(ops, e.key) > LastUse(ops, f.key)
    ensures ByRecency(ops, [e] + s)
  {
    hide LastUse;
    forall i, j | 0 <= i < j < |[e] + s| ensures LastUse(ops, ([e] + s)[i].key) > LastUse(ops, ([e] + s)[j].key) {
      assert ([e] + s)[j] == s[j - 1] && s[j - 1] in s;
    }
  }

  lemma {:induction false} LastUseBound(ops: seq<Op>, k: Key)
    ensures LastUse(ops, k) <= |ops|
  {
    if ops != [] {
      LastUseBound(ops[..|ops| - 1], k);
    }
  }

  lemma UseMovesToFront(before: seq<Op>, op: Op, s: seq<Slot>)
    requires Distinct(s) && ByRecency(before, s) && Uses(op, op.key)
    ensures ByRecency(before + [op], Drop(s, op.key))
    ensures forall e: Slot :: e.key == op.key ==> ByRecency(before + [op], [e] + Drop(s, op.key))
  {
    var ops, d := before + [op], Drop(s, op.key);
    assert ops[..|before|] == before;
    DropKeepsRecency(before, s, op.key);
    DropFacts(s, op.key);
    forall f | f in d ensures LastUse(ops, f.key) == LastUse(before, f.key) < |ops| {
      LastUseBound(before, f.key);
    }
    assert LastUse(ops, op.key) == |ops|;
    hide LastUse, Drop;
    assert forall i :: 0 <= i < |d| ==> d[i] in d;
    forall e: Slot | e.key == op.key ensures ByRecency(ops, [e] + d) {
      InFront(ops, e, d);
    }
  }

  lemma StepKeepsRecency(before: seq<Op>, op: Op, cap: nat, s: seq<Slot>)
    requires Distinct(s) && ByRecency(before, s)
    ensures ByRecency(before + [op], Step(cap, s, op))
  {
    DropFacts(s, op.key);
    if Uses(op, op.key) {
      UseMovesToFront(before, op, s);
    } else {
      assert (before + [op])[..|before|] == before;
      assert forall k :: LastUse(before + [op], k) == LastUse(before, k);
    }
    hide LastUse, Drop;
  }

  /** The cache is ordered by last use, so the slot that an insertion evicts, the last one, is the
      least recently used of all resident keys. */
  lemma {:induction false} OrderedByLastUse(cap: nat, ops: seq<Op>)
    requires cap >= 1
    ensures ByRecency(ops, Run(cap, ops))
  {
    if ops != [] {
      var before, op := ops[..|ops| - 1], ops[|ops| - 1];
      assert before + [op] == ops;
      OrderedByLastUse(cap, before);
      RunKeepsBounds(cap, before);
      hide ByRecency;
      StepKeepsRecency(before, op, cap, Run(cap, before));
    }
  }

  /** A Put of a new key into a full cache removes exactly the least recently used slot. */
  lemma EvictsLeastRecentlyUsed(cap: nat, ops: seq<Op>, k: Key, msg: Msg, ttl: uint32, t: int)
    requires cap >= 1 && ttl > 0
    requires |Run(cap, ops)| == cap && Find(Run(cap, ops), k).None?
    ensures var s := Run(cap, ops);
      exists v <- s ::
        && (forall e <- s :: e != v ==> LastUse(ops, v.key) < LastUse(ops, e.key))
        && Run(cap, ops + [Put(k, msg, ttl, t)]) == [Slot(k, msg, t + ttl * SECOND)] + Drop(s, v.key)
  {
    var s, op := Run(cap, ops), Put(k, msg, ttl, t);
    OrderedByLastUse(cap, ops);
    RunKeepsBounds(cap, ops);
    DropLast(s);
    assert (ops + [op])[..|ops|] == ops;
    LastIsOldest(ops, s);
    hide Drop, LastUse, Find;
    var e := Slot(k, msg, t + ttl * SECOND);
    assert ([e] + s)[..|s|] == [e] + s[..|s| - 1];
  }

  lemma LastIsOldest(ops: seq<Op>, s: seq<Slot>)
    requires s != [] && ByRecency(ops, s)
    ensures var v := s[|s| - 1]; v in s && forall e <- s :: e != v ==> LastUse(ops, v.key) < LastUse(ops, e.key)
  {
    hide LastUse;
  }

  lemma {:induction false} DropLast(s: seq<Slot>)
    requires s != [] && Distinct(s)
    ensures Drop(s, s[|s| - 1].key) == s[..|s| - 1]
  {
    if |s| > 1 {
      DropLast(s[1..]);
      assert s[..|s| - 1] == [s[0]] + s[1..][..|s| - 2];
    }
  }

  // ---------------------------------------------------------------- what a hit returns

  /** The last Put on the key that stored something. */
  function LatestPut(ops: seq<Op>, k: Key): Option<Op> {
    if ops == [] then None
    else if ops[|ops| - 1].Put? && Uses(ops[|ops| - 1], k) then Some(ops[|ops| - 1])
    else LatestPut(ops[..|ops| - 1], k)
  }

  ghost predicate FromLatestPut(ops: seq<Op>, e: Slot) {
    var p := LatestPut(ops, e.key);
    p.Some? && p.value.Put? && p.value.msg == e.msg && e.expires == p.value.t + p.value.ttl * SECOND && p.value.ttl > 0
  }

  /** Every slot holds the message and expiry of the latest Put on its key. */
  lemma {:induction false} SlotsAreLatestPuts(cap: nat, ops: seq<Op>)
    requires cap >= 1
    ensures forall e <- Run(cap, ops) :: FromLatestPut(ops, e)
  {
    if ops != [] {
      var before, op := ops[..|ops| - 1], ops[|ops| - 1];
      SlotsAreLatestPuts(cap, before);
      RunKeepsBounds(cap, before);
      DropFacts(Run(cap, before), op.key);
    }
  }
}
