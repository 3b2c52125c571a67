/** When a cached response is served: how long it stays, and the only ways in which it goes
    (cmd/dns/internal/dns/cache.go). */
module Residence {
  import opened Messages
  import opened Durations
  import opened Wrappers
  import opened Lru

  /** Keys other than k that were stored or looked up. */
  function OthersUsed(ops: seq<Op>, k: Key): set<Key> {
    set op <- ops | op.key != k && Uses(op, op.key) :: op.key
  }

  /** The slot is there, and only these keys are in front of it. */
  ghost predicate Resides(s: seq<Slot>, e: Slot, others: set<Key>) {
    exists i :: ResidesAt(s, e, others, i)
  }

  ghost predicate ResidesAt(s: seq<Slot>, e: Slot, others: set<Key>, i: int) {
    0 <= i < |s| && s[i] == e && forall j :: 0 <= j < i ==> s[j].key in others
  }

  lemma {:induction false} FoundIfThere(s: seq<Slot>, e: Slot)
    requires Distinct(s) && e in s
    ensures Find(s, e.key) == Some(e)
  {
    if s[0] != e {
      assert e in s[1..];
      assert forall f <- s[1..] :: f.key != s[0].key;
      FoundIfThere(s[1..], e);
    }
  }

  lemma {:induction false} DropKeepsResident(s: seq<Slot>, e: Slot, others: set<Key>, i: nat, k: Key)
    requires ResidesAt(s, e, others, i) && k != e.key
    ensures Resides(Drop(s, k), e, others)
  {
    if i == 0 {
      assert ResidesAt(Drop(s, k), e, others, 0);
    } else {
      assert s[1..][i - 1] == e && forall j :: 0 <= j < i - 1 ==> s[1..][j] == s[j + 1];
      DropKeepsResident(s[1..], e, others, i - 1, k);
      if s[0].key != k {
        var j :| ResidesAt(Drop(s[1..], k), e, others, j);
        MovedBack(Drop(s[1..], k), e, others, j, s[0]);
      }
    }
  }

  lemma MovedBack(s: seq<Slot>, e: Slot, others: set<Key>, i: nat, f: Slot)
    requires ResidesAt(s, e, others, i) && f.key in others
    ensures ResidesAt([f] + s, e, others, i + 1)
  {
  }

  lemma MoreOthers(s: seq<Slot>, e: Slot, others: set<Key>, more: set<Key>)
    requires Resides(s, e, others) && others <= more
    ensures Resides(s, e, more)
  {
    var i :| ResidesAt(s, e, others, i);
    assert ResidesAt(s, e, more, i);
  }

  /** Distinct keys drawn from a set are no more than the set has. */
  lemma {:induction false} FewInFront(s: seq<Slot>, n: nat, others: set<Key>)
    requires Distinct(s) && n <= |s| && forall j :: 0 <= j < n ==> s[j].key in others
    ensures n <= |others|
  {
    if n > 0 {
      var k := s[n - 1].key;
      forall j | 0 <= j < n - 1 ensures s[j].key in others - {k} {
      }
      FewInFront(s, n - 1, others - {k});
    }
  }

  /** One operation on another key leaves the slot in place, while the keys in front are fewer than the
      capacity. */
  lemma OtherOpKeeps(cap: nat, s: seq<Slot>, op: Op, e: Slot, others: set<Key>)
    requires Distinct(s) && |s| <= cap && Resides(s, e, others) && op.key != e.key
    requires (Uses(op, op.key) ==> op.key in others) && |others| < cap
    ensures Resides(Step(cap, s, op), e, others)
  {
    hide Resides, Drop;
    if op.Get? {
      OtherGetKeeps(s, op.key, op.t, e, others);
    } else if op.ttl > 0 {
      var f := Slot(op.key, op.msg, op.t + op.ttl * SECOND);
      if Find(s, op.key).Some? {
        DropKeeps(s, e, others, op.key);
        InFront(Drop(s, op.key), e, others, f);
      } else {
        OtherInsertKeeps(cap, s, f, e, others);
      }
    }
  }

  lemma DropKeeps(s: seq<Slot>, e: Slot, others: set<Key>, k: Key)
    requires Resides(s, e, others) && k != e.key
    ensures Resides(Drop(s, k), e, others)
  {
    hide Drop;
    var i :| ResidesAt(s, e, others, i);
    DropKeepsResident(s, e, others, i, k);
  }

  lemma InFront(s: seq<Slot>, e: Slot, others: set<Key>, f: Slot)
    requires Resides(s, e, others) && f.key in others
    ensures Resides([f] + s, e, others)
  {
    var i :| ResidesAt(s, e, others, i);
    MovedBack(s, e, others, i, f);
  }

  lemma OtherGetKeeps(s: seq<Slot>, k: Key, t: int, e: Slot, others: set<Key>)
    requires Resides(s, e, others) && k != e.key && k in others
    ensures Resides(GetStep(s, k, t), e, others)
  {
    hide Resides, Drop;
    DropKeeps(s, e, others, k);
    if Hit(s, k, t).Some? {
      InFront(Drop(s, k), e, others, Hit(s, k, t).value);
    }
  }

  lemma OtherInsertKeeps(cap: nat, s: seq<Slot>, f: Slot, e: Slot, others: set<Key>)
    requires Distinct(s) && |s| <= cap && Resides(s, e, others) && Find(s, f.key).None?
    requires f.key in others && |others| < cap
    ensures Resides(Inserted(s, cap, f), e, others)
  {
    var i :| ResidesAt(s, e, others, i);
    MovedBack(s, e, others, i, f);
    FrontDistinct(f, s);
    FewInFront([f] + s, i + 1, others);
    CutKeeps([f] + s, e, others, i + 1, |s|);
    IsThere([f] + s, e, others, i + 1);
  }

  lemma IsThere(s: seq<Slot>, e: Slot, others: set<Key>, i: int)
    requires ResidesAt(s, e, others, i)
    ensures Resides(s, e, others)
  {
  }

  lemma CutKeeps(s: seq<Slot>, e: Slot, others: set<Key>, i: int, n: nat)
    requires ResidesAt(s, e, others, i) && n <= |s|
    ensures i < n ==> Resides(s[..n], e, others)
  {
    if i < n {
      assert ResidesAt(s[..n], e, others, i);
    }
  }

  /** An operation on the key itself that stores nothing and looks it up before the expiry. */
  lemma OwnOpKeeps(cap: nat, s: seq<Slot>, op: Op, e: Slot, others: set<Key>)
    requires Distinct(s) && Resides(s, e, others) && op.key == e.key
    requires if op.Get? then op.t <= e.expires else op.ttl == 0
    ensures Resides(Step(cap, s, op), e, others)
  {
    if op.Get? {
      var i :| ResidesAt(s, e, others, i);
      FoundIfThere(s, e);
      assert ResidesAt([e] + Drop(s, e.key), e, others, 0);
    }
  }

  /** Since the p-th operation the key was not stored again, and not looked up after its expiry. */
  ghost predicate Undisturbed(ops: seq<Op>, p: nat)
    requires p < |ops| && ops[p].Put?
  {
    forall q :: p < q < |ops| && ops[q].key == ops[p].key ==>
      if ops[q].Get? then ops[q].t <= ops[p].t + ops[p].ttl * SECOND else ops[q].ttl == 0
  }

  lemma OthersGrow(ops: seq<Op>, op: Op, k: Key)
    ensures OthersUsed(ops, k) <= OthersUsed(ops + [op], k)
    ensures op.key != k && Uses(op, op.key) ==> op.key in OthersUsed(ops + [op], k)
  {
    assert op in ops + [op];
    assert forall o <- ops :: o in ops + [op];
  }

  lemma Fewer(x: set<Key>, y: set<Key>)
    requires x <= y
    ensures |x| <= |y|
  {
    assert y == x + (y - x);
  }

  /** What a Put stored stays, as long as fewer other keys than the capacity were used since. */
  lemma {:induction false} StoredStays(cap: nat, ops: seq<Op>, p: nat)
    requires cap >= 1 && p < |ops| && ops[p].Put? && ops[p].ttl > 0
    requires Undisturbed(ops, p) && |OthersUsed(ops[p + 1..], ops[p].key)| < cap
    ensures Resides(Run(cap, ops), Slot(ops[p].key, ops[p].msg, ops[p].t + ops[p].ttl * SECOND),
      OthersUsed(ops[p + 1..], ops[p].key))
    decreases |ops|
  {
    hide Resides, Step, Distinct, Undisturbed, OthersUsed, Run;
    var before, op := ops[..|ops| - 1], ops[|ops| - 1];
    var put := ops[p];
    var e := Slot(put.key, put.msg, put.t + put.ttl * SECOND);
    var others := OthersUsed(ops[p + 1..], put.key);
    RunLast(cap, ops);
    RunKeepsBounds(cap, before);
    if p == |ops| - 1 {
      PutIsInFront(cap, Run(cap, before), put, others);
    } else {
      assert before[p + 1..] + [op] == ops[p + 1..];
      assert before[p] == ops[p];
      OthersGrow(before[p + 1..], op, put.key);
      Fewer(OthersUsed(before[p + 1..], put.key), others);
      StillUndisturbed(ops, p);
      StoredStays(cap, before, p);
      MoreOthers(Run(cap, before), e, OthersUsed(before[p + 1..], put.key), others);
      if op.key == put.key {
        OwnOpKeeps(cap, Run(cap, before), op, e, others);
      } else {
        OtherOpKeeps(cap, Run(cap, before), op, e, others);
      }
    }
  }

  lemma RunLast(cap: nat, ops: seq<Op>)
    requires ops != []
    ensures Run(cap, ops) == Step(cap, Run(cap, ops[..|ops| - 1]), ops[|ops| - 1])
  {
  }

  lemma StillUndisturbed(ops: seq<Op>, p: nat)
    requires p < |ops| - 1 && ops[p].Put? && Undisturbed(ops, p)
    ensures Undisturbed(ops[..|ops| - 1], p)
    ensures var op := ops[|ops| - 1];
      op.key == ops[p].key ==> if op.Get? then op.t <= ops[p].t + ops[p].ttl * SECOND else op.ttl == 0
  {
  }

  lemma PutIsInFront(cap: nat, s: seq<Slot>, put: Op, others: set<Key>)
    requires cap >= 1 && |s| <= cap && put.Put? && put.ttl > 0
    ensures Resides(Step(cap, s, put), Slot(put.key, put.msg, put.t + put.ttl * SECOND), others)
  {
    var e := Slot(put.key, put.msg, put.t + put.ttl * SECOND);
    assert ResidesAt(Step(cap, s, put), e, others, 0);
  }

  /** A response is served for exactly its lifetime: if its Put was the last that stored something for
      the key, fewer other keys than the capacity were used since, and no lookup of it came too late, then
      a lookup at t finds it, with that message, if and only if t is within the TTL it was stored with. */
  lemma ServedExactlyInTime(cap: nat, ops: seq<Op>, p: nat, t: int)
    requires cap >= 1 && p < |ops| && ops[p].Put? && ops[p].ttl > 0
    requires Undisturbed(ops, p) && |OthersUsed(ops[p + 1..], ops[p].key)| < cap
    ensures var put := ops[p]; var hit := Hit(Run(cap, ops), put.key, t);
      && (hit.Some? <==> t <= put.t + put.ttl * SECOND)
      && (hit.Some? ==> hit.value == Slot(put.key, put.msg, put.t + put.ttl * SECOND))
  {
    var put := ops[p];
    var e := Slot(put.key, put.msg, put.t + put.ttl * SECOND);
    StoredStays(cap, ops, p);
    RunKeepsBounds(cap, ops);
    hide Run, Undisturbed, OthersUsed;
    var i :| ResidesAt(Run(cap, ops), e, OthersUsed(ops[p + 1..], put.key), i);
    FoundIfThere(Run(cap, ops), e);
  }

  /** Stored with TTL 60 at time 0, and nothing else done: served until second 60, and not after. */
  lemma SixtySeconds(cap: nat, k: Key, m: Msg, t: int)
    requires cap >= 1
    ensures Hit(Run(cap, [Put(k, m, 60, 0)]), k, t).Some? <==> t <= 60_000_000_000
  {
    var ops := [Put(k, m, 60, 0)];
    assert OthersUsed(ops[1..], k) == {};
    ServedExactlyInTime(cap, ops, 0, t);
  }

  // ---------------------------------------------------------------- the ways out

  ghost predicate Holds(s: seq<Slot>, k: Key) {
    exists e <- s :: e.key == k
  }

  /** A key leaves the cache only by a lookup after its expiry, or when a new key is stored in a full cache
      and it is the one whose last use is the longest ago; and then it does leave. */
  lemma LeavesExactly(cap: nat, ops: seq<Op>, op: Op, e: Slot)
    requires cap >= 1 && e in Run(cap, ops)
    ensures !Holds(Run(cap, ops + [op]), e.key) <==>
      (op.Get? && op.key == e.key && op.t > e.expires) ||
      (op.Put? && op.ttl > 0 && |Run(cap, ops)| == cap && !Holds(Run(cap, ops), op.key)
       && forall f <- Run(cap, ops) :: f != e ==> LastUse(ops, e.key) < LastUse(ops, f.key))
  {
    var s := Run(cap, ops);
    RunKeepsBounds(cap, ops);
    OrderedByLastUse(cap, ops);
    assert (ops + [op])[..|ops|] == ops;
    hide Run, ByRecency;
    if op.Get? {
      GetLeaves(cap, s, op, e);
    } else if op.ttl > 0 && |s| == cap && !Holds(s, op.key) {
      PutLeaves(cap, ops, s, op, e);
    } else {
      PutKeeps(cap, s, op, e);
    }
  }

  lemma GetLeaves(cap: nat, s: seq<Slot>, op: Op, e: Slot)
    requires Distinct(s) && e in s && op.Get?
    ensures !Holds(Step(cap, s, op), e.key) <==> op.key == e.key && op.t > e.expires
  {
    DropFacts(s, op.key);
    FoundIfThere(s, e);
    hide Drop, Distinct;
    if op.key != e.key {
      assert e in Drop(s, op.key);
    }
  }

  lemma PutKeeps(cap: nat, s: seq<Slot>, op: Op, e: Slot)
    requires Distinct(s) && |s| <= cap && e in s && op.Put? && (op.ttl == 0 || |s| < cap || Holds(s, op.key))
    ensures Holds(Step(cap, s, op), e.key)
  {
    DropFacts(s, op.key);
    hide Drop, Distinct;
    if op.ttl > 0 && op.key != e.key {
      var f := Slot(op.key, op.msg, op.t + op.ttl * SECOND);
      assert e in Drop(s, op.key);
      assert e in [f] + s && e in [f] + Drop(s, op.key);
    }
  }

  lemma PutLeaves(cap: nat, ops: seq<Op>, s: seq<Slot>, op: Op, e: Slot)
    requires cap >= 1 && Distinct(s) && |s| == cap && e in s && ByRecency(ops, s)
    requires op.Put? && op.ttl > 0 && !Holds(s, op.key)
    ensures !Holds(Step(cap, s, op), e.key) <==> forall f <- s :: f != e ==> LastUse(ops, e.key) < LastUse(ops, f.key)
  {
    var f, last := Slot(op.key, op.msg, op.t + op.ttl * SECOND), s[|s| - 1];
    LastIsOldest(ops, s);
    assert ([f] + s)[..|s|] == [f] + s[..|s| - 1];
    hide LastUse, ByRecency;
    if e == last {
      forall g | g in [f] + s[..|s| - 1] ensures g.key != e.key {
      }
    } else {
      assert LastUse(ops, last.key) < LastUse(ops, e.key);
      assert e in s[..|s| - 1];
      assert e in [f] + s[..|s| - 1];
    }
  }
}
