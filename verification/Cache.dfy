/** The cache as it is kept in memory: a recency list of shared entries and a map into it
    (cmd/dns/internal/dns/cache.go). */
module Caching {
  import opened Messages
  import opened Durations
  import opened Wrappers
  import opened Lru

  class Entry {
    const key: Key
    var msg: Msg
    var expires: int

    constructor (key: Key, msg: Msg, expires: int)
      ensures this.key == key && this.msg == msg && this.expires == expires
    {
      this.key, this.msg, this.expires := key, msg, expires;
    }
  }

  /** The entries' values, in list order. */
  ghost function Slots(list: seq<Entry>): seq<Slot>
    reads list
  {
    if list == [] then []
    else [Slot(list[0].key, list[0].msg, list[0].expires)] + Slots(list[1..])
  }

  ghost predicate DistinctKeys(list: seq<Entry>) {
    forall i, j :: 0 <= i < j < |list| ==> list[i].key != list[j].key
  }

  /** list.Remove. */
  function Without(list: seq<Entry>, e: Entry): seq<Entry> {
    if list == [] then [] else if list[0] == e then Without(list[1..], e) else [list[0]] + Without(list[1..], e)
  }

  lemma {:induction false} SlotsAt(list: seq<Entry>)
    ensures |Slots(list)| == |list|
    ensures forall i :: 0 <= i < |list| ==> Slots(list)[i] == Slot(list[i].key, list[i].msg, list[i].expires)
  {
    if list != [] {
      SlotsAt(list[1..]);
    }
  }

  lemma {:induction false} WithoutDrops(list: seq<Entry>, e: Entry)
    requires DistinctKeys(list) && e in list
    ensures Slots(Without(list, e)) == Drop(Slots(list), e.key)
    ensures DistinctKeys(Without(list, e)) && |Without(list, e)| == |list| - 1
    ensures forall f <- Without(list, e) :: f in list && f.key != e.key
    ensures forall f <- list :: f != e ==> f in Without(list, e)
  {
    var rest := list[1..];
    assert list == [list[0]] + rest;
    if list[0] == e {
      WithoutAbsent(rest, e);
    } else {
      WithoutDrops(rest, e);
      var kept := Without(rest, e);
      forall i | 0 <= i < |kept| ensures kept[i].key != list[0].key {
        assert kept[i] in kept && kept[i] in rest;
      }
      assert Slots(Without(list, e))[1..] == Slots(Without(rest, e));
      assert Without(list, e)[1..] == Without(rest, e);
      assert Slots(list)[1..] == Slots(rest);
    }
  }

  lemma {:induction false} WithoutAbsent(list: seq<Entry>, e: Entry)
    requires forall f <- list :: f != e && f.key != e.key
    ensures Without(list, e) == list && Drop(Slots(list), e.key) == Slots(list)
  {
    if list != [] {
      assert forall f <- list[1..] :: f in list;
      WithoutAbsent(list[1..], e);
      assert Slots(list)[1..] == Slots(list[1..]);
    }
  }

  /** Map and list hold the same entries, each under its own key. */
  ghost predicate Bijective(items: map<Key, Entry>, lru: seq<Entry>) {
    && DistinctKeys(lru)
    && (forall e <- lru :: e.key in items && items[e.key] == e)
    && (forall k <- items :: items[k] in lru && items[k].key == k)
  }

  lemma BijectiveCut(items: map<Key, Entry>, lru: seq<Entry>)
    requires lru != [] && Bijective(items, lru)
    ensures Bijective(items - {lru[|lru| - 1].key}, lru[..|lru| - 1])
  {
    var last := lru[|lru| - 1];
    assert lru == lru[..|lru| - 1] + [last];
    forall e | e in lru[..|lru| - 1] ensures e in lru && e.key != last.key {
    }
  }

  lemma BijectivePush(items: map<Key, Entry>, lru: seq<Entry>, entry: Entry)
    requires Bijective(items, lru) && entry.key !in items
    ensures Bijective(items[entry.key := entry], [entry] + lru)
  {
    forall e | e in lru ensures e.key != entry.key {
    }
  }

  lemma ItemResides(items: map<Key, Entry>, lru: seq<Entry>, k: Key)
    requires Bijective(items, lru) && k in items
    ensures items[k] in lru && items[k].key == k
  {
  }

  class DnsCache {
    const maxSize: nat
    var items: map<Key, Entry>
    var lru: seq<Entry>

    ghost predicate Valid()
      reads this
    {
      1 <= maxSize && |lru| <= maxSize && Bijective(items, lru)
    }

    /** The cache as a most-recent-first sequence of values. */
    ghost function Model(): seq<Slot>
      reads this, lru
    {
      Slots(lru)
    }

    constructor (maxSize: int)
      ensures Valid() && Model() == [] && this.maxSize == if maxSize <= 0 then 1 else maxSize
    {
      this.maxSize := if maxSize <= 0 then 1 else maxSize;
      items, lru := map[], [];
    }

    /** The resident entry for a key is the one the recency sequence finds. */
    lemma FindsItem(k: Key)
      requires Valid()
      ensures k in items <==> Find(Model(), k).Some?
      ensures k in items ==> Find(Model(), k) == Some(Slot(k, items[k].msg, items[k].expires))
    {
      SlotsAt(lru);
      if k in items {
        var i :| 0 <= i < |lru| && lru[i] == items[k];
        assert Model()[i].key == k;
      }
      if Find(Model(), k).Some? {
        var j :| 0 <= j < |lru| && Model()[j] == Find(Model(), k).value;
        assert lru[j] in lru;
      }
    }

    method Remove(e: Entry)
      requires Valid() && e in lru
      modifies `lru, `items
      ensures Valid() && Model() == Drop(old(Model()), e.key) && |lru| == old(|lru|) - 1
      ensures forall f <- lru :: f in old(lru)
      ensures e.key !in items
    {
      WithoutDrops(lru, e);
      lru := Without(lru, e);
      items := items - {e.key};
    }

    method MoveToFront(e: Entry)
      requires Valid() && e in lru
      modifies `lru
      ensures Valid() && Model() == [Slot(e.key, e.msg, e.expires)] + Drop(old(Model()), e.key)
      ensures forall f <- lru :: f in old(lru)
    {
      WithoutDrops(lru, e);
      lru := [e] + Without(lru, e);
      assert lru[1..] == Without(old(lru), e);
    }

    /** The entry at the back of the list goes. */
    method EvictOldest()
      requires lru != [] && Bijective(items, lru)
      modifies `lru, `items
      ensures Bijective(items, lru) && lru == old(lru)[..|old(lru)| - 1]
      ensures |old(Model())| == |old(lru)| && Model() == old(Model())[..|old(lru)| - 1]
    {
      hide Bijective;
      SlotsAt(lru);
      BijectiveCut(items, lru);
      var e := lru[|lru| - 1];
      lru := lru[..|lru| - 1];
      items := items - {e.key};
      SlotsAt(lru);
    }

    method PushFront(entry: Entry)
      requires Bijective(items, lru) && entry.key !in items
      modifies `lru, `items
      ensures Bijective(items, lru) && lru == [entry] + old(lru)
      ensures Model() == [Slot(entry.key, entry.msg, entry.expires)] + old(Model())
    {
      hide Bijective;
      BijectivePush(items, lru, entry);
      lru := [entry] + lru;
      items := items[entry.key := entry];
      assert lru[1..] == old(lru);
    }

    /** Two clock readings: t1 decides expiry, t2 the remaining time. `wild` is what the conversion to
        uint32 yields where the language leaves it to the implementation. */
    method Get(name: string, qtype: nat, t1: int, t2: int, wild: uint32) returns (out: Option<Msg>)
      requires Valid()
      modifies `lru, `items
      ensures Valid() && Model() == GetStep(old(Model()), Key(name, qtype), t1)
      ensures out == Answer(old(Model()), Key(name, qtype), t1, t2, wild)
      ensures forall f <- lru :: f in old(lru)
    {
      var key := Key(name, qtype);
      FindsItem(key);
      if key !in items {
        DropAbsent(Model(), key);
        return None;
      }
      var entry := items[key];
      if t1 > entry.expires {
        Remove(entry);
        return None;
      }
      MoveToFront(entry);
      var remaining := Remaining(entry.expires, t2, wild);
      var answer := Restamp(entry.msg.answer, remaining);
      var ns := Restamp(entry.msg.ns, remaining);
      var extra := Restamp(entry.msg.extra, remaining);
      out := Some(Msg(entry.msg.rcode, answer, ns, extra));
    }

    method Insert(entry: Entry)
      requires Valid() && entry.key !in items
      modifies `lru, `items
      ensures Valid() && forall f <- lru :: f == entry || f in old(lru)
      ensures Model() == Inserted(old(Model()), maxSize, Slot(entry.key, entry.msg, entry.expires))
    {
      hide Bijective, Slots;
      SlotsAt(lru);
      PushFront(entry);
      if |lru| > maxSize {
        EvictOldest();
      }
    }

    method Overwrite(e: Entry, msg: Msg, expires: int)
      requires Valid() && e in lru
      modifies e`msg, e`expires
      ensures Drop(Model(), e.key) == old(Drop(Model(), e.key))
      ensures e.msg == msg && e.expires == expires
    {
      WithoutDrops(lru, e);
      e.msg, e.expires := msg, expires;
      WithoutDrops(lru, e);
      assert Slots(Without(lru, e)) == old(Slots(Without(lru, e)));
    }

    method Refresh(e: Entry, msg: Msg, expires: int)
      requires Valid() && e in lru
      modifies `lru, e`msg, e`expires
      ensures Valid() && Model() == [Slot(e.key, msg, expires)] + Drop(old(Model()), e.key)
      ensures forall f <- lru :: f in old(lru)
    {
      hide Bijective, Slots;
      Overwrite(e, msg, expires);
      MoveToFront(e);
    }

    /** A nil message or a zero TTL stores nothing. */
    method Put(name: string, qtype: nat, msg: Option<Msg>, ttl: uint32, t: int)
      requires Valid()
      modifies this, lru
      ensures Valid()
      ensures Model() == if msg.None? then old(Model()) else PutStep(old(Model()), maxSize, Key(name, qtype), msg.value, ttl, t)
      ensures forall f <- lru :: f in old(lru) || fresh(f)
    {
      hide Bijective, Slots, Drop, Find, Inserted;
      if msg.None? || ttl == 0 {
        return;
      }
      var key := Key(name, qtype);
      FindsItem(key);
      if key in items {
        var existing := items[key];
        ItemResides(items, lru, key);
        Refresh(existing, msg.value, t + ttl * SECOND);
        return;
      }
      var entry := new Entry(key, msg.value, t + ttl * SECOND);
      Insert(entry);
    }

    method Len() returns (n: nat)
      requires Valid()
      ensures n == |Model()| <= maxSize
    {
      SlotsAt(lru);
      n := |lru|;
    }
  }

  lemma DropAbsent(s: seq<Slot>, k: Key)
    requires Find(s, k).None?
    ensures Drop(s, k) == s
  {
    if s != [] {
      DropAbsent(s[1..], k);
    }
  }

  // ---------------------------------------------------------------- time to live

  /** uint32(expires.Sub(t).Seconds()): through a double, truncated towards zero, and an arbitrary value
      when the result does not fit. */
  function Remaining(expires: int, t: int, wild: uint32): uint32 {
    var d := expires - t;
    if 0 <= d < 0x1_0000_0000 * SECOND then
      (var whole := Truncate(Seconds(d));
       if whole < 0x1_0000_0000 then whole else wild)
    else if -SECOND < d < 0 then 0
    else wild
  }

  function Stamped(rrs: seq<Record>, ttl: uint32): seq<Record> {
    seq(|rrs|, i requires 0 <= i < |rrs| => rrs[i].(ttl := ttl))
  }

  method Restamp(rrs: seq<Record>, ttl: uint32) returns (out: seq<Record>)
    ensures out == Stamped(rrs, ttl)
  {
    out := [];
    for i := 0 to |rrs|
      invariant |out| == i && forall j :: 0 <= j < i ==> out[j] == rrs[j].(ttl := ttl)
    {
      out := out + [rrs[i].(ttl := ttl)];
    }
  }

  /** The stored message with every record's TTL set to the remaining time. */
  function Aged(e: Slot, t: int, wild: uint32): Msg {
    var ttl := Remaining(e.expires, t, wild);
    Msg(e.msg.rcode, Stamped(e.msg.answer, ttl), Stamped(e.msg.ns, ttl), Stamped(e.msg.extra, ttl))
  }

  /** What a lookup returns. */
  function Answer(s: seq<Slot>, k: Key, t1: int, t2: int, wild: uint32): Option<Msg> {
    match Hit(s, k, t1)
    case None => None
    case Some(e) => Some(Aged(e, t2, wild))
  }
}
