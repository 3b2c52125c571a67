/** The capped event log: a sorted bucket keyed by 8-byte big-endian sequence numbers
    (cmd/relocator/internal/relocator/store.go). */
module EventLogs {
  import opened Numbers
  import opened Wrappers

  type Key = seq<byte>

  datatype Event = Event(level: string, bucket: string, item: string, message: string)

  const KEY_LEN: nat := 8
  /** One more than the largest sequence number: 256^8. */
  const SEQ_LIMIT: nat := 0x1_0000_0000_0000_0000
  const DEFAULT_LIMIT: nat := 100

  // ---------------------------------------------------------------- byte order is numeric order

  /** The order in which the bucket's cursor visits keys. */
  predicate LexLess(a: Key, b: Key) {
    b != [] && (a == [] || a[0] < b[0] || (a[0] == b[0] && LexLess(a[1..], b[1..])))
  }

  /** The last byte decides only when everything before it is equal. */
  lemma {:induction false} LexSnoc(a: Key, b: Key, x: byte, y: byte)
    requires |a| == |b|
    ensures LexLess(a + [x], b + [y]) <==> LexLess(a, b) || (a == b && x < y)
  {
    if a != [] {
      assert (a + [x])[1..] == a[1..] + [x] && (b + [y])[1..] == b[1..] + [y];
      LexSnoc(a[1..], b[1..], x, y);
      if a[0] == b[0] && a[1..] == b[1..] {
        assert a == [a[0]] + a[1..] && b == [b[0]] + b[1..];
      }
    } else {
      assert a + [x] == [x] && b + [y] == [y] && [x][1..] == [];
    }
  }

  /** Cursor order on fixed-width big-endian keys is numeric order, and keys are distinct. */
  lemma {:induction false} OrderIsNumeric(a: nat, b: nat, w: nat)
    requires a < Pow(256, w) && b < Pow(256, w)
    ensures LexLess(BigEndian(a, w), BigEndian(b, w)) <==> a < b
    ensures BigEndian(a, w) == BigEndian(b, w) <==> a == b
  {
    if w > 0 {
      OrderIsNumeric(a / 256, b / 256, w - 1);
      LexSnoc(BigEndian(a / 256, w - 1), BigEndian(b / 256, w - 1), a % 256, b % 256);
      var ka, kb := BigEndian(a, w), BigEndian(b, w);
      assert ka[..w - 1] == BigEndian(a / 256, w - 1) && kb[..w - 1] == BigEndian(b / 256, w - 1);
      assert ka[w - 1] == a % 256 && kb[w - 1] == b % 256;
    }
  }

  // ---------------------------------------------------------------- the log

  /** How many events remain after n appends to an empty log. The library's key count may or may not
      include the put that is still pending in the transaction. */
  function Kept(n: nat, logCap: int, countsPending: bool): nat {
    if logCap <= 0 then n
    else
      var room: nat := logCap + (if countsPending then 0 else 1);
      if n < room then n else room
  }

  /** The key count is at most one over the cap, and trimming drops that one. */
  lemma KeptNext(n: nat, logCap: int, countsPending: bool)
    ensures var kept, next := Kept(n, logCap, countsPending), Kept(n + 1, logCap, countsPending);
      && kept <= n && next <= n + 1
      && var keyN := if countsPending then kept + 1 else kept;
      && (keyN - logCap <= 1 || logCap <= 0)
      && next == (if logCap > 0 && keyN > logCap then kept else kept + 1)
  {
  }

  /** Between min(n, cap) and cap + 1 events remain, and without a cap all. */
  lemma KeptBounds(n: nat, logCap: int, countsPending: bool)
    ensures logCap > 0 ==> (if n < logCap then n else logCap) <= Kept(n, logCap, countsPending) <= logCap + 1
    ensures logCap <= 0 ==> Kept(n, logCap, countsPending) == n
    ensures countsPending && logCap > 0 ==> Kept(n, logCap, countsPending) <= logCap
  {
  }

  predicate IsBelow(k: Key, below: Option<Key>) {
    below.None? || LexLess(k, below.value)
  }

  predicate IsLargest(keys: set<Key>, below: Option<Key>, k: Key) {
    IsBelow(k, below) && forall j <- keys :: j == k || LexLess(j, k) || !IsBelow(j, below)
  }

  function SeqKey(n: nat): Key {
    BigEndian(n, KEY_LEN)
  }

  /** The keys of sequence numbers above lo, up to hi. */
  function KeysIn(lo: nat, hi: nat): set<Key> {
    set i | lo < i <= hi :: SeqKey(i)
  }

  /** The log holds exactly the events with sequence numbers above lo, up to hi. */
  ghost predicate IsWindow(events: map<Key, Event>, history: seq<Event>, lo: nat, hi: nat) {
    && hi <= |history|
    && events.Keys == KeysIn(lo, hi)
    && forall i :: lo < i <= hi ==> events[SeqKey(i)] == history[i - 1]
  }

  class EventLog {
    const logCap: int
    const countsPending: bool
    var events: map<Key, Event>
    var sequence: nat
    /** Every event ever appended. */
    ghost var history: seq<Event>

    ghost predicate Valid()
      reads this
    {
      && sequence == |history| < SEQ_LIMIT
      && IsWindow(events, history, sequence - Kept(sequence, logCap, countsPending), sequence)
    }

    constructor (logCap: int, countsPending: bool)
      ensures Valid() && history == [] && this.logCap == logCap && this.countsPending == countsPending
    {
      this.logCap, this.countsPending := logCap, countsPending;
      events, sequence, history := map[], 0, [];
      assert KeysIn(0, 0) == {};
    }

    /** Append one event and trim. A failing transaction rolls everything back. */
    method AppendEvent(evt: Event, ok: bool) returns (err: bool)
      requires Valid() && |history| + 1 < SEQ_LIMIT
      modifies this
      ensures Valid() && err == !ok
      ensures history == if ok then old(history) + [evt] else old(history)
    {
      hide Pow, KeysIn, SeqKey, LexLess, IsWindow, Kept;
      if !ok {
        return true;
      }
      ghost var n := sequence;
      ghost var lo := n - Kept(n, logCap, countsPending);
      KeptNext(n, logCap, countsPending);
      WindowGrows(events, history, lo, n, evt);
      var before := |events|;
      sequence := sequence + 1;
      events := events[SeqKey(sequence) := evt];
      history := history + [evt];
      ghost var grown := events;
      Trim(if countsPending then |events| else before, lo);
      assert events.Keys == KeysIn(n + 1 - Kept(n + 1, logCap, countsPending), n + 1);
      WindowShrinks(grown, events, history, lo, n + 1 - Kept(n + 1, logCap, countsPending), n + 1);
      err := false;
    }

    /** trimEventsLocked, for the key count the library reports and any excess over the cap: at most so
        many events go, the oldest first of all; which others go is up to the library's cursor, so that
        only an excess of one is decided. `lo` is the last number already trimmed. */
    method Trim(keyN: nat, ghost lo: nat)
      requires lo < sequence < SEQ_LIMIT && events.Keys == KeysIn(lo, sequence)
      modifies `events
      ensures var excess := if logCap > 0 && keyN > logCap then keyN - logCap else 0;
        && events.Keys <= old(events).Keys && |old(events)| - excess <= |events|
        && (forall k <- events :: events[k] == old(events)[k])
        && (excess == 0 ==> events == old(events))
        && (excess > 0 ==> SeqKey(lo + 1) !in events)
        && (excess == 1 ==> events.Keys == KeysIn(lo + 1, sequence))
    {
      hide Pow, KeysIn, SeqKey, LexLess;
      if logCap <= 0 {
        return;
      }
      var excess := keyN - logCap;
      if excess <= 0 {
        return;
      }
      ghost var first := SeqKey(lo + 1);
      var k := First(lo);
      while k.Some? && excess > 0
        invariant 0 <= excess <= keyN - logCap
        invariant k.Some? ==> k.value in events
        invariant excess == keyN - logCap ==> events == old(events) && k == Some(first)
        invariant excess < keyN - logCap ==> first !in events
        invariant excess == keyN - logCap - 1 ==> events == old(events) - {first}
        invariant forall j <- events :: j in old(events) && events[j] == old(events)[j]
        invariant |events| == |old(events)| - (keyN - logCap - excess)
        decreases excess
      {
        events := events - {k.value};
        k := After(k.value);
        excess := excess - 1;
      }
      CutKey(lo, sequence);
    }

    /** Cursor.First: the smallest key. */
    method First(ghost lo: nat) returns (k: Option<Key>)
      requires lo < sequence < SEQ_LIMIT && events.Keys == KeysIn(lo, sequence)
      ensures k == Some(SeqKey(lo + 1)) && k.value in events
    {
      SmallestKey(lo, sequence);
      var f :| f in events && forall j <- events :: j == f || LexLess(f, j);
      k := Some(f);
    }

    /** Cursor.Next while keys are being deleted: some larger key, or the end. */
    method After(k: Key) returns (next: Option<Key>)
      ensures next.Some? ==> next.value in events && LexLess(k, next.value)
    {
      if j :| j in events && LexLess(k, j) {
        next := Some(j);
      } else {
        next := None;
      }
    }

    /** The newest events first, at most `limit` of them (100 if the limit is not positive). */
    method RecentEvents(limit: int) returns (out: seq<Event>)
      requires Valid()
      ensures var want: nat := if limit <= 0 then 100 else limit;
        var kept := Kept(|history|, logCap, countsPending);
        |out| == (if want < kept then want else kept)
      ensures forall j :: 0 <= j < |out| ==> out[j] == history[|history| - 1 - j]
    {
      hide Pow, KeysIn, SeqKey, LexLess;
      var want := if limit <= 0 then DEFAULT_LIMIT else limit;
      ghost var lo := sequence - Kept(sequence, logCap, countsPending);
      ghost var at := sequence;
      out := [];
      var k := Prev(None, lo, sequence + 1);
      while k.Some? && |out| < want
        invariant lo <= at <= sequence && |out| == sequence - at <= want
        invariant k == if at > lo then Some(SeqKey(at)) else None
        invariant forall j :: 0 <= j < |out| ==> out[j] == history[sequence - 1 - j]
        decreases at
      {
        KeysInSize(lo, sequence);
        out := out + [events[k.value]];
        k := Prev(k, lo, at);
        at := at - 1;
      }
    }

    /** Cursor.Prev, or Cursor.Last without a position: the largest key below. */
    method Prev(below: Option<Key>, ghost lo: nat, ghost at: nat) returns (k: Option<Key>)
      requires lo < at <= sequence + 1 <= SEQ_LIMIT && events.Keys == KeysIn(lo, sequence)
      requires below == if at <= sequence then Some(SeqKey(at)) else None
      ensures k == if at - 1 > lo then Some(SeqKey(at - 1)) else None
    {
      hide Pow, KeysIn, SeqKey, LexLess;
      LargestBelow(lo, sequence, at);
      if f :| f in events && IsLargest(events.Keys, below, f) {
        k := Some(f);
      } else {
        k := None;
      }
    }
  }

  lemma SeqLimit()
    ensures Pow(256, KEY_LEN) == SEQ_LIMIT
  {
    assert Pow(256, 4) == 0x1_0000_0000;
    PowSum(256, 4, 4);
  }

  lemma KeyFacts(a: nat, b: nat)
    requires a < SEQ_LIMIT && b < SEQ_LIMIT
    ensures SeqKey(a) == SeqKey(b) <==> a == b
    ensures LexLess(SeqKey(a), SeqKey(b)) <==> a < b
  {
    SeqLimit();
    OrderIsNumeric(a, b, KEY_LEN);
  }

  lemma {:induction false} KeysInSize(lo: nat, hi: nat)
    requires lo <= hi < SEQ_LIMIT
    ensures |KeysIn(lo, hi)| == hi - lo
    ensures forall i: nat :: i < SEQ_LIMIT ==> (SeqKey(i) in KeysIn(lo, hi) <==> lo < i <= hi)
    decreases hi
  {
    hide Pow, SeqKey;
    forall i: nat | i < SEQ_LIMIT && SeqKey(i) in KeysIn(lo, hi) ensures lo < i <= hi {
      var j :| lo < j <= hi && SeqKey(j) == SeqKey(i);
      KeyFacts(i, j);
    }
    if lo < hi {
      KeysInSize(lo, hi - 1);
      assert KeysIn(lo, hi) == KeysIn(lo, hi - 1) + {SeqKey(hi)};
    } else {
      assert KeysIn(lo, hi) == {};
    }
  }

  lemma AppendKey(lo: nat, n: nat)
    requires lo <= n
    ensures KeysIn(lo, n + 1) == KeysIn(lo, n) + {SeqKey(n + 1)}
  {
  }

  lemma OneMoreKey(events: map<Key, Event>, k: Key, evt: Event)
    requires k !in events
    ensures events[k := evt].Keys == events.Keys + {k}
    ensures |events| == |events.Keys| && |events[k := evt]| == |events| + 1
  {
    assert events[k := evt].Keys == events.Keys + {k};
    assert |events[k := evt].Keys| == |events[k := evt]|;
  }

  lemma WindowGrows(events: map<Key, Event>, history: seq<Event>, lo: nat, n: nat, evt: Event)
    requires IsWindow(events, history, lo, n) && lo <= n == |history| && n + 1 < SEQ_LIMIT
    ensures |events| == n - lo
    ensures var grown := events[SeqKey(n + 1) := evt];
      && |grown| == n + 1 - lo
      && grown.Keys == KeysIn(lo, n + 1)
      && IsWindow(grown, history + [evt], lo, n + 1)
  {
    hide Pow, SeqKey, LexLess, KeysIn;
    AppendKey(lo, n);
    KeysInSize(lo, n);
    OneMoreKey(events, SeqKey(n + 1), evt);
    NewestShows(events, history, lo, n, evt);
  }

  lemma NewestShows(events: map<Key, Event>, history: seq<Event>, lo: nat, n: nat, evt: Event)
    requires IsWindow(events, history, lo, n) && lo <= n == |history| && SeqKey(n + 1) !in events
    requires forall i :: lo < i <= n ==> SeqKey(i) in events
    ensures forall i :: lo < i <= n + 1 ==> events[SeqKey(n + 1) := evt][SeqKey(i)] == (history + [evt])[i - 1]
  {
    hide SeqKey, KeysIn;
    forall i | lo < i <= n + 1 ensures events[SeqKey(n + 1) := evt][SeqKey(i)] == (history + [evt])[i - 1] {
      assert i <= n ==> SeqKey(i) != SeqKey(n + 1);
    }
  }

  lemma WindowShrinks(events: map<Key, Event>, rest: map<Key, Event>, history: seq<Event>, lo: nat, lo': nat, hi: nat)
    requires IsWindow(events, history, lo, hi) && lo <= lo'
    requires rest.Keys == KeysIn(lo', hi) && forall k <- rest :: k in events && rest[k] == events[k]
    ensures IsWindow(rest, history, lo', hi)
  {
    hide SeqKey;
    forall i | lo' < i <= hi ensures rest[SeqKey(i)] == history[i - 1] {
      assert SeqKey(i) in rest;
    }
  }

  lemma CutKey(lo: nat, hi: nat)
    requires lo < hi < SEQ_LIMIT
    ensures KeysIn(lo, hi) - {SeqKey(lo + 1)} == KeysIn(lo + 1, hi)
  {
    KeysInSize(lo, hi);
    KeysInSize(lo + 1, hi);
  }

  lemma SmallestKey(lo: nat, hi: nat)
    requires lo < hi < SEQ_LIMIT
    ensures SeqKey(lo + 1) in KeysIn(lo, hi)
    ensures forall f <- KeysIn(lo, hi) :: f == SeqKey(lo + 1) || (LexLess(SeqKey(lo + 1), f) && !LexLess(f, SeqKey(lo + 1)))
  {
    hide Pow, SeqKey, LexLess;
    forall f | f in KeysIn(lo, hi)
      ensures f == SeqKey(lo + 1) || (LexLess(SeqKey(lo + 1), f) && !LexLess(f, SeqKey(lo + 1)))
    {
      var i :| lo < i <= hi && f == SeqKey(i);
      KeyFacts(lo + 1, i);
      KeyFacts(i, lo + 1);
    }
  }

  /** Below position `at` the largest key is that of at - 1, if it is above lo. */
  lemma LargestBelow(lo: nat, hi: nat, at: nat)
    requires lo < at <= hi + 1 <= SEQ_LIMIT
    ensures var below := if at <= hi then Some(SeqKey(at)) else None;
      && (at - 1 > lo ==> SeqKey(at - 1) in KeysIn(lo, hi) && IsLargest(KeysIn(lo, hi), below, SeqKey(at - 1)))
      && forall f <- KeysIn(lo, hi) :: IsLargest(KeysIn(lo, hi), below, f) ==> at - 1 > lo && f == SeqKey(at - 1)
  {
    hide Pow, SeqKey, LexLess;
    var below := if at <= hi then Some(SeqKey(at)) else None;
    forall i | lo < i <= hi
      ensures IsBelow(SeqKey(i), below) <==> i < at
      ensures at - 1 > lo ==> (LexLess(SeqKey(i), SeqKey(at - 1)) <==> i < at - 1)
      ensures at - 1 > lo ==> (LexLess(SeqKey(at - 1), SeqKey(i)) <==> at - 1 < i)
      ensures SeqKey(i) == SeqKey(at - 1) <==> i == at - 1
    {
      if at <= hi {
        KeyFacts(i, at);
      }
      KeyFacts(i, at - 1);
      KeyFacts(at - 1, i);
    }
    assert at - 1 > lo ==> SeqKey(at - 1) in KeysIn(lo, hi);
  }
}
