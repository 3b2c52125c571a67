/** Racing all upstreams for one query: n workers, a buffered channel, a wait group, a closer and a
    receiver that may switch to draining, under arbitrary scheduling
    (cmd/dns/internal/dns/upstream.go). */
module Race {
  import opened Messages
  import opened Wrappers

  /** What one upstream call yields: an error, no message, or a message. */
  datatype Reply = Failed(err: nat) | NoMessage | Message(rcode: nat, id: nat)

  predicate Good(r: Reply) {
    r.Message? && r.rcode != SERVER_FAILURE
  }

  datatype Worker = Unborn | Asking | Holding(reply: Reply) | Sent(reply: Reply) | Finished(reply: Reply)

  /** The last error seen, if any. */
  datatype LastErr = NoError | LastErr(err: nat)

  datatype Outcome = Winner(reply: Reply) | AllFailed(last: LastErr)

  datatype Caller = Spawning(next: nat) | Receiving(last: LastErr) | Draining(win: Reply) | Returned(outcome: Outcome)

  datatype Delivery = Delivery(worker: nat, reply: Reply)

  /** `sent` lists all sends so far; the channel holds those from `taken` on. */
  datatype State = State(
    workers: seq<Worker>, caller: Caller, closerStarted: bool, waiting: nat,
    sent: seq<Delivery>, taken: nat, closed: bool, closings: nat, panicked: bool)

  /** Scheduling choices. A reply is chosen freely: after cancellation it will often be an error. */
  datatype Act = Spawn | StartCloser | Answer(worker: nat, reply: Reply) | Send(worker: nat) | Finish(worker: nat)
    | Close | Receive | End

  function Init(n: nat): State {
    State(seq(n, _ => Unborn), Spawning(0), false, 0, [], 0, false, 0, false)
  }

  /** Can the step be taken now? A send needs room in the channel (capacity n), or fails on a closed
      channel; a receive needs a value; the range loop ends on a closed, empty channel. */
  predicate Enabled(s: State, a: Act) {
    match a
    case Spawn => s.caller.Spawning? && s.caller.next < |s.workers|
    case StartCloser => s.caller.Spawning? && s.caller.next == |s.workers|
    case Answer(i, _) => i < |s.workers| && s.workers[i].Asking?
    case Send(i) => i < |s.workers| && s.workers[i].Holding? && (s.closed || |s.sent| - s.taken < |s.workers|)
    case Finish(i) => i < |s.workers| && s.workers[i].Sent?
    case Close => s.closerStarted && s.closings == 0 && s.waiting == 0
    case Receive => (s.caller.Receiving? || s.caller.Draining?) && s.taken < |s.sent|
    case End => (s.caller.Receiving? || s.caller.Draining?) && s.closed && s.taken >= |s.sent|
  }

  function Next(s: State, a: Act): State
    requires Enabled(s, a)
  {
    match a
    case Spawn =>
      var i := s.caller.next;
      s.(workers := s.workers[i := Asking], waiting := s.waiting + 1, caller := Spawning(i + 1))
    case StartCloser => s.(closerStarted := true, caller := Receiving(NoError))
    case Answer(i, r) => s.(workers := s.workers[i := Holding(r)])
    case Send(i) =>
      var r := s.workers[i].reply;
      if s.closed then s.(panicked := true, workers := s.workers[i := Sent(r)])
      else s.(sent := s.sent + [Delivery(i, r)], workers := s.workers[i := Sent(r)])
    case Finish(i) =>
      s.(workers := s.workers[i := Finished(s.workers[i].reply)],
         waiting := if s.waiting > 0 then s.waiting - 1 else 0,
         panicked := s.panicked || s.waiting == 0)
    case Close => s.(closed := true, closings := s.closings + 1, panicked := s.panicked || s.closed)
    case Receive =>
      var r := s.sent[s.taken].reply;
      s.(taken := s.taken + 1, caller :=
        if s.caller.Draining? then s.caller
        else if Good(r) then Draining(r)
        else if r.Failed? then Receiving(LastErr(r.err))
        else s.caller)
    case End =>
      s.(caller := Returned(if s.caller.Draining? then Winner(s.caller.win) else AllFailed(s.caller.last)))
  }

  /** The states a run of enabled steps leads through; None if some step was not enabled. */
  function After(n: nat, acts: seq<Act>): Option<State> {
    if acts == [] then Some(Init(n))
    else
      var before := After(n, acts[..|acts| - 1]);
      var a := acts[|acts| - 1];
      if before.Some? && Enabled(before.value, a) then Some(Next(before.value, a)) else None
  }

  // ---------------------------------------------------------------- counting workers

  predicate Active(w: Worker) {
    w.Asking? || w.Holding? || w.Sent?
  }

  predicate HasSent(w: Worker) {
    w.Sent? || w.Finished?
  }

  function Count(ws: seq<Worker>, p: Worker -> bool): nat {
    if ws == [] then 0 else Count(ws[..|ws| - 1], p) + (if p(ws[|ws| - 1]) then 1 else 0)
  }

  lemma {:induction false} CountUpdate(ws: seq<Worker>, p: Worker -> bool, i: nat, w: Worker)
    requires i < |ws|
    ensures Count(ws[i := w], p) == Count(ws, p) - (if p(ws[i]) then 1 else 0) + (if p(w) then 1 else 0)
  {
    var last := |ws| - 1;
    if i < last {
      CountUpdate(ws[..last], p, i, w);
      assert ws[i := w][..last] == ws[..last][i := w];
    } else {
      assert ws[i := w][..last] == ws[..last];
    }
  }

  lemma {:induction false} CountBounds(ws: seq<Worker>, p: Worker -> bool)
    ensures Count(ws, p) <= |ws|
    ensures Count(ws, p) == 0 <==> forall w <- ws :: !p(w)
    ensures Count(ws, p) == |ws| <==> forall w <- ws :: p(w)
  {
    if ws != [] {
      assert ws == ws[..|ws| - 1] + [ws[|ws| - 1]];
      CountBounds(ws[..|ws| - 1], p);
    }
  }

  // ---------------------------------------------------------------- the invariant

  /** r is the first good reply among the deliveries. */
  ghost predicate FirstGood(ds: seq<Delivery>, r: Reply) {
    exists j :: 0 <= j < |ds| && ds[j].reply == r && Good(r) && NoneGood(ds[..j])
  }

  ghost predicate NoneGood(ds: seq<Delivery>) {
    forall d <- ds :: !Good(d.reply)
  }

  /** The error of the last failed delivery. */
  function LastOf(ds: seq<Delivery>): LastErr {
    if ds == [] then NoError
    else if ds[|ds| - 1].reply.Failed? then LastErr(ds[|ds| - 1].reply.err)
    else LastOf(ds[..|ds| - 1])
  }

  /** Workers up to the spawning loop's position exist; the wait group counts the active ones, and
      `sent` has one entry per worker that has sent. */
  ghost predicate CountsAgree(s: State) {
    && (forall i :: 0 <= i < |s.workers| ==> (s.workers[i].Unborn? <==> s.caller.Spawning? && s.caller.next <= i))
    && (s.caller.Spawning? ==> s.caller.next <= |s.workers|)
    && s.waiting == Count(s.workers, Active)
    && |s.sent| == Count(s.workers, HasSent)
  }

  /** Every worker that has sent shows up in `sent` with its reply, and nobody else. */
  ghost predicate DeliveriesAgree(s: State) {
    && (forall i :: 0 <= i < |s.workers| && HasSent(s.workers[i]) ==> Delivery(i, s.workers[i].reply) in s.sent)
    && (forall d <- s.sent :: d.worker < |s.workers| && HasSent(s.workers[d.worker]) && s.workers[d.worker].reply == d.reply)
  }

  ghost predicate ChannelAgrees(s: State) {
    && s.taken <= |s.sent|
    && (s.closerStarted <==> !s.caller.Spawning?)
    && s.closings == (if s.closed then 1 else 0)
    && (s.closed ==> s.closerStarted && s.waiting == 0)
    && !s.panicked
  }

  ghost predicate CallerAgrees(s: State) {
    var got := s.sent[..if s.taken <= |s.sent| then s.taken else 0];
    match s.caller
    case Spawning(_) => s.taken == 0
    case Receiving(last) => NoneGood(got) && last == LastOf(got)
    case Draining(r) => FirstGood(got, r)
    case Returned(Winner(r)) => s.closed && s.taken == |s.sent| && FirstGood(s.sent, r)
    case Returned(AllFailed(last)) => s.closed && s.taken == |s.sent| && NoneGood(s.sent) && last == LastOf(s.sent)
  }

  ghost predicate Inv(n: nat, s: State) {
    |s.workers| == n && CountsAgree(s) && DeliveriesAgree(s) && ChannelAgrees(s) && CallerAgrees(s)
  }

  lemma {:induction false} InitHolds(n: nat)
    ensures Inv(n, Init(n))
  {
    CountBounds(Init(n).workers, Active);
    CountBounds(Init(n).workers, HasSent);
  }

  /** The worker a step is about; |s.workers| if there is none. */
  function Subject(s: State, a: Act): nat {
    match a
    case Spawn => if s.caller.Spawning? then s.caller.next else |s.workers|
    case Answer(i, _) => i
    case Send(i) => i
    case Finish(i) => i
    case _ => |s.workers|
  }

  /** An active worker keeps the wait group positive and the channel open and roomy. */
  lemma ActiveWorker(n: nat, s: State, i: nat)
    requires Inv(n, s) && i < n && Active(s.workers[i])
    ensures s.waiting > 0 && !s.closed
    ensures !HasSent(s.workers[i]) ==> |s.sent| < n
  {
    CountBounds(s.workers, Active);
    CountBounds(s.workers, HasSent);
    assert s.workers[i] in s.workers;
  }

  lemma StepKeepsCounts(n: nat, s: State, a: Act)
    requires Inv(n, s) && Enabled(s, a)
    ensures CountsAgree(Next(s, a)) && |Next(s, a).workers| == n
  {
    var i := Subject(s, a);
    if i < n {
      if !a.Spawn? {
        ActiveWorker(n, s, i);
      }
      var w := Next(s, a).workers[i];
      CountUpdate(s.workers, Active, i, w);
      CountUpdate(s.workers, HasSent, i, w);
    }
    hide Count;
  }

  lemma StepKeepsDeliveries(n: nat, s: State, a: Act)
    requires Inv(n, s) && Enabled(s, a)
    ensures DeliveriesAgree(Next(s, a))
  {
    if a.Send? {
      ActiveWorker(n, s, a.worker);
    }
    hide Count, CallerAgrees;
  }

  lemma StepKeepsChannel(n: nat, s: State, a: Act)
    requires Inv(n, s) && Enabled(s, a)
    ensures ChannelAgrees(Next(s, a))
  {
    var i := Subject(s, a);
    if i < n && !a.Spawn? {
      ActiveWorker(n, s, i);
    }
    hide Count, CallerAgrees, DeliveriesAgree;
  }

  lemma StepKeepsCaller(n: nat, s: State, a: Act)
    requires Inv(n, s) && Enabled(s, a)
    ensures CallerAgrees(Next(s, a))
  {
    var s' := Next(s, a);
    hide Count, DeliveriesAgree;
    match a {
      case Receive =>
        ReceiveKeepsCaller(s);
      case End =>
        assert s.sent[..s.taken] == s.sent;
      case Send(i) =>
        ActiveWorker(n, s, i);
        assert s'.sent[..s.taken] == s.sent[..s.taken];
      case _ =>
    }
  }

  lemma ReceiveKeepsCaller(s: State)
    requires ChannelAgrees(s) && CallerAgrees(s) && Enabled(s, Receive)
    ensures CallerAgrees(Next(s, Receive))
  {
    var got, d := s.sent[..s.taken], s.sent[s.taken];
    assert s.sent[..s.taken + 1] == got + [d];
    assert (got + [d])[..s.taken] == got;
    if s.caller.Draining? {
      var j :| 0 <= j < s.taken && got[j].reply == s.caller.win && Good(s.caller.win) && NoneGood(got[..j]);
      assert (got + [d])[..j] == got[..j] && (got + [d])[j] == got[j];
    } else if Good(d.reply) {
      assert (got + [d])[s.taken] == d;
    }
  }

  /** Every reachable state, in every interleaving, satisfies the invariant. */
  lemma {:induction false} RunKeepsInv(n: nat, acts: seq<Act>)
    requires After(n, acts).Some?
    ensures Inv(n, After(n, acts).value)
  {
    if acts == [] {
      InitHolds(n);
    } else {
      var before, a := acts[..|acts| - 1], acts[|acts| - 1];
      RunKeepsInv(n, before);
      var s := After(n, before).value;
      StepKeepsCounts(n, s, a);
      StepKeepsDeliveries(n, s, a);
      StepKeepsChannel(n, s, a);
      StepKeepsCaller(n, s, a);
    }
  }

  // ---------------------------------------------------------------- what the protocol guarantees

  /** No worker that has a reply ever has to wait to send it, none hits a closed channel, and nothing
      panics: no send on a closed channel, no second close, no negative wait group. */
  lemma SendsNeverBlock(n: nat, acts: seq<Act>, i: nat)
    requires After(n, acts).Some? && i < n
    ensures var s := After(n, acts).value;
      && !s.panicked && s.closings <= 1 && |s.workers| == n
      && (s.workers[i].Holding? ==> Enabled(s, Send(i)) && !s.closed)
  {
    RunKeepsInv(n, acts);
    var s := After(n, acts).value;
    if Active(s.workers[i]) {
      ActiveWorker(n, s, i);
    }
  }

  /** Exchange returns only after every worker has sent its reply and finished and the channel was
      closed exactly once. It returns a message iff some reply was good, namely the first good one in
      arrival order; otherwise an error carrying the last error that arrived. */
  lemma ReturnIsFirstGood(n: nat, acts: seq<Act>)
    requires After(n, acts).Some? && After(n, acts).value.caller.Returned?
    ensures var s := After(n, acts).value;
      && |s.workers| == n && (forall w <- s.workers :: w.Finished?)
      && s.closings == 1 && |s.sent| == n
      && (s.caller.outcome.Winner? <==> exists w <- s.workers :: Good(w.reply))
      && (s.caller.outcome.Winner? ==> FirstGood(s.sent, s.caller.outcome.reply))
      && (s.caller.outcome.AllFailed? ==> s.caller.outcome.last == LastOf(s.sent))
  {
    RunKeepsInv(n, acts);
    var s := After(n, acts).value;
    CountBounds(s.workers, Active);
    CountBounds(s.workers, HasSent);
    forall w | w in s.workers ensures w.Finished? {
      var i :| 0 <= i < n && s.workers[i] == w;
    }
    if s.caller.outcome.Winner? {
      var j :| 0 <= j < |s.sent| && s.sent[j].reply == s.caller.outcome.reply;
      assert s.sent[j] in s.sent && s.workers[s.sent[j].worker] in s.workers;
    } else {
      forall w | w in s.workers ensures !Good(w.reply) {
        var i :| 0 <= i < n && s.workers[i] == w;
        assert Delivery(i, w.reply) in s.sent;
      }
    }
  }

  /** The last error, in terms of the deliveries: the error of the last one that failed, if any did. */
  lemma {:induction false} LastErrorIs(ds: seq<Delivery>, e: nat)
    ensures LastOf(ds) == LastErr(e) <==>
      exists i :: 0 <= i < |ds| && ds[i].reply == Failed(e) && forall j :: i < j < |ds| ==> !ds[j].reply.Failed?
    ensures LastOf(ds) == NoError <==> forall d <- ds :: !d.reply.Failed?
  {
    if ds != [] {
      var before, last := ds[..|ds| - 1], ds[|ds| - 1];
      assert ds == before + [last];
      LastErrorIs(before, e);
      assert forall j :: 0 <= j < |before| ==> ds[j] == before[j];
      if LastOf(before) == LastErr(e) && !last.reply.Failed? {
        var i :| 0 <= i < |before| && before[i].reply == Failed(e) && forall j :: i < j < |before| ==> !before[j].reply.Failed?;
        assert ds[i].reply == Failed(e);
      }
    }
  }

  /** Written out: the reply returned is the first to arrive that is a message with any code but 2, a name
      error (3) included; an error is returned if and only if none is. */
  lemma FirstUsableWins(n: nat, acts: seq<Act>)
    requires After(n, acts).Some? && After(n, acts).value.caller.Returned?
    ensures var s := After(n, acts).value; var out := s.caller.outcome;
      && (out.Winner? <==> exists i :: Usable(s.sent, i))
      && (out.Winner? ==> exists i :: Usable(s.sent, i) && s.sent[i].reply == out.reply && forall j :: Usable(s.sent, j) ==> i <= j)
  {
    ReturnIsFirstGood(n, acts);
    RunKeepsInv(n, acts);
    var s := After(n, acts).value;
    hide After, Count, DeliveriesAgree, CountsAgree, ChannelAgrees;
    if s.caller.outcome.Winner? {
      var r := s.caller.outcome.reply;
      var i :| 0 <= i < |s.sent| && s.sent[i].reply == r && Good(r) && NoneGood(s.sent[..i]);
      assert Usable(s.sent, i);
      forall k | 0 <= k < i ensures !Good(s.sent[k].reply) {
        assert s.sent[..i][k] in s.sent[..i];
      }
      assert forall j :: Usable(s.sent, j) ==> i <= j;
    }
  }

  ghost predicate Usable(ds: seq<Delivery>, i: int) {
    0 <= i < |ds| && ds[i].reply.Message? && ds[i].reply.rcode != 2
  }

  // ---------------------------------------------------------------- termination

  function Weight(w: Worker): nat {
    match w
    case Unborn => 5
    case Asking => 4
    case Holding(_) => 3
    case Sent(_) => 1
    case Finished(_) => 0
  }

  function Total(ws: seq<Worker>): nat {
    if ws == [] then 0 else Total(ws[..|ws| - 1]) + Weight(ws[|ws| - 1])
  }

  lemma {:induction false} TotalUpdate(ws: seq<Worker>, i: nat, w: Worker)
    requires i < |ws|
    ensures Total(ws[i := w]) == Total(ws) - Weight(ws[i]) + Weight(w)
  {
    var last := |ws| - 1;
    if i < last {
      TotalUpdate(ws[..last], i, w);
      assert ws[i := w][..last] == ws[..last][i := w];
    } else {
      assert ws[i := w][..last] == ws[..last];
    }
  }

  /** Steps still possible at most. */
  function Measure(s: State): int {
    Total(s.workers) + |s.sent| - s.taken
    + (if s.caller.Spawning? then 1 else 0) + (if s.closings == 0 then 1 else 0) + (if s.caller.Returned? then 0 else 1)
  }

  lemma EveryStepDecreases(n: nat, s: State, a: Act)
    requires Inv(n, s) && Enabled(s, a)
    ensures 0 <= Measure(Next(s, a)) < Measure(s)
  {
    var i := Subject(s, a);
    StepKeepsChannel(n, s, a);
    hide Count, CallerAgrees, DeliveriesAgree;
    if i < n {
      TotalUpdate(s.workers, i, Next(s, a).workers[i]);
    }
  }

  lemma {:induction false} TotalOfUnborn(n: nat)
    ensures Total(seq(n, _ => Unborn)) == 5 * n
  {
    if n > 0 {
      assert seq(n, _ => Unborn)[..n - 1] == seq(n - 1, _ => Unborn);
      TotalOfUnborn(n - 1);
    }
  }

  /** No run takes more than 5n + 3 steps. */
  lemma {:induction false} RunsAreShort(n: nat, acts: seq<Act>)
    requires After(n, acts).Some?
    ensures |acts| + Measure(After(n, acts).value) <= 5 * n + 3 && Measure(After(n, acts).value) >= 0
  {
    if acts == [] {
      TotalOfUnborn(n);
    } else {
      var before := acts[..|acts| - 1];
      RunsAreShort(n, before);
      RunKeepsInv(n, before);
      EveryStepDecreases(n, After(n, before).value, acts[|acts| - 1]);
    }
  }

  /** Until Exchange returns some step is always possible, given that every upstream call returns: with
      the bound on runs, every maximal run returns. */
  lemma NeverStuck(n: nat, acts: seq<Act>)
    requires After(n, acts).Some? && !After(n, acts).value.caller.Returned?
    ensures exists a :: Enabled(After(n, acts).value, a)
  {
    RunKeepsInv(n, acts);
    var s := After(n, acts).value;
    CountBounds(s.workers, Active);
    CountBounds(s.workers, HasSent);
    if s.caller.Spawning? {
      assert Enabled(s, if s.caller.next < n then Spawn else StartCloser);
    } else if i :| 0 <= i < n && Active(s.workers[i]) {
      SendsNeverBlock(n, acts, i);
      var w := s.workers[i];
      assert Enabled(s, if w.Asking? then Answer(i, NoMessage) else if w.Holding? then Send(i) else Finish(i));
    } else {
      assert forall w <- s.workers :: !Active(w);
      assert Enabled(s, if s.taken < |s.sent| then Receive else if s.closed then End else Close);
    }
  }
}
