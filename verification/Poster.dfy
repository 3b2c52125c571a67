/** Delivering one document with retries (cmd/relocator/internal/relocator/poster.go). */
module Posting {

  /** One HTTP attempt: the request cannot be built, the transport fails, or a status comes back. */
  datatype Attempt = BuildFailed | TransportFailed | Status(code: int)

  predicate Accepted2xx(a: Attempt) {
    a.Status? && 200 <= a.code < 300
  }

  /** isRetryable of the error an attempt produces. */
  predicate Retryable(a: Attempt) {
    a.TransportFailed? || (a.Status? && !Accepted2xx(a) && (a.code >= 500 || a.code == 408 || a.code == 429))
  }

  /** What the world does during one Send: the outcome of every attempt, and for every attempt whether
      the context is seen cancelled in the wait before it. */
  datatype PostWorld = PostWorld(attempt: nat -> Attempt, cancelled: nat -> bool)

  datatype PostConfig = PostConfig(url: string, retries: int, backoff: int)

  datatype SendResult = Delivered | NotConfigured | Cancelled | Refused(attempt: Attempt) | Exhausted(last: Attempt)

  function Retries(cfg: PostConfig): nat {
    if cfg.retries > 0 then cfg.retries else 0
  }

  /** The wait before a retry fails only when there is something to wait for. */
  predicate WaitFails(cfg: PostConfig, w: PostWorld, k: nat) {
    k > 0 && cfg.backoff > 0 && w.cancelled(k)
  }

  /** The result of a Send that has come to attempt k, and how many attempts are made in all. */
  function SendFrom(cfg: PostConfig, w: PostWorld, k: nat): (SendResult, nat)
    requires k <= Retries(cfg) + 1
    decreases Retries(cfg) + 1 - k
  {
    if k > Retries(cfg) then (Exhausted(w.attempt(k - 1)), k)
    else if WaitFails(cfg, w, k) then (Cancelled, k)
    else if Accepted2xx(w.attempt(k)) then (Delivered, k + 1)
    else if !Retryable(w.attempt(k)) then (Refused(w.attempt(k)), k + 1)
    else SendFrom(cfg, w, k + 1)
  }

  function SendOutcome(cfg: PostConfig, w: PostWorld): (SendResult, nat) {
    if cfg.url == "" then (NotConfigured, 0) else SendFrom(cfg, w, 0)
  }

  /** Send: `made` counts the attempts. */
  method Send(cfg: PostConfig, w: PostWorld) returns (result: SendResult, made: nat)
    ensures (result, made) == SendOutcome(cfg, w)
  {
    made := 0;
    if cfg.url == "" {
      return NotConfigured, 0;
    }
    var retries := if cfg.retries > 0 then cfg.retries else 0;
    var lastErr := BuildFailed;
    while made <= retries
      invariant made <= retries + 1
      invariant SendFrom(cfg, w, made) == SendFrom(cfg, w, 0)
      invariant made > 0 ==> lastErr == w.attempt(made - 1)
      decreases retries + 1 - made
    {
      if made > 0 {
        if cfg.backoff > 0 && w.cancelled(made) {
          return Cancelled, made;
        }
      }
      var a := w.attempt(made);
      if Accepted2xx(a) {
        return Delivered, made + 1;
      }
      lastErr := a;
      if !Retryable(a) {
        return Refused(a), made + 1;
      }
      made := made + 1;
    }
    return Exhausted(lastErr), made;
  }

  lemma {:induction false} SendFromFacts(cfg: PostConfig, w: PostWorld, k: nat)
    requires k <= Retries(cfg) + 1
    requires forall i :: 0 <= i < k ==> Retryable(w.attempt(i)) && !WaitFails(cfg, w, i)
    ensures Explained(cfg, w, SendFrom(cfg, w, k).0, SendFrom(cfg, w, k).1)
    decreases Retries(cfg) + 1 - k
  {
    if k <= Retries(cfg) && !WaitFails(cfg, w, k) && Retryable(w.attempt(k)) {
      SendFromFacts(cfg, w, k + 1);
    }
  }

  /** The whole contract of Send with a URL, in terms of the attempts alone. */
  ghost predicate Explained(cfg: PostConfig, w: PostWorld, result: SendResult, made: nat) {
    && made <= Retries(cfg) + 1
    && (forall i :: 0 <= i < made ==> !WaitFails(cfg, w, i))
    && (forall i :: 0 <= i < made - 1 ==> Retryable(w.attempt(i)))
    && match result
       case Delivered => made > 0 && Accepted2xx(w.attempt(made - 1))
       case Refused(a) => made > 0 && a == w.attempt(made - 1) && !Accepted2xx(a) && !Retryable(a)
       case Exhausted(a) => made == Retries(cfg) + 1 && a == w.attempt(made - 1) && Retryable(a)
       case Cancelled => 0 < made <= Retries(cfg) && WaitFails(cfg, w, made) && Retryable(w.attempt(made - 1))
       case NotConfigured => false
  }

  /** For every sequence of attempt outcomes and cancellations: at most retries + 1 attempts are made,
      all but the last failed retryably, and the result is nil iff the last attempt was answered 2xx. A
      non-retryable outcome is final. */
  lemma SendIsExplained(cfg: PostConfig, w: PostWorld)
    requires cfg.url != ""
    ensures var (result, made) := SendOutcome(cfg, w);
      && Explained(cfg, w, result, made)
      && (result == Delivered <==> made > 0 && Accepted2xx(w.attempt(made - 1)))
      && (forall i :: 0 <= i < made && !Retryable(w.attempt(i)) ==> i == made - 1)
  {
    SendFromFacts(cfg, w, 0);
  }

  /** Nothing else explains the same attempts: the result and the number of attempts are determined. */
  lemma ExplanationIsUnique(cfg: PostConfig, w: PostWorld, r1: SendResult, m1: nat, r2: SendResult, m2: nat)
    requires Explained(cfg, w, r1, m1) && Explained(cfg, w, r2, m2)
    ensures r1 == r2 && m1 == m2
  {
  }

  predicate Answered(a: Attempt, low: int, high: int) {
    a.Status? && low <= a.code <= high
  }

  /** Written out in status codes: at most max(retries, 0) + 1 attempts; a document counts as delivered if
      and only if the last of them was answered 200 to 299; every one before it failed in transport or was
      answered 408, 429 or 500 and above; and if the last was neither that nor a success, it is refused. */
  lemma SendInStatusCodes(cfg: PostConfig, w: PostWorld)
    requires cfg.url != ""
    ensures var (result, made) := SendOutcome(cfg, w);
      && 0 < made <= (if cfg.retries > 0 then cfg.retries else 0) + 1
      && (result == Delivered <==> Answered(w.attempt(made - 1), 200, 299))
      && (forall i :: 0 <= i < made - 1 ==> WorthRetrying(w.attempt(i)))
      && (result.Refused? <==> !Answered(w.attempt(made - 1), 200, 299) && !WorthRetrying(w.attempt(made - 1)))
      && (result.Exhausted? ==> made == (if cfg.retries > 0 then cfg.retries else 0) + 1)
      && (result.Cancelled? ==> cfg.backoff > 0 && w.cancelled(made))
  {
    SendIsExplained(cfg, w);
    hide SendOutcome;
  }

  predicate WorthRetrying(a: Attempt) {
    a.TransportFailed? || Answered(a, 408, 408) || Answered(a, 429, 429) || (a.Status? && a.code >= 500)
  }
}
