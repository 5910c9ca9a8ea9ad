/**
 * The bounded retry discipline shared by the list, create and update loops:
 * `while attempts < max_attempts`, return on the first success, sleep and go
 * round again on a transient status (403, 500, 503), raise on any other
 * status, and raise "Max number of attempts reached" once the budget is spent.
 *
 * The remote's behaviour is an oracle: `outs[k]` is what attempt k sees, and
 * attempts past the end of the oracle succeed.
 */
module Retry {

  datatype Outcome = Success | HttpError(status: int, reason: string)

  /** The statuses `handle_googledrive_errors` sleeps on instead of raising. */
  predicate Transient(status: int) {
    status == 403 || status == 500 || status == 503
  }

  predicate IsTransientError(o: Outcome) {
    o.HttpError? && Transient(o.status)
  }

  /** What attempt k sees. */
  function OutcomeAt(outs: seq<Outcome>, k: nat): Outcome {
    if k < |outs| then outs[k] else Success
  }

  /** The oracle once the first k attempts are spent. */
  function Drop(outs: seq<Outcome>, k: nat): (r: seq<Outcome>)
    ensures forall j: nat :: OutcomeAt(r, j) == OutcomeAt(outs, k + j)
  {
    if k <= |outs| then outs[k..] else []
  }

  lemma DropDrop(outs: seq<Outcome>, k: nat, j: nat)
    ensures Drop(Drop(outs, k), j) == Drop(outs, k + j)
  {
    if k <= |outs| && k + j <= |outs| {
      assert outs[k..][j..] == outs[k + j..];
    }
  }

  /** How a retry loop ends, with the number of remote calls it made. */
  datatype Verdict = Succeeded(calls: nat) | Failed(calls: nat, status: int, reason: string) | Exhausted

  /** The loop from attempt k on. */
  function RetryFrom(outs: seq<Outcome>, k: nat, max: nat): Verdict
    decreases max - k
  {
    if k >= max then Exhausted
    else
      match OutcomeAt(outs, k)
      case Success => Succeeded(k + 1)
      case HttpError(s, r) => if Transient(s) then RetryFrom(outs, k + 1, max) else Failed(k + 1, s, r)
  }

  function RunRetry(outs: seq<Outcome>, max: nat): Verdict {
    RetryFrom(outs, 0, max)
  }

  /** Remote calls the loop makes: the recorded count, or the whole budget when it runs out. */
  function CallCount(v: Verdict, max: nat): nat {
    match v
    case Succeeded(c) => c
    case Failed(c, _, _) => c
    case Exhausted => max
  }

  /** Sleeps the loop performs: one per transient failure. */
  function Sleeps(v: Verdict, max: nat): int {
    match v
    case Succeeded(c) => c - 1
    case Failed(c, _, _) => c - 1
    case Exhausted => max
  }

  /** All attempts in [k, c) failed transiently. */
  predicate TransientUpTo(outs: seq<Outcome>, k: nat, c: nat) {
    forall j: nat :: k <= j < c ==> IsTransientError(OutcomeAt(outs, j))
  }

  /**
   * An independent reading of the loop: it succeeds at call c iff attempt c-1
   * succeeds and all earlier ones failed transiently; it fails at call c iff
   * attempt c-1 is a non-transient error after transient ones; it runs out iff
   * every attempt within the budget failed transiently.
   */
  lemma {:induction false} RetryFromCharacterised(outs: seq<Outcome>, k: nat, max: nat)
    requires k <= max
    ensures RetryFrom(outs, k, max).Succeeded? ==>
      var c := RetryFrom(outs, k, max).calls;
      k < c <= max && OutcomeAt(outs, c - 1) == Success && TransientUpTo(outs, k, c - 1)
    ensures RetryFrom(outs, k, max).Failed? ==>
      var v := RetryFrom(outs, k, max);
      k < v.calls <= max && OutcomeAt(outs, v.calls - 1) == HttpError(v.status, v.reason)
      && !Transient(v.status) && TransientUpTo(outs, k, v.calls - 1)
    ensures RetryFrom(outs, k, max).Exhausted? <==> TransientUpTo(outs, k, max)
    decreases max - k
  {
    if k < max {
      RetryFromCharacterised(outs, k + 1, max);
      if IsTransientError(OutcomeAt(outs, k)) {
        assert TransientUpTo(outs, k + 1, max) ==> TransientUpTo(outs, k, max);
        forall c: nat | k + 1 <= c && TransientUpTo(outs, k + 1, c)
          ensures TransientUpTo(outs, k, c)
        {
        }
      } else {
        assert !TransientUpTo(outs, k, max);
      }
    }
  }

  /** The loop never makes more than `max` remote calls, and sleeps once fewer than it calls unless it runs out. */
  lemma RetryBounded(outs: seq<Outcome>, max: nat)
    ensures CallCount(RunRetry(outs, max), max) <= max
    ensures RunRetry(outs, max).Exhausted? || Sleeps(RunRetry(outs, max), max) + 1 == CallCount(RunRetry(outs, max), max)
  {
    RetryFromCharacterised(outs, 0, max);
  }

  /** A remote that answers every attempt succeeds on the first call. */
  lemma ReliableSucceedsAtOnce(max: nat)
    requires max > 0
    ensures RunRetry([], max) == Succeeded(1)
  {
  }

  /** A non-transient status on the first attempt fails at once, whatever follows. */
  lemma FatalFirstFailsAtOnce(s: int, reason: string, rest: seq<Outcome>, max: nat)
    requires max > 0 && !Transient(s)
    ensures RunRetry([HttpError(s, reason)] + rest, max) == Failed(1, s, reason)
  {
  }

  /** A remote that keeps answering 503 exhausts the five attempts. */
  lemma UnavailableExhausts()
    ensures RunRetry([HttpError(503, ""), HttpError(503, ""), HttpError(503, ""), HttpError(503, ""), HttpError(503, "")], 5) == Exhausted
  {
    RetryFromCharacterised([HttpError(503, ""), HttpError(503, ""), HttpError(503, ""), HttpError(503, ""), HttpError(503, "")], 0, 5);
  }
}
