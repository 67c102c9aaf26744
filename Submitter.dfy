/**
 * postEvents: the events are cut into slices of 5000 and each slice is
 * POSTed; successes and rate-limit replies sleep DELAY seconds, and each
 * rate-limit reply raises DELAY by 5. The HTTP replies are the input
 * `reply` (the outcome of the POST of slice i) and the requested sleeps are
 * part of the output; reading the events file back is outside the model.
 */
module Submitter {
  import opened Events

  const SliceSize: nat := 5000
  const InitialDelay: nat := 10
  const DelayIncrement: nat := 5
  const TooManyRequests: int := 429

  /** What one POST comes back with: a status code, or a raised exception. */
  datatype PostOutcome = Status(code: int) | Raised

  /** `response.status_code in range(200, 210)` */
  predicate IsSuccess(o: PostOutcome) {
    o.Status? && 200 <= o.code < 210
  }

  predicate IsRateLimited(o: PostOutcome) {
    o.Status? && o.code == TooManyRequests
  }

  /** N_SLICES = math.ceil(len(events) / SLICE_SIZE) */
  function SliceCount(n: nat): nat {
    (n + SliceSize - 1) / SliceSize
  }

  /** SliceCount is the ceiling of n / 5000: the fewest slices of at most 5000 that hold n events. */
  lemma SliceCountIsCeiling(n: nat)
    ensures SliceCount(n) * SliceSize >= n
    ensures SliceCount(n) > 0 ==> (SliceCount(n) - 1) * SliceSize < n
    ensures n == 0 <==> SliceCount(n) == 0
  {
  }

  /** The slices laid end to end. */
  function Flatten(batches: seq<seq<Event>>): seq<Event> {
    if batches == [] then [] else Flatten(batches[..|batches| - 1]) + batches[|batches| - 1]
  }

  /** The outcomes of the first n POSTs. */
  function Outcomes(reply: nat -> PostOutcome, n: nat): (r: seq<PostOutcome>)
    ensures |r| == n && forall i :: 0 <= i < n ==> r[i] == reply(i)
  {
    seq(n, i requires 0 <= i => reply(i))
  }

  /** Number of rate-limit replies among the outcomes. */
  function RateLimitedCount(outcomes: seq<PostOutcome>): nat {
    if outcomes == [] then 0
    else RateLimitedCount(outcomes[..|outcomes| - 1]) + (if IsRateLimited(outcomes[|outcomes| - 1]) then 1 else 0)
  }

  /** Number of outcomes after which the loop sleeps: successes and rate-limit replies. */
  function SleepingCount(outcomes: seq<PostOutcome>): nat {
    if outcomes == [] then 0
    else
      var last := outcomes[|outcomes| - 1];
      SleepingCount(outcomes[..|outcomes| - 1]) + (if IsSuccess(last) || IsRateLimited(last) then 1 else 0)
  }

  /**
   * The requested sleeps and the value of DELAY after the given outcomes:
   * a success sleeps DELAY; a rate-limit reply sleeps DELAY, then raises it
   * by 5; any other status and an exception do neither.
   */
  function Backoff(outcomes: seq<PostOutcome>): (r: (seq<nat>, nat))
    ensures r.1 == InitialDelay + DelayIncrement * RateLimitedCount(outcomes)
    ensures |r.0| == SleepingCount(outcomes)
  {
    if outcomes == [] then ([], InitialDelay)
    else
      var (sleeps, delay) := Backoff(outcomes[..|outcomes| - 1]);
      var last := outcomes[|outcomes| - 1];
      if IsSuccess(last) then (sleeps + [delay], delay)
      else if IsRateLimited(last) then (sleeps + [delay], delay + DelayIncrement)
      else (sleeps, delay)
  }

  /** DELAY never decreases: every sleep is at least 10 s, no sleep is shorter than an earlier one, and none exceeds the final DELAY. */
  lemma {:induction false} SleepsNondecreasing(outcomes: seq<PostOutcome>)
    ensures forall i :: 0 <= i < |Backoff(outcomes).0| ==> InitialDelay <= Backoff(outcomes).0[i] <= Backoff(outcomes).1
    ensures forall i, j :: 0 <= i < j < |Backoff(outcomes).0| ==> Backoff(outcomes).0[i] <= Backoff(outcomes).0[j]
  {
    if outcomes != [] {
      var prefix := outcomes[..|outcomes| - 1];
      SleepsNondecreasing(prefix);
      var sleeps, delay := Backoff(prefix).0, Backoff(prefix).1;
      var sleeps', delay' := Backoff(outcomes).0, Backoff(outcomes).1;
      assert delay <= delay';
      assert sleeps' == sleeps || sleeps' == sleeps + [delay];
      forall i | 0 <= i < |sleeps'|
        ensures InitialDelay <= sleeps'[i] <= delay'
      {
        if i < |sleeps| {
          assert sleeps'[i] == sleeps[i];
        }
      }
      forall i, j | 0 <= i < j < |sleeps'|
        ensures sleeps'[i] <= sleeps'[j]
      {
        if j < |sleeps| {
          assert sleeps'[i] == sleeps[i] && sleeps'[j] == sleeps[j];
        } else {
          assert sleeps'[i] == sleeps[i] && sleeps'[j] == delay;
        }
      }
    }
  }

  /** The rate-limit count of consecutive runs of outcomes adds up. */
  lemma {:induction false} RateLimitedCountAppend(a: seq<PostOutcome>, b: seq<PostOutcome>)
    ensures RateLimitedCount(a + b) == RateLimitedCount(a) + RateLimitedCount(b)
    decreases |b|
  {
    if b == [] {
      assert a + b == a;
    } else {
      assert (a + b)[..|a + b| - 1] == a + b[..|b| - 1];
      RateLimitedCountAppend(a, b[..|b| - 1]);
    }
  }

  /** Later outcomes can only raise DELAY, by 5 per rate-limit reply among them. */
  lemma DelayGrowsBy(a: seq<PostOutcome>, b: seq<PostOutcome>)
    ensures Backoff(a + b).1 == Backoff(a).1 + DelayIncrement * RateLimitedCount(b)
    ensures Backoff(a).1 <= Backoff(a + b).1
  {
    RateLimitedCountAppend(a, b);
  }

  /** Bounds on the slice starts that keep every slice inside the list. */
  lemma SliceBounds(n: nat, i: nat)
    requires i < SliceCount(n)
    ensures i * SliceSize < n
    ensures i < SliceCount(n) - 1 ==> (i + 1) * SliceSize < n
    ensures i == SliceCount(n) - 1 ==> n - i * SliceSize <= SliceSize
  {
    SliceCountIsCeiling(n);
  }

  /** The slice taken at step i extends the events posted so far, and has the sizes the source promises. */
  lemma SliceStep(events: seq<Event>, i: nat, block: seq<Event>)
    requires i < SliceCount(|events|)
    requires block == if i == SliceCount(|events|) - 1 then events[i * SliceSize..] else events[i * SliceSize..(i + 1) * SliceSize]
    ensures events[..i * SliceSize] + block == if i == SliceCount(|events|) - 1 then events else events[..(i + 1) * SliceSize]
    ensures i < SliceCount(|events|) - 1 ==> |block| == SliceSize
    ensures 0 < |block| <= SliceSize
  {
    SliceBounds(|events|, i);
    if i == SliceCount(|events|) - 1 {
      assert events[..i * SliceSize] + events[i * SliceSize..] == events;
    } else {
      assert events[..i * SliceSize] + events[i * SliceSize..(i + 1) * SliceSize] == events[..(i + 1) * SliceSize];
    }
  }

  /** One more POST: its outcome is appended, and DELAY and the sleeps move on by one step. */
  lemma BackoffStep(reply: nat -> PostOutcome, i: nat)
    ensures Outcomes(reply, i + 1)[..i] == Outcomes(reply, i)
    ensures var (sleeps, delay) := Backoff(Outcomes(reply, i));
      Backoff(Outcomes(reply, i + 1)) ==
        if IsSuccess(reply(i)) then (sleeps + [delay], delay)
        else if IsRateLimited(reply(i)) then (sleeps + [delay], delay + DelayIncrement)
        else (sleeps, delay)
  {
    assert Outcomes(reply, i + 1)[..i] == Outcomes(reply, i);
  }

  /** postEvents, from the list read back from the events file on. */
  method PostEvents(events: seq<Event>, reply: nat -> PostOutcome) returns (batches: seq<seq<Event>>, sleeps: seq<nat>, delay: nat)
    ensures |batches| == SliceCount(|events|)
    ensures Flatten(batches) == events
    ensures forall i :: 0 <= i < |batches| - 1 ==> |batches[i]| == SliceSize
    ensures |batches| > 0 ==> 0 < |batches[|batches| - 1]| <= SliceSize
    ensures (sleeps, delay) == Backoff(Outcomes(reply, |batches|))
    ensures delay == InitialDelay + DelayIncrement * RateLimitedCount(Outcomes(reply, |batches|))
  {
    var nSlices := SliceCount(|events|);
    batches, sleeps, delay := [], [], InitialDelay;
    for i := 0 to nSlices
      invariant |batches| == i
      invariant i < nSlices ==> Flatten(batches) == events[..i * SliceSize]
      invariant i == nSlices ==> Flatten(batches) == events
      invariant forall k :: 0 <= k < i ==> 0 < |batches[k]| <= SliceSize && (k < nSlices - 1 ==> |batches[k]| == SliceSize)
      invariant (sleeps, delay) == Backoff(Outcomes(reply, i))
    {
      SliceBounds(|events|, i);
      var eventBlock: seq<Event>;
      if i == nSlices - 1 {
        eventBlock := events[i * SliceSize..];
      } else {
        eventBlock := events[i * SliceSize..(i + 1) * SliceSize];
      }
      SliceStep(events, i, eventBlock);
      batches := batches + [eventBlock];
      assert batches[..i] == batches[..|batches| - 1];
      BackoffStep(reply, i);
      match reply(i) {
        case Raised =>
          // The session is closed and the exception printed; the loop goes on.
        case Status(code) =>
          if 200 <= code < 210 {
            sleeps := sleeps + [delay];
          } else if code == TooManyRequests {
            sleeps := sleeps + [delay];
            delay := delay + DelayIncrement;
          }
      }
    }
    if nSlices == 0 {
      SliceCountIsCeiling(|events|);
    }
  }
}
