/** The heartbeat client of ez_browser.py (`_hb_loop`): a loop that announces the hosted
    server, counts consecutive failed attempts and signals the LED colour. */
module Heartbeat {

  /** The colours the window's heartbeat LED is set to: "lime", "red" and "#ffaa00". */
  datatype Color = Lime | Red | Amber

  /** The stop signal shared between a heartbeat loop and the window that started it
      (a `threading.Event`). */
  class StopEvent {
    var isSet: bool

    constructor ()
      ensures !isSet
    {
      isSet := false;
    }
  }

  /** One announce attempt as the loop observes it: an HTTP status, or an exception
      raised by the request (connection error, timeout, ...). */
  datatype Attempt = Response(status: int) | Raised

  /** Consecutive failures from which the LED turns red. */
  const DegradedAt: nat := 2

  /** A 2xx status (section 15.3 of RFC 9110). */
  predicate Succeeded(a: Attempt)
  {
    a.Response? && 200 <= a.status < 300
  }

  /** One pass of the loop body: the new failure count and the colours signalled. */
  function Step(failures: nat, a: Attempt): (nat, seq<Color>)
  {
    var f: nat := if Succeeded(a) then 0 else failures + 1;
    var shown := if Succeeded(a) then [Lime] else [];
    (f, shown + if f >= DegradedAt then [Red] else [])
  }

  /** A 2xx status resets the counter and signals lime; anything else adds one failure;
      red is signalled exactly when the counter reaches the threshold; at most one colour
      per pass, never amber. */
  lemma StepSignals(failures: nat, a: Attempt)
    ensures Succeeded(a) ==> Step(failures, a).0 == 0
    ensures !Succeeded(a) ==> Step(failures, a).0 == failures + 1
    ensures (Lime in Step(failures, a).1) <==> Succeeded(a)
    ensures (Red in Step(failures, a).1) <==> Step(failures, a).0 >= DegradedAt
    ensures |Step(failures, a).1| <= 1 && Amber !in Step(failures, a).1
  {
  }

  /** The failure count and the colour log after the given attempts, in order. */
  function Run(failures: nat, attempts: seq<Attempt>): (nat, seq<Color>)
    decreases |attempts|
  {
    if attempts == [] then (failures, [])
    else
      var before := Run(failures, attempts[..|attempts| - 1]);
      var after := Step(before.0, attempts[|attempts| - 1]);
      (after.0, before.1 + after.1)
  }

  /** Running one more attempt is one more step. */
  lemma RunSnoc(failures: nat, attempts: seq<Attempt>, a: Attempt)
    ensures Run(failures, attempts + [a]).0 == Step(Run(failures, attempts).0, a).0
    ensures Run(failures, attempts + [a]).1 == Run(failures, attempts).1 + Step(Run(failures, attempts).0, a).1
  {
    assert (attempts + [a])[..|attempts|] == attempts;
  }

  /** The number of failed attempts since the last success. */
  function TrailingFailures(attempts: seq<Attempt>): nat
  {
    if attempts == [] || Succeeded(attempts[|attempts| - 1]) then 0
    else 1 + TrailingFailures(attempts[..|attempts| - 1])
  }

  predicate AllFailed(attempts: seq<Attempt>)
  {
    forall i :: 0 <= i < |attempts| ==> !Succeeded(attempts[i])
  }

  /** The failure counter is exactly the number of consecutive failures since the last
      success, on top of the starting count when there was no success at all. */
  lemma {:induction false} RunCountsTrailingFailures(failures: nat, attempts: seq<Attempt>)
    ensures Run(failures, attempts).0 == TrailingFailures(attempts) + (if AllFailed(attempts) then failures else 0)
    decreases |attempts|
  {
    if attempts != [] {
      var prefix := attempts[..|attempts| - 1];
      RunCountsTrailingFailures(failures, prefix);
      assert AllFailed(attempts) <==> AllFailed(prefix) && !Succeeded(attempts[|attempts| - 1]) by {
        if AllFailed(prefix) && !Succeeded(attempts[|attempts| - 1]) {
          forall i | 0 <= i < |attempts| ensures !Succeeded(attempts[i]) {
            if i < |attempts| - 1 {
              assert attempts[i] == prefix[i];
            }
          }
        }
      }
    }
  }

  /** Two failed attempts in a row turn the LED red, whatever came before. */
  lemma DegradedAfterTwoFailures(failures: nat, attempts: seq<Attempt>, x: Attempt, y: Attempt)
    requires !Succeeded(x) && !Succeeded(y)
    ensures Run(failures, attempts + [x, y]).0 >= DegradedAt
    ensures Run(failures, attempts + [x, y]).1 == Run(failures, attempts + [x]).1 + [Red]
  {
    assert (attempts + [x, y])[..|attempts| + 1] == attempts + [x];
    assert (attempts + [x])[..|attempts|] == attempts;
  }

  /** A success resets the counter and turns the LED lime. */
  lemma RecoversOnSuccess(failures: nat, attempts: seq<Attempt>, s: Attempt)
    requires Succeeded(s)
    ensures Run(failures, attempts + [s]).0 == 0
    ensures Run(failures, attempts + [s]).1 == Run(failures, attempts).1 + [Lime]
  {
    assert (attempts + [s])[..|attempts|] == attempts;
  }

  /** A single failure after a success signals no colour at all. */
  lemma FirstFailureIsSilent(failures: nat, attempts: seq<Attempt>, s: Attempt, x: Attempt)
    requires Succeeded(s) && !Succeeded(x)
    ensures Run(failures, attempts + [s, x]).0 == 1
    ensures Run(failures, attempts + [s, x]).1 == Run(failures, attempts).1 + [Lime]
  {
    assert (attempts + [s, x])[..|attempts| + 1] == attempts + [s];
    assert (attempts + [s])[..|attempts|] == attempts;
  }

  /** `_hb_loop`: `stopSeen[k]` is what the stop event reads at the check before attempt k,
      `outcomes[k]` is what attempt k observes. The loop stops at the first check that finds
      the event set; the run ends with the event set. */
  method HeartbeatLoop(outcomes: seq<Attempt>, stopSeen: seq<bool>) returns (failures: nat, colors: seq<Color>, made: nat)
    requires |stopSeen| == |outcomes| + 1 && stopSeen[|outcomes|]
    ensures made <= |outcomes| && stopSeen[made]
    ensures forall k :: 0 <= k < made ==> !stopSeen[k]
    ensures failures == Run(0, outcomes[..made]).0 && colors == Run(0, outcomes[..made]).1
  {
    failures, colors, made := 0, [], 0;
    ghost var done: seq<Attempt> := [];
    while !stopSeen[made]
      invariant made <= |outcomes| && done == outcomes[..made]
      invariant forall k :: 0 <= k < made ==> !stopSeen[k]
      invariant failures == Run(0, done).0 && colors == Run(0, done).1
      decreases |outcomes| - made
    {
      var a := outcomes[made];
      ghost var step := Step(failures, a);
      RunSnoc(0, done, a);
      ghost var prev := colors;
      if Succeeded(a) {
        failures := 0;
        colors := colors + [Lime];
      } else {
        failures := failures + 1;
      }
      if failures >= DegradedAt {
        colors := colors + [Red];
      }
      assert failures == step.0 && colors == prev + step.1;
      done := done + [a];
      made := made + 1;
      assert done == outcomes[..made];
    }
  }
}
