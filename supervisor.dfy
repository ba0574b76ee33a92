/**
 * The restart supervisor `safeStartAndLoop` (base.php lines 49-73).
 *
 * Each attempt runs the whole session (start, register the event handler,
 * start the periodic task, run the event loop). When the session throws, the
 * supervisor logs the exception and reports it to the report peers; that
 * report may throw too. What each attempt does is not decided here: it is
 * an oracle, `outcome(n)` for the attempt made when the counter `$restarts`
 * holds n.
 */
module Supervisor {

  /** What happened in one attempt. */
  datatype Attempt = Attempt(
    sessionOk: bool,  // the session returned normally
    reportOk: bool    // after a session failure, logging and reporting it did not throw
  )

  /** Why the supervisor stopped. */
  datatype Ending =
    | CleanExit  // the session returned normally
    | Reported   // the session threw and the failure was reported
    | Exhausted  // the session and its report threw, and the restart limit was reached

  /** An attempt that ends the loop by one of its `break`s. */
  predicate Breaks(a: Attempt) {
    a.sessionOk || a.reportOk
  }

  /** `max(maxRestarts, 0) + 1`: the most attempts the `do ... while` can make. */
  function AttemptLimit(maxRestarts: int): (n: nat)
    ensures n >= 1
  {
    if maxRestarts < 0 then 1 else maxRestarts + 1
  }

  /**
   * The supervisor as a function: the attempt made with counter `restarts`
   * either breaks, or the loop condition `$restarts++ < $maxRestarts` decides
   * whether another attempt follows. Returns the number of attempts made in
   * all and why the loop ended.
   */
  function Supervision(maxRestarts: int, outcome: nat -> Attempt, restarts: nat): (nat, Ending)
    decreases if restarts < maxRestarts then maxRestarts - restarts else 0
  {
    var a := outcome(restarts);
    if a.sessionOk then (restarts + 1, CleanExit)
    else if a.reportOk then (restarts + 1, Reported)
    else if restarts < maxRestarts then Supervision(maxRestarts, outcome, restarts + 1)
    else (restarts + 1, Exhausted)
  }

  /**
   * What the supervisor promises: it makes between 1 and `max(maxRestarts, 0) + 1`
   * attempts; every attempt but the last threw and failed to report; the last
   * one decides the ending, and the limit is reached exactly when the ending
   * is `Exhausted`.
   */
  lemma {:induction false} SupervisionFrom(maxRestarts: int, outcome: nat -> Attempt, restarts: nat)
    requires restarts < AttemptLimit(maxRestarts)
    ensures var (runs, ending) := Supervision(maxRestarts, outcome, restarts);
      && restarts < runs <= AttemptLimit(maxRestarts)
      && (forall i :: restarts <= i < runs - 1 ==> !Breaks(outcome(i)))
      && (ending == CleanExit <==> outcome(runs - 1).sessionOk)
      && (ending == Reported <==> !outcome(runs - 1).sessionOk && outcome(runs - 1).reportOk)
      && (ending == Exhausted <==> !Breaks(outcome(runs - 1)) && runs == AttemptLimit(maxRestarts))
    decreases AttemptLimit(maxRestarts) - restarts
  {
    var a := outcome(restarts);
    if !a.sessionOk && !a.reportOk && restarts < maxRestarts {
      SupervisionFrom(maxRestarts, outcome, restarts + 1);
    }
  }

  /**
   * `safeStartAndLoop($maxRestarts, ...)`. Returns how many attempts were made
   * and why it stopped.
   */
  method SafeStartAndLoop(maxRestarts: int, outcome: nat -> Attempt) returns (runs: nat, ending: Ending)
    ensures (runs, ending) == Supervision(maxRestarts, outcome, 0)
    ensures 1 <= runs <= AttemptLimit(maxRestarts)
    ensures forall i :: 0 <= i < runs - 1 ==> !Breaks(outcome(i))
    ensures ending == CleanExit <==> outcome(runs - 1).sessionOk
    ensures ending == Reported <==> !outcome(runs - 1).sessionOk && outcome(runs - 1).reportOk
    ensures ending == Exhausted <==> !Breaks(outcome(runs - 1)) && runs == AttemptLimit(maxRestarts)
  {
    SupervisionFrom(maxRestarts, outcome, 0);
    var restarts: nat := 0;
    while true
      invariant restarts < AttemptLimit(maxRestarts)
      invariant Supervision(maxRestarts, outcome, restarts) == Supervision(maxRestarts, outcome, 0)
      decreases AttemptLimit(maxRestarts) - restarts
    {
      var attempt := outcome(restarts);
      if attempt.sessionOk {
        // the session returned: `sleep(5); break;`
        runs, ending := restarts + 1, CleanExit;
        return;
      }
      if attempt.reportOk {
        // `logger(...)` and `report(...)` succeeded: `break;`
        runs, ending := restarts + 1, Reported;
        return;
      }
      // both threw; `while ($restarts++ < $maxRestarts)`
      var again := restarts < maxRestarts;
      restarts := restarts + 1;
      if !again {
        runs, ending := restarts, Exhausted;
        return;
      }
    }
  }

  /** A session that always throws and whose report always throws, with the default limit 1, runs exactly twice. */
  lemma AlwaysFailingRunsTwice()
    ensures Supervision(1, _ => Attempt(false, false), 0) == (2, Exhausted)
  {
    var outcome: nat -> Attempt := _ => Attempt(false, false);
    assert Supervision(1, outcome, 1) == (2, Exhausted);
  }

  /** A failure that is reported ends the loop at once, whatever the limit: the counter does not buy a retry. */
  lemma ReportedFailureNeverRetries(maxRestarts: int, outcome: nat -> Attempt)
    requires !outcome(0).sessionOk && outcome(0).reportOk
    ensures Supervision(maxRestarts, outcome, 0) == (1, Reported)
  {
  }
}
