// The time-stepped engine of `run_simulation` (src/functions.py:59-86) as a
// function of the counters it starts from, the radar rows, the stream of
// uniform draws and the kill probability Pk.

module Simulation {

  import opened Tokens
  import opened Classifier

  /** The run stops after this many time steps, whatever the input holds. */
  const StepCeiling: nat := 20

  /** `hostiles_count`, `hostile_detected_count` and `hostile_identified_count`. */
  datatype Counters = Counters(hostiles: nat, detected: nat, identified: nat)

  /** The counter ordering every step keeps: identified <= detected <= hostiles. */
  predicate Ordered(c: Counters)
  {
    c.identified <= c.detected <= c.hostiles
  }

  /** No counter of `c` is above the same counter of `c'`. */
  predicate Grows(c: Counters, c': Counters)
  {
    c.hostiles <= c'.hostiles && c.detected <= c'.detected && c.identified <= c'.identified
  }

  /** How a run ends: normally, or with the index error raised at a blank token of time step `step`. */
  datatype Stop = Finished | TokenError(step: nat)

  /** The counters after the run, the position reached in the draw stream, and how the run ended. */
  datatype Run = Run(counters: Counters, nextDraw: nat, stop: Stop)

  /** Number of time steps still allowed when the next row would be time step `step`. */
  function Budget(step: nat): nat
  {
    if step > StepCeiling then 0 else StepCeiling + 1 - step
  }

  function Min(a: nat, b: nat): nat
  {
    if a <= b then a else b
  }

  /**
   * Processes `rows` in order, the first as time step `step` (1-based), from
   * counters `c` with the draw stream at position `next`. Every processed step
   * counts one hostile; a hostile row also counts a detection and consumes one
   * draw `u`, and `u < pk` counts an identification. Clear rows consume no draw.
   */
  function Simulate(c: Counters, rows: seq<seq<string>>, draws: nat -> real, next: nat,
                    pk: real, step: nat): Run
    decreases |rows|
  {
    if rows == [] || step > StepCeiling then Run(c, next, Finished)
    else
      var c1 := c.(hostiles := c.hostiles + 1);
      match Classify(rows[0])
      case None => Run(c1, next, TokenError(step))
      case Some(Clear) => Simulate(c1, rows[1..], draws, next, pk, step + 1)
      case Some(Hostile) =>
        var c2 := c1.(detected := c1.detected + 1,
                      identified := if draws(next) < pk then c1.identified + 1 else c1.identified);
        Simulate(c2, rows[1..], draws, next + 1, pk, step + 1)
  }

  /**
   * Invariant of every run: no counter goes down, the ordering
   * identified <= detected <= hostiles is kept, exactly one draw is consumed
   * per detection, and at most Budget(step) steps are counted.
   */
  lemma {:induction false} SimulateKeepsCounterInvariant(c: Counters, rows: seq<seq<string>>, draws: nat -> real,
                                                         next: nat, pk: real, step: nat)
    ensures var r := Simulate(c, rows, draws, next, pk, step);
            Grows(c, r.counters) && (Ordered(c) ==> Ordered(r.counters)) &&
            next <= r.nextDraw && r.nextDraw - next == r.counters.detected - c.detected &&
            r.counters.hostiles - c.hostiles <= Min(|rows|, Budget(step))
    decreases |rows|
  {
    if rows != [] && step <= StepCeiling && Classify(rows[0]).Some? {
      var c1 := c.(hostiles := c.hostiles + 1);
      if Classify(rows[0]) == Some(Clear) {
        SimulateKeepsCounterInvariant(c1, rows[1..], draws, next, pk, step + 1);
      } else {
        var c2 := c1.(detected := c1.detected + 1,
                      identified := if draws(next) < pk then c1.identified + 1 else c1.identified);
        SimulateKeepsCounterInvariant(c2, rows[1..], draws, next + 1, pk, step + 1);
      }
    }
  }

  /** One time step of `Simulate` on a well-formed row, from counters `c` to counters `c'`. */
  lemma SimulateOneStep(c: Counters, c': Counters, rows: seq<seq<string>>, draws: nat -> real,
                        next: nat, next': nat, pk: real, step: nat, hostile: bool)
    requires rows != [] && step <= StepCeiling
    requires Classify(rows[0]) == Some(if hostile then Hostile else Clear)
    requires c'.hostiles == c.hostiles + 1
    requires c'.detected == if hostile then c.detected + 1 else c.detected
    requires c'.identified == if hostile && draws(next) < pk then c.identified + 1 else c.identified
    requires next' == if hostile then next + 1 else next
    ensures Simulate(c, rows, draws, next, pk, step) == Simulate(c', rows[1..], draws, next', pk, step + 1)
  {
  }

  /** A blank token stops the run at the current step, after counting it. */
  lemma SimulateFailingStep(c: Counters, rows: seq<seq<string>>, draws: nat -> real,
                            next: nat, pk: real, step: nat)
    requires rows != [] && step <= StepCeiling && !WellFormed(rows[0])
    ensures Simulate(c, rows, draws, next, pk, step) ==
            Run(Counters(c.hostiles + 1, c.detected, c.identified), next, TokenError(step))
  {
  }

  /** Number of rows the classifier calls hostile. */
  function HostileRows(rows: seq<seq<string>>): nat
  {
    if rows == [] then 0
    else (if Classify(rows[0]) == Some(Hostile) then 1 else 0) + HostileRows(rows[1..])
  }

  /**
   * Ceiling: a run that finishes has processed exactly min(|rows|, Budget(step))
   * steps; a run that fails does so inside that window, after counting the
   * failing step itself.
   */
  lemma {:induction false} SimulateSteps(c: Counters, rows: seq<seq<string>>, draws: nat -> real,
                                         next: nat, pk: real, step: nat)
    ensures var r := Simulate(c, rows, draws, next, pk, step);
            match r.stop
            case Finished => r.counters.hostiles == c.hostiles + Min(|rows|, Budget(step))
            case TokenError(s) =>
              step <= s < step + Min(|rows|, Budget(step)) && r.counters.hostiles == c.hostiles + (s - step + 1)
    decreases |rows|
  {
    if rows != [] && step <= StepCeiling && Classify(rows[0]).Some? {
      var c1 := c.(hostiles := c.hostiles + 1);
      if Classify(rows[0]) == Some(Clear) {
        SimulateSteps(c1, rows[1..], draws, next, pk, step + 1);
      } else {
        var c2 := c1.(detected := c1.detected + 1,
                      identified := if draws(next) < pk then c1.identified + 1 else c1.identified);
        SimulateSteps(c2, rows[1..], draws, next + 1, pk, step + 1);
      }
    }
  }

  /** A run ends normally exactly when every row inside the step window is well formed. */
  lemma {:induction false} SimulateFinishedIff(c: Counters, rows: seq<seq<string>>, draws: nat -> real,
                                               next: nat, pk: real, step: nat)
    ensures Simulate(c, rows, draws, next, pk, step).stop == Finished <==>
            forall i :: 0 <= i < Min(|rows|, Budget(step)) ==> WellFormed(rows[i])
    decreases |rows|
  {
    if rows != [] && step <= StepCeiling && Classify(rows[0]).Some? {
      var c1 := c.(hostiles := c.hostiles + 1);
      var rest := rows[1..];
      if Classify(rows[0]) == Some(Clear) {
        SimulateFinishedIff(c1, rest, draws, next, pk, step + 1);
      } else {
        var c2 := c1.(detected := c1.detected + 1,
                      identified := if draws(next) < pk then c1.identified + 1 else c1.identified);
        SimulateFinishedIff(c2, rest, draws, next + 1, pk, step + 1);
      }
      assert forall i :: 1 <= i < |rows| ==> rows[i] == rest[i - 1];
    }
  }

  /** Rows beyond the step window are never looked at. */
  lemma {:induction false} SimulateIgnoresLateRows(c: Counters, rows: seq<seq<string>>, draws: nat -> real,
                                                   next: nat, pk: real, step: nat)
    requires Budget(step) <= |rows|
    ensures Simulate(c, rows, draws, next, pk, step) == Simulate(c, rows[..Budget(step)], draws, next, pk, step)
    decreases |rows|
  {
    var early := rows[..Budget(step)];
    if Budget(step) > 0 && Classify(rows[0]).Some? {
      assert early[0] == rows[0];
      assert early[1..] == rows[1..][..Budget(step + 1)];
      var c1 := c.(hostiles := c.hostiles + 1);
      if Classify(rows[0]) == Some(Clear) {
        SimulateIgnoresLateRows(c1, rows[1..], draws, next, pk, step + 1);
      } else {
        var c2 := c1.(detected := c1.detected + 1,
                      identified := if draws(next) < pk then c1.identified + 1 else c1.identified);
        SimulateIgnoresLateRows(c2, rows[1..], draws, next + 1, pk, step + 1);
      }
    } else if Budget(step) > 0 {
      assert early[0] == rows[0];
    }
  }

  /**
   * Detections of a finished run are exactly the hostile rows inside the step
   * window, and the run consumed one draw per detection.
   */
  lemma {:induction false} SimulateDetectsHostileRows(c: Counters, rows: seq<seq<string>>, draws: nat -> real,
                                                      next: nat, pk: real, step: nat)
    ensures var r := Simulate(c, rows, draws, next, pk, step);
            r.stop == Finished ==>
              r.counters.detected == c.detected + HostileRows(rows[..Min(|rows|, Budget(step))]) &&
              r.nextDraw == next + HostileRows(rows[..Min(|rows|, Budget(step))])
    decreases |rows|
  {
    var n := Min(|rows|, Budget(step));
    if n > 0 && Classify(rows[0]).Some? {
      var window := rows[..n];
      assert window[0] == rows[0] && window[1..] == rows[1..][..Min(|rows| - 1, Budget(step + 1))];
      var c1 := c.(hostiles := c.hostiles + 1);
      if Classify(rows[0]) == Some(Clear) {
        SimulateDetectsHostileRows(c1, rows[1..], draws, next, pk, step + 1);
      } else {
        var c2 := c1.(detected := c1.detected + 1,
                      identified := if draws(next) < pk then c1.identified + 1 else c1.identified);
        SimulateDetectsHostileRows(c2, rows[1..], draws, next + 1, pk, step + 1);
      }
    }
  }

  /**
   * Reproducibility: two draw streams that agree on the draws a run consumes
   * give the same run. In particular draws skipped by clear steps never matter.
   */
  lemma {:induction false} SimulateUsesOnlyConsumedDraws(c: Counters, rows: seq<seq<string>>,
                                                         d1: nat -> real, d2: nat -> real,
                                                         next: nat, pk: real, step: nat)
    requires forall k :: next <= k < Simulate(c, rows, d1, next, pk, step).nextDraw ==> d1(k) == d2(k)
    ensures Simulate(c, rows, d1, next, pk, step) == Simulate(c, rows, d2, next, pk, step)
    decreases |rows|
  {
    if rows != [] && step <= StepCeiling {
      var c1 := c.(hostiles := c.hostiles + 1);
      match Classify(rows[0])
      case None =>
      case Some(Clear) =>
        SimulateUsesOnlyConsumedDraws(c1, rows[1..], d1, d2, next, pk, step + 1);
      case Some(Hostile) =>
        var c2 := c1.(detected := c1.detected + 1,
                      identified := if d1(next) < pk then c1.identified + 1 else c1.identified);
        SimulateKeepsCounterInvariant(c2, rows[1..], d1, next + 1, pk, step + 1);
        assert d1(next) == d2(next);
        SimulateUsesOnlyConsumedDraws(c2, rows[1..], d1, d2, next + 1, pk, step + 1);
    }
  }

  /** With Pk <= 0 no draw in [0, 1) is below Pk: nothing is ever identified. */
  lemma {:induction false} SimulateNeverIdentifies(c: Counters, rows: seq<seq<string>>, draws: nat -> real,
                                                   next: nat, pk: real, step: nat)
    requires pk <= 0.0
    requires forall k: nat :: 0.0 <= draws(k)
    ensures Simulate(c, rows, draws, next, pk, step).counters.identified == c.identified
    decreases |rows|
  {
    if rows != [] && step <= StepCeiling {
      var c1 := c.(hostiles := c.hostiles + 1);
      match Classify(rows[0])
      case None =>
      case Some(Clear) =>
        SimulateNeverIdentifies(c1, rows[1..], draws, next, pk, step + 1);
      case Some(Hostile) =>
        var c2 := c1.(detected := c1.detected + 1);
        assert !(draws(next) < pk);
        SimulateNeverIdentifies(c2, rows[1..], draws, next + 1, pk, step + 1);
    }
  }

  /** With Pk >= 1 every draw in [0, 1) is below Pk: every detection is identified. */
  lemma {:induction false} SimulateAlwaysIdentifies(c: Counters, rows: seq<seq<string>>, draws: nat -> real,
                                                    next: nat, pk: real, step: nat)
    requires 1.0 <= pk
    requires forall k: nat :: draws(k) < 1.0
    ensures var r := Simulate(c, rows, draws, next, pk, step);
            r.counters.identified - c.identified == r.counters.detected - c.detected
    decreases |rows|
  {
    if rows != [] && step <= StepCeiling {
      var c1 := c.(hostiles := c.hostiles + 1);
      match Classify(rows[0])
      case None =>
      case Some(Clear) =>
        SimulateAlwaysIdentifies(c1, rows[1..], draws, next, pk, step + 1);
      case Some(Hostile) =>
        var c2 := c1.(detected := c1.detected + 1, identified := c1.identified + 1);
        assert draws(next) < pk;
        SimulateAlwaysIdentifies(c2, rows[1..], draws, next + 1, pk, step + 1);
    }
  }

  /**
   * A whole run from fresh counters over well-formed rows: it finishes, and
   * the total is the number of rows capped at the ceiling (25 rows give 20).
   */
  lemma SimulateWholeRun(rows: seq<seq<string>>, draws: nat -> real, pk: real)
    requires forall i :: 0 <= i < Min(|rows|, StepCeiling) ==> WellFormed(rows[i])
    ensures var r := Simulate(Counters(0, 0, 0), rows, draws, 0, pk, 1);
            r.stop == Finished && r.counters.hostiles == Min(|rows|, StepCeiling) && Ordered(r.counters)
  {
    SimulateFinishedIff(Counters(0, 0, 0), rows, draws, 0, pk, 1);
    SimulateSteps(Counters(0, 0, 0), rows, draws, 0, pk, 1);
    SimulateKeepsCounterInvariant(Counters(0, 0, 0), rows, draws, 0, pk, 1);
  }

  /**
   * Three rows, all odd, all even, then two odd against one even, with Pk = 1:
   * three steps, two detections (rows 1 and 3), both identified.
   */
  lemma SimulateThreeRowExample(draws: nat -> real)
    requires forall k: nat :: 0.0 <= draws(k) < 1.0
    ensures var rows := [["1111111", "1111111", "1111111"],
                         ["0000000", "0000000", "0000000"],
                         ["1111111", "1111111", "0000000"]];
            Simulate(Counters(0, 0, 0), rows, draws, 0, 1.0, 1) == Run(Counters(3, 2, 2), 2, Finished)
  {
    var one, zero := "1111111", "0000000";
    var rows := [[one, one, one], [zero, zero, zero], [one, one, zero]];
    ClassifyUniform([one, one, one], Odd);
    ClassifyUniform([zero, zero, zero], Even);
    ClassifyExamples();
    assert rows[1..][0] == [zero, zero, zero] && rows[1..][1..][0] == [one, one, zero];
    assert rows[1..][1..][1..] == [];
    SimulateOneStep(Counters(0, 0, 0), Counters(1, 1, 1), rows, draws, 0, 1, 1.0, 1, true);
    SimulateOneStep(Counters(1, 1, 1), Counters(2, 1, 1), rows[1..], draws, 1, 1, 1.0, 2, false);
    SimulateOneStep(Counters(2, 1, 1), Counters(3, 2, 2), rows[1..][1..], draws, 1, 2, 1.0, 3, true);
  }
}
