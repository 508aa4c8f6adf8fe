// The `PatriotAirDefenseSystem` object (src/functions.py:6-119): three
// counters updated in place by `run_simulation`, one time step per radar row.

module Patriot {

  import opened Classifier
  import opened Simulation
  import opened Reporting

  /** What a call of `run_simulation` leaves behind. */
  datatype Outcome =
    | InputMissing                          // no radar file: return before any step, nothing written
    | LogUnavailable                        // the log file cannot be opened: fail before any step, nothing written
    | Crashed(step: nat)                    // index error on a blank token at this time step, nothing written
    | ResultsUnavailable                    // every step ran, but the results file cannot be opened
    | Completed(results: seq<ReportLine>)   // the summary `_write_results` writes

  class PatriotAirDefenseSystem {
    /** Probability of kill: a detection is identified when its draw is below it. */
    const pk: real
    /** Real-time pacing (a sleep per step); it has no effect on the counters. */
    const realTime: bool
    /** The seeded stream of `random.uniform(0, 1)` values the run reads from. */
    const draws: nat -> real
    /** Position of the next unread value of `draws`. */
    var drawIndex: nat

    var hostilesCount: nat
    var hostileDetectedCount: nat
    var hostileIdentifiedCount: nat

    function Counts(): Counters
      reads this
    {
      Counters(hostilesCount, hostileDetectedCount, hostileIdentifiedCount)
    }

    predicate Valid()
      reads this
    {
      Ordered(Counts())
    }

    /** Sets Pk, pacing and the seeded draw stream; all counters start at zero. */
    constructor (pk: real, realTime: bool, draws: nat -> real)
      ensures this.pk == pk && this.realTime == realTime && this.draws == draws
      ensures Counts() == Counters(0, 0, 0) && drawIndex == 0
      ensures Valid()
    {
      this.pk := pk;
      this.realTime := realTime;
      this.draws := draws;
      drawIndex := 0;
      hostilesCount := 0;
      hostileDetectedCount := 0;
      hostileIdentifiedCount := 0;
    }

    /**
     * One call of `run_simulation` on the already-parsed radar rows.
     * `logOpens` and `resultsOpens` say whether the log and results files
     * can be opened for writing. Without an input file, or without a log
     * file, nothing changes. Otherwise the counters continue from their
     * current values exactly as `Simulate` says, and the ordering
     * identified <= detected <= hostiles is kept. A completed run reports
     * rates within their bounds.
     */
    method RunSimulation(inputExists: bool, logOpens: bool, resultsOpens: bool, rows: seq<seq<string>>)
      returns (outcome: Outcome)
      requires Valid()
      modifies this
      ensures Valid()
      ensures !inputExists ==> outcome == InputMissing && unchanged(this)
      ensures inputExists && !logOpens ==> outcome == LogUnavailable && unchanged(this)
      ensures inputExists && logOpens ==>
                var r := Simulate(old(Counts()), rows, draws, old(drawIndex), pk, 1);
                Counts() == r.counters && drawIndex == r.nextDraw &&
                outcome == match r.stop
                           case Finished => if resultsOpens then Completed(Report(r.counters)) else ResultsUnavailable
                           case TokenError(s) => Crashed(s)
      ensures Grows(old(Counts()), Counts())
      ensures outcome.Completed? ==> forall i :: 0 <= i < |outcome.results| ==> InBounds(outcome.results[i])
    {
      if !inputExists {
        return InputMissing;
      }
      if !logOpens {
        return LogUnavailable;
      }
      var stop := Steps(rows);
      match stop {
        case TokenError(step) =>
          outcome := Crashed(step);
        case Finished =>
          if !resultsOpens {
            return ResultsUnavailable;
          }
          ReportBounds(Counts());
          outcome := Completed(Report(Counts()));
      }
    }

    /**
     * The time-step loop of `run_simulation`, one radar row per step and at
     * most `StepCeiling` steps. The counters and the stream position end
     * where `Simulate` says, and `stop` is how the run ended.
     */
    method Steps(rows: seq<seq<string>>) returns (stop: Stop)
      requires Valid()
      modifies this
      ensures Valid()
      ensures Run(Counts(), drawIndex, stop) == Simulate(old(Counts()), rows, draws, old(drawIndex), pk, 1)
      ensures Grows(old(Counts()), Counts())
    {
      SimulateKeepsCounterInvariant(Counts(), rows, draws, drawIndex, pk, 1);
      var timeStep := 1;
      var i := 0;
      assert rows[i..] == rows;
      while i < |rows|
        invariant 0 <= i <= |rows| && timeStep == i + 1
        invariant Simulate(old(Counts()), rows, draws, old(drawIndex), pk, 1) ==
                  Simulate(Counts(), rows[i..], draws, drawIndex, pk, timeStep)
      {
        if timeStep > StepCeiling {
          break;
        }
        ghost var before, nextBefore := Counts(), drawIndex;
        assert rows[i..][0] == rows[i] && rows[i..][1..] == rows[i + 1..];
        hostilesCount := hostilesCount + 1;
        var ok, odd, even := CountParities(rows[i]);
        if !ok {
          SimulateFailingStep(before, rows[i..], draws, drawIndex, pk, timeStep);
          return TokenError(timeStep);
        }
        var hostileDetected := odd > even;
        if hostileDetected {
          hostileDetectedCount := hostileDetectedCount + 1;
          var u := draws(drawIndex);
          drawIndex := drawIndex + 1;
          if u < pk {
            hostileIdentifiedCount := hostileIdentifiedCount + 1;
          }
        }
        SimulateOneStep(before, Counts(), rows[i..], draws, nextBefore, drawIndex, pk, timeStep, hostileDetected);
        i, timeStep := i + 1, timeStep + 1;
      }
      stop := Finished;
    }
  }
}
