// The summary written by `_write_results` (src/functions.py:121-138): the
// three counters, the two rates guarded by a non-zero step count and the
// realised Pk ratio guarded by a non-zero detection count.

module Reporting {

  import opened Simulation

  /** One line of the results file; rates are exact values, before `:.2f` formatting. */
  datatype ReportLine =
    | Title
    | TotalHostiles(count: nat)
    | HostilesDetected(count: nat)
    | DetectionProbability(percent: real)
    | HostilesIdentified(count: nat)
    | IdentificationProbability(percent: real)
    | PkRatio(ratio: real)

  predicate ShowsDetectionRate(lines: seq<ReportLine>)
  {
    exists i :: 0 <= i < |lines| && lines[i].DetectionProbability?
  }

  predicate ShowsIdentificationRate(lines: seq<ReportLine>)
  {
    exists i :: 0 <= i < |lines| && lines[i].IdentificationProbability?
  }

  predicate ShowsPkRatio(lines: seq<ReportLine>)
  {
    exists i :: 0 <= i < |lines| && lines[i].PkRatio?
  }

  /** A printed rate has a non-zero denominator and is the ratio it names, stated without dividing. */
  predicate Accurate(c: Counters, l: ReportLine)
  {
    match l
    case DetectionProbability(p) => c.hostiles > 0 && p * (c.hostiles as real) == (c.detected as real) * 100.0
    case IdentificationProbability(p) => c.hostiles > 0 && p * (c.hostiles as real) == (c.identified as real) * 100.0
    case PkRatio(q) => c.detected > 0 && q * (c.detected as real) == c.identified as real
    case _ => true
  }

  predicate InBounds(l: ReportLine)
  {
    match l
    case DetectionProbability(p) => 0.0 <= p <= 100.0
    case IdentificationProbability(p) => 0.0 <= p <= 100.0
    case PkRatio(q) => 0.0 <= q <= 1.0
    case _ => true
  }

  /**
   * The results file for final counters `c`. Every ratio is printed only
   * when its denominator is non-zero, and each printed value is the ratio it
   * names: detected per step and identified per step as percentages, and
   * identified per detection.
   */
  function Report(c: Counters): (lines: seq<ReportLine>)
    ensures |lines| >= 4 && lines[..3] == [Title, TotalHostiles(c.hostiles), HostilesDetected(c.detected)]
    ensures |lines| == 4 + (if c.hostiles > 0 then 2 else 0) + (if c.detected > 0 then 1 else 0)
    ensures lines[if c.hostiles > 0 then 4 else 3] == HostilesIdentified(c.identified)
    ensures ShowsDetectionRate(lines) <==> c.hostiles > 0
    ensures ShowsIdentificationRate(lines) <==> c.hostiles > 0
    ensures ShowsPkRatio(lines) <==> c.detected > 0
    ensures forall i :: 0 <= i < |lines| ==> Accurate(c, lines[i])
  {
    var head := [Title, TotalHostiles(c.hostiles), HostilesDetected(c.detected)];
    var detection :=
      if c.hostiles > 0 then [DetectionProbability((c.detected as real / c.hostiles as real) * 100.0)] else [];
    var identified := [HostilesIdentified(c.identified)];
    var identification :=
      if c.hostiles > 0 then [IdentificationProbability((c.identified as real / c.hostiles as real) * 100.0)] else [];
    var ratio := if c.detected > 0 then [PkRatio(c.identified as real / c.detected as real)] else [];
    var lines := head + detection + identified + identification + ratio;
    assert lines[|head| + |detection|] == HostilesIdentified(c.identified);
    assert c.hostiles > 0 ==> lines[3].DetectionProbability? && lines[5].IdentificationProbability?;
    assert c.detected > 0 ==> lines[|lines| - 1].PkRatio?;
    lines
  }

  /**
   * For counters that keep their ordering, both rates lie in [0, 100] and
   * the realised Pk ratio in [0, 1].
   */
  lemma ReportBounds(c: Counters)
    requires Ordered(c)
    ensures forall i :: 0 <= i < |Report(c)| ==> InBounds(Report(c)[i])
  {
    var lines := Report(c);
    forall i | 0 <= i < |lines|
      ensures InBounds(lines[i])
    {
      LineInBounds(c, lines[i]);
    }
  }

  lemma LineInBounds(c: Counters, l: ReportLine)
    requires Ordered(c) && Accurate(c, l)
    ensures InBounds(l)
  {
    match l
    case DetectionProbability(p) => RatioBound(p, c.detected, c.hostiles, 100.0);
    case IdentificationProbability(p) => RatioBound(p, c.identified, c.hostiles, 100.0);
    case PkRatio(q) => RatioBound(q, c.identified, c.detected, 1.0);
    case _ =>
  }

  lemma RatioBound(x: real, num: nat, den: nat, scale: real)
    requires 0.0 < scale && num <= den && 0 < den
    requires x * (den as real) == (num as real) * scale
    ensures 0.0 <= x <= scale
  {
    var d, n := den as real, num as real;
    ProductNonNegative(n, scale);
    NonNegativeFactor(x, d);
    assert (scale - x) * d == (d - n) * scale;
    ProductNonNegative(d - n, scale);
    NonNegativeFactor(scale - x, d);
  }

  lemma ProductNonNegative(a: real, b: real)
    requires 0.0 <= a && 0.0 <= b
    ensures 0.0 <= a * b
  {
  }

  lemma NonNegativeFactor(a: real, d: real)
    requires 0.0 < d && 0.0 <= a * d
    ensures 0.0 <= a
  {
  }

  /** A run that processed no time step writes only the four count lines. */
  lemma ReportOfEmptyRun()
    ensures Report(Counters(0, 0, 0)) ==
            [Title, TotalHostiles(0), HostilesDetected(0), HostilesIdentified(0)]
  {
  }
}
