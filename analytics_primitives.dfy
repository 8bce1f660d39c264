/** The pure statistical helpers of server/src/modules/analytics/analytics.service.ts:
    average, toPercent, computeScore, computeRisk, correlation and
    buildDistribution, with the risk tally the monthly report performs.
    Marks and rates are exact reals; JavaScript's NaN has no counterpart. */
module AnalyticsPrimitives {
  import opened Common

  // ---------------------------------------------------------------------
  // average
  // ---------------------------------------------------------------------

  /** The non-null entries, in order. */
  function Present(values: seq<Option<real>>): (r: seq<real>)
    ensures |r| <= |values|
  {
    if values == [] then []
    else (if values[0].Some? then [values[0].value] else []) + Present(values[1..])
  }

  function Sum(xs: seq<real>): real {
    if xs == [] then 0.0 else xs[0] + Sum(xs[1..])
  }

  /** average: mean of the non-null entries, null when there are none. */
  function Average(values: seq<Option<real>>): (r: Option<real>)
    ensures r.None? <==> |Present(values)| == 0
    ensures r.Some? ==> r.value * (|Present(values)| as real) == Sum(Present(values))
  {
    var valid := Present(values);
    if |valid| == 0 then None else Some(Sum(valid) / (|valid| as real))
  }

  lemma {:induction false} SumBounds(xs: seq<real>, lo: real, hi: real)
    requires forall i :: 0 <= i < |xs| ==> lo <= xs[i] <= hi
    ensures (|xs| as real) * lo <= Sum(xs) <= (|xs| as real) * hi
  {
    if xs != [] {
      SumBounds(xs[1..], lo, hi);
    }
  }

  lemma {:induction false} PresentMembers(values: seq<Option<real>>, x: real)
    requires x in Present(values)
    ensures Some(x) in values
  {
    if values != [] {
      if values[0].Some? && x == values[0].value {
      } else {
        PresentMembers(values[1..], x);
      }
    }
  }

  /** With no null entries nothing is dropped. */
  lemma {:induction false} PresentAllSome(values: seq<Option<real>>)
    requires forall i :: 0 <= i < |values| ==> values[i].Some?
    ensures |Present(values)| == |values|
  {
    if values != [] {
      PresentAllSome(values[1..]);
    }
  }

  /** The average lies between any bounds that hold for every non-null entry. */
  lemma AverageWithinBounds(values: seq<Option<real>>, lo: real, hi: real)
    requires forall v :: Some(v) in values ==> lo <= v <= hi
    ensures Average(values).Some? ==> lo <= Average(values).value <= hi
  {
    var valid := Present(values);
    forall i | 0 <= i < |valid| ensures lo <= valid[i] <= hi {
      PresentMembers(values, valid[i]);
    }
    SumBounds(valid, lo, hi);
    if |valid| != 0 {
      MeanBounds(Sum(valid), |valid| as real, lo, hi);
    }
  }

  /** A total between n * lo and n * hi has its mean between lo and hi. */
  lemma MeanBounds(total: real, n: real, lo: real, hi: real)
    requires n > 0.0 && n * lo <= total <= n * hi
    ensures lo <= total / n <= hi
  {
    assert (total - n * lo) / n >= 0.0;
    assert (n * hi - total) / n >= 0.0;
    assert (total - n * lo) / n == total / n - lo;
    assert (n * hi - total) / n == hi - total / n;
  }

  // ---------------------------------------------------------------------
  // toPercent
  // ---------------------------------------------------------------------

  /** A part of a non-negative whole is a fraction in [0, 1]. */
  lemma RatioBounded(o: real, m: real)
    requires 0.0 <= o <= m && m != 0.0
    ensures 0.0 <= o / m <= 1.0
  {
    assert o / m * m == o;
  }

  /** toPercent: numerator / denominator, null for a zero denominator. */
  function ToPercent(numerator: real, denominator: real): (r: Option<real>)
    ensures r.None? <==> denominator == 0.0
    ensures r.Some? ==> r.value * denominator == numerator
  {
    if denominator == 0.0 then None else Some(numerator / denominator)
  }

  // ---------------------------------------------------------------------
  // computeScore and computeRisk
  // ---------------------------------------------------------------------

  const AttendanceWeight: real := 0.4
  const MarksWeight: real := 0.6

  /** computeScore: the weighted blend of the inputs that are present,
      renormalised by the weight actually used. */
  function ComputeScore(attendance: Option<real>, marks: Option<real>): (r: Option<real>)
    ensures r.None? <==> attendance.None? && marks.None?
    ensures attendance.None? && marks.Some? ==> r == marks
    ensures attendance.Some? && marks.None? ==> r == attendance
    ensures attendance.Some? && marks.Some? ==>
      r == Some(0.4 * attendance.value + 0.6 * marks.value)
    ensures attendance.Some? && marks.Some? ==>
      Min2(attendance.value, marks.value) <= r.value <= Max2(attendance.value, marks.value)
  {
    // Each case divides the weighted sum by the weight the present inputs
    // carry, as the running sum and totalWeight do.
    match (attendance, marks)
    case (None, None) => None
    case (Some(a), None) => Some((a * AttendanceWeight) / AttendanceWeight)
    case (None, Some(m)) => Some((m * MarksWeight) / MarksWeight)
    case (Some(a), Some(m)) =>
      Some((a * AttendanceWeight + m * MarksWeight) / (AttendanceWeight + MarksWeight))
  }

  function Min2(a: real, b: real): real {
    if a <= b then a else b
  }

  function Max2(a: real, b: real): real {
    if a <= b then b else a
  }

  datatype Risk = Low | Medium | High | Unknown

  /** Severity order of the known risk levels. */
  function Severity(r: Risk): nat {
    match r
    case Low => 0
    case Medium => 1
    case High => 2
    case Unknown => 3
  }

  /** computeRisk: unknown without any data; otherwise a missing input reads
      as 0 and the fixed thresholds are checked high first. */
  function ComputeRisk(attendance: Option<real>, marks: Option<real>): (r: Risk)
    ensures r == Unknown <==> attendance.None? && marks.None?
  {
    if attendance.None? && marks.None? then Unknown
    else
      var att := attendance.GetOr(0.0);
      var mk := marks.GetOr(0.0);
      if att < 0.75 || mk < 0.4 then High
      else if att < 0.85 || mk < 0.6 then Medium
      else Low
  }

  /** Exactly one missing input always yields high risk. */
  lemma OneMissingInputIsHighRisk(attendance: Option<real>, marks: Option<real>)
    requires attendance.None? != marks.None?
    ensures ComputeRisk(attendance, marks) == High
  {
  }

  /** The risk level as the thresholds read it, for two known inputs. */
  lemma RiskThresholds(att: real, mk: real)
    ensures ComputeRisk(Some(att), Some(mk)) == High <==> att < 0.75 || mk < 0.4
    ensures ComputeRisk(Some(att), Some(mk)) == Medium <==>
      !(att < 0.75 || mk < 0.4) && (att < 0.85 || mk < 0.6)
    ensures ComputeRisk(Some(att), Some(mk)) == Low <==> att >= 0.85 && mk >= 0.6
  {
  }

  /** Better attendance and marks never raise the risk level. */
  lemma RiskMonotone(att: real, mk: real, att': real, mk': real)
    requires att <= att' && mk <= mk'
    ensures Severity(ComputeRisk(Some(att'), Some(mk'))) <= Severity(ComputeRisk(Some(att), Some(mk)))
  {
  }

  /** The risk_counts accumulator of the monthly report. */
  datatype RiskCounts = RiskCounts(low: nat, medium: nat, high: nat, unknown: nat) {
    function Total(): nat {
      low + medium + high + unknown
    }
    function Bump(r: Risk): RiskCounts {
      match r
      case Low => this.(low := low + 1)
      case Medium => this.(medium := medium + 1)
      case High => this.(high := high + 1)
      case Unknown => this.(unknown := unknown + 1)
    }
  }

  function CountRisk(levels: seq<Risk>, r: Risk): nat {
    if levels == [] then 0 else (if levels[0] == r then 1 else 0) + CountRisk(levels[1..], r)
  }

  /** The reduce over the students' risk levels, left to right. */
  function TallyRisks(levels: seq<Risk>): (c: RiskCounts)
    ensures c.Total() == |levels|
    ensures c == RiskCounts(CountRisk(levels, Low), CountRisk(levels, Medium),
                            CountRisk(levels, High), CountRisk(levels, Unknown))
    decreases |levels|
  {
    if levels == [] then RiskCounts(0, 0, 0, 0)
    else
      var prefix := levels[..|levels| - 1];
      CountRiskSnoc(prefix, levels[|levels| - 1]);
      assert levels == prefix + [levels[|levels| - 1]];
      TallyRisks(prefix).Bump(levels[|levels| - 1])
  }

  lemma {:induction false} CountRiskSnoc(levels: seq<Risk>, x: Risk)
    ensures forall r :: CountRisk(levels + [x], r) == CountRisk(levels, r) + (if x == r then 1 else 0)
  {
    if levels != [] {
      CountRiskSnoc(levels[1..], x);
      assert (levels + [x])[1..] == levels[1..] + [x];
    }
  }

  // ---------------------------------------------------------------------
  // correlation
  // ---------------------------------------------------------------------

  datatype Pair = Pair(attendance: real, marks: real)

  function SumAttendance(pairs: seq<Pair>): real {
    if pairs == [] then 0.0 else SumAttendance(pairs[..|pairs| - 1]) + pairs[|pairs| - 1].attendance
  }

  function SumMarks(pairs: seq<Pair>): real {
    if pairs == [] then 0.0 else SumMarks(pairs[..|pairs| - 1]) + pairs[|pairs| - 1].marks
  }

  /** Σ (a - ma)(b - mb) */
  function CrossDeviation(pairs: seq<Pair>, ma: real, mb: real): real {
    if pairs == [] then 0.0
    else
      var p := pairs[|pairs| - 1];
      CrossDeviation(pairs[..|pairs| - 1], ma, mb) + (p.attendance - ma) * (p.marks - mb)
  }

  function Square(x: real): real {
    x * x
  }

  lemma SquareZero(d: real)
    ensures Square(d) >= 0.0
    ensures Square(d) == 0.0 <==> d == 0.0
  {
    if d != 0.0 {
      calc {
        Square(d);
      ==
        d * d;
      > { assert d * d > 0.0 * d; }
        0.0;
      }
    }
  }

  /** Σ (a - ma)² over the attendance values. */
  function SquaredDeviationA(pairs: seq<Pair>, ma: real): real {
    if pairs == [] then 0.0
    else
      var p := pairs[|pairs| - 1];
      SquaredDeviationA(pairs[..|pairs| - 1], ma) + Square(p.attendance - ma)
  }

  /** Σ (b - mb)² over the marks values. */
  function SquaredDeviationM(pairs: seq<Pair>, mb: real): real {
    if pairs == [] then 0.0
    else
      var p := pairs[|pairs| - 1];
      SquaredDeviationM(pairs[..|pairs| - 1], mb) + Square(p.marks - mb)
  }

  /** Pearson's coefficient as correlation computes it; `sqrt` stands for
      Math.sqrt, which is outside the model. */
  function MeanAttendance(pairs: seq<Pair>): real
    requires pairs != []
  {
    SumAttendance(pairs) / (|pairs| as real)
  }

  function MeanMarks(pairs: seq<Pair>): real
    requires pairs != []
  {
    SumMarks(pairs) / (|pairs| as real)
  }

  /** The last step of correlation: the covariance sum over the root of the
      product of the two squared-deviation sums, null when that root is 0. */
  function PearsonRatio(cross: real, da: real, dm: real, sqrt: real -> real): Option<real> {
    var denom := sqrt(da * dm);
    if denom == 0.0 then None else Some(cross / denom)
  }

  function CorrelationOf(pairs: seq<Pair>, sqrt: real -> real): Option<real> {
    if |pairs| < 2 then None
    else
      var ma := MeanAttendance(pairs);
      var mb := MeanMarks(pairs);
      PearsonRatio(CrossDeviation(pairs, ma, mb), SquaredDeviationA(pairs, ma), SquaredDeviationM(pairs, mb), sqrt)
  }

  lemma DeviationStep(pairs: seq<Pair>, i: nat, ma: real, mb: real)
    requires i < |pairs|
    ensures CrossDeviation(pairs[..i + 1], ma, mb)
      == CrossDeviation(pairs[..i], ma, mb) + (pairs[i].attendance - ma) * (pairs[i].marks - mb)
    ensures SquaredDeviationA(pairs[..i + 1], ma)
      == SquaredDeviationA(pairs[..i], ma) + Square(pairs[i].attendance - ma)
    ensures SquaredDeviationM(pairs[..i + 1], mb)
      == SquaredDeviationM(pairs[..i], mb) + Square(pairs[i].marks - mb)
  {
    assert pairs[..i + 1][..i] == pairs[..i];
  }

  /** correlation: the means by reduce, then one accumulating loop. */
  method Correlation(pairs: seq<Pair>, sqrt: real -> real) returns (r: Option<real>)
    ensures r == CorrelationOf(pairs, sqrt)
  {
    if |pairs| < 2 {
      return None;
    }
    var n := |pairs| as real;
    var meanAttendance := SumAttendance(pairs) / n;
    var meanMarks := SumMarks(pairs) / n;
    assert meanAttendance == MeanAttendance(pairs) && meanMarks == MeanMarks(pairs);
    var numerator := 0.0;
    var denomAttendance := 0.0;
    var denomMarks := 0.0;
    var i := 0;
    while i < |pairs|
      invariant 0 <= i <= |pairs|
      invariant numerator == CrossDeviation(pairs[..i], meanAttendance, meanMarks)
      invariant denomAttendance == SquaredDeviationA(pairs[..i], meanAttendance)
      invariant denomMarks == SquaredDeviationM(pairs[..i], meanMarks)
    {
      var a := pairs[i].attendance - meanAttendance;
      var b := pairs[i].marks - meanMarks;
      DeviationStep(pairs, i, meanAttendance, meanMarks);
      numerator := numerator + a * b;
      denomAttendance := denomAttendance + Square(a);
      denomMarks := denomMarks + Square(b);
      i := i + 1;
    }
    assert pairs[..i] == pairs;
    assert denomAttendance == SquaredDeviationA(pairs, meanAttendance);
    assert denomMarks == SquaredDeviationM(pairs, meanMarks);
    assert numerator == CrossDeviation(pairs, meanAttendance, meanMarks);
    r := PearsonRatio(numerator, denomAttendance, denomMarks, sqrt);
  }

  /** What Math.sqrt guarantees that the null guard relies on. */
  ghost predicate ZeroExactlyAtZero(sqrt: real -> real) {
    forall x :: x >= 0.0 ==> (sqrt(x) == 0.0 <==> x == 0.0)
  }

  ghost predicate ConstantAttendance(pairs: seq<Pair>) {
    forall i, j :: 0 <= i < |pairs| && 0 <= j < |pairs| ==> pairs[i].attendance == pairs[j].attendance
  }

  ghost predicate ConstantMarks(pairs: seq<Pair>) {
    forall i, j :: 0 <= i < |pairs| && 0 <= j < |pairs| ==> pairs[i].marks == pairs[j].marks
  }

  lemma {:induction false} SquaredDeviationANonNegative(pairs: seq<Pair>, m: real)
    ensures SquaredDeviationA(pairs, m) >= 0.0
    ensures SquaredDeviationA(pairs, m) == 0.0 <==> forall i :: 0 <= i < |pairs| ==> pairs[i].attendance == m
  {
    if pairs != [] {
      var q := pairs[..|pairs| - 1];
      SquaredDeviationANonNegative(q, m);
      SquareZero(pairs[|pairs| - 1].attendance - m);
    }
  }

  lemma {:induction false} SquaredDeviationMNonNegative(pairs: seq<Pair>, m: real)
    ensures SquaredDeviationM(pairs, m) >= 0.0
    ensures SquaredDeviationM(pairs, m) == 0.0 <==> forall i :: 0 <= i < |pairs| ==> pairs[i].marks == m
  {
    if pairs != [] {
      var q := pairs[..|pairs| - 1];
      SquaredDeviationMNonNegative(q, m);
      SquareZero(pairs[|pairs| - 1].marks - m);
    }
  }

  lemma {:induction false} SumAttendanceConstant(pairs: seq<Pair>, c: real)
    requires forall i :: 0 <= i < |pairs| ==> pairs[i].attendance == c
    ensures SumAttendance(pairs) == (|pairs| as real) * c
  {
    if pairs != [] {
      SumAttendanceConstant(pairs[..|pairs| - 1], c);
    }
  }

  lemma {:induction false} SumMarksConstant(pairs: seq<Pair>, c: real)
    requires forall i :: 0 <= i < |pairs| ==> pairs[i].marks == c
    ensures SumMarks(pairs) == (|pairs| as real) * c
  {
    if pairs != [] {
      SumMarksConstant(pairs[..|pairs| - 1], c);
    }
  }

  lemma DivideBack(n: real, c: real)
    requires n > 0.0
    ensures (n * c) / n == c
  {
  }

  lemma AttendanceAtMeanIffConstant(pairs: seq<Pair>)
    requires |pairs| >= 1
    ensures (forall i :: 0 <= i < |pairs| ==> pairs[i].attendance == SumAttendance(pairs) / (|pairs| as real))
            <==> ConstantAttendance(pairs)
  {
    var mean := SumAttendance(pairs) / (|pairs| as real);
    if ConstantAttendance(pairs) {
      var c := pairs[0].attendance;
      SumAttendanceConstant(pairs, c);
      DivideBack(|pairs| as real, c);
      assert mean == c;
      forall i | 0 <= i < |pairs| ensures pairs[i].attendance == mean {
        assert pairs[i].attendance == pairs[0].attendance;
      }
    }
  }

  lemma MarksAtMeanIffConstant(pairs: seq<Pair>)
    requires |pairs| >= 1
    ensures (forall i :: 0 <= i < |pairs| ==> pairs[i].marks == SumMarks(pairs) / (|pairs| as real))
            <==> ConstantMarks(pairs)
  {
    var mean := SumMarks(pairs) / (|pairs| as real);
    if ConstantMarks(pairs) {
      var c := pairs[0].marks;
      SumMarksConstant(pairs, c);
      DivideBack(|pairs| as real, c);
      assert mean == c;
      forall i | 0 <= i < |pairs| ensures pairs[i].marks == mean {
        assert pairs[i].marks == pairs[0].marks;
      }
    }
  }

  /** The null guards of correlation: no coefficient for fewer than two
      pairs or when either variable never varies. */
  lemma CorrelationNullExactly(pairs: seq<Pair>, sqrt: real -> real)
    requires ZeroExactlyAtZero(sqrt)
    ensures CorrelationOf(pairs, sqrt).None? <==>
      |pairs| < 2 || ConstantAttendance(pairs) || ConstantMarks(pairs)
  {
    if |pairs| >= 2 {
      var n := |pairs| as real;
      var ma := SumAttendance(pairs) / n;
      var mb := SumMarks(pairs) / n;
      var da := SquaredDeviationA(pairs, ma);
      var dm := SquaredDeviationM(pairs, mb);
      SquaredDeviationANonNegative(pairs, ma);
      SquaredDeviationMNonNegative(pairs, mb);
      AttendanceAtMeanIffConstant(pairs);
      MarksAtMeanIffConstant(pairs);
      assert da * dm >= 0.0;
      assert da * dm == 0.0 <==> da == 0.0 || dm == 0.0;
    }
  }

  lemma {:induction false} CrossOfIdentical(pairs: seq<Pair>, m: real)
    requires forall i :: 0 <= i < |pairs| ==> pairs[i].marks == pairs[i].attendance
    ensures CrossDeviation(pairs, m, m) == SquaredDeviationA(pairs, m)
    ensures SquaredDeviationM(pairs, m) == SquaredDeviationA(pairs, m)
  {
    if pairs != [] {
      CrossOfIdentical(pairs[..|pairs| - 1], m);
    }
  }

  lemma {:induction false} SumsOfIdentical(pairs: seq<Pair>)
    requires forall i :: 0 <= i < |pairs| ==> pairs[i].marks == pairs[i].attendance
    ensures SumMarks(pairs) == SumAttendance(pairs)
  {
    if pairs != [] {
      SumsOfIdentical(pairs[..|pairs| - 1]);
    }
  }

  lemma PearsonRatioOfEqualSums(d: real, sqrt: real -> real)
    requires d > 0.0 && sqrt(Square(d)) == d
    ensures PearsonRatio(d, d, d, sqrt) == Some(1.0)
  {
    calc {
      PearsonRatio(d, d, d, sqrt);
    ==
      if sqrt(Square(d)) == 0.0 then None else Some(d / sqrt(Square(d)));
    ==
      Some(d / d);
    == { assert d / d == 1.0; }
      Some(1.0);
    }
  }

  /** Identical, non-constant attendance and marks correlate perfectly. */
  lemma IdenticalSeriesCorrelateFully(pairs: seq<Pair>, sqrt: real -> real)
    requires forall x :: x >= 0.0 ==> sqrt(Square(x)) == x
    requires |pairs| >= 2 && !ConstantAttendance(pairs)
    requires forall i :: 0 <= i < |pairs| ==> pairs[i].marks == pairs[i].attendance
    ensures CorrelationOf(pairs, sqrt) == Some(1.0)
  {
    SumsOfIdentical(pairs);
    var m := MeanAttendance(pairs);
    assert MeanMarks(pairs) == m;
    CrossOfIdentical(pairs, m);
    var d := SquaredDeviationA(pairs, m);
    SquaredDeviationANonNegative(pairs, m);
    AttendanceAtMeanIffConstant(pairs);
    assert d > 0.0;
    PearsonRatioOfEqualSums(d, sqrt);
  }

  // ---------------------------------------------------------------------
  // buildDistribution
  // ---------------------------------------------------------------------

  datatype Bucket = Bucket(name: string, count: nat)

  /** MARKS_BUCKETS: labels and the half-open [min, max) bounds. */
  const BucketLabels: seq<string> := ["<40%", "40-60%", "60-75%", "75-90%", "90-100%"]
  const BucketBounds: seq<real> := [0.0, 0.4, 0.6, 0.75, 0.9, 1.01]
  const NoDataLabel: string := "No data"
  const PassThreshold: real := 0.4

  /** Number of non-null values v with lo <= v < hi. */
  function CountIn(values: seq<Option<real>>, lo: real, hi: real): nat {
    if values == [] then 0
    else
      (if values[0].Some? && lo <= values[0].value < hi then 1 else 0) + CountIn(values[1..], lo, hi)
  }

  function CountNull(values: seq<Option<real>>): nat {
    if values == [] then 0 else (if values[0].None? then 1 else 0) + CountNull(values[1..])
  }

  function BucketCount(values: seq<Option<real>>, k: nat): nat
    requires k < 5
  {
    CountIn(values, BucketBounds[k], BucketBounds[k + 1])
  }

  /** buildDistribution: the five labelled buckets in fixed order, then a
      "No data" bucket only when some value is null. */
  function BuildDistribution(values: seq<Option<real>>): (r: seq<Bucket>)
    ensures |r| == if CountNull(values) > 0 then 6 else 5
    ensures forall k :: 0 <= k < 5 ==> r[k].name == BucketLabels[k]
    ensures forall k :: 0 <= k < 5 ==> r[k].count == BucketCount(values, k)
    ensures |r| == 6 ==> r[5] == Bucket(NoDataLabel, CountNull(values))
  {
    var distribution := seq(5, k requires 0 <= k < 5 => Bucket(BucketLabels[k], BucketCount(values, k)));
    var missing := CountNull(values);
    if missing > 0 then distribution + [Bucket(NoDataLabel, missing)] else distribution
  }

  function TotalCount(buckets: seq<Bucket>): nat {
    if buckets == [] then 0 else buckets[0].count + TotalCount(buckets[1..])
  }

  function BucketIndex(v: real): nat {
    if v < 0.4 then 0 else if v < 0.6 then 1 else if v < 0.75 then 2 else if v < 0.9 then 3 else 4
  }

  lemma TotalCountStep(b: seq<Bucket>, i: nat)
    requires i < |b|
    ensures TotalCount(b[i..]) == b[i].count + TotalCount(b[i + 1..])
  {
    assert b[i..][1..] == b[i + 1..];
  }

  /** A value in [0, 1.01) lies in exactly one bucket. */
  lemma BucketUnique(v: real)
    requires 0.0 <= v < 1.01
    ensures BucketIndex(v) < 5
    ensures forall k :: 0 <= k < 5 ==> (BucketBounds[k] <= v < BucketBounds[k + 1] <==> k == BucketIndex(v))
  {
  }

  ghost predicate InRange(values: seq<Option<real>>) {
    forall i :: 0 <= i < |values| && values[i].Some? ==> 0.0 <= values[i].value < 1.01
  }

  lemma {:induction false} BucketsCoverAll(values: seq<Option<real>>)
    requires InRange(values)
    ensures BucketCount(values, 0) + BucketCount(values, 1) + BucketCount(values, 2)
      + BucketCount(values, 3) + BucketCount(values, 4) + CountNull(values) == |values|
  {
    if values != [] {
      assert InRange(values[1..]) by {
        forall i | 0 <= i < |values[1..]| && values[1..][i].Some?
          ensures 0.0 <= values[1..][i].value < 1.01
        {
          assert values[1..][i] == values[i + 1];
        }
      }
      BucketsCoverAll(values[1..]);
    }
  }

  /** Every value is tallied exactly once: the bucket counts add up to the
      number of values whenever each non-null value lies in [0, 1.01). */
  lemma DistributionPartition(values: seq<Option<real>>)
    requires InRange(values)
    ensures TotalCount(BuildDistribution(values)) == |values|
  {
    var r := BuildDistribution(values);
    BucketsCoverAll(values);
    assert TotalCount(r[5..]) == (if |r| == 6 then CountNull(values) else 0) by {
      if |r| == 6 {
        assert r[5..][1..] == [];
      } else {
        assert r[5..] == [];
      }
    }
    TotalCountStep(r, 0);
    TotalCountStep(r, 1);
    TotalCountStep(r, 2);
    TotalCountStep(r, 3);
    TotalCountStep(r, 4);
    assert r[0..] == r;
  }
}
