/** The Epley one-rep-max conversion of kaiserlift/main.py and its inverse,
    and the `1RM` column it adds to a log. */
module Epley {
  import opened Numeric
  import opened Frames

  /** Epley's divisor: a set of r reps is worth weight * (1 + r / 30). */
  const EpleyReps: real := 30.0

  /** Name of the column `add_1rm_column` adds. */
  const OneRmColumn: string := "1RM"

  /** `calculate_1rm`: the estimated one-rep max of `weight` lifted `reps`
      times. NaN marks invalid input (a NaN argument, reps <= 0, a negative
      weight); a zero weight with positive reps is the valid estimate 0. */
  function Calculate1Rm(weight: Float, reps: Float): (r: Float)
    ensures r.NaN? <==> weight.NaN? || reps.NaN? || reps.value <= 0.0 || weight.value < 0.0
    ensures r.Fin? && reps.value == 1.0 ==> r.value == weight.value
    ensures r.Fin? && weight.value == 0.0 ==> r.value == 0.0
    ensures r.Fin? && reps.value >= 1.0 ==> r.value >= weight.value
  {
    if weight.NaN? || reps.NaN? || reps.value <= 0.0 || weight.value <= 0.0 then
      if weight.Fin? && weight.value == 0.0 && reps.Fin? && reps.value > 0.0 then Fin(0.0)
      else NaN
    else if reps.value == 1.0 then weight
    else Fin(weight.value * (1.0 + reps.value / EpleyReps))
  }

  /** `estimate_weight_from_1rm`: the weight that `reps` repetitions of a
      lifter with one-rep max `oneRm` amount to; NaN on invalid input. */
  function EstimateWeightFrom1Rm(oneRm: Float, reps: Float): (r: Float)
    ensures r.NaN? <==> oneRm.NaN? || reps.NaN? || reps.value <= 0.0 || oneRm.value < 0.0
    ensures r.Fin? && reps.value == 1.0 ==> r.value == oneRm.value
    ensures r.Fin? && oneRm.value == 0.0 ==> r.value == 0.0
    ensures r.Fin? && reps.value >= 1.0 ==> r.value <= oneRm.value
  {
    if oneRm.NaN? || reps.NaN? || reps.value <= 0.0 || oneRm.value < 0.0 then
      if oneRm.Fin? && oneRm.value == 0.0 && reps.Fin? && reps.value > 0.0 then Fin(0.0)
      else NaN
    else if reps.value == 1.0 then oneRm
    else
      var f := 1.0 + reps.value / EpleyReps;
      assert reps.value >= 1.0 ==> oneRm.value / f <= oneRm.value by {
        if reps.value >= 1.0 { DivByAtLeastOne(oneRm.value, f); }
      }
      Fin(oneRm.value / f)
  }

  lemma DivByAtLeastOne(x: real, f: real)
    requires 0.0 <= x && 1.0 <= f
    ensures x / f <= x
  {
    var q := x / f;
    assert q * f == x;
    assert x <= x * f;
  }

  /** Converting a one-rep max to a working weight and back gives the
      one-rep max again, for every valid (non-negative) one-rep max and
      positive rep count. */
  lemma CalculateInvertsEstimate(oneRm: real, reps: real)
    requires 0.0 <= oneRm && 0.0 < reps
    ensures Calculate1Rm(EstimateWeightFrom1Rm(Fin(oneRm), Fin(reps)), Fin(reps)) == Fin(oneRm)
  {
    var f := 1.0 + reps / EpleyReps;
    if reps != 1.0 && oneRm > 0.0 {
      var w := oneRm / f;
      PositiveQuotient(oneRm, f);
      assert EstimateWeightFrom1Rm(Fin(oneRm), Fin(reps)) == Fin(w);
      assert w * f == oneRm;
    }
  }

  /** And the other way round: a weight's one-rep max converts back to the weight. */
  lemma EstimateInvertsCalculate(weight: real, reps: real)
    requires 0.0 <= weight && 0.0 < reps
    ensures EstimateWeightFrom1Rm(Calculate1Rm(Fin(weight), Fin(reps)), Fin(reps)) == Fin(weight)
  {
    var f := 1.0 + reps / EpleyReps;
    if reps != 1.0 && weight > 0.0 {
      var m := weight * f;
      PositiveProduct(weight, f);
      assert Calculate1Rm(Fin(weight), Fin(reps)) == Fin(m);
      MulDivCancel(weight, f);
    }
  }

  lemma PositiveQuotient(x: real, f: real)
    requires 0.0 < x && 0.0 < f
    ensures 0.0 < x / f && x / f * f == x
  {
  }

  lemma PositiveProduct(x: real, f: real)
    requires 0.0 < x && 0.0 < f
    ensures 0.0 < x * f
  {
  }

  lemma MulDivCancel(x: real, f: real)
    requires 0.0 < f
    ensures x * f / f == x
  {
    var q := x * f / f;
    assert q * f == x * f;
    assert (q - x) * f == 0.0;
  }

  /** For rep counts of one or more, the estimate grows with the weight and
      with the reps. */
  lemma Calculate1RmMonotone(w1: real, r1: real, w2: real, r2: real)
    requires 0.0 <= w1 <= w2 && 1.0 <= r1 <= r2
    ensures Calculate1Rm(Fin(w1), Fin(r1)).value <= Calculate1Rm(Fin(w2), Fin(r2)).value
  {
    var f1 := if r1 == 1.0 then 1.0 else 1.0 + r1 / EpleyReps;
    var f2 := if r2 == 1.0 then 1.0 else 1.0 + r2 / EpleyReps;
    assert 1.0 <= f1 <= f2;
    assert Calculate1Rm(Fin(w1), Fin(r1)).value == w1 * f1;
    assert Calculate1Rm(Fin(w2), Fin(r2)).value == w2 * f2;
    ScaleMonotone(w1, w2, f1, f2);
  }

  lemma ScaleMonotone(w1: real, w2: real, f1: real, f2: real)
    requires 0.0 <= w1 <= w2 && 0.0 <= f1 <= f2
    ensures w1 * f1 <= w2 * f2
  {
    MulMonotoneRight(w1, w2, f1);
    MulMonotone(w2, f1, f2);
  }

  lemma MulMonotone(a: real, b: real, c: real)
    requires 0.0 <= a && b <= c
    ensures a * b <= a * c
  {
    assert a * c - a * b == a * (c - b);
  }

  lemma MulMonotoneRight(b: real, c: real, a: real)
    requires 0.0 <= a && b <= c
    ensures b * a <= c * a
  {
    assert c * a - b * a == (c - b) * a;
  }

  /** The asserts that follow the two functions in kaiserlift/main.py. */
  lemma ConversionExamples()
    ensures Calculate1Rm(Fin(100.0), Fin(1.0)) == Fin(100.0)
    ensures Calculate1Rm(Fin(1.0), Fin(15.0)) == Fin(1.5)
    ensures EstimateWeightFrom1Rm(Fin(200.0), Fin(1.0)) == Fin(200.0)
    ensures EstimateWeightFrom1Rm(Fin(200.0), Fin(4.0)) == Fin(3000.0 / 17.0)
    ensures Calculate1Rm(EstimateWeightFrom1Rm(Fin(200.0), Fin(4.0)), Fin(4.0)) == Fin(200.0)
  {
    CalculateInvertsEstimate(200.0, 4.0);
  }

  /** One row of `add_1rm_column`: Weight and Reps coerced to numbers, every
      other column kept, and `1RM` set to the Epley estimate of the row. */
  function WithOneRm(row: Row): (r: Row)
    ensures r.exercise == row.exercise
    ensures r.weight == ToNumeric(row.weight) && r.reps == ToNumeric(row.reps)
    ensures r.others.Keys == row.others.Keys + {OneRmColumn}
    ensures forall c :: c in row.others && c != OneRmColumn ==> r.others[c] == row.others[c]
    ensures AsFloat(r.others[OneRmColumn]) == Calculate1Rm(AsFloat(row.weight), AsFloat(row.reps))
  {
    var w := ToNumeric(row.weight);
    var n := ToNumeric(row.reps);
    Row(row.exercise, w, n, row.others[OneRmColumn := FromFloat(Calculate1Rm(AsFloat(w), AsFloat(n)))])
  }

  /** `add_1rm_column`: the frame with the `1RM` column added row by row. */
  method AddOneRmColumn(rows: seq<Row>) returns (out: seq<Row>)
    ensures |out| == |rows|
    ensures forall i :: 0 <= i < |rows| ==> out[i] == WithOneRm(rows[i])
  {
    out := [];
    for i := 0 to |rows|
      invariant |out| == i
      invariant forall k :: 0 <= k < i ==> out[k] == WithOneRm(rows[k])
    {
      out := out + [WithOneRm(rows[i])];
    }
  }

  /** The two frames checked after `add_1rm_column` in kaiserlift/main.py. */
  lemma AddOneRmExamples()
    ensures var r := WithOneRm(Row(None, Num(100.0), Num(1.0), map[]));
      r.others[OneRmColumn] == Num(100.0)
    ensures var r := WithOneRm(Row(None, Num(100.0), Num(30.0), map[]));
      r.others[OneRmColumn] == Num(200.0)
    ensures var r := WithOneRm(Row(None, Num(1.0), Num(15.0), map[]));
      r.others[OneRmColumn] == Num(1.5)
    ensures var r := WithOneRm(Row(None, Num(13.0), Num(1.0), map[]));
      r.others[OneRmColumn] == Num(13.0)
  {
  }
}
