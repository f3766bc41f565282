/**
 The `/statistics` endpoint: the row count, the fixed target of 667, and
 the progress percentage rounded to one decimal and capped at 100,
 expressed here in integer tenths of a percent.
 */
module Statistics {
  import opened Store

  const TargetSignatures: nat := 667

  /** 100.0% in tenths of a percent. */
  const FullProgress: nat := 1000

  /** `min(Math.round(total / 667 * 100 * 10) / 10, 100)` in tenths: the
      integer nearest to `total * 1000 / 667` (halves rounded up), capped
      at 1000. No exact half occurs, since 667 is odd and prime to 2000. */
  function ProgressTenths(total: nat): (p: nat)
    ensures p <= FullProgress
    ensures p < FullProgress ==>
              (2 * p - 1) * TargetSignatures <= 2000 * total < (2 * p + 1) * TargetSignatures
    ensures p == FullProgress <==> total >= TargetSignatures
  {
    var rounded := (2000 * total + TargetSignatures) / (2 * TargetSignatures);
    if rounded < FullProgress then rounded else FullProgress
  }

  /** More signatures never show less progress. */
  lemma ProgressMonotone(a: nat, b: nat)
    requires a <= b
    ensures ProgressTenths(a) <= ProgressTenths(b)
  {
    var d := 2 * TargetSignatures;
    var x := 2000 * a + TargetSignatures;
    var y := 2000 * b + TargetSignatures;
    assert d * (x / d) <= x <= y < d * (y / d + 1);
  }

  /** The worked values: nothing signed is 0.0%, 333 of 667 is 49.9%,
      and 1000 signatures are capped at 100.0%. */
  lemma ProgressExamples()
    ensures ProgressTenths(0) == 0
    ensures ProgressTenths(333) == 499
    ensures ProgressTenths(1000) == FullProgress
  {
  }

  /** The response of `/statistics`. */
  datatype Stats = Stats(totalSignatures: nat, targetSignatures: nat, progressTenths: nat)

  function StatisticsOf(t: Table): (s: Stats)
    ensures s.totalSignatures == |t|
    ensures s.targetSignatures == TargetSignatures
    ensures s.progressTenths <= FullProgress
    ensures s.progressTenths == FullProgress <==> |t| >= TargetSignatures
    ensures s.progressTenths == ProgressTenths(|t|)
  {
    Stats(|t|, TargetSignatures, ProgressTenths(|t|))
  }
}
