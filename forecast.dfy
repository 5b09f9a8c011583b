/** The forecast-date window of `fazer_previsao`: the latest observed date and
    the five consecutive days after it. Dates are day numbers (days since some
    fixed epoch), standing for the parsed calendar dates; the regression that
    fills in a temperature for each day is not part of this model. */
module Forecast {
  import opened Wrappers

  /** Number of days forecast. */
  const Horizon: nat := 5

  /** Forecasting needs at least one observation: fitting the model on an empty
      series raises. */
  datatype ForecastError = NoObservations

  /** The latest of the observed dates. */
  function MaxDate(days: seq<int>): (m: int)
    requires |days| > 0
    ensures m in days
    ensures forall d :: d in days ==> d <= m
  {
    if |days| == 1 then days[0]
    else
      var rest := MaxDate(days[1..]);
      assert days == [days[0]] + days[1..];
      if days[0] >= rest then days[0] else rest
  }

  /** The latest date does not depend on the order or the repetition of the
      observations: two series with the same dates share it. */
  lemma MaxDateOfSameDates(a: seq<int>, b: seq<int>)
    requires |a| > 0
    requires forall d :: d in a <==> d in b
    ensures |b| > 0 && MaxDate(a) == MaxDate(b)
  {
    assert a[0] in a;
    var ma, mb := MaxDate(a), MaxDate(b);
    assert ma <= mb && mb <= ma;
  }

  /** The latest date of two merged series is the later of their latest dates. */
  lemma MaxDateAppend(a: seq<int>, b: seq<int>)
    requires |a| > 0 && |b| > 0
    ensures MaxDate(a + b) == if MaxDate(a) >= MaxDate(b) then MaxDate(a) else MaxDate(b)
  {
    var m := MaxDate(a + b);
    assert MaxDate(a) in a + b && MaxDate(b) in a + b;
    assert m in a || m in b;
  }

  /** The five forecast days: the day after the latest observation, and the four
      days that follow it; an empty series is refused. */
  function ForecastWindow(days: seq<int>): (r: Result<seq<int>, ForecastError>)
    ensures r.Failure? <==> |days| == 0
    ensures r.Success? ==> |r.value| == Horizon
    ensures r.Success? ==> forall k :: 0 <= k < Horizon - 1 ==> r.value[k + 1] == r.value[k] + 1
    ensures r.Success? ==> forall k, d :: 0 <= k < Horizon && d in days ==> d < r.value[k]
    ensures r.Success? ==> r.value[0] - 1 in days
  {
    if |days| == 0 then Failure(NoObservations)
    else
      var last := MaxDate(days);
      Success(seq(Horizon, k => last + 1 + k))
  }

  /** The window is the only one with those properties: five consecutive days
      starting right after an observed date that no observation is later than. */
  lemma ForecastWindowUnique(days: seq<int>, w: seq<int>)
    requires |w| == Horizon
    requires forall k :: 0 <= k < Horizon - 1 ==> w[k + 1] == w[k] + 1
    requires forall d :: d in days ==> d < w[0]
    requires w[0] - 1 in days
    ensures ForecastWindow(days) == Success(w)
  {
    assert ForecastWindow(days).Success?;
    var r := ForecastWindow(days).value;
    assert r[0] == w[0] by {
      assert r[0] - 1 in days && w[0] - 1 in days;
      assert r[0] - 1 < w[0] && w[0] - 1 < r[0];
    }
    forall k | 0 <= k < Horizon
      ensures r[k] == w[k]
    {
      assert w[1] == w[0] + 1 && w[2] == w[1] + 1 && w[3] == w[2] + 1 && w[4] == w[3] + 1;
      assert r[1] == r[0] + 1 && r[2] == r[1] + 1 && r[3] == r[2] + 1 && r[4] == r[3] + 1;
    }
    assert r == w;
  }

  /** Merging the files in another order, or repeating observations, does not
      move the window. */
  lemma ForecastWindowOfSameDates(a: seq<int>, b: seq<int>)
    requires forall d :: d in a <==> d in b
    ensures ForecastWindow(a) == ForecastWindow(b)
  {
    if |a| > 0 {
      MaxDateOfSameDates(a, b);
    } else if |b| > 0 {
      assert b[0] in b;
    }
  }
}
