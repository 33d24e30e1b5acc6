/** MetricWindow of src/anomaly.rs: a bounded queue with running sums, updated in place. */
module MetricWindows {
  import opened Recent
  import opened Reals
  import opened Text
  import Statistics

  class MetricWindow {
    var values: seq<real>
    const maxSize: nat
    var sum: real
    var sumSq: real

    /** Every value ever pushed, oldest first. */
    ghost var log: seq<real>

    /** The sums are a cache of the contents, and the contents are the newest values pushed. */
    ghost predicate Valid()
      reads this
    {
      && values == LastN(log, Capacity(maxSize))
      && sum == Statistics.Sum(values)
      && sumSq == Statistics.SumSq(values)
    }

    constructor (maxSize: nat)
      ensures Valid() && log == [] && values == []
      ensures this.maxSize == maxSize
    {
      this.maxSize := maxSize;
      values, sum, sumSq, log := [], 0.0, 0.0, [];
    }

    method Push(value: real)
      requires Valid()
      modifies this
      ensures Valid() && log == old(log) + [value]
      ensures values == Pushed(old(values), maxSize, value)
    {
      PushKeepsNewest(log, maxSize, value);
      if |values| >= maxSize {
        if values != [] {
          var oldest := values[0];
          values := values[1..];
          sum := sum - oldest;
          sumSq := sumSq - Square(oldest);
        }
      }
      assert sum == Statistics.Sum(values) && sumSq == Statistics.SumSq(values);
      Statistics.SumsConcat(values, [value]);
      assert [value][1..] == [];
      sum := sum + value;
      sumSq := sumSq + Square(value);
      values := values + [value];
      log := log + [value];
    }

    function Len(): nat
      reads this
    {
      |values|
    }

    function Last(): Option<real>
      reads this
    {
      if values == [] then None else Some(values[|values| - 1])
    }

    function Mean(): (m: real)
      requires Valid()
      reads this
      ensures m == Statistics.Mean(values)
    {
      if values == [] then 0.0 else sum / |values| as real
    }

    /** Square of std_dev, from the running sums; the clamp at zero never acts. */
    function Variance(): (v: real)
      requires Valid()
      reads this
      ensures v == Statistics.Variance(values)
    {
      var n := |values| as real;
      if n < 2.0 then 0.0
      else
        Statistics.OnePassVariance(values);
        var variance := (sumSq - Square(sum) / n) / (n - 1.0);
        Max(variance, 0.0)
    }

    /** z_score(value) > t, decided without the square root. */
    predicate ZAbove(value: real, t: real)
      requires Valid()
      reads this
      ensures ZAbove(value, t) == Statistics.ZAbove(values, value, t)
    {
      Statistics.Above(value - Mean(), Variance(), t)
    }

    /** |z_score(value)| > t, decided without the square root. */
    predicate ZBeyond(value: real, t: real)
      requires Valid()
      reads this
      ensures ZBeyond(value, t) == Statistics.ZBeyond(values, value, t)
    {
      Statistics.Beyond(value - Mean(), Variance(), t)
    }

    function Trend(): real
      reads this
    {
      Statistics.Trend(values)
    }
  }
}
