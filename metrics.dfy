/**
 * The derived investment columns. A single reference price per square metre
 * is taken from the sale-price table, turned into one estimated property value
 * for the whole city, and every listing gets its gross and net income and ROI
 * against that value.
 */
module InvestmentMetrics {
  import opened Wrappers
  import opened Listings

  /** Reference price per square metre when the sale-price table has no `precio` column. */
  const FallbackPricePerM2: real := 2000.0
  /** Assumed size of a unit, in square metres. */
  const AverageUnitM2: real := 70.0
  /** Fixed yearly operating cost subtracted from the gross income. */
  const AnnualOperatingCost: real := 3000.0

  /** Reference definition: the number of sale records whose `precio` is present. */
  function PresentCount(records: seq<SaleRecord>): nat {
    if records == [] then 0 else (if records[0].precio.Some? then 1 else 0) + PresentCount(records[1..])
  }

  /** Reference definition: the total of the present `precio` cells. */
  function PresentTotal(records: seq<SaleRecord>): real {
    if records == [] then 0.0
    else (if records[0].precio.Some? then records[0].precio.value else 0.0) + PresentTotal(records[1..])
  }

  /** Reference definition: the number of sale records whose `precio` is `x`. */
  function PrecioCopies(records: seq<SaleRecord>, x: real): nat {
    if records == [] then 0 else (if records[0].precio == Some(x) then 1 else 0) + PrecioCopies(records[1..], x)
  }

  function Sum(xs: seq<real>): real {
    if xs == [] then 0.0 else xs[0] + Sum(xs[1..])
  }

  /**
   * The non-missing `precio` values, in table order (pandas' `mean` skips NaN):
   * every present cell once per occurrence, so their number and total are
   * those of the present cells.
   */
  function PresentPrices(records: seq<SaleRecord>): (xs: seq<real>)
    ensures |xs| == PresentCount(records) <= |records|
    ensures Sum(xs) == PresentTotal(records)
    ensures forall x :: multiset(xs)[x] == PrecioCopies(records, x)
    ensures forall x :: x in xs <==> exists r :: r in records && r.precio == Some(x)
  {
    if records == [] then []
    else
      assert records == [records[0]] + records[1..];
      var rest := PresentPrices(records[1..]);
      if records[0].precio.Some? then
        var xs := [records[0].precio.value] + rest;
        assert xs[0] == records[0].precio.value && xs[1..] == rest;
        xs
      else rest
  }

  /** Arithmetic mean; the mean of no values is NaN. */
  function Mean(xs: seq<real>): Option<real> {
    if xs == [] then None else Some(Sum(xs) / |xs| as real)
  }

  lemma {:induction false} SumBounds(xs: seq<real>, lo: real, hi: real)
    requires forall i :: 0 <= i < |xs| ==> lo <= xs[i] <= hi
    ensures lo * |xs| as real <= Sum(xs) <= hi * |xs| as real
  {
    if xs != [] {
      SumBounds(xs[1..], lo, hi);
    }
  }

  /** The mean lies between any lower and upper bound of the values it averages. */
  lemma MeanBounds(xs: seq<real>, lo: real, hi: real)
    requires forall i :: 0 <= i < |xs| ==> lo <= xs[i] <= hi
    ensures Mean(xs).Some? <==> xs != []
    ensures Mean(xs).Some? ==> lo <= Mean(xs).value <= hi
  {
    if xs != [] {
      SumBounds(xs, lo, hi);
      var n := |xs| as real;
      assert Sum(xs) / n >= lo by { assert Sum(xs) >= lo * n; }
      assert Sum(xs) / n <= hi by { assert Sum(xs) <= hi * n; }
    }
  }

  /** Reference price per square metre: the mean `precio`, or the fallback when the column is absent. */
  function ReferencePrice(sales: SalePriceTable): Option<real> {
    if sales.hasPrecio then Mean(PresentPrices(sales.records)) else Some(FallbackPricePerM2)
  }

  /** The one estimated property value broadcast to every listing. */
  function EstimatedPropertyValue(sales: SalePriceTable): Option<real> {
    match ReferencePrice(sales)
    case Some(p) => Some(p * AverageUnitM2)
    case None => None
  }

  /**
   * Where the estimated property value comes from: 140000 without a `precio`
   * column; otherwise 70 times the mean of the present `precio` cells (their
   * total over their number), which lies between the smallest and the largest
   * `precio` otherwise; NaN when the column holds no value at all.
   */
  lemma EstimatedValueSource(sales: SalePriceTable, lo: real, hi: real)
    requires forall r :: r in sales.records && r.precio.Some? ==> lo <= r.precio.value <= hi
    ensures !sales.hasPrecio ==> EstimatedPropertyValue(sales) == Some(140000.0)
    ensures sales.hasPrecio ==>
      (EstimatedPropertyValue(sales).Some? <==> exists r :: r in sales.records && r.precio.Some?)
    ensures sales.hasPrecio && PresentCount(sales.records) > 0 ==>
      EstimatedPropertyValue(sales) ==
        Some(PresentTotal(sales.records) / PresentCount(sales.records) as real * 70.0)
    ensures sales.hasPrecio && EstimatedPropertyValue(sales).Some? ==>
      70.0 * lo <= EstimatedPropertyValue(sales).value <= 70.0 * hi
  {
    var xs := PresentPrices(sales.records);
    forall i | 0 <= i < |xs| ensures lo <= xs[i] <= hi {
      assert xs[i] in xs;
    }
    MeanBounds(xs, lo, hi);
    assert xs != [] ==> xs[0] in xs;
    if exists r :: r in sales.records && r.precio.Some? {
      var r :| r in sales.records && r.precio.Some?;
      assert r.precio.value in xs;
    }
  }

  /** Income divided by property value, as a percentage; NaN when either is NaN or the value is zero. */
  function Percentage(amount: Option<real>, value: Option<real>): Option<real> {
    if amount.Some? && value.Some? && value.value != 0.0 then Some(amount.value / value.value * 100.0)
    else None
  }

  /** The five derived cells of one listing. */
  function DeriveMetrics(price: Option<real>, daysRented: Option<real>, value: Option<real>): Metrics {
    var income := if price.Some? && daysRented.Some? then Some(price.value * daysRented.value) else None;
    var net := if income.Some? then Some(income.value - AnnualOperatingCost) else None;
    Metrics(income, value, Percentage(income, value), net, Percentage(net, value))
  }

  /** Assigns the derived columns to one row; nothing else in the row changes. */
  function Augment(row: Listing, value: Option<real>): Listing {
    row.(metrics := Some(DeriveMetrics(row.price, row.daysRented, value)))
  }

  /** The metrics step over a whole table, row by row. */
  function WithMetrics(rows: seq<Listing>, value: Option<real>): seq<Listing> {
    if rows == [] then [] else [Augment(rows[0], value)] + WithMetrics(rows[1..], value)
  }

  /**
   * The metrics step adds columns only: same number of rows, in the same
   * order, every original cell unchanged, and every row carrying the same
   * estimated property value.
   */
  lemma {:induction false} WithMetricsAt(rows: seq<Listing>, value: Option<real>, k: nat)
    requires k < |rows|
    ensures |WithMetrics(rows, value)| == |rows|
    ensures var out := WithMetrics(rows, value)[k];
      out.id == rows[k].id && out.city == rows[k].city && out.neighbourhood == rows[k].neighbourhood &&
      out.price == rows[k].price && out.daysRented == rows[k].daysRented &&
      out.amenities == rows[k].amenities && out.nAmenities == rows[k].nAmenities &&
      out.metrics.Some? && out.metrics.value.estimatedPropertyValue == value
    ensures WithMetrics(rows, value)[k] == Augment(rows[k], value)
  {
    if k > 0 {
      WithMetricsAt(rows[1..], value, k - 1);
    } else {
      WithMetricsLength(rows[1..], value);
    }
  }

  lemma {:induction false} WithMetricsLength(rows: seq<Listing>, value: Option<real>)
    ensures |WithMetrics(rows, value)| == |rows|
  {
    if rows != [] {
      WithMetricsLength(rows[1..], value);
    }
  }

  /** Any table that is the row-by-row augmentation of `rows` is `WithMetrics(rows, value)`. */
  lemma WithMetricsPointwise(rows: seq<Listing>, value: Option<real>, out: seq<Listing>)
    requires |out| == |rows|
    requires forall k :: 0 <= k < |rows| ==> out[k] == Augment(rows[k], value)
    ensures out == WithMetrics(rows, value)
  {
    WithMetricsLength(rows, value);
    forall k | 0 <= k < |rows| ensures out[k] == WithMetrics(rows, value)[k] {
      WithMetricsAt(rows, value, k);
    }
  }

  /**
   * Against a positive property value, net ROI is always below gross ROI, and
   * it is non-negative exactly when the annual income covers the operating cost.
   */
  lemma NetRoiBreakEven(price: Option<real>, daysRented: Option<real>, value: Option<real>)
    requires value.Some? && value.value > 0.0
    ensures var m := DeriveMetrics(price, daysRented, value);
      m.roi.Some? ==> m.netRoi.value < m.roi.value && (m.netRoi.value >= 0.0 <==> m.annualIncome.value >= 3000.0)
  {
    var m := DeriveMetrics(price, daysRented, value);
    if m.roi.Some? {
      var a, v := m.annualIncome.value, value.value;
      assert m.netRoi.value == (a - 3000.0) / v * 100.0;
      assert (a - 3000.0) / v == a / v - 3000.0 / v;
      assert 3000.0 / v > 0.0;
      assert (a - 3000.0) / v >= 0.0 <==> a - 3000.0 >= 0.0;
    }
  }

  /**
   * Net ROI is gross ROI less the operating cost as a percentage of the
   * property value; both are defined for the same listings.
   */
  lemma NetRoiIdentity(price: Option<real>, daysRented: Option<real>, value: Option<real>)
    ensures var m := DeriveMetrics(price, daysRented, value);
      (m.roi.Some? <==> price.Some? && daysRented.Some? && value.Some? && value.value != 0.0) &&
      (m.netRoi.Some? <==> m.roi.Some?) &&
      (m.roi.Some? ==> m.netRoi.value == m.roi.value - 3000.0 / value.value * 100.0)
  {
    var m := DeriveMetrics(price, daysRented, value);
    if m.roi.Some? {
      var a, v := m.annualIncome.value, value.value;
      assert (a - 3000.0) / v == a / v - 3000.0 / v;
    }
  }

  /** ROI is a percentage of the property value: scaling back recovers the annual income. */
  lemma RoiRecoversIncome(price: Option<real>, daysRented: Option<real>, value: Option<real>)
    ensures var m := DeriveMetrics(price, daysRented, value);
      m.roi.Some? ==> m.roi.value * value.value / 100.0 == m.annualIncome.value
  {
    var m := DeriveMetrics(price, daysRented, value);
    if m.roi.Some? {
      var a, v := m.annualIncome.value, value.value;
      assert a / v * v == a;
    }
  }

  /** Worked example, first half: a mean `precio` of 2500 gives an estimated property value of 175000. */
  lemma WorkedExampleValue()
    ensures EstimatedPropertyValue(SalePriceTable(true, [SaleRecord(None, Some(2000.0)), SaleRecord(None, None), SaleRecord(None, Some(3000.0))]))
      == Some(175000.0)
  {
    var records := [SaleRecord(None, Some(2000.0)), SaleRecord(None, None), SaleRecord(None, Some(3000.0))];
    assert PresentPrices(records[2..]) == [3000.0];
    assert PresentPrices(records[1..]) == [3000.0];
    assert PresentPrices(records) == [2000.0, 3000.0];
    assert Sum([2000.0, 3000.0]) == 5000.0;
  }

  /**
   * Worked example, second half: 50 per night for 100 nights against 175000
   * gives income 5000, net income 2000, ROI 20/7 and net ROI 8/7 percent.
   */
  lemma WorkedExampleMetrics()
    ensures DeriveMetrics(Some(50.0), Some(100.0), Some(175000.0)) ==
      Metrics(Some(5000.0), Some(175000.0), Some(20.0 / 7.0), Some(2000.0), Some(8.0 / 7.0))
  {
    assert 5000.0 / 175000.0 * 100.0 == 20.0 / 7.0;
    assert 2000.0 / 175000.0 * 100.0 == 8.0 / 7.0;
  }
}
