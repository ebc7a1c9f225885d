/**
 * The data model of the zone detector: candles (OHLC bars) and zones.
 * Prices are exact reals; timestamps are integers (milliseconds).
 */
module Zones {
  import opened Wrappers

  /** One OHLC bar. The volume column is never read by the detector and is left out. */
  datatype Candle = Candle(openTime: int, open: real, high: real, low: real, close: real)

  datatype ZoneType = Support | Resistance

  datatype Status = Active | Broken

  /**
   * A support or resistance zone. For resistance the outer (wick) bound is `zoneHigh`
   * and the inner (body) bound is `zoneLow`; for support it is the other way round.
   */
  datatype Zone = Zone(
    kind: ZoneType,
    zoneLow: real,
    zoneHigh: real,
    originTime: int,
    strength: int,
    touches: int,
    status: Status,
    pivotIdx: nat)
  {
    /** The zone's geometry is not degenerate. */
    predicate Valid() {
      zoneLow < zoneHigh
    }

    /** The wick-side bound: the one whose breach by a close breaks the zone. */
    function Outer(): real {
      if kind == Resistance then zoneHigh else zoneLow
    }

    /** The body-side bound: the one refinement narrows. */
    function Inner(): real {
      if kind == Resistance then zoneLow else zoneHigh
    }

    /**
     * Signed distance in percent from `price` to the zone's near edge (`zoneLow` for
     * resistance, `zoneHigh` for support). `None` is Python's division by zero at price 0.
     */
    function DistancePct(price: real): (r: Option<real>)
      ensures r.Some? <==> price != 0.0
      ensures r.Some? ==> r.value * price == (Inner() - price) * 100.0
      ensures r.Some? && price > 0.0 ==> (r.value > 0.0 <==> Inner() > price)
    {
      if price == 0.0 then None
      else if kind == Resistance then Some((zoneLow - price) / price * 100.0)
      else Some((zoneHigh - price) / price * 100.0)
    }

    /**
     * Whether `price` lies in the zone widened on both sides by `thresholdPct` of its width.
     */
    function ContainsPrice(price: real, thresholdPct: real := 0.005): (r: bool)
      ensures Valid() && thresholdPct >= 0.0 && zoneLow <= price <= zoneHigh ==> r
      ensures Valid() && thresholdPct >= 0.0 && r ==>
        zoneLow - (zoneHigh - zoneLow) * thresholdPct <= price <= zoneHigh + (zoneHigh - zoneLow) * thresholdPct
      ensures Valid() && thresholdPct >= 0.0 ==>
        (r <==> (price < zoneLow ==> zoneLow - price <= (zoneHigh - zoneLow) * thresholdPct) &&
                (price > zoneHigh ==> price - zoneHigh <= (zoneHigh - zoneLow) * thresholdPct))
    {
      var margin := (zoneHigh - zoneLow) * thresholdPct;
      assert Valid() && thresholdPct >= 0.0 ==> margin >= 0.0 by {
        if Valid() && thresholdPct >= 0.0 { ProductNonNegative(zoneHigh - zoneLow, thresholdPct); }
      }
      zoneLow - margin <= price <= zoneHigh + margin
    }

    /** Age in days of the zone's founding pivot, measured at the explicit time `nowMs`. */
    function AgeDays(nowMs: real): (r: real)
      ensures r * 86400000.0 == nowMs - originTime as real
      ensures nowMs >= originTime as real ==> r >= 0.0
    {
      (nowMs - originTime as real) / (1000.0 * 60.0 * 60.0 * 24.0)
    }
  }

  function Max(a: real, b: real): real { if a >= b then a else b }
  function Min(a: real, b: real): real { if a <= b then a else b }
  function MinNat(a: nat, b: nat): nat { if a <= b then a else b }

  /** Upper edge of a candle's body. */
  function BodyHigh(c: Candle): (r: real)
    ensures r >= c.open && r >= c.close
    ensures r == c.open || r == c.close
  {
    if c.open >= c.close then c.open else c.close
  }

  /** Lower edge of a candle's body. */
  function BodyLow(c: Candle): (r: real)
    ensures r <= c.open && r <= c.close
    ensures r == c.open || r == c.close
  {
    if c.open <= c.close then c.open else c.close
  }

  lemma ProductNonNegative(x: real, y: real)
    requires x >= 0.0 && y >= 0.0
    ensures x * y >= 0.0
  {
  }

  /** A larger threshold never shrinks the set of prices a valid zone contains. */
  lemma ContainsPriceMonotone(z: Zone, price: real, t1: real, t2: real)
    requires z.Valid() && 0.0 <= t1 <= t2
    requires z.ContainsPrice(price, t1)
    ensures z.ContainsPrice(price, t2)
  {
    var w := z.zoneHigh - z.zoneLow;
    ProductNonNegative(w, t2 - t1);
    assert w * (t2 - t1) == w * t2 - w * t1;
  }

  /**
   * For a positive price, ordering resistance zones by `zoneLow` (or support zones by
   * `zoneHigh`) is ordering them by their percentage distance from the price.
   */
  lemma DistancePctMonotone(a: Zone, b: Zone, price: real)
    requires price > 0.0 && a.kind == b.kind
    ensures a.Inner() <= b.Inner() <==> a.DistancePct(price).value <= b.DistancePct(price).value
  {
    var da, db := a.DistancePct(price).value, b.DistancePct(price).value;
    assert (db - da) * price == (b.Inner() - a.Inner()) * 100.0;
    if da <= db {
      ProductNonNegative(db - da, price);
    } else {
      ProductNonNegative(da - db, price);
    }
  }
}
