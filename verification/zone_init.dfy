/**
 * Zone initialisation: a pivot becomes a candidate zone whose outer bound is the pivot's
 * wick and whose inner bound is the pivot's body edge, tightened against the bodies of
 * the (at most four) neighbouring candles.
 */
module ZoneInit {
  import opened Wrappers
  import opened Zones
  import opened Pivots

  /** The neighbours examined, relative to the pivot index, in the order they are examined. */
  const NeighbourOffsets: seq<int> := [-1, -2, 1, 2]


  /** Index `j` names a candle. */
  predicate InRange(candles: seq<Candle>, j: int) {
    0 <= j < |candles|
  }

  /** Resistance: raise `low` to the neighbour's body top when that top lies strictly inside (low, high). */
  function RaiseStep(candles: seq<Candle>, j: int, low: real, high: real): real {
    if InRange(candles, j) && BodyHigh(candles[j]) > low && BodyHigh(candles[j]) < high
    then Max(low, BodyHigh(candles[j]))
    else low
  }

  /** Support: lower `high` to the neighbour's body bottom when that bottom lies strictly inside (low, high). */
  function LowerStep(candles: seq<Candle>, j: int, low: real, high: real): real {
    if InRange(candles, j) && BodyLow(candles[j]) < high && BodyLow(candles[j]) > low
    then Min(high, BodyLow(candles[j]))
    else high
  }

  /** The resistance inner bound after the first `k` neighbours of `idx` were examined. */
  function RaisedLow(candles: seq<Candle>, idx: int, k: nat, low: real, high: real): real
    requires k <= |NeighbourOffsets|
  {
    if k == 0 then low
    else RaiseStep(candles, idx + NeighbourOffsets[k - 1], RaisedLow(candles, idx, k - 1, low, high), high)
  }

  /** The support inner bound after the first `k` neighbours of `idx` were examined. */
  function LoweredHigh(candles: seq<Candle>, idx: int, k: nat, low: real, high: real): real
    requires k <= |NeighbourOffsets|
  {
    if k == 0 then high
    else LowerStep(candles, idx + NeighbourOffsets[k - 1], low, LoweredHigh(candles, idx, k - 1, low, high))
  }

  /** The zone a pivot initialises, or `None` when its geometry is degenerate. */
  function InitZone(p: Pivot, candles: seq<Candle>): Option<Zone> {
    var c := p.candle;
    if p.kind == High then
      var high := c.high;
      var low := BodyHigh(c);
      if low >= high then None
      else
        var low' := RaisedLow(candles, p.idx, 4, low, high);
        if low' >= high then None
        else Some(Zone(Resistance, low', high, c.openTime, 1, 0, Active, p.idx))
    else
      var low := c.low;
      var high := BodyLow(c);
      if high <= low then None
      else
        var high' := LoweredHigh(candles, p.idx, 4, low, high);
        if high' <= low then None
        else Some(Zone(Support, low, high', c.openTime, 1, 0, Active, p.idx))
  }

  /** Builds the candidate zone of one pivot, examining its neighbours one by one. */
  method InitZoneFromPivot(p: Pivot, candles: seq<Candle>) returns (zone: Option<Zone>)
    ensures zone == InitZone(p, candles)
  {
    var idx := p.idx;
    var c := p.candle;
    if p.kind == High {
      var zoneHigh := c.high;
      var zoneLow := BodyHigh(c);
      if zoneLow >= zoneHigh {
        return None;
      }
      for k := 0 to 4
        invariant zoneLow == RaisedLow(candles, idx, k, BodyHigh(c), zoneHigh)
      {
        var j := idx + NeighbourOffsets[k];
        if 0 <= j < |candles| {
          var nbBodyHigh := BodyHigh(candles[j]);
          if nbBodyHigh > zoneLow && nbBodyHigh < zoneHigh {
            zoneLow := Max(zoneLow, nbBodyHigh);
          }
        }
      }
      if zoneLow >= zoneHigh {
        return None;
      }
      return Some(Zone(Resistance, zoneLow, zoneHigh, c.openTime, 1, 0, Active, idx));
    } else {
      var zoneLow := c.low;
      var zoneHigh := BodyLow(c);
      if zoneHigh <= zoneLow {
        return None;
      }
      for k := 0 to 4
        invariant zoneHigh == LoweredHigh(candles, idx, k, zoneLow, BodyLow(c))
      {
        var j := idx + NeighbourOffsets[k];
        if 0 <= j < |candles| {
          var nbBodyLow := BodyLow(candles[j]);
          if nbBodyLow < zoneHigh && nbBodyLow > zoneLow {
            zoneHigh := Min(zoneHigh, nbBodyLow);
          }
        }
      }
      if zoneHigh <= zoneLow {
        return None;
      }
      return Some(Zone(Support, zoneLow, zoneHigh, c.openTime, 1, 0, Active, idx));
    }
  }

  /**
   * Raising only moves the inner bound up, stays strictly below `high`, lands on the
   * starting bound or on the body top of an in-range neighbour, and leaves no examined
   * neighbour body top strictly inside the final range.
   */
  lemma {:induction false} RaisedLowSpec(candles: seq<Candle>, idx: int, k: nat, low: real, high: real)
    requires k <= |NeighbourOffsets| && low < high
    ensures var r := RaisedLow(candles, idx, k, low, high);
      low <= r < high &&
      (r == low || exists m :: 0 <= m < k && InRange(candles, idx + NeighbourOffsets[m]) &&
                                r == BodyHigh(candles[idx + NeighbourOffsets[m]])) &&
      forall m :: 0 <= m < k && InRange(candles, idx + NeighbourOffsets[m]) ==>
        var b := BodyHigh(candles[idx + NeighbourOffsets[m]]);
        b <= r || b >= high
  {
    if k > 0 {
      RaisedLowSpec(candles, idx, k - 1, low, high);
    }
  }

  /** The mirror of `RaisedLowSpec` for support zones. */
  lemma {:induction false} LoweredHighSpec(candles: seq<Candle>, idx: int, k: nat, low: real, high: real)
    requires k <= |NeighbourOffsets| && low < high
    ensures var r := LoweredHigh(candles, idx, k, low, high);
      low < r <= high &&
      (r == high || exists m :: 0 <= m < k && InRange(candles, idx + NeighbourOffsets[m]) &&
                                 r == BodyLow(candles[idx + NeighbourOffsets[m]])) &&
      forall m :: 0 <= m < k && InRange(candles, idx + NeighbourOffsets[m]) ==>
        var b := BodyLow(candles[idx + NeighbourOffsets[m]]);
        b >= r || b <= low
  {
    if k > 0 {
      LoweredHighSpec(candles, idx, k - 1, low, high);
    }
  }

  /**
   * A pivot yields a zone exactly when its body edge lies strictly inside its wick; the
   * check after the neighbour adjustment never rejects. The zone is valid, active, of
   * strength 1, and takes its origin time and pivot index from the pivot.
   */
  lemma InitZoneShape(p: Pivot, candles: seq<Candle>)
    ensures InitZone(p, candles).Some? <==>
      (if p.kind == High then BodyHigh(p.candle) < p.candle.high else BodyLow(p.candle) > p.candle.low)
    ensures InitZone(p, candles).Some? ==>
      var z := InitZone(p, candles).value;
      z.Valid() && z.status == Active && z.strength == 1 && z.touches == 0 &&
      z.originTime == p.candle.openTime && z.pivotIdx == p.idx &&
      z.kind == (if p.kind == High then Resistance else Support)
  {
    var c := p.candle;
    if p.kind == High && BodyHigh(c) < c.high {
      RaisedLowSpec(candles, p.idx, 4, BodyHigh(c), c.high);
    } else if p.kind == Low && BodyLow(c) > c.low {
      LoweredHighSpec(candles, p.idx, 4, c.low, BodyLow(c));
    }
  }

  /**
   * Resistance keeps the wick as `zoneHigh` and has `zoneLow` at or above the pivot's body
   * top; support mirrors this. The inner bound is the pivot's body edge or an in-range
   * neighbour's, and no in-range neighbour's body edge lies strictly inside the zone.
   */
  lemma InitZoneBounds(p: Pivot, candles: seq<Candle>)
    requires InitZone(p, candles).Some?
    ensures var z := InitZone(p, candles).value;
      if p.kind == High then
        z.zoneHigh == p.candle.high && z.zoneLow >= BodyHigh(p.candle) &&
        (z.zoneLow == BodyHigh(p.candle) ||
          exists m :: 0 <= m < 4 && InRange(candles, p.idx + NeighbourOffsets[m]) &&
                      z.zoneLow == BodyHigh(candles[p.idx + NeighbourOffsets[m]])) &&
        forall m :: 0 <= m < 4 && InRange(candles, p.idx + NeighbourOffsets[m]) ==>
          !(z.zoneLow < BodyHigh(candles[p.idx + NeighbourOffsets[m]]) < z.zoneHigh)
      else
        z.zoneLow == p.candle.low && z.zoneHigh <= BodyLow(p.candle) &&
        (z.zoneHigh == BodyLow(p.candle) ||
          exists m :: 0 <= m < 4 && InRange(candles, p.idx + NeighbourOffsets[m]) &&
                      z.zoneHigh == BodyLow(candles[p.idx + NeighbourOffsets[m]])) &&
        forall m :: 0 <= m < 4 && InRange(candles, p.idx + NeighbourOffsets[m]) ==>
          !(z.zoneLow < BodyLow(candles[p.idx + NeighbourOffsets[m]]) < z.zoneHigh)
  {
    var c := p.candle;
    if p.kind == High {
      RaisedLowSpec(candles, p.idx, 4, BodyHigh(c), c.high);
    } else {
      LoweredHighSpec(candles, p.idx, 4, c.low, BodyLow(c));
    }
  }

  /** A pivot high with open 103, close 101, high 107 starts as (103, 107) when no neighbour body top lies inside. */
  lemma InitZoneBodyTopExample(p: Pivot, candles: seq<Candle>)
    requires p.kind == High && p.candle.open == 103.0 && p.candle.close == 101.0 && p.candle.high == 107.0
    requires forall j :: InRange(candles, j) && j != p.idx ==> BodyHigh(candles[j]) <= 103.0
    ensures InitZone(p, candles).Some?
    ensures InitZone(p, candles).value.zoneLow == 103.0 && InitZone(p, candles).value.zoneHigh == 107.0
  {
    var low := BodyHigh(p.candle);
    assert low == 103.0;
    RaisedLowSpec(candles, p.idx, 4, low, 107.0);
  }
}
