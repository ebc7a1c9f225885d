/**
 * Refinement: walk forward from the pivot keeping the running extreme of closes (maximum for
 * resistance, minimum for support) until a candle's wick or close passes the outer bound,
 * then move the inner bound to that extreme unless it would reach the outer bound.
 */
module Refinement {
  import opened Zones
  import opened Breakout


  /** The walk stops at a candle whose wick or close passes the zone's outer bound. */
  predicate StopsWalk(z: Zone, c: Candle) {
    if z.kind == Support then c.low < z.zoneLow || c.close < z.zoneLow
    else c.high > z.zoneHigh || c.close > z.zoneHigh
  }

  /** Where a walk started at `i` stops: the first stopping candle, or the end of the sequence. */
  function RunEnd(z: Zone, candles: seq<Candle>, i: nat): (e: nat)
    decreases |candles| - i
    ensures i <= e && (e > i ==> e <= |candles|)
    ensures e < |candles| ==> StopsWalk(z, candles[e])
    ensures forall j :: i <= j < e ==> j < |candles| && !StopsWalk(z, candles[j])
  {
    if i >= |candles| || StopsWalk(z, candles[i]) then i else RunEnd(z, candles, i + 1)
  }

  /**
   * The running extreme of closes, started from `acc` at index `i`: for resistance the largest
   * of `acc` and the closes of the walk, for support the smallest.
   */
  function RunExtreme(z: Zone, candles: seq<Candle>, i: nat, acc: real): (r: real)
    decreases |candles| - i
    ensures var e := RunEnd(z, candles, i);
      if z.kind == Resistance then
        r >= acc && (forall j :: i <= j < e ==> candles[j].close <= r) &&
        (r == acc || exists j :: i <= j < e && r == candles[j].close)
      else
        r <= acc && (forall j :: i <= j < e ==> candles[j].close >= r) &&
        (r == acc || exists j :: i <= j < e && r == candles[j].close)
  {
    if i >= |candles| || StopsWalk(z, candles[i]) then acc
    else if z.kind == Support then RunExtreme(z, candles, i + 1, Min(acc, candles[i].close))
    else RunExtreme(z, candles, i + 1, Max(acc, candles[i].close))
  }

  /** The refined zone: only the inner bound may change. */
  function Refine(z: Zone, candles: seq<Candle>): Zone {
    if z.kind == Support then
      var refinedHigh := RunExtreme(z, candles, z.pivotIdx, z.zoneHigh);
      if refinedHigh > z.zoneLow then z.(zoneHigh := refinedHigh) else z
    else
      var refinedLow := RunExtreme(z, candles, z.pivotIdx, z.zoneLow);
      if refinedLow < z.zoneHigh then z.(zoneLow := refinedLow) else z
  }

  /** Walks forward from the pivot with a running extreme of closes, then narrows the inner bound. */
  method RefineZone(zone: Zone, candles: seq<Candle>) returns (refined: Zone)
    ensures refined == Refine(zone, candles)
  {
    var n := |candles|;
    var i := zone.pivotIdx;
    if zone.kind == Support {
      var minClose := zone.zoneHigh;
      while i < n
        invariant RunExtreme(zone, candles, i, minClose) == RunExtreme(zone, candles, zone.pivotIdx, zone.zoneHigh)
        decreases n - i
      {
        var c := candles[i];
        if c.low < zone.zoneLow {
          break;
        }
        if c.close < zone.zoneLow {
          break;
        }
        minClose := Min(minClose, c.close);
        i := i + 1;
      }
      var refinedHigh := minClose;
      refined := zone;
      if refinedHigh > zone.zoneLow {
        refined := zone.(zoneHigh := refinedHigh);
      }
    } else {
      var maxClose := zone.zoneLow;
      while i < n
        invariant RunExtreme(zone, candles, i, maxClose) == RunExtreme(zone, candles, zone.pivotIdx, zone.zoneLow)
        decreases n - i
      {
        var c := candles[i];
        if c.high > zone.zoneHigh {
          break;
        }
        if c.close > zone.zoneHigh {
          break;
        }
        maxClose := Max(maxClose, c.close);
        i := i + 1;
      }
      var refinedLow := maxClose;
      refined := zone;
      if refinedLow < zone.zoneHigh {
        refined := zone.(zoneLow := refinedLow);
      }
    }
  }

  /**
   * Refinement changes only the inner bound, and only towards the outer bound: kind, outer
   * bound, origin time, strength, touches, status and pivot index are kept; a resistance
   * `zoneLow` moves within [old zoneLow, zoneHigh), a support `zoneHigh` within
   * (zoneLow, old zoneHigh]; a valid zone stays valid.
   */
  lemma RefineNarrows(z: Zone, candles: seq<Candle>)
    ensures var r := Refine(z, candles);
      r.kind == z.kind && r.originTime == z.originTime && r.strength == z.strength &&
      r.touches == z.touches && r.status == z.status && r.pivotIdx == z.pivotIdx &&
      r.Outer() == z.Outer() &&
      (z.kind == Resistance ==> z.zoneLow <= r.zoneLow && (r.zoneLow == z.zoneLow || r.zoneLow < r.zoneHigh)) &&
      (z.kind == Support ==> r.zoneHigh <= z.zoneHigh && (r.zoneHigh == z.zoneHigh || r.zoneLow < r.zoneHigh)) &&
      (z.Valid() ==> r.Valid())
  {
  }

  /**
   * The refined inner bound is the extreme close of the walk: when no close of the walk
   * touches the outer bound, a resistance `zoneLow` is at least every close of the walk and is
   * either the old `zoneLow` or one of those closes (support mirrors this); when a close of
   * the walk equals the outer bound, the zone is left as it was.
   */
  lemma RefineFollowsCloses(z: Zone, candles: seq<Candle>)
    requires z.Valid()
    ensures var r := Refine(z, candles);
      var e := RunEnd(z, candles, z.pivotIdx);
      if exists j :: z.pivotIdx <= j < e && candles[j].close == z.Outer() then r == z
      else
        (forall j :: z.pivotIdx <= j < e ==>
          if z.kind == Resistance then candles[j].close <= r.zoneLow else candles[j].close >= r.zoneHigh) &&
        (r == z || exists j :: z.pivotIdx <= j < e && r.Inner() == candles[j].close)
  {
    var e := RunEnd(z, candles, z.pivotIdx);
    if z.kind == Resistance {
      var m := RunExtreme(z, candles, z.pivotIdx, z.zoneLow);
      if m >= z.zoneHigh {
        if m != z.zoneLow {
          var j :| z.pivotIdx <= j < e && m == candles[j].close;
          assert !StopsWalk(z, candles[j]);
        }
      }
    } else {
      var m := RunExtreme(z, candles, z.pivotIdx, z.zoneHigh);
      if m <= z.zoneLow {
        if m != z.zoneHigh {
          var j :| z.pivotIdx <= j < e && m == candles[j].close;
          assert !StopsWalk(z, candles[j]);
        }
      }
    }
  }

  /** Refinement keeps the outer bound, so it neither breaks nor repairs a zone. */
  lemma RefineKeepsBreakout(z: Zone, candles: seq<Candle>)
    ensures IsBroken(Refine(z, candles), candles) == IsBroken(z, candles)
  {
    RefineNarrows(z, candles);
    var r := Refine(z, candles);
    assert Dominates(r, z) && Dominates(z, r);
    if IsBroken(z, candles) {
      if !IsBroken(r, candles) {
        DominatesUnbroken(z, r, candles);
      }
    } else {
      DominatesUnbroken(r, z, candles);
    }
  }
}
