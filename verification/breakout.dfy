/**
 * Breakout check: a zone is broken once some candle from its pivot onwards closes beyond
 * its outer bound.
 */
module Breakout {
  import opened Zones

  /** The candle closes strictly beyond the zone's outer bound. */
  predicate ClosesBeyond(z: Zone, c: Candle) {
    (z.kind == Resistance && c.close > z.zoneHigh) || (z.kind == Support && c.close < z.zoneLow)
  }

  /** Search, from index `i` to the end, for a close beyond the outer bound, stopping at the first. */
  function BrokenFrom(z: Zone, candles: seq<Candle>, i: nat): (r: bool)
    requires i <= |candles|
    decreases |candles| - i
    ensures r <==> exists j :: i <= j < |candles| && ClosesBeyond(z, candles[j])
  {
    if i == |candles| then false
    else if z.kind == Resistance && candles[i].close > z.zoneHigh then true
    else if z.kind == Support && candles[i].close < z.zoneLow then true
    else BrokenFrom(z, candles, i + 1)
  }

  /**
   * A resistance zone is broken when some candle at or after its pivot closes strictly above
   * `zoneHigh`; a support zone when one closes strictly below `zoneLow`.
   */
  function IsBroken(z: Zone, candles: seq<Candle>): (r: bool)
    ensures r <==> exists j :: z.pivotIdx <= j < |candles| && ClosesBeyond(z, candles[j])
  {
    if z.pivotIdx >= |candles| then false else BrokenFrom(z, candles, z.pivotIdx)
  }

  /** Scans the candles from the pivot on and reports the first close beyond the outer bound. */
  method CheckBroken(zone: Zone, candles: seq<Candle>) returns (broken: bool)
    ensures broken == IsBroken(zone, candles)
    ensures broken <==> exists j :: zone.pivotIdx <= j < |candles| && ClosesBeyond(zone, candles[j])
  {
    if zone.pivotIdx >= |candles| {
      return false;
    }
    for i := zone.pivotIdx to |candles|
      invariant BrokenFrom(zone, candles, i) == IsBroken(zone, candles)
    {
      var c := candles[i];
      if zone.kind == Resistance && c.close > zone.zoneHigh {
        return true;
      }
      if zone.kind == Support && c.close < zone.zoneLow {
        return true;
      }
    }
    return false;
  }

  /**
   * `w` is at least as hard to break as `z`: same kind, a scan that starts no earlier,
   * and an outer bound at least as far out.
   */
  predicate Dominates(w: Zone, z: Zone) {
    w.kind == z.kind && w.pivotIdx >= z.pivotIdx &&
    (z.kind == Resistance ==> w.zoneHigh >= z.zoneHigh) &&
    (z.kind == Support ==> w.zoneLow <= z.zoneLow)
  }

  /** A zone that dominates an unbroken zone is unbroken. */
  lemma DominatesUnbroken(w: Zone, z: Zone, candles: seq<Candle>)
    requires Dominates(w, z) && !IsBroken(z, candles)
    ensures !IsBroken(w, candles)
  {
  }

  /** Domination is transitive. */
  lemma DominatesTransitive(a: Zone, b: Zone, c: Zone)
    requires Dominates(a, b) && Dominates(b, c)
    ensures Dominates(a, c)
  {
  }
}
