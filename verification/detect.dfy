/**
 * Zone detection: every pivot seeds a zone, broken zones are dropped, the rest are refined,
 * the survivors merged, and only valid active zones are returned. Detection over several
 * timeframes runs the same pipeline once per timeframe.
 */
module Detect {
  import opened Wrappers
  import opened Zones
  import opened Pivots
  import opened ZoneInit
  import opened Breakout
  import opened Refinement
  import opened Merge

  /**
   * The zone a pivot contributes before merging, if any: initialised, unbroken, refined. A
   * candidate is valid, active, of strength 1, and carries its pivot's index, time and kind.
   */
  function Candidate(p: Pivot, candles: seq<Candle>): (r: Option<Zone>)
    ensures r.Some? ==> InitZone(p, candles).Some?
    ensures r.Some? ==>
      r.value.Valid() && r.value.status == Active && r.value.strength == 1 &&
      r.value.pivotIdx == p.idx && r.value.originTime == p.candle.openTime &&
      r.value.kind == (if p.kind == High then Resistance else Support)
  {
    match InitZone(p, candles)
    case None => None
    case Some(z) =>
      if IsBroken(z, candles) then None
      else
        InitZoneShape(p, candles);
        RefineNarrows(z, candles);
        Some(Refine(z, candles))
  }

  /** A candidate is unbroken: refinement keeps the outer bound of an unbroken zone. */
  lemma CandidateUnbroken(p: Pivot, candles: seq<Candle>)
    requires Candidate(p, candles).Some?
    ensures !IsBroken(Candidate(p, candles).value, candles)
  {
    RefineKeepsBreakout(InitZone(p, candles).value, candles);
  }

  /** The candidate zones of the pivots, in pivot order. */
  function CandidatesOf(pivots: seq<Pivot>, candles: seq<Candle>): (zs: seq<Zone>)
    ensures |zs| <= |pivots|
    ensures forall z :: z in zs ==> exists p :: p in pivots && Candidate(p, candles) == Some(z)
    ensures forall p :: p in pivots && Candidate(p, candles).Some? ==> Candidate(p, candles).value in zs
  {
    if pivots == [] then []
    else
      var rest := CandidatesOf(pivots[..|pivots| - 1], candles);
      var last := pivots[|pivots| - 1];
      assert forall p :: p in pivots ==> p in pivots[..|pivots| - 1] || p == last;
      match Candidate(last, candles)
      case None => rest
      case Some(z) => rest + [z]
  }

  /** The zones that pass the final check: a positive width and an active status. */
  function ValidActive(zs: seq<Zone>): (r: seq<Zone>)
    ensures |r| <= |zs|
    ensures forall z :: z in r <==> z in zs && z.Valid() && z.status == Active
    ensures AllValid(zs) && AllActive(zs) ==> r == zs
  {
    if zs == [] then []
    else
      var rest := ValidActive(zs[..|zs| - 1]);
      var last := zs[|zs| - 1];
      assert zs == zs[..|zs| - 1] + [last];
      if last.Valid() && last.status == Active then rest + [last] else rest
  }

  /** The zones detected in a candle sequence. */
  function Detect(candles: seq<Candle>): seq<Zone> {
    if |candles| < 5 then []
    else ValidActive(MergeAll(CandidatesOf(AllPivots(candles), candles), DefaultThresholdPct))
  }

  /** Extending the pivots by one adds that pivot's candidate, if it has one. */
  lemma CandidatesOfStep(pivots: seq<Pivot>, k: nat, candles: seq<Candle>)
    requires k < |pivots|
    ensures CandidatesOf(pivots[..k + 1], candles) ==
      match Candidate(pivots[k], candles)
      case None => CandidatesOf(pivots[..k], candles)
      case Some(z) => CandidatesOf(pivots[..k], candles) + [z]
  {
    assert pivots[..k + 1][..k] == pivots[..k];
  }

  /** The candidate loop: each pivot's zone is initialised, skipped when broken, and refined. */
  method CollectCandidates(pivots: seq<Pivot>, candles: seq<Candle>) returns (candidates: seq<Zone>)
    ensures candidates == CandidatesOf(pivots, candles)
  {
    candidates := [];
    for k := 0 to |pivots|
      invariant candidates == CandidatesOf(pivots[..k], candles)
    {
      CandidatesOfStep(pivots, k, candles);
      var zone := InitZoneFromPivot(pivots[k], candles);
      if zone.None? {
        continue;
      }
      var broken := CheckBroken(zone.value, candles);
      if broken {
        continue;
      }
      var refined := RefineZone(zone.value, candles);
      candidates := candidates + [refined];
    }
    assert pivots[..|pivots|] == pivots;
  }

  /** The final check: keeps the zones with a positive width and an active status, in order. */
  method KeepValidActive(merged: seq<Zone>) returns (zones: seq<Zone>)
    ensures zones == ValidActive(merged)
  {
    zones := [];
    for k := 0 to |merged|
      invariant zones == ValidActive(merged[..k])
    {
      assert merged[..k + 1][..k] == merged[..k];
      var z := merged[k];
      if z.zoneLow < z.zoneHigh && z.status == Active {
        zones := zones + [z];
      }
    }
    assert merged[..|merged|] == merged;
  }

  /** The detection pipeline over one candle sequence. */
  method DetectZones(candles: seq<Candle>) returns (zones: seq<Zone>)
    ensures zones == Detect(candles)
  {
    if |candles| < 5 {
      return [];
    }
    var pivots := FindPivots(candles);
    var candidates := CollectCandidates(pivots, candles);
    var merged := MergeZones(candidates);
    zones := KeepValidActive(merged);
  }

  /**
   * Detection per timeframe. A timeframe whose fetch failed carries `None`; it yields no zones,
   * as does an empty candle list.
   */
  method DetectZonesMultiTf(candlesByTf: map<string, Option<seq<Candle>>>) returns (result: map<string, seq<Zone>>)
    ensures result.Keys == candlesByTf.Keys
    ensures forall tf :: tf in candlesByTf && candlesByTf[tf].None? ==> result[tf] == []
    ensures forall tf :: tf in candlesByTf && candlesByTf[tf].Some? ==> result[tf] == Detect(candlesByTf[tf].value)
  {
    result := map[];
    var pending := candlesByTf.Keys;
    while pending != {}
      invariant pending <= candlesByTf.Keys
      invariant result.Keys == candlesByTf.Keys - pending
      invariant forall tf :: tf in result && candlesByTf[tf].None? ==> result[tf] == []
      invariant forall tf :: tf in result && candlesByTf[tf].Some? ==> result[tf] == Detect(candlesByTf[tf].value)
      decreases |pending|
    {
      var tf :| tf in pending;
      var candles := candlesByTf[tf];
      if candles.Some? && candles.value != [] {
        var zones := DetectZones(candles.value);
        result := result[tf := zones];
      } else {
        result := result[tf := []];
      }
      pending := pending - {tf};
    }
  }

  // ---------------------------------------------------------------------------------------
  // Properties

  /** Fewer than five candles give no zones. */
  lemma DetectShortInput(candles: seq<Candle>)
    requires |candles| < 5
    ensures Detect(candles) == []
  {
  }

  /** The candidates of a candle sequence are all valid and active. */
  lemma CandidatesValidActive(pivots: seq<Pivot>, candles: seq<Candle>)
    ensures AllValid(CandidatesOf(pivots, candles)) && AllActive(CandidatesOf(pivots, candles))
  {
    forall z | z in CandidatesOf(pivots, candles)
      ensures z.Valid() && z.status == Active
    {
      var p :| p in pivots && Candidate(p, candles) == Some(z);
    }
  }

  /**
   * Merging keeps every zone valid and active, so the final check drops nothing: the detected
   * zones are exactly the merged candidates.
   */
  lemma DetectFinalCheckKeepsAll(candles: seq<Candle>)
    requires |candles| >= 5
    ensures Detect(candles) == MergeAll(CandidatesOf(AllPivots(candles), candles), DefaultThresholdPct)
  {
    var cs := CandidatesOf(AllPivots(candles), candles);
    CandidatesValidActive(AllPivots(candles), candles);
    MergeAllValid(cs, DefaultThresholdPct);
  }

  /** Every detected zone is valid and active. */
  lemma DetectValidActive(candles: seq<Candle>)
    ensures forall z :: z in Detect(candles) ==> z.Valid() && z.status == Active
  {
  }

  /**
   * No detected zone is broken: no candle from its pivot on closes beyond its outer bound.
   * Each merged zone dominates an unbroken candidate, so the merge cannot yield a broken one.
   */
  lemma DetectUnbroken(candles: seq<Candle>)
    ensures forall z :: z in Detect(candles) ==> !IsBroken(z, candles)
  {
    if |candles| >= 5 {
      var cs := CandidatesOf(AllPivots(candles), candles);
      MergeAllDominates(cs, DefaultThresholdPct);
      forall z | z in Detect(candles)
        ensures !IsBroken(z, candles)
      {
        var w :| w in cs && Dominates(z, w);
        var p :| p in AllPivots(candles) && Candidate(p, candles) == Some(w);
        CandidateUnbroken(p, candles);
        DominatesUnbroken(z, w, candles);
      }
    }
  }

  /** No two detected zones would be merged again. */
  lemma DetectNoMergeablePair(candles: seq<Candle>)
    ensures NoMergeablePair(Detect(candles), DefaultThresholdPct)
  {
    if |candles| >= 5 {
      DetectFinalCheckKeepsAll(candles);
      MergeAllFixedPoint(CandidatesOf(AllPivots(candles), candles), DefaultThresholdPct);
    }
  }

  /** Number of zones of one kind. */
  function KindCount(zs: seq<Zone>, kind: ZoneType): nat {
    if zs == [] then 0 else KindCount(zs[..|zs| - 1], kind) + (if zs[|zs| - 1].kind == kind then 1 else 0)
  }

  lemma {:induction false} KindStrengthOfOnes(zs: seq<Zone>, kind: ZoneType)
    requires forall z :: z in zs ==> z.strength == 1
    ensures KindStrength(zs, kind) == KindCount(zs, kind)
  {
    if zs != [] {
      assert forall z :: z in zs[..|zs| - 1] ==> z in zs;
      KindStrengthOfOnes(zs[..|zs| - 1], kind);
    }
  }

  /** Open times never decrease along the candle sequence. */
  predicate CandlesInTimeOrder(candles: seq<Candle>) {
    forall a, b :: 0 <= a < b < |candles| ==> candles[a].openTime <= candles[b].openTime
  }

  lemma {:induction false} CandidatesInOrigin(pivots: seq<Pivot>, candles: seq<Candle>)
    requires forall a, b :: 0 <= a < b < |pivots| ==> pivots[a].candle.openTime <= pivots[b].candle.openTime
    ensures SortedByOrigin(CandidatesOf(pivots, candles))
  {
    if pivots != [] {
      var init := pivots[..|pivots| - 1];
      var last := pivots[|pivots| - 1];
      CandidatesInOrigin(init, candles);
      var rest := CandidatesOf(init, candles);
      if Candidate(last, candles).Some? {
        forall z | z in rest
          ensures z.originTime <= last.candle.openTime
        {
          var p :| p in init && Candidate(p, candles) == Some(z);
        }
      }
    }
  }

  /** On candles in time order the candidates are in origin order. */
  lemma CandidatesOfOrderedCandles(candles: seq<Candle>)
    requires CandlesInTimeOrder(candles)
    ensures SortedByOrigin(CandidatesOf(AllPivots(candles), candles))
  {
    var ps := AllPivots(candles);
    PivotsSound(candles);
    PivotsOrdered(candles);
    forall a, b | 0 <= a < b < |ps|
      ensures ps[a].candle.openTime <= ps[b].candle.openTime
    {
      assert ps[a] in ps && ps[b] in ps;
    }
    CandidatesInOrigin(ps, candles);
  }

  /** Every candidate has strength 1, so the strength of a kind is the number of its candidates. */
  lemma CandidatesStrength(candles: seq<Candle>, kind: ZoneType)
    ensures var cs := CandidatesOf(AllPivots(candles), candles);
      KindStrength(cs, kind) == KindCount(cs, kind)
  {
    var ps := AllPivots(candles);
    var cs := CandidatesOf(ps, candles);
    forall z | z in cs
      ensures z.strength == 1
    {
      var p :| p in ps && Candidate(p, candles) == Some(z);
    }
    KindStrengthOfOnes(cs, kind);
  }

  /**
   * On candles in time order, the detected zones are in origin order and the strengths of
   * each kind add up to the number of candidates of that kind: every surviving pivot counts
   * once, in exactly one detected zone's strength.
   */
  lemma DetectStrengthCountsCandidates(candles: seq<Candle>, kind: ZoneType)
    requires CandlesInTimeOrder(candles) && |candles| >= 5
    ensures SortedByOrigin(Detect(candles))
    ensures KindStrength(Detect(candles), kind) == KindCount(CandidatesOf(AllPivots(candles), candles), kind)
  {
    CandidatesOfOrderedCandles(candles);
    DetectFinalCheckKeepsAll(candles);
    MergeAllSorted(CandidatesOf(AllPivots(candles), candles), DefaultThresholdPct, kind);
    CandidatesStrength(candles, kind);
  }
}
