/**
 * Merging: repeated passes over the zone list; in each pass every zone not yet absorbed
 * absorbs the later zones of its kind that overlap it or lie within a proximity threshold.
 * Passes repeat until one makes no merge.
 *
 * The three loops of the code are methods (`AbsorbFollowing`, `MergePass`, `MergeZones`),
 * each proved equal to a function that follows the same loop (`AbsorbFrom`, `Pass`,
 * `MergeAll`); the properties of merging are lemmas about those functions.
 */
module Merge {
  import opened Zones
  import opened Breakout

  /** The proximity threshold: 0.5% of the two zones' average width. */
  const DefaultThresholdPct: real := 0.005

  /**
   * Two zones are merged when they have the same kind and either their ranges overlap or the
   * gap between them is below `thresholdPct` of their average width.
   */
  predicate Mergeable(z1: Zone, z2: Zone, thresholdPct: real)
    ensures Mergeable(z1, z2, thresholdPct) ==> z1.kind == z2.kind
    ensures z1.kind == z2.kind && z1.zoneLow <= z2.zoneHigh && z2.zoneLow <= z1.zoneHigh ==> Mergeable(z1, z2, thresholdPct)
  {
    z1.kind == z2.kind &&
    var threshold := (z1.zoneHigh - z1.zoneLow + z2.zoneHigh - z2.zoneLow) / 2.0 * thresholdPct;
    var overlap := z1.zoneLow <= z2.zoneHigh && z2.zoneLow <= z1.zoneHigh;
    var gap := Max(z1.zoneLow, z2.zoneLow) - Min(z1.zoneHigh, z2.zoneHigh);
    overlap || gap < threshold
  }

  /**
   * Valid zones of one kind that do not overlap are merged exactly when the distance between them
   * is below the threshold share of their average width.
   */
  lemma MergeableGap(z1: Zone, z2: Zone, thresholdPct: real)
    requires z1.kind == z2.kind && z1.Valid() && z2.Valid()
    ensures var threshold := (z1.zoneHigh - z1.zoneLow + z2.zoneHigh - z2.zoneLow) / 2.0 * thresholdPct;
      (z1.zoneHigh < z2.zoneLow ==> (Mergeable(z1, z2, thresholdPct) <==> z2.zoneLow - z1.zoneHigh < threshold)) &&
      (z2.zoneHigh < z1.zoneLow ==> (Mergeable(z1, z2, thresholdPct) <==> z1.zoneLow - z2.zoneHigh < threshold))
  {
  }

  /** Mergeability does not depend on the order of the two zones. */
  lemma MergeableSymmetric(z1: Zone, z2: Zone, thresholdPct: real)
    ensures Mergeable(z1, z2, thresholdPct) <==> Mergeable(z2, z1, thresholdPct)
  {
  }

  /** No two zones of the list would be merged. */
  predicate NoMergeablePair(zs: seq<Zone>, thresholdPct: real) {
    forall a, b :: 0 <= a < b < |zs| ==> !Mergeable(zs[a], zs[b], thresholdPct)
  }

  /** No zone at index `i` or later can be merged with a zone after it. */
  predicate NoMergeableFrom(zs: seq<Zone>, i: nat, thresholdPct: real) {
    forall a, b :: i <= a < b < |zs| ==> !Mergeable(zs[a], zs[b], thresholdPct)
  }

  /** The list is ordered by non-decreasing origin time. */
  predicate SortedByOrigin(zs: seq<Zone>) {
    forall a, b :: 0 <= a < b < |zs| ==> zs[a].originTime <= zs[b].originTime
  }

  predicate AllValid(zs: seq<Zone>) {
    forall z :: z in zs ==> z.Valid()
  }

  predicate AllActive(zs: seq<Zone>) {
    forall z :: z in zs ==> z.status == Active
  }

  /** Every zone of `ws` dominates some zone of `zs`. */
  ghost predicate EachDominates(ws: seq<Zone>, zs: seq<Zone>) {
    forall w :: w in ws ==> exists z :: z in zs && Dominates(w, z)
  }

  /**
   * The merged zone that `base` becomes when it absorbs `other`: it covers both ranges,
   * adds the other's strength and keeps its own kind and origin.
   */
  function Absorb(base: Zone, other: Zone): (m: Zone)
    ensures m.zoneLow <= base.zoneLow && m.zoneLow <= other.zoneLow
    ensures m.zoneHigh >= base.zoneHigh && m.zoneHigh >= other.zoneHigh
    ensures m.strength == base.strength + other.strength
    ensures m.kind == base.kind && m.originTime == base.originTime
  {
    base.(zoneLow := Min(base.zoneLow, other.zoneLow),
          zoneHigh := Max(base.zoneHigh, other.zoneHigh),
          strength := base.strength + other.strength,
          pivotIdx := MinNat(base.pivotIdx, other.pivotIdx))
  }

  /**
   * What the kept zone `z1` becomes when the later zone `z2` is merged into it: the older
   * of the two is updated, so `z1` absorbs `z2` when it is not younger; otherwise `z2` is
   * updated and then dropped, and `z1` stays as it was.
   */
  function MergeInto(z1: Zone, z2: Zone): (m: Zone)
    ensures m.kind == z1.kind && m.originTime == z1.originTime && m.status == z1.status
    ensures z1.originTime <= z2.originTime ==>
      m.zoneLow == Min(z1.zoneLow, z2.zoneLow) && m.zoneHigh == Max(z1.zoneHigh, z2.zoneHigh) &&
      m.strength == z1.strength + z2.strength && m.pivotIdx == MinNat(z1.pivotIdx, z2.pivotIdx)
    ensures z1.originTime > z2.originTime ==> m == z1
  {
    if z1.originTime <= z2.originTime then Absorb(z1, z2) else z1
  }

  /** State of the inner loop: the kept zone, the used marks and whether a merge happened. */
  datatype Absorbed = Absorbed(zone: Zone, used: seq<bool>, mergedAny: bool)

  /** The inner loop from index `j` on: `z1` absorbs every later unused zone it can merge with. */
  function AbsorbFrom(zones: seq<Zone>, used: seq<bool>, j: nat, z1: Zone, mergedAny: bool, thresholdPct: real): (a: Absorbed)
    requires |used| == |zones|
    decreases |zones| - j
    ensures |a.used| == |zones|
  {
    if j >= |zones| then Absorbed(z1, used, mergedAny)
    else if used[j] || !Mergeable(z1, zones[j], thresholdPct) then
      AbsorbFrom(zones, used, j + 1, z1, mergedAny, thresholdPct)
    else
      AbsorbFrom(zones, used[j := true], j + 1, MergeInto(z1, zones[j]), true, thresholdPct)
  }

  /** The outer loop of a pass from index `i` on, with the kept zones and the merge flag so far. */
  function PassFrom(zones: seq<Zone>, used: seq<bool>, i: nat, result: seq<Zone>, merged: bool, thresholdPct: real): (seq<Zone>, bool)
    requires |used| == |zones|
    decreases |zones| - i
  {
    if i >= |zones| then (result, merged)
    else if used[i] then PassFrom(zones, used, i + 1, result, merged, thresholdPct)
    else
      var a := AbsorbFrom(zones, used, i + 1, zones[i], false, thresholdPct);
      PassFrom(zones, a.used, i + 1, result + [a.zone], merged || a.mergedAny, thresholdPct)
  }

  /** One pass over the list, starting with no zone used. */
  function Pass(zones: seq<Zone>, thresholdPct: real): (seq<Zone>, bool) {
    PassFrom(zones, seq(|zones|, _ => false), 0, [], false, thresholdPct)
  }

  /** Passes repeated until one makes no merge. */
  function MergeAll(zones: seq<Zone>, thresholdPct: real): seq<Zone>
    decreases |zones|
  {
    var p := Pass(zones, thresholdPct);
    if !p.1 then p.0
    else
      PassFacts(zones, thresholdPct);
      MergeAll(p.0, thresholdPct)
  }

  // ---------------------------------------------------------------------------------------
  // The code's loops

  /** The test the inner loop runs on two zones of one kind. */
  lemma MergeableTest(z1: Zone, z2: Zone, thresholdPct: real)
    requires z1.kind == z2.kind
    ensures Mergeable(z1, z2, thresholdPct) <==>
      (z1.zoneLow <= z2.zoneHigh && z2.zoneLow <= z1.zoneHigh) ||
      Max(z1.zoneLow, z2.zoneLow) - Min(z1.zoneHigh, z2.zoneHigh) <
        (z1.zoneHigh - z1.zoneLow + z2.zoneHigh - z2.zoneLow) / 2.0 * thresholdPct
  {
  }

  /** One step of the inner loop, at index `j`. */
  lemma AbsorbFromStep(zones: seq<Zone>, used: seq<bool>, j: nat, z1: Zone, mergedAny: bool, thresholdPct: real)
    requires |used| == |zones| && j < |zones|
    ensures AbsorbFrom(zones, used, j, z1, mergedAny, thresholdPct) ==
      if used[j] || !Mergeable(z1, zones[j], thresholdPct) then AbsorbFrom(zones, used, j + 1, z1, mergedAny, thresholdPct)
      else AbsorbFrom(zones, used[j := true], j + 1, MergeInto(z1, zones[j]), true, thresholdPct)
  {
  }

  /**
   * The inner loop of a pass: zone `i` absorbs, in index order, every later unused zone that
   * it can merge with, and marks it used.
   */
  method AbsorbFollowing(zones: seq<Zone>, used: seq<bool>, i: nat, thresholdPct: real)
    returns (z1: Zone, used': seq<bool>, mergedAny: bool)
    requires |used| == |zones| && i < |zones|
    ensures Absorbed(z1, used', mergedAny) == AbsorbFrom(zones, used, i + 1, zones[i], false, thresholdPct)
  {
    z1 := zones[i];
    used' := used;
    mergedAny := false;
    for j := i + 1 to |zones|
      invariant |used'| == |zones|
      invariant AbsorbFrom(zones, used', j, z1, mergedAny, thresholdPct) ==
                AbsorbFrom(zones, used, i + 1, zones[i], false, thresholdPct)
    {
      AbsorbFromStep(zones, used', j, z1, mergedAny, thresholdPct);
      if used'[j] {
        continue;
      }
      var z2 := zones[j];
      if z1.kind != z2.kind {
        continue;
      }
      var threshold := (z1.zoneHigh - z1.zoneLow + z2.zoneHigh - z2.zoneLow) / 2.0 * thresholdPct;
      var overlap := z1.zoneLow <= z2.zoneHigh && z2.zoneLow <= z1.zoneHigh;
      var gap := Max(z1.zoneLow, z2.zoneLow) - Min(z1.zoneHigh, z2.zoneHigh);
      var closeEnough := gap < threshold;
      MergeableTest(z1, z2, thresholdPct);
      if overlap || closeEnough {
        if z1.originTime <= z2.originTime {
          z1 := Absorb(z1, z2);
        }
        used' := used'[j := true];
        mergedAny := true;
      }
    }
  }

  /** One pass: each zone not yet absorbed absorbs the later zones it can merge with and is kept. */
  method MergePass(zones: seq<Zone>, thresholdPct: real) returns (result: seq<Zone>, merged: bool)
    ensures (result, merged) == Pass(zones, thresholdPct)
  {
    merged := false;
    result := [];
    var used := seq(|zones|, _ => false);
    for i := 0 to |zones|
      invariant |used| == |zones|
      invariant PassFrom(zones, used, i, result, merged, thresholdPct) == Pass(zones, thresholdPct)
    {
      if used[i] {
        continue;
      }
      var z1, used', mergedAny := AbsorbFollowing(zones, used, i, thresholdPct);
      if mergedAny {
        merged := true;
      }
      used := used';
      result := result + [z1];
    }
  }

  /** Merges zones pass after pass until a pass makes no merge. */
  method MergeZones(zones: seq<Zone>, thresholdPct: real := DefaultThresholdPct) returns (merged: seq<Zone>)
    ensures merged == MergeAll(zones, thresholdPct)
  {
    if zones == [] {
      return zones;
    }
    var current := zones;
    var changed := true;
    while changed
      invariant changed ==> MergeAll(current, thresholdPct) == MergeAll(zones, thresholdPct)
      invariant !changed ==> current == MergeAll(zones, thresholdPct)
      decreases |current| + (if changed then 1 else 0)
    {
      var next, passMerged := MergePass(current, thresholdPct);
      PassFacts(current, thresholdPct);
      current, changed := next, passMerged;
    }
    merged := current;
  }

  // ---------------------------------------------------------------------------------------
  // Counting helpers

  /** Number of indices from `from` on not yet marked used. */
  function UnusedCount(used: seq<bool>, from: nat): nat
    decreases |used| - from
  {
    if from >= |used| then 0 else (if used[from] then 0 else 1) + UnusedCount(used, from + 1)
  }

  /** Strength contributed by one zone to the total of one kind. */
  function StrengthOf(z: Zone, kind: ZoneType): int {
    if z.kind == kind then z.strength else 0
  }

  /** Total strength of the zones of one kind. */
  function KindStrength(zs: seq<Zone>, kind: ZoneType): int {
    if zs == [] then 0 else KindStrength(zs[..|zs| - 1], kind) + StrengthOf(zs[|zs| - 1], kind)
  }

  /** Total strength of the zones of one kind at indices `from` onwards not yet marked used. */
  function UnusedStrength(zones: seq<Zone>, used: seq<bool>, from: nat, kind: ZoneType): int
    requires |used| == |zones|
    decreases |zones| - from
  {
    if from >= |zones| then 0
    else (if used[from] then 0 else StrengthOf(zones[from], kind)) + UnusedStrength(zones, used, from + 1, kind)
  }

  lemma {:induction false} UnusedCountMark(used: seq<bool>, from: nat, j: nat)
    requires from <= j < |used| && !used[j]
    ensures UnusedCount(used[j := true], from) + 1 == UnusedCount(used, from)
    decreases |used| - from
  {
    if from < j {
      UnusedCountMark(used, from + 1, j);
    } else {
      UnusedCountAgree(used[j := true], used, from + 1);
    }
  }

  lemma {:induction false} UnusedCountAgree(u1: seq<bool>, u2: seq<bool>, from: nat)
    requires |u1| == |u2| && forall m :: from <= m < |u1| ==> u1[m] == u2[m]
    ensures UnusedCount(u1, from) == UnusedCount(u2, from)
    decreases |u1| - from
  {
    if from < |u1| {
      UnusedCountAgree(u1, u2, from + 1);
    }
  }

  lemma {:induction false} UnusedCountNoneUsed(used: seq<bool>, from: nat)
    requires from <= |used| && forall m :: from <= m < |used| ==> !used[m]
    ensures UnusedCount(used, from) == |used| - from
    decreases |used| - from
  {
    if from < |used| {
      UnusedCountNoneUsed(used, from + 1);
    }
  }

  lemma {:induction false} UnusedStrengthMark(zones: seq<Zone>, used: seq<bool>, from: nat, j: nat, kind: ZoneType)
    requires |used| == |zones| && from <= j < |zones| && !used[j]
    ensures UnusedStrength(zones, used[j := true], from, kind) + StrengthOf(zones[j], kind) ==
            UnusedStrength(zones, used, from, kind)
    decreases |zones| - from
  {
    if from < j {
      UnusedStrengthMark(zones, used, from + 1, j, kind);
    } else {
      UnusedStrengthAgree(zones, used[j := true], used, from + 1, kind);
    }
  }

  lemma {:induction false} UnusedStrengthAgree(zones: seq<Zone>, u1: seq<bool>, u2: seq<bool>, from: nat, kind: ZoneType)
    requires |u1| == |zones| && |u2| == |zones|
    requires forall m :: from <= m < |zones| ==> u1[m] == u2[m]
    ensures UnusedStrength(zones, u1, from, kind) == UnusedStrength(zones, u2, from, kind)
    decreases |zones| - from
  {
    if from < |zones| {
      UnusedStrengthAgree(zones, u1, u2, from + 1, kind);
    }
  }

  lemma {:induction false} UnusedStrengthNoneUsed(zones: seq<Zone>, used: seq<bool>, from: nat, kind: ZoneType)
    requires |used| == |zones| && from <= |zones|
    requires forall m :: from <= m < |used| ==> !used[m]
    ensures UnusedStrength(zones, used, from, kind) + KindStrength(zones[..from], kind) == KindStrength(zones, kind)
    decreases |zones| - from
  {
    if from < |zones| {
      UnusedStrengthNoneUsed(zones, used, from + 1, kind);
      assert zones[..from + 1][..from] == zones[..from];
    } else {
      assert zones[..from] == zones;
    }
  }

  lemma {:induction false} KindStrengthAppend(zs: seq<Zone>, z: Zone, kind: ZoneType)
    ensures KindStrength(zs + [z], kind) == KindStrength(zs, kind) + StrengthOf(z, kind)
  {
    assert (zs + [z])[..|zs|] == zs;
  }

  // ---------------------------------------------------------------------------------------
  // The inner loop

  /**
   * Frame and bookkeeping facts of the inner loop: marks below `j` are untouched and marks are
   * only ever set; each merge sets a new mark; the kept zone keeps its kind and origin time;
   * when nothing merges, nothing changes and `z1` can be merged with no later unused zone;
   * validity is kept.
   */
  lemma {:induction false} AbsorbFromFacts(zones: seq<Zone>, used: seq<bool>, j: nat, z1: Zone, mergedAny: bool, thresholdPct: real)
    requires |used| == |zones|
    decreases |zones| - j
    ensures var a := AbsorbFrom(zones, used, j, z1, mergedAny, thresholdPct);
      |a.used| == |zones| &&
      (forall k :: 0 <= k < |zones| && k < j ==> a.used[k] == used[k]) &&
      (forall k :: 0 <= k < |zones| && used[k] ==> a.used[k]) &&
      a.zone.kind == z1.kind && a.zone.originTime == z1.originTime && a.zone.status == z1.status &&
      (mergedAny ==> a.mergedAny) &&
      UnusedCount(a.used, j) + (if a.mergedAny && !mergedAny then 1 else 0) <= UnusedCount(used, j) &&
      (!a.mergedAny ==> (
        a.zone == z1 && a.used == used &&
        forall k :: j <= k < |zones| && !used[k] ==> !Mergeable(z1, zones[k], thresholdPct))) &&
      (z1.Valid() ==> a.zone.Valid())
  {
    if j < |zones| {
      if used[j] || !Mergeable(z1, zones[j], thresholdPct) {
        AbsorbFromFacts(zones, used, j + 1, z1, mergedAny, thresholdPct);
      } else {
        var used1 := used[j := true];
        AbsorbFromFacts(zones, used1, j + 1, MergeInto(z1, zones[j]), true, thresholdPct);
        var a := AbsorbFrom(zones, used1, j + 1, MergeInto(z1, zones[j]), true, thresholdPct);
        UnusedCountMark(used, j, j);
        UnusedCountAgree(used1, used, j + 1);
        assert UnusedCount(used1, j) == UnusedCount(used1, j + 1);
        UnusedCountAgree(a.used, a.used, j);
      }
    }
  }

  /** A kept zone that can be merged with no later zone absorbs nothing. */
  lemma {:induction false} AbsorbFromNothing(zones: seq<Zone>, used: seq<bool>, j: nat, z1: Zone, mergedAny: bool, thresholdPct: real)
    requires |used| == |zones|
    requires forall k :: j <= k < |zones| ==> !Mergeable(z1, zones[k], thresholdPct)
    decreases |zones| - j
    ensures AbsorbFrom(zones, used, j, z1, mergedAny, thresholdPct) == Absorbed(z1, used, mergedAny)
  {
    if j < |zones| {
      AbsorbFromNothing(zones, used, j + 1, z1, mergedAny, thresholdPct);
    }
  }

  /** A kept zone that dominates some zone still dominates some zone after absorbing. */
  lemma {:induction false} AbsorbFromDominates(zones: seq<Zone>, used: seq<bool>, j: nat, z1: Zone, mergedAny: bool, thresholdPct: real, k0: nat)
    requires |used| == |zones| && k0 < |zones| && Dominates(z1, zones[k0])
    decreases |zones| - j
    ensures exists k :: 0 <= k < |zones| && Dominates(AbsorbFrom(zones, used, j, z1, mergedAny, thresholdPct).zone, zones[k])
  {
    if j < |zones| {
      if used[j] || !Mergeable(z1, zones[j], thresholdPct) {
        AbsorbFromDominates(zones, used, j + 1, z1, mergedAny, thresholdPct, k0);
      } else {
        var z1' := MergeInto(z1, zones[j]);
        if z1.originTime <= zones[j].originTime && zones[j].pivotIdx < z1.pivotIdx {
          assert Dominates(z1', zones[j]);
          AbsorbFromDominates(zones, used[j := true], j + 1, z1', true, thresholdPct, j);
        } else {
          assert Dominates(z1', z1);
          DominatesTransitive(z1', z1, zones[k0]);
          AbsorbFromDominates(zones, used[j := true], j + 1, z1', true, thresholdPct, k0);
        }
      }
    }
  }

  /**
   * When `z1` is no younger than any later zone, it absorbs every zone it merges with, and the
   * strength of each kind moves from the absorbed zones into it.
   */
  lemma {:induction false} AbsorbFromStrength(zones: seq<Zone>, used: seq<bool>, j: nat, z1: Zone, mergedAny: bool, thresholdPct: real, kind: ZoneType)
    requires |used| == |zones|
    requires forall k :: j <= k < |zones| ==> z1.originTime <= zones[k].originTime
    decreases |zones| - j
    ensures var a := AbsorbFrom(zones, used, j, z1, mergedAny, thresholdPct);
      StrengthOf(a.zone, kind) + UnusedStrength(zones, a.used, j, kind) ==
      StrengthOf(z1, kind) + UnusedStrength(zones, used, j, kind)
  {
    if j < |zones| {
      if used[j] || !Mergeable(z1, zones[j], thresholdPct) {
        AbsorbFromStrength(zones, used, j + 1, z1, mergedAny, thresholdPct, kind);
        AbsorbFromFacts(zones, used, j + 1, z1, mergedAny, thresholdPct);
      } else {
        var used1 := used[j := true];
        AbsorbFromStrength(zones, used1, j + 1, Absorb(z1, zones[j]), true, thresholdPct, kind);
        AbsorbFromFacts(zones, used1, j + 1, Absorb(z1, zones[j]), true, thresholdPct);
        UnusedStrengthMark(zones, used, j, j, kind);
        UnusedStrengthAgree(zones, used1, used, j + 1, kind);
      }
    }
  }

  // ---------------------------------------------------------------------------------------
  // The outer loop of a pass

  /** Length bookkeeping of a pass: it keeps at most one zone per unused index, and one fewer if it merges. */
  lemma {:induction false} PassFromLength(zones: seq<Zone>, used: seq<bool>, i: nat, result: seq<Zone>, merged: bool, thresholdPct: real)
    requires |used| == |zones|
    decreases |zones| - i
    ensures var p := PassFrom(zones, used, i, result, merged, thresholdPct);
      (merged ==> p.1) &&
      |p.0| <= |result| + UnusedCount(used, i) &&
      (p.1 && !merged ==> |p.0| < |result| + UnusedCount(used, i))
  {
    if i < |zones| {
      if used[i] {
        PassFromLength(zones, used, i + 1, result, merged, thresholdPct);
      } else {
        var a := AbsorbFrom(zones, used, i + 1, zones[i], false, thresholdPct);
        AbsorbFromFacts(zones, used, i + 1, zones[i], false, thresholdPct);
        PassFromLength(zones, a.used, i + 1, result + [a.zone], merged || a.mergedAny, thresholdPct);
      }
    }
  }

  /** A pass over unused zones that merges nothing keeps them all unchanged, and no pair among them is mergeable. */
  lemma {:induction false} PassFromNoMerge(zones: seq<Zone>, used: seq<bool>, i: nat, result: seq<Zone>, thresholdPct: real)
    requires |used| == |zones| && i <= |zones|
    requires forall k :: i <= k < |zones| ==> !used[k]
    decreases |zones| - i
    ensures var p := PassFrom(zones, used, i, result, false, thresholdPct);
      !p.1 ==> p.0 == result + zones[i..] && NoMergeableFrom(zones, i, thresholdPct)
  {
    if i < |zones| {
      var a := AbsorbFrom(zones, used, i + 1, zones[i], false, thresholdPct);
      AbsorbFromFacts(zones, used, i + 1, zones[i], false, thresholdPct);
      PassFromLength(zones, a.used, i + 1, result + [a.zone], a.mergedAny, thresholdPct);
      if !a.mergedAny {
        PassFromNoMerge(zones, used, i + 1, result + [zones[i]], thresholdPct);
        assert result + [zones[i]] + zones[i + 1..] == result + zones[i..];
      }
    }
  }

  /** A pass over a list with no mergeable pair merges nothing. */
  lemma {:induction false} PassFromStable(zones: seq<Zone>, used: seq<bool>, i: nat, result: seq<Zone>, thresholdPct: real)
    requires |used| == |zones| && NoMergeablePair(zones, thresholdPct)
    decreases |zones| - i
    ensures !PassFrom(zones, used, i, result, false, thresholdPct).1
  {
    if i < |zones| {
      if used[i] {
        PassFromStable(zones, used, i + 1, result, thresholdPct);
      } else {
        AbsorbFromNothing(zones, used, i + 1, zones[i], false, thresholdPct);
        PassFromStable(zones, used, i + 1, result + [zones[i]], thresholdPct);
      }
    }
  }

  /** A pass keeps valid zones valid and active zones active. */
  lemma {:induction false} PassFromValid(zones: seq<Zone>, used: seq<bool>, i: nat, result: seq<Zone>, merged: bool, thresholdPct: real)
    requires |used| == |zones|
    decreases |zones| - i
    ensures AllValid(zones) && AllValid(result) ==> AllValid(PassFrom(zones, used, i, result, merged, thresholdPct).0)
    ensures AllActive(zones) && AllActive(result) ==> AllActive(PassFrom(zones, used, i, result, merged, thresholdPct).0)
  {
    if i < |zones| {
      if used[i] {
        PassFromValid(zones, used, i + 1, result, merged, thresholdPct);
      } else {
        var a := AbsorbFrom(zones, used, i + 1, zones[i], false, thresholdPct);
        AbsorbFromFacts(zones, used, i + 1, zones[i], false, thresholdPct);
        assert zones[i] in zones;
        PassFromValid(zones, a.used, i + 1, result + [a.zone], merged || a.mergedAny, thresholdPct);
      }
    }
  }

  /** Every zone a pass keeps dominates some zone it was given. */
  lemma {:induction false} PassFromDominates(zones: seq<Zone>, used: seq<bool>, i: nat, result: seq<Zone>, merged: bool, thresholdPct: real)
    requires |used| == |zones| && EachDominates(result, zones)
    decreases |zones| - i
    ensures EachDominates(PassFrom(zones, used, i, result, merged, thresholdPct).0, zones)
  {
    if i < |zones| {
      if used[i] {
        PassFromDominates(zones, used, i + 1, result, merged, thresholdPct);
      } else {
        var a := AbsorbFrom(zones, used, i + 1, zones[i], false, thresholdPct);
        AbsorbFromDominates(zones, used, i + 1, zones[i], false, thresholdPct, i);
        var k :| 0 <= k < |zones| && Dominates(a.zone, zones[k]);
        assert zones[k] in zones;
        PassFromDominates(zones, a.used, i + 1, result + [a.zone], merged || a.mergedAny, thresholdPct);
      }
    }
  }

  /** The kept zones are in origin order and no younger than the zones from `i` on. */
  predicate KeptInOrder(zones: seq<Zone>, result: seq<Zone>, i: nat) {
    SortedByOrigin(result) &&
    forall k, m :: 0 <= k < |result| && i <= m < |zones| ==> result[k].originTime <= zones[m].originTime
  }

  /** On input in origin order, a pass keeps that order and moves strength without losing any. */
  lemma {:induction false} PassFromSorted(zones: seq<Zone>, used: seq<bool>, i: nat, result: seq<Zone>, merged: bool, thresholdPct: real, kind: ZoneType)
    requires |used| == |zones| && SortedByOrigin(zones) && KeptInOrder(zones, result, i)
    decreases |zones| - i
    ensures var p := PassFrom(zones, used, i, result, merged, thresholdPct);
      SortedByOrigin(p.0) &&
      KindStrength(p.0, kind) == KindStrength(result, kind) + UnusedStrength(zones, used, i, kind)
  {
    if i < |zones| {
      if used[i] {
        PassFromSorted(zones, used, i + 1, result, merged, thresholdPct, kind);
      } else {
        var a := AbsorbFrom(zones, used, i + 1, zones[i], false, thresholdPct);
        AbsorbFromFacts(zones, used, i + 1, zones[i], false, thresholdPct);
        AbsorbFromStrength(zones, used, i + 1, zones[i], false, thresholdPct, kind);
        KindStrengthAppend(result, a.zone, kind);
        assert KeptInOrder(zones, result + [a.zone], i + 1);
        PassFromSorted(zones, a.used, i + 1, result + [a.zone], merged || a.mergedAny, thresholdPct, kind);
      }
    }
  }

  /**
   * What one pass does: it never lengthens the list and shortens it when it merges; when it
   * does not merge it returns the list unchanged, which happens exactly when no pair is
   * mergeable.
   */
  lemma PassFacts(zones: seq<Zone>, thresholdPct: real)
    ensures var p := Pass(zones, thresholdPct);
      |p.0| <= |zones| && (p.1 ==> |p.0| < |zones|) &&
      (!p.1 ==> p.0 == zones && NoMergeablePair(zones, thresholdPct)) &&
      (NoMergeablePair(zones, thresholdPct) ==> !p.1)
  {
    var used := seq(|zones|, _ => false);
    UnusedCountNoneUsed(used, 0);
    PassFromLength(zones, used, 0, [], false, thresholdPct);
    PassFromNoMerge(zones, used, 0, [], thresholdPct);
    assert zones[0..] == zones;
    if NoMergeablePair(zones, thresholdPct) {
      PassFromStable(zones, used, 0, [], thresholdPct);
    }
  }

  /** A pass keeps valid zones valid and active zones active. */
  lemma PassValid(zones: seq<Zone>, thresholdPct: real)
    ensures AllValid(zones) ==> AllValid(Pass(zones, thresholdPct).0)
    ensures AllActive(zones) ==> AllActive(Pass(zones, thresholdPct).0)
  {
    PassFromValid(zones, seq(|zones|, _ => false), 0, [], false, thresholdPct);
  }

  /** Every zone a pass keeps dominates some zone it was given. */
  lemma PassDominates(zones: seq<Zone>, thresholdPct: real)
    ensures EachDominates(Pass(zones, thresholdPct).0, zones)
  {
    PassFromDominates(zones, seq(|zones|, _ => false), 0, [], false, thresholdPct);
  }

  /** On input in origin order a pass keeps that order and the total strength of each kind. */
  lemma PassSorted(zones: seq<Zone>, thresholdPct: real, kind: ZoneType)
    requires SortedByOrigin(zones)
    ensures SortedByOrigin(Pass(zones, thresholdPct).0)
    ensures KindStrength(Pass(zones, thresholdPct).0, kind) == KindStrength(zones, kind)
  {
    var used := seq(|zones|, _ => false);
    PassFromSorted(zones, used, 0, [], false, thresholdPct, kind);
    UnusedStrengthNoneUsed(zones, used, 0, kind);
    assert zones[..0] == [];
  }

  // ---------------------------------------------------------------------------------------
  // Properties of the whole merge

  /** Merging ends at a fixed point: no two zones of the result would be merged. */
  lemma {:induction false} MergeAllFixedPoint(zones: seq<Zone>, thresholdPct: real)
    decreases |zones|
    ensures NoMergeablePair(MergeAll(zones, thresholdPct), thresholdPct)
  {
    PassFacts(zones, thresholdPct);
    var p := Pass(zones, thresholdPct);
    if p.1 {
      MergeAllFixedPoint(p.0, thresholdPct);
    }
  }

  /** A list with no mergeable pair is returned unchanged; in particular the empty list. */
  lemma MergeAllStable(zones: seq<Zone>, thresholdPct: real)
    requires NoMergeablePair(zones, thresholdPct)
    ensures MergeAll(zones, thresholdPct) == zones
  {
    PassFacts(zones, thresholdPct);
  }

  /** Merging twice is merging once. */
  lemma MergeAllIdempotent(zones: seq<Zone>, thresholdPct: real)
    ensures MergeAll(MergeAll(zones, thresholdPct), thresholdPct) == MergeAll(zones, thresholdPct)
  {
    MergeAllFixedPoint(zones, thresholdPct);
    MergeAllStable(MergeAll(zones, thresholdPct), thresholdPct);
  }

  /** Merging never lengthens the list, and the empty list stays empty. */
  lemma {:induction false} MergeAllShorter(zones: seq<Zone>, thresholdPct: real)
    decreases |zones|
    ensures |MergeAll(zones, thresholdPct)| <= |zones|
  {
    PassFacts(zones, thresholdPct);
    var p := Pass(zones, thresholdPct);
    if p.1 {
      MergeAllShorter(p.0, thresholdPct);
    }
  }

  /** Merging valid zones gives valid zones, and active zones active ones. */
  lemma {:induction false} MergeAllValid(zones: seq<Zone>, thresholdPct: real)
    decreases |zones|
    ensures AllValid(zones) ==> AllValid(MergeAll(zones, thresholdPct))
    ensures AllActive(zones) ==> AllActive(MergeAll(zones, thresholdPct))
  {
    PassFacts(zones, thresholdPct);
    PassValid(zones, thresholdPct);
    var p := Pass(zones, thresholdPct);
    if p.1 {
      MergeAllValid(p.0, thresholdPct);
    }
  }

  lemma EachDominatesTransitive(us: seq<Zone>, ws: seq<Zone>, zs: seq<Zone>)
    requires EachDominates(us, ws) && EachDominates(ws, zs)
    ensures EachDominates(us, zs)
  {
    forall u | u in us
      ensures exists z :: z in zs && Dominates(u, z)
    {
      var w :| w in ws && Dominates(u, w);
      var z :| z in zs && Dominates(w, z);
      DominatesTransitive(u, w, z);
    }
  }

  /**
   * Every merged zone dominates some zone it was built from: it has the same kind, reaches
   * at least as far outwards and starts no later. Zones of different kinds are never merged.
   */
  lemma {:induction false} MergeAllDominates(zones: seq<Zone>, thresholdPct: real)
    decreases |zones|
    ensures EachDominates(MergeAll(zones, thresholdPct), zones)
  {
    PassFacts(zones, thresholdPct);
    PassDominates(zones, thresholdPct);
    var p := Pass(zones, thresholdPct);
    if p.1 {
      MergeAllDominates(p.0, thresholdPct);
      EachDominatesTransitive(MergeAll(zones, thresholdPct), p.0, zones);
    } else {
      assert MergeAll(zones, thresholdPct) == p.0;
    }
  }

  /**
   * On zones in origin order the merge keeps that order and conserves the total strength of
   * each kind: no strength is lost to a dropped zone.
   */
  lemma {:induction false} MergeAllSorted(zones: seq<Zone>, thresholdPct: real, kind: ZoneType)
    requires SortedByOrigin(zones)
    decreases |zones|
    ensures SortedByOrigin(MergeAll(zones, thresholdPct))
    ensures KindStrength(MergeAll(zones, thresholdPct), kind) == KindStrength(zones, kind)
  {
    PassFacts(zones, thresholdPct);
    PassSorted(zones, thresholdPct, kind);
    var p := Pass(zones, thresholdPct);
    if p.1 {
      MergeAllSorted(p.0, thresholdPct, kind);
    }
  }

  /**
   * The absorbing zone covers both ranges exactly, keeps its kind, origin, status and touches,
   * adds the other's strength and takes the earlier pivot; it stays valid.
   */
  lemma AbsorbCovers(base: Zone, other: Zone)
    ensures var m := Absorb(base, other);
      m.zoneLow <= base.zoneLow && m.zoneLow <= other.zoneLow &&
      (m.zoneLow == base.zoneLow || m.zoneLow == other.zoneLow) &&
      m.zoneHigh >= base.zoneHigh && m.zoneHigh >= other.zoneHigh &&
      (m.zoneHigh == base.zoneHigh || m.zoneHigh == other.zoneHigh) &&
      m.strength == base.strength + other.strength &&
      m.kind == base.kind && m.originTime == base.originTime &&
      m.status == base.status && m.touches == base.touches &&
      m.pivotIdx <= base.pivotIdx && m.pivotIdx <= other.pivotIdx &&
      (base.Valid() ==> m.Valid())
  {
  }

  /**
   * Proximity: ranges 100-102 and 102.3-103 (gap 0.3, threshold 0.00675) stay apart, while
   * 100-102 and 102.005-102.5 (gap 0.005, threshold 0.0062375) merge into 100-102.5 with
   * strength 2.
   */
  lemma MergeSmallGapExample(a: Zone, b: Zone, c: Zone)
    requires a.kind == Support && b.kind == Support && c.kind == Support
    requires a.zoneLow == 100.0 && a.zoneHigh == 102.0 && a.strength == 1
    requires b.zoneLow == 102.3 && b.zoneHigh == 103.0
    requires c.zoneLow == 102.005 && c.zoneHigh == 102.5 && c.strength == 1
    requires a.originTime <= c.originTime
    ensures !Mergeable(a, b, DefaultThresholdPct)
    ensures Mergeable(a, c, DefaultThresholdPct)
    ensures MergeAll([a, c], DefaultThresholdPct) ==
            [a.(zoneHigh := 102.5, strength := 2, pivotIdx := MinNat(a.pivotIdx, c.pivotIdx))]
  {
    var m := Absorb(a, c);
    var zs := [a, c];
    var t := DefaultThresholdPct;
    assert seq(2, _ => false) == [false, false];
    assert [false, false][1 := true] == [false, true];
    assert AbsorbFrom(zs, [false, false], 1, a, false, t) == Absorbed(m, [false, true], true);
    assert PassFrom(zs, [false, true], 1, [m], true, t) == ([m], true);
    assert [] + [m] == [m];
    assert PassFrom(zs, [false, false], 0, [], false, t) == ([m], true);
    assert Pass(zs, t) == ([m], true);
    MergeAllStable([m], DefaultThresholdPct);
  }

  /**
   * When the kept zone is younger than the later zone it merges with, the later zone is the
   * one updated and then dropped: the result is the kept zone unchanged, so the later zone's
   * range and strength are lost. Origin-ordered input never takes this path.
   */
  lemma MergeYoungerFirst(a: Zone, b: Zone)
    requires Mergeable(a, b, DefaultThresholdPct) && a.originTime > b.originTime
    ensures MergeAll([a, b], DefaultThresholdPct) == [a]
  {
    var zs := [a, b];
    var t := DefaultThresholdPct;
    assert seq(2, _ => false) == [false, false];
    assert [false, false][1 := true] == [false, true];
    assert AbsorbFrom(zs, [false, false], 1, a, false, t) == Absorbed(a, [false, true], true);
    assert PassFrom(zs, [false, true], 1, [a], true, t) == ([a], true);
    assert [] + [a] == [a];
    assert PassFrom(zs, [false, false], 0, [], false, t) == ([a], true);
    assert Pass(zs, t) == ([a], true);
    MergeAllStable([a], DefaultThresholdPct);
  }
}
