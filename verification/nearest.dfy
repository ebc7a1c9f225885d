/**
 * Selection of the zones nearest to a price: resistance zones above the price (or around it),
 * nearest first by lower bound; support zones below it (or around it), nearest first by upper
 * bound; each list cut to its cap.
 */
module Nearest {
  import opened Zones

  /** The result: the selected resistance and support zones. */
  datatype Selection = Selection(resistance: seq<Zone>, support: seq<Zone>)

  /** A resistance zone entirely above the price, or with the price strictly inside it. */
  predicate IsResistanceNear(z: Zone, price: real) {
    z.kind == Resistance && (z.zoneLow > price || z.zoneHigh > price > z.zoneLow)
  }

  /** A support zone entirely below the price, or with the price strictly inside it. */
  predicate IsSupportNear(z: Zone, price: real) {
    z.kind == Support && (z.zoneHigh < price || z.zoneLow < price < z.zoneHigh)
  }

  /** The zones that satisfy `IsResistanceNear`, in input order. */
  function ResistanceNear(zones: seq<Zone>, price: real): (r: seq<Zone>)
    ensures multiset(r) <= multiset(zones)
    ensures forall z :: z in r <==> z in zones && IsResistanceNear(z, price)
    ensures forall z :: multiset(r)[z] == if IsResistanceNear(z, price) then multiset(zones)[z] else 0
  {
    if zones == [] then []
    else
      var init := zones[..|zones| - 1];
      var last := zones[|zones| - 1];
      assert zones == init + [last];
      var rest := ResistanceNear(init, price);
      if IsResistanceNear(last, price) then rest + [last] else rest
  }

  /** The zones that satisfy `IsSupportNear`, in input order. */
  function SupportNear(zones: seq<Zone>, price: real): (r: seq<Zone>)
    ensures multiset(r) <= multiset(zones)
    ensures forall z :: z in r <==> z in zones && IsSupportNear(z, price)
    ensures forall z :: multiset(r)[z] == if IsSupportNear(z, price) then multiset(zones)[z] else 0
  {
    if zones == [] then []
    else
      var init := zones[..|zones| - 1];
      var last := zones[|zones| - 1];
      assert zones == init + [last];
      var rest := SupportNear(init, price);
      if IsSupportNear(last, price) then rest + [last] else rest
  }

  /** The two sort orders used: lower bound ascending, upper bound descending. */
  datatype Order = LowAscending | HighDescending

  /** `a` may come before `b`: its key is not after `b`'s. */
  predicate InOrder(a: Zone, b: Zone, ord: Order) {
    match ord
    case LowAscending => a.zoneLow <= b.zoneLow
    case HighDescending => a.zoneHigh >= b.zoneHigh
  }

  predicate SortedBy(zs: seq<Zone>, ord: Order) {
    forall a, b :: 0 <= a < b < |zs| ==> InOrder(zs[a], zs[b], ord)
  }

  /** Inserts `z` after every element whose key is not after its own, which keeps the sort stable. */
  function Insert(z: Zone, sorted: seq<Zone>, ord: Order): (r: seq<Zone>)
    ensures |r| == |sorted| + 1
  {
    if sorted == [] then [z]
    else if !InOrder(sorted[0], z, ord) then [z] + sorted
    else [sorted[0]] + Insert(z, sorted[1..], ord)
  }

  /** A stable sort by the key of `ord`, inserting the elements in input order; it keeps the length. */
  function SortBy(zs: seq<Zone>, ord: Order): (r: seq<Zone>)
    ensures |r| == |zs|
  {
    if zs == [] then [] else Insert(zs[|zs| - 1], SortBy(zs[..|zs| - 1], ord), ord)
  }

  /** The prefix `s[:cap]` of a slice with a possibly negative bound, as the language defines it. */
  function Take(s: seq<Zone>, cap: int): (r: seq<Zone>)
    ensures cap >= 0 ==> |r| == if cap <= |s| then cap else |s|
    ensures cap < 0 ==> |r| == if |s| + cap >= 0 then |s| + cap else 0
    ensures r == s[..|r|]
  {
    var n := if cap >= 0 then (if cap <= |s| then cap else |s|)
             else (if |s| + cap >= 0 then |s| + cap else 0);
    s[..n]
  }

  /** The selection the code computes. */
  function Nearest(zones: seq<Zone>, price: real, maxResistance: int, maxSupport: int): Selection {
    Selection(Take(SortBy(ResistanceNear(zones, price), LowAscending), maxResistance),
              Take(SortBy(SupportNear(zones, price), HighDescending), maxSupport))
  }

  /** Classifies the zones, sorts each list and cuts it to its cap. */
  method GetNearestZones(zones: seq<Zone>, price: real, maxResistance: int := 3, maxSupport: int := 4)
    returns (selection: Selection)
    ensures selection == Nearest(zones, price, maxResistance, maxSupport)
  {
    var resistance := [];
    var support := [];
    for k := 0 to |zones|
      invariant resistance == ResistanceNear(zones[..k], price)
      invariant support == SupportNear(zones[..k], price)
    {
      assert zones[..k + 1][..k] == zones[..k];
      var z := zones[k];
      if z.kind == Resistance && z.zoneLow > price {
        resistance := resistance + [z];
      } else if z.kind == Support && z.zoneHigh < price {
        support := support + [z];
      } else if z.kind == Resistance && z.zoneHigh > price > z.zoneLow {
        resistance := resistance + [z];
      } else if z.kind == Support && z.zoneLow < price < z.zoneHigh {
        support := support + [z];
      }
    }
    assert zones[..|zones|] == zones;
    var sortedResistance := SortBy(resistance, LowAscending);
    var sortedSupport := SortBy(support, HighDescending);
    selection := Selection(Take(sortedResistance, maxResistance), Take(sortedSupport, maxSupport));
  }

  // ---------------------------------------------------------------------------------------
  // The sort

  /** Insertion adds exactly one occurrence of `z`. */
  lemma {:induction false} InsertMultiset(z: Zone, sorted: seq<Zone>, ord: Order)
    ensures multiset(Insert(z, sorted, ord)) == multiset(sorted) + multiset{z}
  {
    if sorted != [] && InOrder(sorted[0], z, ord) {
      InsertMultiset(z, sorted[1..], ord);
      assert sorted == [sorted[0]] + sorted[1..];
    }
  }

  /** Insertion into a sorted list keeps it sorted. */
  lemma {:induction false} InsertSorted(z: Zone, sorted: seq<Zone>, ord: Order)
    requires SortedBy(sorted, ord)
    ensures SortedBy(Insert(z, sorted, ord), ord)
  {
    if sorted != [] && InOrder(sorted[0], z, ord) {
      InsertSorted(z, sorted[1..], ord);
      InsertMultiset(z, sorted[1..], ord);
      var tail := Insert(z, sorted[1..], ord);
      forall b | 0 <= b < |tail|
        ensures InOrder(sorted[0], tail[b], ord)
      {
        assert tail[b] in multiset(tail);
        if tail[b] != z {
          assert tail[b] in sorted[1..];
        }
      }
    }
  }

  /** The sort returns the same zones, ordered by the key. */
  lemma {:induction false} SortByFacts(zs: seq<Zone>, ord: Order)
    ensures SortedBy(SortBy(zs, ord), ord)
    ensures multiset(SortBy(zs, ord)) == multiset(zs)
  {
    if zs != [] {
      var init := zs[..|zs| - 1];
      SortByFacts(init, ord);
      InsertSorted(zs[|zs| - 1], SortBy(init, ord), ord);
      InsertMultiset(zs[|zs| - 1], SortBy(init, ord), ord);
      assert zs == init + [zs[|zs| - 1]];
    }
  }

  // ---------------------------------------------------------------------------------------
  // Properties of the selection

  /**
   * The caps: each list holds at most its cap (none for a cap of zero), exactly the cap when
   * enough zones qualify; a negative cap drops that many zones from the end.
   */
  lemma NearestCaps(zones: seq<Zone>, price: real, maxResistance: int, maxSupport: int)
    ensures var s := Nearest(zones, price, maxResistance, maxSupport);
      var nr := |ResistanceNear(zones, price)|;
      var ns := |SupportNear(zones, price)|;
      (maxResistance >= 0 ==> |s.resistance| == if maxResistance <= nr then maxResistance else nr) &&
      (maxSupport >= 0 ==> |s.support| == if maxSupport <= ns then maxSupport else ns) &&
      (maxResistance < 0 ==> |s.resistance| == if nr + maxResistance >= 0 then nr + maxResistance else 0) &&
      (maxSupport < 0 ==> |s.support| == if ns + maxSupport >= 0 then ns + maxSupport else 0)
  {
  }

  /** The resistance list ascends by lower bound and the support list descends by upper bound. */
  lemma NearestOrder(zones: seq<Zone>, price: real, maxResistance: int, maxSupport: int)
    ensures var s := Nearest(zones, price, maxResistance, maxSupport);
      (forall a, b :: 0 <= a < b < |s.resistance| ==> s.resistance[a].zoneLow <= s.resistance[b].zoneLow) &&
      (forall a, b :: 0 <= a < b < |s.support| ==> s.support[a].zoneHigh >= s.support[b].zoneHigh)
  {
    TakeSortedIsSorted(ResistanceNear(zones, price), LowAscending, maxResistance);
    TakeSortedIsSorted(SupportNear(zones, price), HighDescending, maxSupport);
  }

  /** Cutting a sorted list keeps it sorted. */
  lemma TakeSortedIsSorted(zs: seq<Zone>, ord: Order, cap: int)
    ensures SortedBy(Take(SortBy(zs, ord), cap), ord)
  {
    SortByFacts(zs, ord);
  }

  /**
   * Every selected resistance zone is a resistance zone of the input with its lower bound
   * strictly above the price or the price strictly inside it; support mirrors this. Each
   * list takes input zones at most as often as they occur.
   */
  lemma NearestClassification(zones: seq<Zone>, price: real, maxResistance: int, maxSupport: int)
    ensures var s := Nearest(zones, price, maxResistance, maxSupport);
      multiset(s.resistance) <= multiset(zones) && multiset(s.support) <= multiset(zones) &&
      (forall z :: z in s.resistance ==>
        z in zones && z.kind == Resistance && (z.zoneLow > price || z.zoneLow < price < z.zoneHigh)) &&
      (forall z :: z in s.support ==>
        z in zones && z.kind == Support && (z.zoneHigh < price || z.zoneLow < price < z.zoneHigh))
  {
    TakeSortedFrom(ResistanceNear(zones, price), LowAscending, maxResistance);
    TakeSortedFrom(SupportNear(zones, price), HighDescending, maxSupport);
  }

  /** Sorting and cutting a list keeps a sub-bag of it. */
  lemma TakeSortedFrom(zs: seq<Zone>, ord: Order, cap: int)
    ensures multiset(Take(SortBy(zs, ord), cap)) <= multiset(zs)
    ensures forall z :: z in Take(SortBy(zs, ord), cap) ==> z in zs
  {
    var sorted := SortBy(zs, ord);
    var t := Take(sorted, cap);
    SortByFacts(zs, ord);
    assert multiset(t) <= multiset(sorted) by {
      assert sorted == t + sorted[|t|..];
    }
    forall z | z in t
      ensures z in zs
    {
      assert z in multiset(t);
      assert z in multiset(zs);
    }
  }

  /**
   * At a positive price the order is the order of `distance_pct`: resistance distances
   * ascend and support distances descend, so each list starts with the nearest zone.
   */
  lemma NearestDistanceOrder(zones: seq<Zone>, price: real, maxResistance: int, maxSupport: int)
    requires price > 0.0
    ensures var s := Nearest(zones, price, maxResistance, maxSupport);
      (forall a, b :: 0 <= a < b < |s.resistance| ==>
        s.resistance[a].DistancePct(price).value <= s.resistance[b].DistancePct(price).value) &&
      (forall a, b :: 0 <= a < b < |s.support| ==>
        s.support[a].DistancePct(price).value >= s.support[b].DistancePct(price).value)
  {
    var s := Nearest(zones, price, maxResistance, maxSupport);
    NearestOrder(zones, price, maxResistance, maxSupport);
    NearestClassification(zones, price, maxResistance, maxSupport);
    forall a, b | 0 <= a < b < |s.resistance|
      ensures s.resistance[a].DistancePct(price).value <= s.resistance[b].DistancePct(price).value
    {
      assert s.resistance[a] in s.resistance && s.resistance[b] in s.resistance;
      DistancePctMonotone(s.resistance[a], s.resistance[b], price);
    }
    forall a, b | 0 <= a < b < |s.support|
      ensures s.support[a].DistancePct(price).value >= s.support[b].DistancePct(price).value
    {
      assert s.support[a] in s.support && s.support[b] in s.support;
      DistancePctMonotone(s.support[b], s.support[a], price);
    }
  }

  /** Every element of `kept` is in order with every element of `all` that `kept` leaves out. */
  predicate KeptFirst(kept: seq<Zone>, all: seq<Zone>, ord: Order) {
    forall x, y :: x in kept && y in multiset(all) - multiset(kept) ==> InOrder(x, y, ord)
  }

  /**
   * The selected resistance zones are the nearest ones: every qualifying zone left out has a
   * lower bound no lower than any selected one; support mirrors this with upper bounds.
   */
  lemma NearestAreClosest(zones: seq<Zone>, price: real, maxResistance: int, maxSupport: int)
    ensures KeptFirst(Nearest(zones, price, maxResistance, maxSupport).resistance, ResistanceNear(zones, price), LowAscending)
    ensures KeptFirst(Nearest(zones, price, maxResistance, maxSupport).support, SupportNear(zones, price), HighDescending)
  {
    TakeOfSortedIsClosest(ResistanceNear(zones, price), maxResistance, LowAscending);
    TakeOfSortedIsClosest(SupportNear(zones, price), maxSupport, HighDescending);
  }

  /** Cutting a sorted list keeps elements in order with each element it leaves out. */
  lemma TakeOfSortedIsClosest(zs: seq<Zone>, cap: int, ord: Order)
    ensures KeptFirst(Take(SortBy(zs, ord), cap), zs, ord)
  {
    var sorted := SortBy(zs, ord);
    var k := |Take(sorted, cap)|;
    SortByFacts(zs, ord);
    LeftOutIsInSuffix(sorted, k);
    forall x, y | x in sorted[..k] && y in sorted[k..]
      ensures InOrder(x, y, ord)
    {
      var a :| 0 <= a < k && sorted[a] == x;
      var b :| k <= b < |sorted| && sorted[b] == y;
    }
  }

  lemma LeftOutIsInSuffix(s: seq<Zone>, k: nat)
    requires k <= |s|
    ensures forall y :: y in multiset(s) - multiset(s[..k]) ==> y in s[k..]
  {
    assert s == s[..k] + s[k..];
    assert multiset(s) == multiset(s[..k]) + multiset(s[k..]);
  }

  /** Resistance zones with lower bounds 52, 55, 60 and 70 above a price of 50, capped at 3, give 52, 55, 60. */
  lemma NearestCapThreeExample(z52: Zone, z55: Zone, z60: Zone, z70: Zone)
    requires z52.kind == Resistance && z55.kind == Resistance && z60.kind == Resistance && z70.kind == Resistance
    requires z52.zoneLow == 52.0 && z55.zoneLow == 55.0 && z60.zoneLow == 60.0 && z70.zoneLow == 70.0
    ensures Nearest([z70, z55, z52, z60], 50.0, 3, 4).resistance == [z52, z55, z60]
  {
    CapThreeExampleClassify(z52, z55, z60, z70);
    CapThreeExampleSort(z52, z55, z60, z70);
    assert [z52, z55, z60, z70][..3] == [z52, z55, z60];
  }

  lemma CapThreeExampleClassify(z52: Zone, z55: Zone, z60: Zone, z70: Zone)
    requires z52.kind == Resistance && z55.kind == Resistance && z60.kind == Resistance && z70.kind == Resistance
    requires z52.zoneLow == 52.0 && z55.zoneLow == 55.0 && z60.zoneLow == 60.0 && z70.zoneLow == 70.0
    ensures ResistanceNear([z70, z55, z52, z60], 50.0) == [z70, z55, z52, z60]
  {
    ResistanceNearKeepsAll([z70, z55, z52, z60], 50.0);
  }

  /** When every zone qualifies as resistance near the price, the selection keeps the whole list. */
  lemma {:induction false} ResistanceNearKeepsAll(zones: seq<Zone>, price: real)
    requires forall z :: z in zones ==> IsResistanceNear(z, price)
    ensures ResistanceNear(zones, price) == zones
  {
    if zones != [] {
      var init := zones[..|zones| - 1];
      var last := zones[|zones| - 1];
      assert zones == init + [last];
      ResistanceNearKeepsAll(init, price);
      ResistanceNearKeepsLast(init, last, price);
    }
  }

  /** Appending a zone that qualifies appends it to the filtered list. */
  lemma ResistanceNearKeepsLast(init: seq<Zone>, last: Zone, price: real)
    requires IsResistanceNear(last, price)
    ensures ResistanceNear(init + [last], price) == ResistanceNear(init, price) + [last]
  {
    assert (init + [last])[..|init|] == init;
  }

  lemma CapThreeExampleSort(z52: Zone, z55: Zone, z60: Zone, z70: Zone)
    requires z52.zoneLow == 52.0 && z55.zoneLow == 55.0 && z60.zoneLow == 60.0 && z70.zoneLow == 70.0
    ensures SortBy([z70, z55, z52, z60], LowAscending) == [z52, z55, z60, z70]
  {
    var s1 := [z70];
    var s2 := [z70, z55];
    var s3 := [z70, z55, z52];
    var s4 := [z70, z55, z52, z60];
    assert s1[..0] == [] && s2[..1] == s1 && s3[..2] == s2 && s4[..3] == s3;
    assert SortBy(s1, LowAscending) == [z70];
    assert Insert(z55, [z70], LowAscending) == [z55, z70];
    assert SortBy(s2, LowAscending) == [z55, z70];
    assert Insert(z52, [z55, z70], LowAscending) == [z52, z55, z70];
    assert SortBy(s3, LowAscending) == [z52, z55, z70];
    assert [z52, z55, z70][1..] == [z55, z70] && [z55, z70][1..] == [z70];
    assert Insert(z60, [z70], LowAscending) == [z60, z70];
    assert Insert(z60, [z55, z70], LowAscending) == [z55, z60, z70];
    assert Insert(z60, [z52, z55, z70], LowAscending) == [z52, z55, z60, z70];
  }
}
