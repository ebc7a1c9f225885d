/**
 * Pivot search: local extremes of a 5-candle fractal window (two candles on each side),
 * with strict comparisons.
 */
module Pivots {
  import opened Zones

  datatype PivotKind = High | Low

  /** A pivot found at index `idx`, with the candle found there. */
  datatype Pivot = Pivot(idx: nat, kind: PivotKind, candle: Candle)

  /** Index `i` has two candles on each side. */
  predicate InWindow(candles: seq<Candle>, i: int) {
    2 <= i && i + 2 < |candles|
  }

  /** The high at `i` is strictly above the highs of the two candles on each side. */
  predicate IsPivotHigh(candles: seq<Candle>, i: int)
    requires InWindow(candles, i)
  {
    var h := candles[i].high;
    h > candles[i - 1].high && h > candles[i - 2].high &&
    h > candles[i + 1].high && h > candles[i + 2].high
  }

  /** The low at `i` is strictly below the lows of the two candles on each side. */
  predicate IsPivotLow(candles: seq<Candle>, i: int)
    requires InWindow(candles, i)
  {
    var l := candles[i].low;
    l < candles[i - 1].low && l < candles[i - 2].low &&
    l < candles[i + 1].low && l < candles[i + 2].low
  }

  /** The pivots reported at one index: the high one first, then the low one. */
  function PivotsAt(candles: seq<Candle>, i: nat): seq<Pivot>
    requires InWindow(candles, i)
  {
    (if IsPivotHigh(candles, i) then [Pivot(i, High, candles[i])] else []) +
    (if IsPivotLow(candles, i) then [Pivot(i, Low, candles[i])] else [])
  }

  /** The pivots at the window indices below `k`, in scanning order. */
  function PivotsBelow(candles: seq<Candle>, k: nat): seq<Pivot>
    requires k <= |candles| - 2 || k <= 2
  {
    if k <= 2 then [] else PivotsBelow(candles, k - 1) + PivotsAt(candles, k - 1)
  }

  /** Every pivot of the whole sequence, in the order the scan reports them. */
  function AllPivots(candles: seq<Candle>): seq<Pivot> {
    PivotsBelow(candles, if |candles| < 4 then 2 else |candles| - 2)
  }

  /** Scanning key: index first, "high" before "low" at the same index. */
  function Rank(p: Pivot): int {
    2 * p.idx + (if p.kind == High then 0 else 1)
  }

  /** Scans indices 2 .. n-3 and appends each pivot it finds. */
  method FindPivots(candles: seq<Candle>) returns (pivots: seq<Pivot>)
    ensures pivots == AllPivots(candles)
  {
    pivots := [];
    var n := |candles|;
    if n < 4 {
      return;
    }
    for i := 2 to n - 2
      invariant pivots == PivotsBelow(candles, i)
    {
      var c := candles[i];
      var isHigh := c.high > candles[i - 1].high && c.high > candles[i - 2].high &&
                    c.high > candles[i + 1].high && c.high > candles[i + 2].high;
      var isLow := c.low < candles[i - 1].low && c.low < candles[i - 2].low &&
                   c.low < candles[i + 1].low && c.low < candles[i + 2].low;
      assert isHigh == IsPivotHigh(candles, i) && isLow == IsPivotLow(candles, i);
      if isHigh {
        pivots := pivots + [Pivot(i, High, c)];
      }
      if isLow {
        pivots := pivots + [Pivot(i, Low, c)];
      }
      assert pivots == PivotsBelow(candles, i) + PivotsAt(candles, i);
    }
  }

  /** Every reported pivot lies in the window, carries its own candle and passes its strict test. */
  lemma {:induction false} PivotsBelowSound(candles: seq<Candle>, k: nat)
    requires k <= |candles| - 2 || k <= 2
    ensures forall p :: p in PivotsBelow(candles, k) ==>
      InWindow(candles, p.idx) && p.idx < k && p.candle == candles[p.idx] &&
      (p.kind == High ==> IsPivotHigh(candles, p.idx)) &&
      (p.kind == Low ==> IsPivotLow(candles, p.idx))
  {
    if k > 2 {
      PivotsBelowSound(candles, k - 1);
    }
  }

  /** Every window index below `k` that passes a test is reported. */
  lemma {:induction false} PivotsBelowComplete(candles: seq<Candle>, k: nat)
    requires k <= |candles| - 2 || k <= 2
    ensures forall i :: 2 <= i < k && IsPivotHigh(candles, i) ==> Pivot(i, High, candles[i]) in PivotsBelow(candles, k)
    ensures forall i :: 2 <= i < k && IsPivotLow(candles, i) ==> Pivot(i, Low, candles[i]) in PivotsBelow(candles, k)
  {
    if k > 2 {
      PivotsBelowComplete(candles, k - 1);
    }
  }

  /** The report is strictly increasing in (index, high-before-low). */
  lemma {:induction false} PivotsBelowOrdered(candles: seq<Candle>, k: nat)
    requires k <= |candles| - 2 || k <= 2
    ensures forall a, b :: 0 <= a < b < |PivotsBelow(candles, k)| ==>
      Rank(PivotsBelow(candles, k)[a]) < Rank(PivotsBelow(candles, k)[b])
  {
    if k > 2 {
      PivotsBelowOrdered(candles, k - 1);
      PivotsBelowSound(candles, k - 1);
      var prefix, last := PivotsBelow(candles, k - 1), PivotsAt(candles, k - 1);
      forall a | 0 <= a < |prefix| ensures Rank(prefix[a]) < 2 * (k - 1) {
        assert prefix[a] in prefix;
      }
    }
  }

  /** Soundness: each pivot index lies in [2, n-3] and passes the strict 5-candle test for its kind. */
  lemma PivotsSound(candles: seq<Candle>)
    ensures forall p :: p in AllPivots(candles) ==>
      2 <= p.idx <= |candles| - 3 && p.candle == candles[p.idx] &&
      (p.kind == High ==> IsPivotHigh(candles, p.idx)) &&
      (p.kind == Low ==> IsPivotLow(candles, p.idx))
  {
    PivotsBelowSound(candles, if |candles| < 4 then 2 else |candles| - 2);
  }

  /** Completeness: every index in [2, n-3] that passes a test is reported with that kind. */
  lemma PivotsComplete(candles: seq<Candle>)
    ensures forall i :: InWindow(candles, i) && IsPivotHigh(candles, i) ==> Pivot(i, High, candles[i]) in AllPivots(candles)
    ensures forall i :: InWindow(candles, i) && IsPivotLow(candles, i) ==> Pivot(i, Low, candles[i]) in AllPivots(candles)
  {
    PivotsBelowComplete(candles, if |candles| < 4 then 2 else |candles| - 2);
  }

  /** Order: ascending by index, "high" before "low" at the same index, no duplicates. */
  lemma PivotsOrdered(candles: seq<Candle>)
    ensures forall a, b :: 0 <= a < b < |AllPivots(candles)| ==>
      Rank(AllPivots(candles)[a]) < Rank(AllPivots(candles)[b])
  {
    PivotsBelowOrdered(candles, if |candles| < 4 then 2 else |candles| - 2);
  }

  /** Fewer than five candles leave no window index, so no pivots. */
  lemma PivotsShortInput(candles: seq<Candle>)
    requires |candles| < 5
    ensures AllPivots(candles) == []
  {
  }

  /** Highs 100, 101, 105, 102, 99: exactly one pivot, a high at index 2. */
  lemma PivotsSingleHighExample(candles: seq<Candle>)
    requires |candles| == 5
    requires candles[0].high == 100.0 && candles[1].high == 101.0 && candles[2].high == 105.0
    requires candles[3].high == 102.0 && candles[4].high == 99.0
    requires !IsPivotLow(candles, 2)
    ensures AllPivots(candles) == [Pivot(2, High, candles[2])]
  {
    assert IsPivotHigh(candles, 2);
    assert PivotsAt(candles, 2) == [Pivot(2, High, candles[2])];
    assert AllPivots(candles) == PivotsBelow(candles, 2) + PivotsAt(candles, 2);
  }
}
