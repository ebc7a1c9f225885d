# Support and resistance zones — a Dafny model

This project models the zone detector of a support/resistance bot for perpetual futures,
together with the symbol normalisation of its exchange client. From a sequence of candles
(open time, open, high, low, close) the detector:

1. finds pivots: a candle whose high (low) is strictly above (below) the two candles on each side;
2. starts a zone at each pivot: the wick is the outer bound and the body edge the inner bound,
   and the inner bound moves onto any neighbouring body edge that lies strictly inside the zone;
3. drops zones that are broken: some candle from the pivot on closes beyond the outer bound;
4. refines the rest: walking forward from the pivot until a candle makes a new extreme or closes
   beyond the outer bound, the inner bound moves to the extreme close of the walk;
5. merges zones of the same kind that overlap or whose gap is below 0.5% of their average width,
   pass after pass until a pass merges nothing;
6. keeps the valid, active zones.

A selection step then picks, around a price, the nearest resistance zones (by lower bound) and
support zones (by upper bound), each list cut to a cap. Symbols are normalised by stripping
whitespace, upper-casing and appending `USDT` unless already present.

Modules, one per file: `Zones` (zones.dfy: candles, zones, distance, containment, age),
`Pivots` (pivots.dfy), `ZoneInit` (zone_init.dfy), `Breakout` (breakout.dfy),
`Refinement` (refine.dfy), `Merge` (merge.dfy), `Detect` (detect.dfy), `Nearest` (nearest.dfy),
`Symbols` (symbol.dfy) and `Wrappers` (wrappers.dfy, an `Option` type).

Each loop of the code is a method proved equal to a function that follows the same steps
(`FindPivots` and `AllPivots`, `InitZoneFromPivot` and `InitZone`, `CheckBroken` and `IsBroken`,
`RefineZone` and `Refine`, `AbsorbFollowing`/`MergePass`/`MergeZones` and
`AbsorbFrom`/`Pass`/`MergeAll`, `CollectCandidates` and `CandidatesOf`, `KeepValidActive` and
`ValidActive`, `DetectZones` and `Detect`, `GetNearestZones` and `Nearest`);
the properties are lemmas about those functions.

Where the documentation and the code differ, the model follows the code:

- the merge docstring says strength grows by one per merge; the code adds the absorbed zone's
  strength (zone_detector.py:284);
- resistance zones are selected when their lower bound is strictly above the price (or the price
  is strictly inside), so a zone whose lower bound equals the price is not selected
  (zone_detector.py:352-361).

## Model

| member | source | states |
|---|---|---|
| Zones.Zone.DistancePct | zone_detector.py:39-48 | Defined exactly when the price is non-zero (division by zero otherwise); the value times the price is 100 times the gap from the price to the inner bound (lower bound of a resistance, upper bound of a support); at a positive price it is positive exactly when that bound is above the price |
| Zones.DistancePctMonotone | zone_detector.py:39-48 | For two zones of one kind at a positive price, the distance order is the order of their inner bounds, in both directions |
| Zones.Zone.ContainsPrice | zone_detector.py:34-37 | For a valid zone and a non-negative threshold, a price is contained exactly when it is inside the zone or lies outside it by at most the threshold share of the width; every price within the bounds is contained |
| Zones.ContainsPriceMonotone | zone_detector.py:34-37 | On a valid zone, a price contained at one threshold is contained at every larger threshold |
| Zones.Zone.AgeDays | zone_detector.py:29-32 | The age in days times 86,400,000 is the time elapsed from the origin to the given clock reading, and it is non-negative when that reading is not before the origin |
| Zones.BodyHigh | zone_detector.py:85-86 | The top of the body is at least the open and the close and equals one of them |
| Zones.BodyLow | zone_detector.py:89-90 | The bottom of the body is at most the open and the close and equals one of them |
| Pivots.FindPivots | zone_detector.py:51-82 | The loop's output is the pivot list of the scan over indices 2 to n-3, high before low at each index |
| Pivots.PivotsSound | zone_detector.py:61-80 | Every reported pivot has its index in [2, n-3], carries the candle at that index, and passes the strict five-candle test for its kind |
| Pivots.PivotsComplete | zone_detector.py:61-80 | Every index in [2, n-3] that passes the high (low) test is reported as a high (low) pivot |
| Pivots.PivotsOrdered | zone_detector.py:61-80 | Pivots come in strictly increasing order of index, a high before a low at the same index, with no duplicates |
| Pivots.PivotsShortInput | zone_detector.py:60-61 | Fewer than five candles give no pivots |
| Pivots.PivotsSingleHighExample | zone_detector.py:64-78 | Highs 100, 101, 105, 102, 99 (and no low pivot at index 2) give exactly one pivot: a high at index 2 |
| ZoneInit.InitZoneFromPivot | zone_detector.py:93-167 | The method's result is the zone the neighbour-adjustment steps define |
| ZoneInit.InitZoneShape | zone_detector.py:111-167 | A zone is produced exactly when the pivot's body edge lies strictly inside its wick (the check after the neighbour loop never rejects); the zone is valid, active, of strength 1 with no touches, of the pivot's kind, and takes its origin time and index from the pivot |
| ZoneInit.InitZoneBounds | zone_detector.py:111-159 | A resistance keeps the wick high as upper bound and has its lower bound at or above the body top, equal to the body top or to an in-range neighbour's body top, with no in-range neighbour's body top strictly inside; support mirrors this |
| ZoneInit.RaisedLowSpec | zone_detector.py:121-130 | The neighbour loop never lowers the lower bound, keeps it below the wick, lands on the start value or a neighbour's body top, and leaves no examined body top strictly inside |
| ZoneInit.LoweredHighSpec | zone_detector.py:151-156 | The support neighbour loop never raises the upper bound, keeps it above the wick, lands on the start value or a neighbour's body bottom, and leaves no examined body bottom strictly inside |
| ZoneInit.InitZoneBodyTopExample | zone_detector.py:111-141 | A high pivot with open 103, close 101, high 107 and no neighbour body top inside gives the zone 103 to 107 |
| Breakout.IsBroken | zone_detector.py:224-236 | A zone is broken exactly when some candle at or after its pivot closes strictly beyond its outer bound (above the upper bound for resistance, below the lower bound for support) |
| Breakout.CheckBroken | zone_detector.py:224-236 | The scanning loop reports broken exactly when such a candle exists |
| Breakout.DominatesUnbroken | zone_detector.py:231-236 | A zone of the same kind whose scan starts no earlier and whose outer bound reaches at least as far out is unbroken whenever the other zone is |
| Refinement.RefineZone | zone_detector.py:170-221 | The method's result is the zone the forward walk defines |
| Refinement.RunEnd | zone_detector.py:189-196 | The walk stops at the first candle that makes a new extreme or closes beyond the outer bound, or at the end |
| Refinement.RunExtreme | zone_detector.py:188-197 | The running extreme is at least (at most) the start value and every close of the walk, and equals the start value or one of those closes |
| Refinement.RefineNarrows | zone_detector.py:199-221 | Only the inner bound can change and only inwards: the kind, origin, strength, touches, status, pivot and outer bound are kept, and a valid zone stays valid |
| Refinement.RefineFollowsCloses | zone_detector.py:184-221 | If a close of the walk reaches the outer bound the zone is unchanged; otherwise the new inner bound is beyond every close of the walk and is the old bound or one of those closes |
| Refinement.RefineKeepsBreakout | zone_detector.py:170-236 | Refinement neither breaks nor repairs a zone |
| Merge.AbsorbFollowing | zone_detector.py:257-288 | The inner loop's kept zone, used marks and merge flag are those the absorption steps define |
| Merge.MergePass | zone_detector.py:253-292 | The outer loop's kept list and merge flag are those of one pass |
| Merge.MergeZones | zone_detector.py:239-294 | The repeated passes return the fixed point `MergeAll` reaches |
| Merge.AbsorbFromFacts | zone_detector.py:257-288 | The inner loop only sets marks and never clears them, sets a new one per merge, keeps the zone's kind, origin and status, keeps validity, and when it merges nothing the zone and marks are unchanged and no later unused zone is mergeable with it |
| Merge.PassFacts | zone_detector.py:251-292 | A pass never lengthens the list and shortens it when it merges; a pass that merges nothing returns its input, which happens exactly when no pair is mergeable |
| Merge.Mergeable | zone_detector.py:266-277 | Only zones of one kind are mergeable, and zones of one kind whose ranges overlap always are |
| Merge.MergeableGap | zone_detector.py:271-277 | Two valid zones of one kind that do not overlap are mergeable exactly when the distance between them is below the threshold share of their average width |
| Merge.MergeableSymmetric | zone_detector.py:266-277 | Mergeability does not depend on which zone comes first |
| Merge.Absorb | zone_detector.py:282-286 | The absorbing zone's range covers both ranges, its strength is the sum of both, and it keeps its own kind and origin |
| Merge.MergeInto | zone_detector.py:277-286 | The kept zone keeps its kind, origin and status; when it is not younger it takes the union range, the summed strength and the smaller pivot; when it is younger the other zone is the one updated, and the kept zone is unchanged |
| Merge.MergeAllFixedPoint | zone_detector.py:251-294 | The merge terminates at a list in which no two zones are mergeable |
| Merge.MergeAllStable | zone_detector.py:248-294 | A list with no mergeable pair, in particular the empty list, is returned unchanged |
| Merge.MergeAllIdempotent | zone_detector.py:239-294 | Merging a merged list changes nothing |
| Merge.MergeAllShorter | zone_detector.py:251-294 | The merged list is no longer than the input |
| Merge.MergeAllValid | zone_detector.py:279-286 | Merging keeps every zone valid (lower bound below upper bound) and every zone active |
| Merge.MergeAllDominates | zone_detector.py:263-286 | Every merged zone dominates some input zone: it has that zone's kind, its outer bound reaches at least as far outwards, and its pivot index is no smaller, so its breakout scan starts no earlier |
| Merge.MergeAllSorted | zone_detector.py:278-290 | On input in origin order, the result stays in origin order and the total strength of each kind is conserved |
| Merge.AbsorbCovers | zone_detector.py:278-286 | The absorbing zone covers both ranges exactly, adds the other's strength, takes the earlier pivot and keeps its own kind, origin, status and touches |
| Merge.MergeSmallGapExample | zone_detector.py:268-286 | Support zones 100-102 and 102.3-103 stay apart; 100-102 and 102.005-102.5 merge into 100-102.5 with strength 2 |
| Merge.MergeYoungerFirst | zone_detector.py:278-290 | When the kept zone is younger than the later zone it merges with, the result is the kept zone alone: the later zone's range and strength are lost |
| Detect.DetectZones | zone_detector.py:297-334 | The pipeline's output is the detection the steps define: nothing for fewer than five candles, otherwise the valid active zones of the merged candidates |
| Detect.CollectCandidates | zone_detector.py:313-323 | The candidate loop builds exactly the candidates of the pivots, in pivot order |
| Detect.KeepValidActive | zone_detector.py:327-332 | The final loop keeps exactly the valid active zones, in order |
| Detect.DetectZonesMultiTf | zone_detector.py:375-387 | The result has the same timeframes as the input; a timeframe whose candles are missing (a failed fetch) gets no zones, and every other timeframe holds the detection of its candles |
| Detect.CandidatesOf | zone_detector.py:313-323 | Every candidate comes from a pivot whose zone initialised and was not broken, and every such pivot contributes its refined zone |
| Detect.ValidActive | zone_detector.py:328-332 | The final check keeps exactly the valid active zones, and keeps all of a list that is all valid and active |
| Detect.Candidate | zone_detector.py:314-323 | A pivot yields a candidate only when its zone initialises; the candidate is valid, active, of strength 1, and carries its pivot's index, time and kind |
| Detect.CandidateUnbroken | zone_detector.py:318-321 | A candidate is unbroken: the zone passed the breakout check and refinement keeps its outer bound |
| Detect.DetectShortInput | zone_detector.py:308-309 | Fewer than five candles give no zones |
| Detect.DetectFinalCheckKeepsAll | zone_detector.py:325-334 | The final validity check drops nothing: the result is exactly the merged candidates |
| Detect.DetectValidActive | zone_detector.py:328-334 | Every detected zone is valid and active |
| Detect.DetectUnbroken | zone_detector.py:313-334 | No detected zone is broken, even after merging widened it and moved its pivot |
| Detect.DetectNoMergeablePair | zone_detector.py:325-334 | No two detected zones are mergeable |
| Detect.DetectStrengthCountsCandidates | zone_detector.py:297-334 | On candles in time order the detected zones are in origin order and the strengths of each kind add up to the number of candidates of that kind |
| Nearest.GetNearestZones | zone_detector.py:337-372 | The method's selection is the classified, sorted and capped selection |
| Nearest.ResistanceNear | zone_detector.py:349-361 | The resistance list holds exactly the resistance zones strictly above the price or strictly around it, each exactly as often as in the input, and no other zone |
| Nearest.SupportNear | zone_detector.py:349-363 | The support list holds exactly the support zones strictly below the price or strictly around it, each exactly as often as in the input, and no other zone |
| Nearest.SortBy | zone_detector.py:365-367 | The sort keeps the number of zones |
| Nearest.SortByFacts | zone_detector.py:365-367 | Sorting returns a permutation of its input, ordered by the key |
| Nearest.Take | zone_detector.py:370-372 | A slice to a cap keeps a prefix of length min(cap, n), or n + cap clamped at 0 for a negative cap |
| Nearest.NearestCaps | zone_detector.py:370-372 | Each list holds its cap (or every qualifying zone if fewer qualify); a negative cap drops that many from the end |
| Nearest.NearestOrder | zone_detector.py:365-368 | Resistance ascends by lower bound and support descends by upper bound |
| Nearest.NearestClassification | zone_detector.py:349-363 | Every selected resistance zone is an input resistance zone with lower bound strictly above the price or the price strictly inside, support mirrored; each list takes zones no more often than they occur |
| Nearest.NearestAreClosest | zone_detector.py:365-372 | Every qualifying zone that is cut off is no nearer (by lower bound for resistance, upper bound for support) than any selected one |
| Nearest.NearestDistanceOrder | zone_detector.py:337-372 | At a positive price resistance distances ascend and support distances descend |
| Nearest.NearestCapThreeExample | zone_detector.py:349-372 | At price 50, resistance zones with lower bounds 70, 55, 52, 60 and cap 3 give the zones at 52, 55, 60 in that order |
| Symbols.StripLeft | binance_client.py:24 | Dropping leading whitespace never lengthens the string and leaves no whitespace at its start |
| Symbols.StripRight | binance_client.py:24 | Dropping trailing whitespace never lengthens the string and leaves no whitespace at its end |
| Symbols.Strip | binance_client.py:24 | Stripping never lengthens the string and leaves no whitespace at either end |
| Symbols.StripLeftSpec | binance_client.py:24 | Leading whitespace is removed: the result is a suffix after an all-whitespace prefix, starting with non-whitespace |
| Symbols.StripRightSpec | binance_client.py:24 | Trailing whitespace is removed: the result is a prefix before an all-whitespace suffix, ending with non-whitespace |
| Symbols.StripSpec | binance_client.py:24 | Stripping keeps the part between an all-whitespace prefix and suffix, with no whitespace at either end |
| Symbols.Upper | binance_client.py:24 | Upper-casing keeps the length |
| Symbols.UpperIdempotent | binance_client.py:24 | Upper-casing twice is upper-casing once |
| Symbols.UpperAppend | binance_client.py:24 | Upper-casing distributes over concatenation |
| Symbols.NormalizeSymbol | binance_client.py:20-27 | The normalised symbol starts with the stripped, upper-cased input, ends with USDT, and is at most four characters longer than that string |
| Symbols.NormalizeNoDoubleSuffix | binance_client.py:24-27 | A stripped, upper-cased symbol already ending with USDT is returned unchanged |
| Symbols.NormalizeAppendsSuffix | binance_client.py:24-27 | Otherwise the result is that string followed by USDT, four characters longer |
| Symbols.NormalizeExampleLower | binance_client.py:20-27 | "vet" gives "VETUSDT" |
| Symbols.NormalizeExamplePadded | binance_client.py:20-27 | " vet" followed by a line feed gives "VETUSDT" |
| Symbols.NormalizeExampleSuffixed | binance_client.py:20-27 | "VETUSDT" is kept |
| Symbols.NormalizedShape | binance_client.py:24-27 | A normalised symbol is non-empty, upper case, has no whitespace at either end and ends with USDT |
| Symbols.NormalizeIdempotent | binance_client.py:24-27 | Normalising a normalised symbol changes nothing |
| Symbols.StripUpper | binance_client.py:24 | Stripping and upper-casing commute |
| Symbols.StripPadded | binance_client.py:24 | Whitespace added around a string does not change its strip |
| Symbols.NormalizeCaseInsensitive | binance_client.py:24-27 | Symbols with the same upper case normalise to the same symbol |
| Symbols.NormalizeWhitespaceInsensitive | binance_client.py:24-27 | Whitespace around a symbol does not change its normalisation |

## Left out

- Prices, the 0.005 threshold and all arithmetic on them are exact reals; floating-point rounding is not modelled.
- Zones are values, not shared objects. The code updates zone objects in place; in the lists the detector builds each object occurs once, so returning updated values gives the same lists. Writes into the caller's objects, and the update of a zone that is merged into a younger kept zone and then dropped, are not visible in the model.
- `Zones.Zone.AgeDays`: the wall clock is a parameter, the time in milliseconds at which the age is read.
- `Zones.Zone.DistancePct`: a zero price, which raises a division error, gives `None`.
- `Merge.MergeAllSorted`: strength is conserved only for input in origin order; `Merge.MergeYoungerFirst` shows the loss otherwise. Candidates built from candles in time order are in origin order.
- `Nearest.SortByFacts`: the library sort is modelled by a stable insertion sort; that it keeps the input order of zones with equal keys is not proved.
- `Symbols.IsSpace` and `Symbols.UpperChar`: whitespace and upper case cover the ASCII range only; non-ASCII whitespace and case mappings (including ones that change the length) are not modelled.
- The candle dictionaries become a `Candle` record; missing keys and non-numeric values are not modelled.
- The `touches` field is never updated and `status` never becomes broken in the code; the model keeps both as plain fields.
- The HTTP calls of the exchange client (candles, all timeframes, current price, symbol validation), the chart rendering and the chat bot handlers are not part of this model.
