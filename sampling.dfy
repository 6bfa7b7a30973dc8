/**
 * Mute-length generation: pick one configured interval with probability
 * proportional to its weight, convert its two duration strings to minutes
 * and draw a whole number of minutes between them, inclusive.
 *
 * The two random draws are inputs. `ticket` stands for the integer part of
 * `random() * total` inside `random.choices` (an integer in `[0, total)`),
 * and `drawn` for the result of `random.randint(lower, upper)`.
 */
module Sampling {
  import opened Wrappers
  import opened Text
  import opened TimeDisplay

  /** The configured bounds of an interval, as duration strings such as "1m" and "5m". */
  datatype Bound = Bound(lower: string, upper: string)

  /** One configured interval: its bounds and its relative weight. */
  datatype Interval = Interval(bound: Bound, weight: int)

  /** Used by the local generator when no interval is configured. */
  const DefaultInterval := Interval(Bound("1m", "5m"), 100)

  /**
   * How a generator finds its interval list in the settings: absent, present
   * but set to null, or given.
   */
  datatype Setting = Absent | Null | Given(intervals: seq<Interval>)

  /** The Python exception each failure raises. */
  datatype SampleError =
    | NullIntervals     // TypeError: len(None) when the interval list reads as None
    | NoIntervals       // IndexError: random.choices on an empty population
    | NonPositiveTotal  // ValueError: the weights do not add up to more than zero
    | NoDigits          // ValueError: int("") on a bound without digits
    | UnknownUnit       // TypeError: randint given a bound whose suffix matched no unit
    | EmptyRange        // ValueError: randint with lower > upper

  // ---------------------------------------------------------------------
  // Weighted choice
  // ---------------------------------------------------------------------

  /** The bounds of the intervals, in order. */
  function Bounds(intervals: seq<Interval>): (r: seq<Bound>)
    ensures |r| == |intervals|
    ensures forall i :: 0 <= i < |intervals| ==> r[i] == intervals[i].bound
  {
    if intervals == [] then [] else [intervals[0].bound] + Bounds(intervals[1..])
  }

  /** The weights of the intervals, in the same order as their bounds. */
  function Weights(intervals: seq<Interval>): (r: seq<int>)
    ensures |r| == |intervals|
    ensures forall i :: 0 <= i < |intervals| ==> r[i] == intervals[i].weight
  {
    if intervals == [] then [] else [intervals[0].weight] + Weights(intervals[1..])
  }

  predicate NonNegative(ws: seq<int>) {
    forall i :: 0 <= i < |ws| ==> ws[i] >= 0
  }

  /** The sum of a list of weights; `Sum(ws[..j + 1])` is the j-th cumulative weight. */
  function Sum(ws: seq<int>): int {
    if ws == [] then 0 else Sum(ws[..|ws| - 1]) + ws[|ws| - 1]
  }

  lemma PrefixStep(ws: seq<int>, i: nat)
    requires i < |ws|
    ensures Sum(ws[..i + 1]) == Sum(ws[..i]) + ws[i]
  {
    assert ws[..i + 1][..i] == ws[..i];
  }

  /** With non-negative weights the cumulative weights never decrease. */
  lemma {:induction false} PrefixMonotone(ws: seq<int>, i: nat, j: nat)
    requires NonNegative(ws) && i <= j <= |ws|
    ensures Sum(ws[..i]) <= Sum(ws[..j])
    decreases j - i
  {
    if i < j {
      PrefixMonotone(ws, i, j - 1);
      PrefixStep(ws, j - 1);
    }
  }

  /** `list(accumulate(ws))`: the cumulative weights. */
  function Cumulative(ws: seq<int>): (r: seq<int>)
    ensures |r| == |ws|
    ensures forall i :: 0 <= i < |ws| ==> r[i] == Sum(ws[..i + 1])
  {
    if ws == [] then []
    else
      var n := |ws| - 1;
      var prefix := ws[..n];
      forall i | 0 <= i < n
        ensures Cumulative(prefix)[i] == Sum(ws[..i + 1])
      {
        assert prefix[..i + 1] == ws[..i + 1];
      }
      assert ws[..n + 1] == ws;
      Cumulative(prefix) + [Sum(ws)]
  }

  predicate Sorted(a: seq<int>) {
    forall i, j :: 0 <= i <= j < |a| ==> a[i] <= a[j]
  }

  /**
   * `bisect.bisect_right(a, x, lo, hi)`: halve `[lo, hi)`, moving `hi` down
   * to `mid` when `x < a[mid]` and `lo` up past `mid` otherwise. On any
   * list, sorted or not, it stops between an entry at most `x` and one above
   * it: the entry at the result exceeds `x` unless the result is `hi`, and
   * the entry before it does not unless the result is `lo`.
   */
  function BisectRight(a: seq<int>, x: int, lo: nat, hi: nat): (r: nat)
    requires lo <= hi <= |a|
    ensures lo <= r <= hi
    ensures r < hi ==> x < a[r]
    ensures lo < r ==> a[r - 1] <= x
    decreases hi - lo
  {
    if lo < hi then
      var mid := (lo + hi) / 2;
      if x < a[mid] then BisectRight(a, x, lo, mid) else BisectRight(a, x, mid + 1, hi)
    else lo
  }

  /**
   * On a sorted list the search returns the first position in `[lo, hi)`
   * whose entry exceeds `x`, or `hi` when there is none.
   */
  lemma {:induction false} BisectFinds(a: seq<int>, x: int, lo: nat, hi: nat)
    requires Sorted(a) && lo <= hi <= |a|
    ensures var r := BisectRight(a, x, lo, hi);
            (forall j :: lo <= j < r ==> a[j] <= x) && (r < hi ==> x < a[r])
    decreases hi - lo
  {
    if lo < hi {
      var mid := (lo + hi) / 2;
      if x < a[mid] {
        BisectFinds(a, x, lo, mid);
      } else {
        BisectFinds(a, x, mid + 1, hi);
      }
    }
  }

  /** With non-negative weights the cumulative weights are sorted. */
  lemma CumulativeSorted(ws: seq<int>)
    requires NonNegative(ws)
    ensures Sorted(Cumulative(ws))
  {
    var c := Cumulative(ws);
    forall i, j | 0 <= i <= j < |c|
      ensures c[i] <= c[j]
    {
      PrefixMonotone(ws, i + 1, j + 1);
    }
  }

  /**
   * The reference scan: the first index from `j` on whose cumulative weight
   * exceeds the ticket, or the last index.
   */
  function PickFrom(ws: seq<int>, ticket: int, j: nat): (k: nat)
    requires j < |ws|
    ensures j <= k < |ws|
    decreases |ws| - j
  {
    if j == |ws| - 1 || Sum(ws[..j + 1]) > ticket then j else PickFrom(ws, ticket, j + 1)
  }

  /**
   * The scan passes only cumulative weights at most the ticket, and stops
   * before the last index only at one that exceeds it.
   */
  lemma {:induction false} PickFromFirst(ws: seq<int>, ticket: int, j: nat)
    requires j < |ws|
    ensures var k := PickFrom(ws, ticket, j);
            var c := Cumulative(ws);
            (forall i :: j <= i < k ==> c[i] <= ticket) && (k < |ws| - 1 ==> ticket < c[k])
    decreases |ws| - j
  {
    if j < |ws| - 1 && Sum(ws[..j + 1]) <= ticket {
      PickFromFirst(ws, ticket, j + 1);
    }
  }

  /**
   * The index `random.choices` selects for a given ticket:
   * `bisect(cum_weights, ticket, 0, n - 1)`.
   */
  function Pick(ws: seq<int>, ticket: int): (k: nat)
    requires ws != []
    ensures k < |ws|
  {
    BisectRight(Cumulative(ws), ticket, 0, |ws| - 1)
  }

  /** With non-negative weights the binary search selects what the scan selects. */
  lemma PickIsScan(ws: seq<int>, ticket: int)
    requires NonNegative(ws) && ws != []
    ensures Pick(ws, ticket) == PickFrom(ws, ticket, 0)
  {
    var c := Cumulative(ws);
    CumulativeSorted(ws);
    BisectFinds(c, ticket, 0, |ws| - 1);
    PickFromFirst(ws, ticket, 0);
  }

  /**
   * With a negative weight the cumulative weights are not sorted and the
   * search can select another index than the scan: weights 5, -4, 2 have
   * cumulative weights 5, 1, 3, and ticket 1 selects the last interval,
   * although the first one's range `[0, 5)` holds it. With weights 1, -1, 1
   * the only ticket is 0, and it selects the last interval, so the first is
   * never chosen despite its positive weight.
   */
  lemma NegativeWeightSelects()
    ensures Pick([5, -4, 2], 1) == 2 && PickFrom([5, -4, 2], 1, 0) == 0
    ensures Sum([1, -1, 1]) == 1 && Pick([1, -1, 1], 0) == 2
  {
    var vs := [1, -1, 1];
    assert vs[..1] == [1] && vs[..2] == [1, -1] && vs[..3] == vs && [1][..0] == [] && [1, -1][..1] == [1];
    assert Cumulative(vs) == [1, 0, 1];
    var ws := [5, -4, 2];
    assert ws[..1] == [5] && ws[..2] == [5, -4] && ws[..3] == ws;
    assert [5][..0] == [] && [5, -4][..1] == [5] && ws[..2] == [5, -4];
    assert Cumulative(ws) == [5, 1, 3];
  }

  lemma {:induction false} PickFromLands(ws: seq<int>, ticket: int, j: nat)
    requires NonNegative(ws) && j < |ws|
    requires Sum(ws[..j]) <= ticket < Sum(ws)
    ensures var k := PickFrom(ws, ticket, j);
            Sum(ws[..k]) <= ticket < Sum(ws[..k + 1])
    decreases |ws| - j
  {
    if j == |ws| - 1 {
      assert ws[..j + 1] == ws;
    } else if Sum(ws[..j + 1]) <= ticket {
      PickFromLands(ws, ticket, j + 1);
    }
  }

  /** Two indices whose cumulative ranges both hold the ticket are the same index. */
  lemma RangesDisjoint(ws: seq<int>, ticket: int, k: nat, m: nat)
    requires NonNegative(ws) && k < |ws| && m < |ws|
    requires Sum(ws[..k]) <= ticket < Sum(ws[..k + 1])
    requires Sum(ws[..m]) <= ticket < Sum(ws[..m + 1])
    ensures k == m
  {
    if k < m {
      PrefixMonotone(ws, k + 1, m);
    } else if m < k {
      PrefixMonotone(ws, m + 1, k);
    }
  }

  /**
   * A ticket in `[0, total)` selects index `k` exactly when it falls in
   * `[Sum(ws[..k]), Sum(ws[..k + 1]))`: the tickets that select `k` are
   * `ws[k]` consecutive integers, so each interval is chosen with
   * probability weight / total, and one of weight 0 never.
   */
  lemma PickIff(ws: seq<int>, ticket: int, k: nat)
    requires NonNegative(ws) && k < |ws| && 0 <= ticket < Sum(ws)
    ensures Pick(ws, ticket) == k <==> Sum(ws[..k]) <= ticket < Sum(ws[..k + 1])
  {
    PickIsScan(ws, ticket);
    ScanIff(ws, ticket, k);
  }

  /** The reference scan selects `k` exactly for the tickets in `k`'s cumulative range. */
  lemma ScanIff(ws: seq<int>, ticket: int, k: nat)
    requires NonNegative(ws) && k < |ws| && 0 <= ticket < Sum(ws)
    ensures PickFrom(ws, ticket, 0) == k <==> Sum(ws[..k]) <= ticket < Sum(ws[..k + 1])
  {
    assert ws[..0] == [];
    PickFromLands(ws, ticket, 0);
    var p := PickFrom(ws, ticket, 0);
    if Sum(ws[..k]) <= ticket < Sum(ws[..k + 1]) {
      RangesDisjoint(ws, ticket, p, k);
    }
  }

  /**
   * The selected interval always has a positive weight, whatever the signs
   * of the others: the search stops where the cumulative weight rises past
   * the ticket.
   */
  lemma PickedWeightPositive(ws: seq<int>, ticket: int)
    requires ws != [] && 0 <= ticket < Sum(ws)
    ensures ws[Pick(ws, ticket)] > 0
  {
    var k := Pick(ws, ticket);
    PickBracket(ws, ticket);
    PrefixStep(ws, k);
    if k == 0 {
      assert ws[..0] == [];
    }
  }

  /** The running total through the selected interval exceeds the ticket, and the total before it does not. */
  lemma PickBracket(ws: seq<int>, ticket: int)
    requires ws != [] && ticket < Sum(ws)
    ensures ticket < Sum(ws[..Pick(ws, ticket) + 1])
    ensures Pick(ws, ticket) > 0 ==> Sum(ws[..Pick(ws, ticket)]) <= ticket
  {
    var c := Cumulative(ws);
    var n := |ws| - 1;
    var k := BisectRight(c, ticket, 0, n);
    assert c[k] == Sum(ws[..k + 1]);
    if k == n {
      assert ws[..n + 1] == ws;
    }
    if k > 0 {
      assert c[k - 1] == Sum(ws[..k]);
    }
  }

  /** Every interval of positive weight is selected by some ticket. */
  lemma EveryPositiveWeightReachable(ws: seq<int>, k: nat)
    requires NonNegative(ws) && k < |ws| && ws[k] > 0
    ensures 0 <= Sum(ws[..k]) < Sum(ws) && Pick(ws, Sum(ws[..k])) == k
  {
    PrefixMonotone(ws, 0, k);
    assert ws[..0] == [];
    PrefixStep(ws, k);
    PrefixMonotone(ws, k + 1, |ws|);
    assert ws[..|ws|] == ws;
    PickIff(ws, Sum(ws[..k]), k);
  }

  /** A ticket `random.choices` can produce for these weights. */
  predicate TicketFits(intervals: seq<Interval>, ticket: int) {
    0 <= ticket && (Sum(Weights(intervals)) > 0 ==> ticket < Sum(Weights(intervals)))
  }

  /** `random.choices(bounds, weights=weights, k=1)[0]`, with its two failures. */
  function Choose(intervals: seq<Interval>, ticket: int): (r: Result<Bound, SampleError>)
    ensures r == Err(NoIntervals) <==> intervals == []
    ensures r == Err(NonPositiveTotal) <==> intervals != [] && Sum(Weights(intervals)) <= 0
    ensures r.Ok? <==> intervals != [] && Sum(Weights(intervals)) > 0
    ensures r.Ok? ==> r.value in Bounds(intervals)
    ensures r.Ok? ==> r.value == intervals[Pick(Weights(intervals), ticket)].bound
  {
    if intervals == [] then Err(NoIntervals)
    else
      var weights := Weights(intervals);
      if Sum(weights) <= 0 then Err(NonPositiveTotal)
      else Ok(Bounds(intervals)[Pick(weights, ticket)])
  }

  // ---------------------------------------------------------------------
  // Drawing a length inside the chosen bounds
  // ---------------------------------------------------------------------

  /** A value `random.randint` can return for these bounds, whenever it returns at all. */
  predicate DrawFits(bound: Bound, drawn: int) {
    var lower := ParseInterval(bound.lower);
    var upper := ParseInterval(bound.upper);
    lower.Parsed? && upper.Parsed? && lower.minutes <= upper.minutes ==>
      lower.minutes <= drawn <= upper.minutes
  }

  /**
   * Convert the chosen bounds (lower first, so a lower bound without digits
   * fails before the upper one is read) and draw between them.
   */
  function Draw(bound: Bound, drawn: int): (r: Result<nat, SampleError>)
    requires DrawFits(bound, drawn)
    ensures r.Ok? <==> ParseInterval(bound.lower).Parsed? && ParseInterval(bound.upper).Parsed? &&
                       ParseInterval(bound.lower).minutes <= ParseInterval(bound.upper).minutes
    ensures r.Ok? ==> ParseInterval(bound.lower).minutes <= r.value <= ParseInterval(bound.upper).minutes
    ensures r == Err(NoDigits) <==>
              ParseInterval(bound.lower).NotANumber? || ParseInterval(bound.upper).NotANumber?
    ensures r == Err(UnknownUnit) <==>
              !ParseInterval(bound.lower).NotANumber? && !ParseInterval(bound.upper).NotANumber? &&
              (ParseInterval(bound.lower).Unmatched? || ParseInterval(bound.upper).Unmatched?)
    ensures r == Err(EmptyRange) <==>
              ParseInterval(bound.lower).Parsed? && ParseInterval(bound.upper).Parsed? &&
              ParseInterval(bound.lower).minutes > ParseInterval(bound.upper).minutes
  {
    var lower := ParseInterval(bound.lower);
    if lower.NotANumber? then Err(NoDigits)
    else
      var upper := ParseInterval(bound.upper);
      if upper.NotANumber? then Err(NoDigits)
      else if lower.Unmatched? || upper.Unmatched? then Err(UnknownUnit)
      else if lower.minutes > upper.minutes then Err(EmptyRange)
      else Ok(drawn)
  }

  /** The draw fits whichever interval the ticket selects. */
  predicate DrawFitsChoice(intervals: seq<Interval>, ticket: int, drawn: int) {
    var choice := Choose(intervals, ticket);
    choice.Ok? ==> DrawFits(choice.value, drawn)
  }

  /**
   * Choose an interval, then draw inside it. The choice's failures come
   * first; the settings' own failure is not one of its outcomes.
   */
  function Generate(intervals: seq<Interval>, ticket: int, drawn: int): (r: Result<nat, SampleError>)
    requires DrawFitsChoice(intervals, ticket, drawn)
    ensures r == Err(NoIntervals) <==> intervals == []
    ensures r == Err(NonPositiveTotal) <==> intervals != [] && Sum(Weights(intervals)) <= 0
    ensures r != Err(NullIntervals)
    ensures Choose(intervals, ticket).Ok? ==> r == Draw(Choose(intervals, ticket).value, drawn)
  {
    match Choose(intervals, ticket)
    case Err(e) => Err(e)
    case Ok(bound) => Draw(bound, drawn)
  }

  /**
   * A generated length lies within the converted bounds of the interval the
   * ticket selects, and that interval is a configured one of positive weight.
   */
  lemma GeneratedWithinChosen(intervals: seq<Interval>, ticket: int, drawn: int)
    requires TicketFits(intervals, ticket)
    requires DrawFitsChoice(intervals, ticket, drawn)
    requires Generate(intervals, ticket, drawn).Ok?
    ensures intervals != []
    ensures var k := Pick(Weights(intervals), ticket);
            var v := Generate(intervals, ticket, drawn).value;
            intervals[k].weight > 0 &&
            ParseInterval(intervals[k].bound.lower).Parsed? &&
            ParseInterval(intervals[k].bound.upper).Parsed? &&
            ParseInterval(intervals[k].bound.lower).minutes <= v <= ParseInterval(intervals[k].bound.upper).minutes
  {
    PickedWeightPositive(Weights(intervals), ticket);
  }

  // ---------------------------------------------------------------------
  // The two generators
  // ---------------------------------------------------------------------

  /**
   * The local generator's interval list. A missing `intervals` or `local`
   * entry, or an empty list, falls back on the default; a `local` entry set
   * to null reaches `len(None)` before the fallback is considered.
   */
  function LocalIntervals(configured: Setting): (r: Result<seq<Interval>, SampleError>)
    ensures r == Err(NullIntervals) <==> configured == Null
    ensures configured == Absent || configured == Given([]) ==> r == Ok([DefaultInterval])
    ensures configured.Given? && configured.intervals != [] ==> r == Ok(configured.intervals)
    ensures r.Ok? ==> r.value != []
  {
    match configured
    case Absent => Ok([DefaultInterval])
    case Null => Err(NullIntervals)
    case Given(intervals) => if intervals == [] then Ok([DefaultInterval]) else Ok(intervals)
  }

  /** The draw fits whichever interval the local generator can select. */
  predicate LocalDrawFits(configured: Setting, ticket: int, drawn: int) {
    LocalIntervals(configured).Ok? ==> DrawFitsChoice(LocalIntervals(configured).value, ticket, drawn)
  }

  /** `generate_mute_time` of the local generator. */
  function GenerateLocal(configured: Setting, ticket: int, drawn: int): (r: Result<nat, SampleError>)
    requires LocalDrawFits(configured, ticket, drawn)
    ensures r == Err(NullIntervals) <==> configured == Null
    ensures r != Err(NoIntervals)
    ensures LocalIntervals(configured).Ok? ==> r == Generate(LocalIntervals(configured).value, ticket, drawn)
  {
    match LocalIntervals(configured)
    case Err(e) => Err(e)
    case Ok(intervals) => Generate(intervals, ticket, drawn)
  }

  /**
   * With a configured list, a length from the local generator lies within
   * the parsed bounds of the interval the ticket selects from that list, and
   * that interval has positive weight.
   */
  lemma LocalWithinChosen(intervals: seq<Interval>, ticket: int, drawn: int)
    requires intervals != [] && TicketFits(intervals, ticket)
    requires LocalDrawFits(Given(intervals), ticket, drawn)
    requires GenerateLocal(Given(intervals), ticket, drawn).Ok?
    ensures var k := Pick(Weights(intervals), ticket);
            var v := GenerateLocal(Given(intervals), ticket, drawn).value;
            intervals[k].weight > 0 &&
            ParseInterval(intervals[k].bound.lower).Parsed? &&
            ParseInterval(intervals[k].bound.upper).Parsed? &&
            ParseInterval(intervals[k].bound.lower).minutes <= v <= ParseInterval(intervals[k].bound.upper).minutes
  {
    GeneratedWithinChosen(intervals, ticket, drawn);
  }

  /**
   * `generate_mute_time` of the older generator, which reads its list from
   * `intervals` and has no fallback.
   */
  function GenerateLegacy(configured: Setting, ticket: int, drawn: int): (r: Result<nat, SampleError>)
    requires configured.Given? ==> DrawFitsChoice(configured.intervals, ticket, drawn)
    ensures !configured.Given? <==> r == Err(NullIntervals)
    ensures configured == Given([]) <==> r == Err(NoIntervals)
    ensures configured.Given? && configured.intervals != [] ==> r == GenerateLocal(configured, ticket, drawn)
  {
    if configured.Given? then Generate(configured.intervals, ticket, drawn) else Err(NullIntervals)
  }

  lemma DefaultBounds()
    ensures ParseInterval("1m") == Parsed(1) && ParseInterval("5m") == Parsed(5)
  {
    ParseRendered(1, Minutes);
    ParseRendered(5, Minutes);
    assert NatToDecimal(1) == "1" && NatToDecimal(5) == "5";
    assert NatToDecimal(1) + [Minutes.Suffix()] == "1m";
    assert NatToDecimal(5) + [Minutes.Suffix()] == "5m";
  }

  /** Falling back on the default interval always yields between 1 and 5 minutes. */
  lemma FallbackWithinOneToFive(configured: Setting, ticket: int, drawn: int)
    requires configured == Absent || configured == Given([])
    requires TicketFits([DefaultInterval], ticket)
    requires LocalDrawFits(configured, ticket, drawn)
    ensures GenerateLocal(configured, ticket, drawn).Ok?
    ensures 1 <= GenerateLocal(configured, ticket, drawn).value <= 5
  {
    DefaultBounds();
    assert Weights([DefaultInterval]) == [100];
    assert Sum([100]) == 100 by { assert [100][..0] == []; }
    assert Bounds([DefaultInterval])[Pick([100], ticket)] == DefaultInterval.bound;
  }
}
