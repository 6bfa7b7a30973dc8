/**
 * Duration strings: parsing configuration strings such as "5m" or "2w" into
 * minutes, and rendering a number of minutes as text such as
 * "1 hour and 30 minutes" (intervals/time_display_converter.py, repeated
 * verbatim in the top-level intervals.py).
 */
module TimeDisplay {
  import opened Text
  import opened Wrappers

  const WeeksInMinutes: nat := 10080
  const DaysInMinutes: nat := 1440
  const HoursInMinutes: nat := 60
  const MinutesInMinutes: nat := 1

  /** The four units, largest first, as the conversion table lists them. */
  datatype Unit = Weeks | Days | Hours | Minutes {

    /** The unit's length in minutes. */
    function Size(): (r: nat)
      ensures r >= 1
    {
      match this
      case Weeks => WeeksInMinutes
      case Days => DaysInMinutes
      case Hours => HoursInMinutes
      case Minutes => MinutesInMinutes
    }

    /** The unit's name as the table spells it (plural). */
    function Plural(): string {
      match this
      case Weeks => "weeks"
      case Days => "days"
      case Hours => "hours"
      case Minutes => "minutes"
    }

    /** The unit's position in the table, 0 for weeks up to 3 for minutes. */
    function Rank(): (r: nat)
      ensures r < 4
    {
      match this
      case Weeks => 0
      case Days => 1
      case Hours => 2
      case Minutes => 3
    }

    /** The suffix letter that selects this unit in a duration string. */
    function Suffix(): char {
      match this
      case Weeks => 'w'
      case Days => 'd'
      case Hours => 'h'
      case Minutes => 'm'
    }
  }

  /** The conversion table, largest unit first. */
  const Units: seq<Unit> := [Weeks, Days, Hours, Minutes]

  /** The unit at table position `i` has rank `i`. */
  lemma RankAt(i: nat)
    requires i < |Units|
    ensures Units[i].Rank() == i
  {
  }

  lemma UnitsByRank(u: Unit)
    ensures Units[u.Rank()] == u
  {
  }

  // ---------------------------------------------------------------------
  // Parsing "<digits><unit>"
  // ---------------------------------------------------------------------

  /**
   * What `convert_interval_str_to_minutes` produces: a number of minutes,
   * Python's `None` when no suffix branch matches, or the `ValueError`
   * that `int("")` raises when the string holds no digit at all.
   */
  datatype ParseOutcome = Parsed(minutes: nat) | Unmatched | NotANumber

  /** The unit a final character selects, if any. */
  function UnitOfSuffix(c: char): (r: Option<Unit>)
    ensures r.Some? ==> r.value.Suffix() == c
    ensures forall u: Unit :: u.Suffix() == c ==> r == Some(u)
  {
    if c == 'm' then Some(Minutes)
    else if c == 'h' then Some(Hours)
    else if c == 'd' then Some(Days)
    else if c == 'w' then Some(Weeks)
    else None
  }

  predicate EndsWith(s: string, c: char) {
    |s| > 0 && s[|s| - 1] == c
  }

  /**
   * `convert_interval_str_to_minutes`: every decimal digit of the string,
   * read as one number, scaled by the unit the last character names.
   */
  function ParseInterval(s: string): (r: ParseOutcome)
    ensures r.NotANumber? <==> Digits(s) == []
    ensures r.Unmatched? <==> Digits(s) != [] && UnitOfSuffix(s[|s| - 1]).None?
    ensures r.Parsed? ==>
              r.minutes == DecimalValue(Digits(s)) * UnitOfSuffix(s[|s| - 1]).value.Size()
  {
    var digits := Digits(s);
    if digits == [] then NotANumber
    else
      var time := DecimalValue(digits);
      if EndsWith(s, 'm') then Parsed(time * MinutesInMinutes)
      else if EndsWith(s, 'h') then Parsed(time * HoursInMinutes)
      else if EndsWith(s, 'd') then Parsed(time * DaysInMinutes)
      else if EndsWith(s, 'w') then Parsed(time * WeeksInMinutes)
      else Unmatched
  }

  /** Writing `n` followed by a unit letter and parsing it back gives `n` units. */
  lemma ParseRendered(n: nat, u: Unit)
    ensures ParseInterval(NatToDecimal(n) + [u.Suffix()]) == Parsed(n * u.Size())
  {
    var s := NatToDecimal(n) + [u.Suffix()];
    DigitsOfDigits(NatToDecimal(n));
    assert s[..|s| - 1] == NatToDecimal(n);
    assert Digits(s) == NatToDecimal(n);
    DecimalRoundTrip(n);
  }

  /** A string whose last character is not m, h, d or w yields `None` or raises. */
  lemma ParseUnknownSuffix(s: string)
    requires |s| > 0 && s[|s| - 1] !in "mhdw"
    ensures ParseInterval(s) == (if Digits(s) == [] then NotANumber else Unmatched)
  {
    var c := s[|s| - 1];
    assert c != 'm' && c != 'h' && c != 'd' && c != 'w' by {
      assert "mhdw"[0] == 'm' && "mhdw"[1] == 'h' && "mhdw"[2] == 'd' && "mhdw"[3] == 'w';
    }
  }

  /** Non-digits anywhere are dropped: "1h30m" reads as 130 minutes. */
  lemma ParseDropsNonDigits()
    ensures ParseInterval("1h30m") == Parsed(130)
  {
    DigitsOfMixed();
    DecimalOf130();
  }

  lemma DigitsOfMixed()
    ensures Digits("1h30m") == "130"
  {
    assert "1h30m" == "1" + "h" + "3" + "0" + "m";
    DigitsAppend("1", "h");
    DigitsAppend("1h", "3");
    DigitsAppend("1h3", "0");
    DigitsAppend("1h30", "m");
  }

  lemma DecimalOf130()
    ensures DecimalValue("130") == 130
  {
    assert "130"[..2] == "13" && "13"[..1] == "1" && "1"[..0] == "";
  }

  // ---------------------------------------------------------------------
  // The greedy decomposition
  // ---------------------------------------------------------------------

  /** One rendered component: `value` of `unit`. */
  datatype Part = Part(value: nat, unit: Unit)

  /** The minutes a list of parts stands for. */
  function Total(ps: seq<Part>): nat {
    if ps == [] then 0 else ps[0].value * ps[0].unit.Size() + Total(ps[1..])
  }

  /** The total of a list is its head part's minutes plus the total of the rest. */
  lemma TotalCons(p: Part, tail: seq<Part>)
    ensures Total([p] + tail) == p.value * p.unit.Size() + Total(tail)
  {
    assert ([p] + tail)[1..] == tail;
  }

  /** Taking the whole copies of a unit out of `remaining` leaves less than one unit. */
  lemma WholeCopies(remaining: nat, u: Unit)
    ensures (remaining / u.Size()) * u.Size() <= remaining
    ensures remaining - (remaining / u.Size()) * u.Size() < u.Size()
  {
    match u
    case Weeks =>
    case Days =>
    case Hours =>
    case Minutes =>
  }

  /** Taking the whole copies of a unit out leaves the remainder. */
  lemma Leftover(remaining: nat, u: Unit)
    ensures remaining % u.Size() == remaining - (remaining / u.Size()) * u.Size()
  {
    match u
    case Weeks =>
    case Days =>
    case Hours =>
    case Minutes =>
  }

  /** Conversely, `value` copies of a unit plus less than one more divide back into `value`. */
  lemma CopiesDivideBack(value: nat, u: Unit, rest: nat)
    requires rest < u.Size()
    ensures (value * u.Size() + rest) / u.Size() == value
  {
    match u
    case Weeks =>
    case Days =>
    case Hours =>
    case Minutes =>
  }

  /**
   * The parts the loop emits from table position `i` on, starting from
   * `remaining` minutes: each unit takes as many whole copies as fit, and a
   * unit that takes none is skipped.
   */
  function GreedyFrom(remaining: nat, i: nat): (r: seq<Part>)
    ensures i <= |Units| ==> |r| <= |Units| - i
    decreases |Units| - i
  {
    if i >= |Units| then []
    else
      var count := Units[i].Size();
      var value := remaining / count;
      WholeCopies(remaining, Units[i]);
      if value != 0 then [Part(value, Units[i])] + GreedyFrom(remaining - value * count, i + 1)
      else GreedyFrom(remaining, i + 1)
  }

  function Greedy(minutes: nat): (r: seq<Part>)
    ensures |r| <= |Units|
    ensures minutes > 0 ==> r != []
  {
    GreedyFromTotal(minutes, 0);
    GreedyFrom(minutes, 0)
  }

  /** One step of the greedy walk, at table position `i`. */
  lemma GreedyStep(remaining: nat, i: nat)
    requires i < |Units|
    ensures var value := remaining / Units[i].Size();
            value * Units[i].Size() <= remaining &&
            GreedyFrom(remaining, i) ==
              if value != 0 then [Part(value, Units[i])] + GreedyFrom(remaining - value * Units[i].Size(), i + 1)
              else GreedyFrom(remaining, i + 1)
  {
    WholeCopies(remaining, Units[i]);
  }

  /** No part is zero and every unit below weeks stays under one of the next unit up. */
  predicate InRange(p: Part) {
    p.value > 0 &&
    match p.unit
    case Weeks => true
    case Days => p.value < 7
    case Hours => p.value < 24
    case Minutes => p.value < 60
  }

  /**
   * The canonical form of a duration: in-range parts whose units strictly
   * descend weeks, days, hours, minutes.
   */
  predicate Canonical(ps: seq<Part>) {
    (forall k :: 0 <= k < |ps| ==> InRange(ps[k])) &&
    (forall j, k :: 0 <= j < k < |ps| ==> ps[j].unit.Rank() < ps[k].unit.Rank())
  }

  /** Every part's unit sits at table position `i` or later. */
  predicate RanksFrom(ps: seq<Part>, i: nat) {
    forall k :: 0 <= k < |ps| ==> ps[k].unit.Rank() >= i
  }

  /** Dropping the head of a canonical list leaves a canonical list of strictly smaller units. */
  lemma CanonicalTail(ps: seq<Part>)
    requires Canonical(ps) && ps != []
    ensures Canonical(ps[1..]) && RanksFrom(ps[1..], ps[0].unit.Rank() + 1)
    ensures InRange(ps[0])
  {
    var rest := ps[1..];
    forall j, l | 0 <= j < l < |rest| ensures rest[j].unit.Rank() < rest[l].unit.Rank() {
      assert rest[j] == ps[j + 1] && rest[l] == ps[l + 1];
    }
    forall l | 0 <= l < |rest| ensures rest[l].unit.Rank() >= ps[0].unit.Rank() + 1 {
      assert rest[l] == ps[l + 1];
    }
  }

  /** Prefixing a part to a canonical list of strictly smaller units keeps it canonical. */
  lemma CanonicalCons(p: Part, tail: seq<Part>)
    requires InRange(p) && Canonical(tail) && RanksFrom(tail, p.unit.Rank() + 1)
    ensures Canonical([p] + tail) && ([p] + tail)[1..] == tail
    ensures RanksFrom([p] + tail, p.unit.Rank())
  {
    var ps := [p] + tail;
    forall j, k | 0 <= j < k < |ps| ensures ps[j].unit.Rank() < ps[k].unit.Rank() {
      assert ps[k] == tail[k - 1];
      if j > 0 {
        assert ps[j] == tail[j - 1];
      }
    }
  }

  /** No unit sits past the end of the table. */
  lemma NothingFromFour(ps: seq<Part>)
    requires RanksFrom(ps, |Units|)
    ensures ps == []
  {
    assert |ps| > 0 ==> ps[0].unit.Rank() >= 4;
  }

  /** Under the next unit up, the whole copies of a unit are in range. */
  lemma TakenInRange(remaining: nat, i: nat)
    requires i < |Units| && (i == 0 || remaining < Units[i - 1].Size())
    requires remaining / Units[i].Size() != 0
    ensures InRange(Part(remaining / Units[i].Size(), Units[i]))
  {
    if i > 0 {
      assert remaining < Units[i - 1].Size();
    }
  }

  /** A unit that fits at least once emits its whole copies, and the remainder goes on to the next unit. */
  lemma GreedyTakes(remaining: nat, i: nat, value: nat, rest: nat)
    requires i < |Units| && value == remaining / Units[i].Size() && value != 0
    requires rest == remaining % Units[i].Size()
    ensures rest < Units[i].Size() && remaining == value * Units[i].Size() + rest
    ensures GreedyFrom(remaining, i) == [Part(value, Units[i])] + GreedyFrom(rest, i + 1)
  {
    GreedyStep(remaining, i);
    WholeCopies(remaining, Units[i]);
    Leftover(remaining, Units[i]);
  }

  /** A unit that does not fit emits nothing. */
  lemma GreedySkips(remaining: nat, i: nat)
    requires i < |Units| && remaining / Units[i].Size() == 0
    ensures remaining < Units[i].Size()
    ensures GreedyFrom(remaining, i) == GreedyFrom(remaining, i + 1)
  {
    GreedyStep(remaining, i);
    WholeCopies(remaining, Units[i]);
  }

  /** The parts emitted from position `i` on add back up to what remained, and exist when something remained. */
  lemma {:induction false} GreedyFromTotal(remaining: nat, i: nat)
    requires i <= |Units|
    requires i == 0 || remaining < Units[i - 1].Size()
    ensures Total(GreedyFrom(remaining, i)) == remaining
    ensures remaining > 0 ==> GreedyFrom(remaining, i) != []
    decreases |Units| - i
  {
    if i < |Units| {
      var value, rest := remaining / Units[i].Size(), remaining % Units[i].Size();
      if value != 0 {
        GreedyTakes(remaining, i, value, rest);
        GreedyFromTotal(rest, i + 1);
        TotalCons(Part(value, Units[i]), GreedyFrom(rest, i + 1));
      } else {
        GreedySkips(remaining, i);
        GreedyFromTotal(remaining, i + 1);
      }
    }
  }

  /** The parts emitted from position `i` on are canonical and use only units from `i` on. */
  lemma {:induction false} GreedyFromCanonical(remaining: nat, i: nat)
    requires i <= |Units|
    requires i == 0 || remaining < Units[i - 1].Size()
    ensures Canonical(GreedyFrom(remaining, i))
    ensures RanksFrom(GreedyFrom(remaining, i), i)
    decreases |Units| - i
  {
    if i < |Units| {
      var value, rest := remaining / Units[i].Size(), remaining % Units[i].Size();
      if value != 0 {
        GreedyTakes(remaining, i, value, rest);
        GreedyFromCanonical(rest, i + 1);
        TakenInRange(remaining, i);
        RankAt(i);
        CanonicalCons(Part(value, Units[i]), GreedyFrom(rest, i + 1));
      } else {
        GreedySkips(remaining, i);
        GreedyFromCanonical(remaining, i + 1);
      }
    }
  }

  /**
   * The emitted parts add back up to the input, are canonical (no zero
   * unit, days < 7, hours < 24, minutes < 60, largest unit first), and are
   * never empty for a positive input.
   */
  lemma GreedyDecomposes(minutes: nat)
    ensures Total(Greedy(minutes)) == minutes
    ensures Canonical(Greedy(minutes))
    ensures minutes > 0 <==> Greedy(minutes) != []
  {
    GreedyFromTotal(minutes, 0);
    GreedyFromCanonical(minutes, 0);
  }

  /** A part in range is worth less than one of the next unit up. */
  lemma InRangeBelowNext(p: Part)
    requires InRange(p) && p.unit.Rank() >= 1
    ensures p.value * p.unit.Size() + p.unit.Size() <= Units[p.unit.Rank() - 1].Size()
  {
  }

  /** A canonical list whose units start at position `i` is worth less than one unit above `i`. */
  lemma {:induction false} CanonicalBelow(ps: seq<Part>, i: nat)
    requires 1 <= i <= |Units|
    requires Canonical(ps) && RanksFrom(ps, i)
    ensures Total(ps) < Units[i - 1].Size()
  {
    if ps != [] {
      var p := ps[0];
      var k := p.unit.Rank();
      CanonicalTail(ps);
      UnitsByRank(p.unit);
      if k + 1 < |Units| {
        CanonicalBelow(ps[1..], k + 1);
      } else {
        NothingFromFour(ps[1..]);
      }
      InRangeBelowNext(p);
    }
  }

  /** A unit that does not fit is skipped. */
  lemma SkipStep(remaining: nat, i: nat)
    requires i < |Units| && remaining < Units[i].Size()
    ensures GreedyFrom(remaining, i) == GreedyFrom(remaining, i + 1)
  {
    CopiesDivideBack(0, Units[i], remaining);
    GreedyStep(remaining, i);
  }

  /** A unit that fits `value` times, with less than one unit left over, emits `value`. */
  lemma TakeStep(value: nat, rest: nat, i: nat)
    requires i < |Units| && value > 0 && rest < Units[i].Size()
    ensures GreedyFrom(value * Units[i].Size() + rest, i) ==
            [Part(value, Units[i])] + GreedyFrom(rest, i + 1)
  {
    CopiesDivideBack(value, Units[i], rest);
    GreedyStep(value * Units[i].Size() + rest, i);
  }

  /** A canonical list headed by the unit at position `i`, once its tail is known greedy, is greedy. */
  lemma UniqueTake(ps: seq<Part>, i: nat)
    requires i < |Units| && ps != [] && ps[0].unit.Rank() == i && ps[0].value > 0
    requires Total(ps[1..]) < Units[i].Size()
    requires ps[1..] == GreedyFrom(Total(ps[1..]), i + 1)
    ensures ps == GreedyFrom(Total(ps), i)
  {
    var head, tail := ps[0], ps[1..];
    UnitsByRank(head.unit);
    HeadTotal(ps, Units[i]);
    TakeStepAt(Total(ps), head.value, Total(tail), i);
    assert ps == [Part(head.value, Units[i])] + tail;
  }

  /** The total of a list headed by unit `u` is its head's copies of `u` plus the rest. */
  lemma HeadTotal(ps: seq<Part>, u: Unit)
    requires ps != [] && ps[0].unit == u
    ensures Total(ps) == ps[0].value * u.Size() + Total(ps[1..])
  {
  }

  /** TakeStep, for a total already known to split as `value` copies of unit `i` plus `rest`. */
  lemma TakeStepAt(total: nat, value: nat, rest: nat, i: nat)
    requires i < |Units| && value > 0 && rest < Units[i].Size()
    requires total == value * Units[i].Size() + rest
    ensures GreedyFrom(total, i) == [Part(value, Units[i])] + GreedyFrom(rest, i + 1)
  {
    TakeStep(value, rest, i);
  }

  /** A canonical list whose units all lie past position `i` stays under one unit at `i`. */
  lemma UniqueSkip(ps: seq<Part>, i: nat)
    requires i < |Units| && Canonical(ps) && RanksFrom(ps, i)
    requires ps == [] || ps[0].unit.Rank() != i
    ensures RanksFrom(ps, i + 1) && Total(ps) < Units[i].Size()
    ensures GreedyFrom(Total(ps), i) == GreedyFrom(Total(ps), i + 1)
  {
    forall l | 0 <= l < |ps| ensures ps[l].unit.Rank() >= i + 1 {
      assert ps[0].unit.Rank() <= ps[l].unit.Rank();
    }
    CanonicalBelow(ps, i + 1);
    SkipStep(Total(ps), i);
  }

  lemma {:induction false} GreedyFromUnique(ps: seq<Part>, i: nat)
    requires i <= |Units|
    requires Canonical(ps) && RanksFrom(ps, i)
    requires i == 0 || Total(ps) < Units[i - 1].Size()
    ensures ps == GreedyFrom(Total(ps), i)
    decreases |Units| - i
  {
    if i == |Units| {
      NothingFromFour(ps);
    } else if ps != [] && ps[0].unit.Rank() == i {
      CanonicalTail(ps);
      CanonicalBelow(ps[1..], i + 1);
      GreedyFromUnique(ps[1..], i + 1);
      UniqueTake(ps, i);
    } else {
      UniqueSkip(ps, i);
      GreedyFromUnique(ps, i + 1);
    }
  }

  /**
   * The greedy decomposition is the only canonical one: any canonical list
   * of parts is exactly what the loop emits for its total.
   */
  lemma GreedyUnique(ps: seq<Part>)
    requires Canonical(ps)
    ensures ps == Greedy(Total(ps))
  {
    GreedyFromUnique(ps, 0);
  }

  // ---------------------------------------------------------------------
  // Rendering
  // ---------------------------------------------------------------------

  /** `"{} {}".format(value, name)`, the name losing its trailing 's' when the value is 1. */
  function PartText(p: Part): (r: string)
    ensures NatToDecimal(p.value) + " " <= r
  {
    var name := if p.value == 1 then RStrip(p.unit.Plural(), 's') else p.unit.Plural();
    NatToDecimal(p.value) + " " + name
  }

  function Texts(ps: seq<Part>): (r: seq<string>)
    ensures |r| == |ps|
  {
    if ps == [] then [] else [PartText(ps[0])] + Texts(ps[1..])
  }

  lemma {:induction false} TextsAppend(a: seq<Part>, b: seq<Part>)
    ensures Texts(a + b) == Texts(a) + Texts(b)
  {
    if a == [] {
      assert a + b == b;
    } else {
      assert (a + b)[0] == a[0];
      assert (a + b)[1..] == a[1..] + b;
      TextsAppend(a[1..], b);
    }
  }

  lemma {:induction false} TextsAt(ps: seq<Part>, k: nat)
    requires k < |ps|
    ensures Texts(ps)[k] == PartText(ps[k])
  {
    if k > 0 {
      TextsAt(ps[1..], k - 1);
    }
  }

  /** The singular names: "week", "day", "hour", "minute". */
  function Singular(u: Unit): string {
    match u
    case Weeks => "week"
    case Days => "day"
    case Hours => "hour"
    case Minutes => "minute"
  }

  /**
   * A value of 1 is written with the singular name (the plural less its
   * trailing 's'); any other value with the plural.
   */
  lemma SingularNames(u: Unit)
    ensures PartText(Part(1, u)) == "1 " + Singular(u)
    ensures Singular(u) + "s" == u.Plural()
    ensures forall v: nat :: v != 1 ==> PartText(Part(v, u)) == NatToDecimal(v) + " " + u.Plural()
  {
    PluralStrips(u);
  }

  lemma PluralStrips(u: Unit)
    ensures RStrip(u.Plural(), 's') == Singular(u) && Singular(u) + "s" == u.Plural()
  {
    match u
    case Weeks => assert "weeks"[..4] == "week";
    case Days => assert "days"[..3] == "day";
    case Hours => assert "hours"[..4] == "hour";
    case Minutes => assert "minutes"[..6] == "minute";
  }

  /** Python's `xs[:g]`: a negative `g` counts from the end. */
  function SliceTo<T>(xs: seq<T>, g: int): (r: seq<T>)
    ensures r <= xs
    ensures 0 <= g ==> |r| == if g < |xs| then g else |xs|
    ensures g < 0 ==> |r| == if |xs| + g > 0 then |xs| + g else 0
  {
    if g >= 0 then (if g < |xs| then xs[..g] else xs)
    else if |xs| + g > 0 then xs[..|xs| + g] else []
  }

  /**
   * `start, _, end = joined.rpartition(','); start + " and" + end if start else end`:
   * the last comma of the joined list becomes " and".
   */
  function LastCommaToAnd(joined: string): (r: string)
    ensures ',' !in joined ==> r == joined
  {
    var (start, _, end) := RPartition(joined, ',');
    if start != "" then start + " and" + end else end
  }

  /**
   * `convert_minutes_to_display_str(minutes, granularity)`: "0 minutes" for
   * zero, otherwise the first `granularity` parts of the greedy
   * decomposition, joined by ", " with the last comma turned into " and".
   * For a positive input that is the English list of those phrases.
   */
  function Display(minutes: nat, granularity: int): (r: string)
    ensures minutes > 0 ==> r == EnglishList(SliceTo(Texts(Greedy(minutes)), granularity))
  {
    if minutes == 0 then "0 minutes"
    else
      PhrasesAsEnglishList(minutes, granularity);
      LastCommaToAnd(Join(SliceTo(Texts(Greedy(minutes)), granularity), ", "))
  }

  /**
   * Reference rendering of a list of phrases in English: nothing, one
   * phrase alone, or comma-separated phrases with " and " before the last.
   */
  function EnglishList(items: seq<string>): string {
    if |items| == 0 then ""
    else if |items| == 1 then items[0]
    else Join(items[..|items| - 1], ", ") + " and " + items[|items| - 1]
  }

  lemma {:induction false} LastIndexAfter(a: string, t: string, c: char)
    requires c !in t
    ensures LastIndexOf(a + [c] + t, c) == |a|
    decreases |t|
  {
    var s := a + [c] + t;
    if t == [] {
      assert s[|s| - 1] == c;
      assert s[..|s| - 1] == a;
    } else {
      assert s[|s| - 1] == t[|t| - 1];
      assert s[..|s| - 1] == a + [c] + t[..|t| - 1];
      LastIndexAfter(a, t[..|t| - 1], c);
    }
  }

  /** The rpartition step on `joined + ", " + last` when `last` holds no comma. */
  lemma LastCommaSplit(joined: string, last: string)
    requires ',' !in last && joined != ""
    ensures LastCommaToAnd(joined + ", " + last) == joined + " and " + last
  {
    var t := [' '] + last;
    var s := joined + [','] + t;
    assert joined + ", " + last == s;
    LastIndexAfter(joined, t, ',');
    assert s[..|joined|] == joined;
    assert s[|joined| + 1..] == t;
  }

  /**
   * For phrases that hold no comma and are not empty, the rpartition trick
   * gives exactly the reference English list.
   */
  lemma CommaTrickIsEnglishList(items: seq<string>)
    requires forall k :: 0 <= k < |items| ==> ',' !in items[k] && items[k] != ""
    ensures LastCommaToAnd(Join(items, ", ")) == EnglishList(items)
  {
    if |items| == 1 {
      assert RPartition(items[0], ',') == ("", "", items[0]);
    } else if |items| > 1 {
      var init := items[..|items| - 1];
      var joined := Join(init, ", ");
      assert joined != "" by {
        if |init| == 1 {
          assert joined == items[0];
        }
      }
      LastCommaSplit(joined, items[|items| - 1]);
    }
  }

  lemma PartTextHasNoComma(p: Part)
    ensures ',' !in PartText(p) && PartText(p) != ""
  {
    var plural := p.unit.Plural();
    var name := if p.value == 1 then RStrip(plural, 's') else plural;
    assert ',' !in plural;
    assert forall j :: 0 <= j < |name| ==> name[j] == plural[j];
    assert PartText(p) == NatToDecimal(p.value) + " " + name;
  }

  /**
   * For a positive input and any granularity, joining the first
   * `granularity` greedy phrases and turning the last comma into " and"
   * gives their English list.
   */
  lemma PhrasesAsEnglishList(minutes: nat, granularity: int)
    requires minutes > 0
    ensures LastCommaToAnd(Join(SliceTo(Texts(Greedy(minutes)), granularity), ", ")) ==
            EnglishList(SliceTo(Texts(Greedy(minutes)), granularity))
  {
    var ps := Greedy(minutes);
    var kept := SliceTo(Texts(ps), granularity);
    forall k | 0 <= k < |kept| ensures ',' !in kept[k] && kept[k] != "" {
      TextsAt(ps, k);
      PartTextHasNoComma(ps[k]);
    }
    CommaTrickIsEnglishList(kept);
  }

  /** The default granularity of 2: one or two leading units of the decomposition. */
  lemma DisplayDefaultGranularity(minutes: nat)
    requires minutes > 0
    ensures var ps := Greedy(minutes);
            |ps| >= 1 &&
            Display(minutes, 2) ==
              if |ps| == 1 then PartText(ps[0])
              else PartText(ps[0]) + " and " + PartText(ps[1])
  {
    var ps := Greedy(minutes);
    GreedyDecomposes(minutes);
    TextsAt(ps, 0);
    if |ps| > 1 {
      TextsAt(ps, 1);
      var kept := SliceTo(Texts(ps), 2);
      assert kept == [PartText(ps[0]), PartText(ps[1])];
      assert Join(kept[..1], ", ") == PartText(ps[0]);
    }
  }

  /** Zero minutes renders as the literal "0 minutes". */
  lemma DisplayZero(granularity: int)
    ensures Display(0, granularity) == "0 minutes"
  {
  }

  /** A literal canonical list is what the greedy walk produces for its total. */
  lemma GreedyOfLiteral(ps: seq<Part>, minutes: nat)
    requires Canonical(ps) && Total(ps) == minutes
    ensures Greedy(minutes) == ps
  {
    GreedyUnique(ps);
  }

  /** One minute renders with the singular name. */
  lemma DisplayOneMinute()
    ensures Display(1, 2) == "1 minute"
  {
    var ps := [Part(1, Minutes)];
    assert Total(ps) == 1 by { assert ps[1..] == []; }
    GreedyOfLiteral(ps, 1);
    OneOf(Minutes, "1 minute");
    DisplayOneLeading(1, ps, "1 minute");
  }

  /** With the default granularity, a single-part decomposition reading `x` shows just `x`. */
  lemma DisplayOneLeading(minutes: nat, ps: seq<Part>, x: string)
    requires minutes > 0 && Greedy(minutes) == ps && |ps| == 1 && PartText(ps[0]) == x
    ensures Display(minutes, 2) == x
  {
    DisplayDefaultGranularity(minutes);
  }

  /**
   * With the default granularity, a decomposition whose first two parts
   * read `x` and `y` shows "x and y".
   */
  lemma DisplayTwoLeading(minutes: nat, ps: seq<Part>, x: string, y: string)
    requires minutes > 0 && Greedy(minutes) == ps && |ps| >= 2
    requires PartText(ps[0]) == x && PartText(ps[1]) == y
    ensures Display(minutes, 2) == x + " and " + y
  {
    DisplayDefaultGranularity(minutes);
  }

  lemma OneOf(u: Unit, text: string)
    requires text == "1 " + Singular(u)
    ensures PartText(Part(1, u)) == text
  {
    PluralStrips(u);
  }

  lemma ThirtyMinutes()
    ensures PartText(Part(30, Minutes)) == "30 minutes"
  {
    assert NatToDecimal(30) == "30";
  }

  /** 90 minutes is one hour and thirty minutes. */
  lemma DisplayNinety()
    ensures Display(90, 2) == "1 hour" + " and " + "30 minutes"
  {
    var ps := [Part(1, Hours), Part(30, Minutes)];
    assert Total(ps) == 90 by { assert ps[1..] == [Part(30, Minutes)] && ps[1..][1..] == []; }
    GreedyOfLiteral(ps, 90);
    OneOf(Hours, "1 hour");
    ThirtyMinutes();
    DisplayTwoLeading(90, ps, "1 hour", "30 minutes");
  }

  /** 10140 minutes is one week and one hour (10080 + 60). */
  lemma DisplayWeekAndHour()
    ensures Display(10140, 2) == "1 week" + " and " + "1 hour"
  {
    var ps := [Part(1, Weeks), Part(1, Hours)];
    assert Total(ps) == 10140 by { assert ps[1..] == [Part(1, Hours)] && ps[1..][1..] == []; }
    GreedyOfLiteral(ps, 10140);
    OneOf(Weeks, "1 week");
    OneOf(Hours, "1 hour");
    DisplayTwoLeading(10140, ps, "1 week", "1 hour");
  }

  lemma TotalOfOnes(ps: seq<Part>)
    requires ps == [Part(1, Weeks), Part(1, Days), Part(1, Hours), Part(1, Minutes)]
    ensures Total(ps) == 11581
  {
    assert ps[1..][1..][1..][1..] == [];
    assert Total(ps[1..][1..][1..]) == 1;
    assert Total(ps[1..][1..]) == 61;
    assert Total(ps[1..]) == 1501;
  }

  /** 11581 minutes is 1 week, 1 day, 1 hour and 1 minute; only the first two are kept. */
  lemma DisplayTruncated()
    ensures Display(11581, 2) == "1 week" + " and " + "1 day"
  {
    var ps := [Part(1, Weeks), Part(1, Days), Part(1, Hours), Part(1, Minutes)];
    TotalOfOnes(ps);
    GreedyOfLiteral(ps, 11581);
    OneOf(Weeks, "1 week");
    OneOf(Days, "1 day");
    DisplayTwoLeading(11581, ps, "1 week", "1 day");
  }

  /** A unit that fits at least once: its phrase is emitted and the loop moves on. */
  lemma LoopTake(result: seq<string>, remaining: nat, i: nat, count: nat, value: nat, name: string, all: seq<string>)
    requires i < |Units| && count == Units[i].Size() && value == remaining / count && value != 0
    requires name == if value == 1 then RStrip(Units[i].Plural(), 's') else Units[i].Plural()
    requires result + Texts(GreedyFrom(remaining, i)) == all
    ensures (result + [NatToDecimal(value) + " " + name]) + Texts(GreedyFrom(remaining % count, i + 1)) == all
  {
    var part, rest := Part(value, Units[i]), remaining % count;
    GreedyTakes(remaining, i, value, rest);
    TextsAppend([part], GreedyFrom(rest, i + 1));
    assert Texts([part]) == [PartText(part)];
  }

  /** A unit that does not fit: nothing is emitted and the loop moves on. */
  lemma LoopSkip(result: seq<string>, remaining: nat, i: nat, count: nat, all: seq<string>)
    requires i < |Units| && count == Units[i].Size() && remaining / count == 0
    requires result + Texts(GreedyFrom(remaining, i)) == all
    ensures result + Texts(GreedyFrom(remaining, i + 1)) == all
  {
    GreedySkips(remaining, i);
  }

  /** Past the last unit nothing is left to emit. */
  lemma LoopDone(result: seq<string>, remaining: nat, all: seq<string>)
    requires result + Texts(GreedyFrom(remaining, |Units|)) == all
    ensures result == all
  {
    assert GreedyFrom(remaining, |Units|) == [];
    assert result + [] == result;
  }

  /** Once the loop has emitted every part, what is left is the final join. */
  lemma DisplayFromTexts(minutes: nat, granularity: int, texts: seq<string>)
    requires minutes != 0 && texts == Texts(Greedy(minutes))
    ensures Display(minutes, granularity) == LastCommaToAnd(Join(SliceTo(texts, granularity), ", "))
  {
  }

  /**
   * The conversion loop: walk the table largest unit first, take the whole
   * copies of each unit out of the remaining minutes, and record a phrase
   * for each unit that took any; then keep `granularity` phrases and join
   * them with the last comma turned into " and".
   */
  method ConvertMinutesToDisplayStr(minutes: nat, granularity: int) returns (s: string)
    ensures s == Display(minutes, granularity)
  {
    if minutes == 0 {
      return "0 minutes";
    }
    var remaining: nat := minutes;
    var result: seq<string> := [];
    for i := 0 to |Units|
      invariant result + Texts(GreedyFrom(remaining, i)) == Texts(Greedy(minutes))
    {
      var unit := Units[i];
      var name := unit.Plural();
      var count := unit.Size();
      var value := remaining / count;
      if value != 0 {
        if value == 1 {
          name := RStrip(name, 's');
        }
        LoopTake(result, remaining, i, count, value, name, Texts(Greedy(minutes)));
        // what is left once `value` whole copies are taken out (see Leftover)
        remaining := remaining % count;
        result := result + [NatToDecimal(value) + " " + name];
      } else {
        LoopSkip(result, remaining, i, count, Texts(Greedy(minutes)));
      }
    }
    LoopDone(result, remaining, Texts(Greedy(minutes)));
    DisplayFromTexts(minutes, granularity, result);
    s := LastCommaToAnd(Join(SliceTo(result, granularity), ", "));
  }
}
