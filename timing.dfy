/**
 * `human_time` of nestcollector/timing.py for integer durations: a number of
 * seconds written as its two most significant calendar units, greedy from
 * millennia down to seconds.
 */
module Timing {

  /** `INTERVALS`: each unit's name and its length in seconds, largest first. */
  const Intervals: seq<(string, nat)> := [
    ("millennium", 31536000000),
    ("century", 3153600000),
    ("year", 31536000),
    ("month", 2627424),
    ("week", 604800),
    ("day", 86400),
    ("hour", 3600),
    ("minute", 60),
    ("second", 1)
  ]

  /** The unit lengths of `Intervals`, in order. */
  function Lengths(): (lengths: seq<nat>)
    ensures |lengths| == |Intervals|
    ensures forall k :: 0 <= k < |Intervals| ==> lengths[k] == Intervals[k].1
  {
    seq(|Intervals|, k requires 0 <= k < |Intervals| => Intervals[k].1)
  }

  /**
   * Unit lengths a split can run over: every unit lasts at least a second and
   * the last one exactly a second, so every duration is used up.
   */
  ghost predicate UnitLengths(lengths: seq<nat>)
  {
    && |lengths| >= 1
    && lengths[|lengths| - 1] == 1
    && forall k :: 0 <= k < |lengths| ==> lengths[k] >= 1
  }

  /** The units of `Intervals` get strictly shorter, down to a single second. */
  lemma IntervalsAreUnitLengths()
    ensures UnitLengths(Lengths()) && |Lengths()| == 9
    ensures forall u, v :: 0 <= u < v < 9 ==> Lengths()[v] < Lengths()[u]
    ensures Lengths()[7] == 60
  {
    var lengths := Lengths();
    assert lengths == [31536000000, 3153600000, 31536000, 2627424, 604800, 86400, 3600, 60, 1];
  }

  /** `count` whole units of index `unit`, one entry of the loop's result list. */
  datatype Part = Part(count: nat, unit: nat)

  /** Every part names one of the units. */
  ghost predicate InUnits(lengths: seq<nat>, parts: seq<Part>)
  {
    forall k :: 0 <= k < |parts| ==> parts[k].unit < |lengths|
  }

  /** The seconds one part stands for. */
  function Seconds(lengths: seq<nat>, p: Part): nat
    requires p.unit < |lengths|
  {
    p.count * lengths[p.unit]
  }

  /** The seconds the parts stand for. */
  function Total(lengths: seq<nat>, parts: seq<Part>): nat
    requires InUnits(lengths, parts)
  {
    if parts == [] then 0 else Seconds(lengths, parts[0]) + Total(lengths, parts[1..])
  }

  /** Whole units of `length` in `seconds`, counted by repeated subtraction. */
  function Quot(seconds: nat, length: nat): nat
    requires length >= 1
    decreases seconds
  {
    if seconds < length then 0 else 1 + Quot(seconds - length, length)
  }

  /** What is left of `seconds` after taking out whole units of `length`. */
  function Rem(seconds: nat, length: nat): (r: nat)
    requires length >= 1
    ensures r < length
    decreases seconds
  {
    if seconds < length then seconds else Rem(seconds - length, length)
  }

  /**
   * The parts the loop of `human_time` collects from unit `i` on: at each unit
   * the quotient is kept when it is at least one, and the loop stops as soon
   * as the remainder is zero.
   */
  function Split(lengths: seq<nat>, seconds: nat, i: nat): (parts: seq<Part>)
    requires UnitLengths(lengths) && seconds >= 1 && i <= |lengths|
    ensures i < |lengths| ==> parts != []
    ensures forall k :: 0 <= k < |parts| ==> i <= parts[k].unit < |lengths|
    decreases |lengths| - i
  {
    if i == |lengths| then []
    else if seconds < lengths[i] then Split(lengths, seconds, i + 1)
    else
      var q, r := Quot(seconds, lengths[i]), Rem(seconds, lengths[i]);
      if r == 0 then [Part(q, i)] else [Part(q, i)] + Split(lengths, r, i + 1)
  }

  /** Python's `str` of an integer. */
  function IntString(n: int): (s: string)
    ensures n < 0 <==> |s| >= 1 && s[0] == '-'
  {
    if n < 0 then "-" + NatString(-n) else NatString(n)
  }

  /** The character of decimal digit `d`. */
  function Digit(d: nat): (c: char)
    requires d < 10
    ensures '0' <= c <= '9' && c as int - '0' as int == d
  {
    ('0' as int + d) as char
  }

  /** The decimal digits of `n`, without leading zeros. */
  function NatString(n: nat): (s: string)
    ensures |s| >= 1
    ensures forall k :: 0 <= k < |s| ==> '0' <= s[k] <= '9'
    ensures s[0] == '0' ==> n == 0
  {
    if n < 10 then [Digit(n)]
    else NatString(n / 10) + [Digit(n % 10)]
  }

  /** The number a string of decimal digits spells. */
  function DigitsValue(s: string): nat
    requires forall k :: 0 <= k < |s| ==> '0' <= s[k] <= '9'
  {
    if s == [] then 0 else 10 * DigitsValue(s[..|s| - 1]) + (s[|s| - 1] as int - '0' as int)
  }

  /** Reading the digits back gives the number. */
  lemma {:induction false} NatStringParses(n: nat)
    ensures DigitsValue(NatString(n)) == n
  {
    var s := NatString(n);
    if n >= 10 {
      NatStringParses(n / 10);
      assert s[..|s| - 1] == NatString(n / 10);
      assert s[|s| - 1] == Digit(n % 10);
    }
  }

  /** A unit's name as `human_time` prints it after `count`. */
  function UnitName(count: nat, unit: nat): string
    requires unit < |Intervals|
  {
    var name := Intervals[unit].0;
    if count > 1 then
      if name == "millennium" then "millennia"
      else if name == "century" then "centuries"
      else name + "s"
    else name
  }

  /**
   * Only the first two units have irregular plurals; every other unit takes
   * an "s", and a single unit keeps its name.
   */
  lemma PluralNames(count: nat, unit: nat)
    requires unit < |Intervals|
    ensures count <= 1 ==> UnitName(count, unit) == Intervals[unit].0
    ensures count > 1 && unit == 0 ==> UnitName(count, unit) == "millennia"
    ensures count > 1 && unit == 1 ==> UnitName(count, unit) == "centuries"
    ensures count > 1 && unit >= 2 ==> UnitName(count, unit) == Intervals[unit].0 + "s"
  {
  }

  /** `'%i %s' % (quotient, interval)`. */
  function Label(p: Part): string
    requires p.unit < |Intervals|
  {
    IntString(p.count) + " " + UnitName(p.count, p.unit)
  }

  function Labels(parts: seq<Part>): (labels: seq<string>)
    requires InUnits(Lengths(), parts)
    ensures |labels| == |parts|
    ensures forall k :: 0 <= k < |parts| ==> labels[k] == Label(parts[k])
  {
    if parts == [] then [] else [Label(parts[0])] + Labels(parts[1..])
  }

  /** The text `human_time(seconds)` returns for an integer `seconds`. */
  function Readable(seconds: int): string
  {
    if seconds < 0 then IntString(seconds) + " seconds"
    else if seconds == 0 then "0 seconds"
    else if 1 < seconds < Intervals[7].1 then IntString(seconds) + " seconds"
    else
      IntervalsAreUnitLengths();
      var parts := Split(Lengths(), seconds, 0);
      if |parts| >= 2 then Label(parts[0]) + " and " + Label(parts[1]) else Label(parts[0])
  }

  /**
   * `human_time` on an integer: the three early cases, then the loop over
   * the intervals, then at most the first two labels joined with " and ".
   */
  method HumanTime(seconds: int) returns (text: string)
    ensures text == Readable(seconds)
  {
    if seconds < 0 {
      return IntString(seconds) + " seconds";
    } else if seconds == 0 {
      return "0 seconds";
    } else if 1 < seconds < Intervals[7].1 {
      return IntString(seconds) + " seconds";
    }
    var res := CollectLabels(seconds);
    IntervalsAreUnitLengths();
    ghost var parts := Split(Lengths(), seconds, 0);
    if |res| >= 2 {
      text := res[0] + " and " + res[1];
    } else {
      text := res[0];
    }
  }

  /**
   * The loop of `human_time`: for each interval in turn, `divmod` the seconds
   * left, keep a label when the quotient is at least one, stop at a zero
   * remainder.
   */
  method CollectLabels(seconds: nat) returns (res: seq<string>)
    requires seconds >= 1
    ensures UnitLengths(Lengths()) && |Lengths()| == 9
    ensures res == Labels(Split(Lengths(), seconds, 0))
  {
    IntervalsAreUnitLengths();
    ghost var lengths := Lengths();
    res := [];
    var left: nat := seconds;
    ghost var done: seq<Part> := [];
    var i := 0;
    while i < |Intervals|
      invariant 0 <= i <= 9 && left >= 1
      invariant InUnits(lengths, done)
      invariant Split(lengths, seconds, 0) == done + Split(lengths, left, i)
      invariant res == Labels(done)
    {
      var count := Intervals[i].1;
      var quotient, remainder := left / count, left % count;
      LoopStep(lengths, seconds, done, left, i);
      if quotient >= 1 {
        left := remainder;
        LabelsSnoc(done, Part(quotient, i));
        res := res + [Label(Part(quotient, i))];
        done := done + [Part(quotient, i)];
      }
      if remainder == 0 {
        assert Split(lengths, seconds, 0) == done;
        break;
      }
      i := i + 1;
    }
    assert Split(lengths, seconds, 0) == done;
  }

  /** One turn of the loop keeps the parts collected so far a prefix of the split. */
  lemma LoopStep(lengths: seq<nat>, seconds: nat, done: seq<Part>, left: nat, i: nat)
    requires UnitLengths(lengths) && seconds >= 1 && left >= 1 && i < |lengths|
    requires Split(lengths, seconds, 0) == done + Split(lengths, left, i)
    ensures left / lengths[i] < 1 ==>
              && left % lengths[i] == left && i + 1 < |lengths|
              && Split(lengths, seconds, 0) == done + Split(lengths, left, i + 1)
    ensures left / lengths[i] >= 1 && left % lengths[i] == 0 ==>
              Split(lengths, seconds, 0) == done + [Part(left / lengths[i], i)]
    ensures left / lengths[i] >= 1 && left % lengths[i] != 0 ==>
              && i + 1 < |lengths|
              && Split(lengths, seconds, 0) == (done + [Part(left / lengths[i], i)]) + Split(lengths, left % lengths[i], i + 1)
  {
    SplitByDivMod(lengths, left, i);
    var q, r := left / lengths[i], left % lengths[i];
    if q < 1 {
      assert Split(lengths, left, i) == [] + Split(lengths, left, i + 1);
    } else if r == 0 {
      assert Split(lengths, left, i) == [Part(q, i)] + [];
      assert done + [Part(q, i)] == done + Split(lengths, left, i);
    } else {
      assert Split(lengths, left, i) == [Part(q, i)] + Split(lengths, r, i + 1);
      assert (done + [Part(q, i)]) + Split(lengths, r, i + 1) == done + ([Part(q, i)] + Split(lengths, r, i + 1));
    }
  }

  lemma LabelsSnoc(parts: seq<Part>, p: Part)
    requires InUnits(Lengths(), parts) && p.unit < |Lengths()|
    ensures InUnits(Lengths(), parts + [p])
    ensures Labels(parts + [p]) == Labels(parts) + [Label(p)]
  {
    assert forall k :: 0 <= k < |parts| ==> (parts + [p])[k] == parts[k];
  }

  lemma ProductPositive(a: nat, b: nat)
    requires a >= 1
    ensures a * b >= b
  {
    assert a * b == (a - 1) * b + b;
    assert (a - 1) * b >= 0;
  }

  /** The units taken out and the rest make up the duration again. */
  lemma {:induction false} QuotRem(seconds: nat, length: nat)
    requires length >= 1
    ensures seconds == Quot(seconds, length) * length + Rem(seconds, length)
    decreases seconds
  {
    if seconds >= length {
      var q := Quot(seconds - length, length);
      QuotRem(seconds - length, length);
      assert (q + 1) * length == q * length + length;
    }
  }

  /** A split of `seconds` into whole units of `length` and a rest shorter than `length` is unique. */
  lemma DivisionUnique(seconds: nat, length: nat, q: nat, r: nat, q': nat, r': nat)
    requires length >= 1 && r < length && r' < length
    requires seconds == q * length + r && seconds == q' * length + r'
    ensures q == q' && r == r'
  {
    if q > q' {
      ProductPositive(q - q', length);
    } else if q < q' {
      ProductPositive(q' - q, length);
    }
  }

  /** Counting by subtraction agrees with Python's `divmod` on non-negative integers. */
  lemma QuotRemAreDivMod(seconds: nat, length: nat)
    requires length >= 1
    ensures Quot(seconds, length) == seconds / length && Rem(seconds, length) == seconds % length
  {
    QuotRem(seconds, length);
    DivisionUnique(seconds, length, Quot(seconds, length), Rem(seconds, length), seconds / length, seconds % length);
  }

  /** Whole seconds are all taken by the last unit. */
  lemma LastUnit(seconds: nat)
    ensures Quot(seconds, 1) == seconds && Rem(seconds, 1) == 0
  {
    QuotRem(seconds, 1);
  }

  /** A split that does not stop at unit `i` has a next unit to go on with. */
  lemma SplitGoesOn(lengths: seq<nat>, seconds: nat, i: nat)
    requires UnitLengths(lengths) && seconds >= 1 && i < |lengths|
    requires seconds < lengths[i] || Rem(seconds, lengths[i]) != 0
    ensures i + 1 < |lengths|
  {
    if i == |lengths| - 1 {
      LastUnit(seconds);
    }
  }

  /**
   * One iteration of the loop: the quotient of `divmod` is kept when it is at
   * least one, and the split goes on with the remainder unless it is zero.
   */
  lemma SplitByDivMod(lengths: seq<nat>, seconds: nat, i: nat)
    requires UnitLengths(lengths) && seconds >= 1 && i < |lengths|
    ensures seconds / lengths[i] >= 0
    ensures seconds / lengths[i] < 1 ==> seconds % lengths[i] == seconds
    ensures seconds % lengths[i] != 0 ==> i + 1 < |lengths|
    ensures Split(lengths, seconds, i)
         == (if seconds / lengths[i] >= 1 then [Part(seconds / lengths[i], i)] else [])
          + (if seconds % lengths[i] == 0 then [] else Split(lengths, seconds % lengths[i], i + 1))
  {
    var d := lengths[i];
    QuotRemAreDivMod(seconds, d);
    if seconds < d {
      assert Quot(seconds, d) == 0 && Rem(seconds, d) == seconds;
      SplitGoesOn(lengths, seconds, i);
      assert Split(lengths, seconds, i) == [] + Split(lengths, seconds, i + 1);
    } else {
      assert Quot(seconds, d) >= 1;
      if Rem(seconds, d) == 0 {
        assert Split(lengths, seconds, i) == [Part(Quot(seconds, d), i)] + [];
      } else {
        SplitGoesOn(lengths, seconds, i);
      }
    }
  }

  lemma {:induction false} TotalAppend(lengths: seq<nat>, ps: seq<Part>, qs: seq<Part>)
    requires InUnits(lengths, ps) && InUnits(lengths, qs)
    ensures InUnits(lengths, ps + qs)
    ensures Total(lengths, ps + qs) == Total(lengths, ps) + Total(lengths, qs)
  {
    if ps != [] {
      TotalAppend(lengths, ps[1..], qs);
      assert (ps + qs)[0] == ps[0];
      assert (ps + qs)[1..] == ps[1..] + qs;
    } else {
      assert ps + qs == qs;
    }
  }

  lemma TotalOne(lengths: seq<nat>, p: Part)
    requires p.unit < |lengths|
    ensures Total(lengths, [p]) == p.count * lengths[p.unit]
  {
    assert [p][1..] == [];
  }

  /** The parts add up to the duration: nothing is lost and nothing is counted twice. */
  lemma {:induction false} SplitTotal(lengths: seq<nat>, seconds: nat, i: nat)
    requires UnitLengths(lengths) && seconds >= 1 && i < |lengths|
    ensures Total(lengths, Split(lengths, seconds, i)) == seconds
    decreases |lengths| - i
  {
    var d := lengths[i];
    if seconds < d {
      SplitGoesOn(lengths, seconds, i);
      SplitTotal(lengths, seconds, i + 1);
    } else {
      var q, r := Quot(seconds, d), Rem(seconds, d);
      var here := [Part(q, i)];
      QuotRem(seconds, d);
      TotalOne(lengths, Part(q, i));
      if r != 0 {
        SplitGoesOn(lengths, seconds, i);
        var rest := Split(lengths, r, i + 1);
        SplitTotal(lengths, r, i + 1);
        TotalAppend(lengths, here, rest);
      }
    }
  }

  /** Every part counts at least one unit, and the units get strictly shorter. */
  ghost predicate Descending(parts: seq<Part>)
  {
    && (forall k :: 0 <= k < |parts| ==> parts[k].count >= 1)
    && forall k, l :: 0 <= k < l < |parts| ==> parts[k].unit < parts[l].unit
  }

  /** Each unit appears at most once, longest first, and only with a count of at least one. */
  lemma {:induction false} SplitUnitsDescend(lengths: seq<nat>, seconds: nat, i: nat)
    requires UnitLengths(lengths) && seconds >= 1 && i < |lengths|
    ensures Descending(Split(lengths, seconds, i))
    decreases |lengths| - i
  {
    var parts := Split(lengths, seconds, i);
    var d := lengths[i];
    if seconds < d {
      SplitGoesOn(lengths, seconds, i);
      assert parts == Split(lengths, seconds, i + 1);
      SplitUnitsDescend(lengths, seconds, i + 1);
    } else {
      var q, r := Quot(seconds, d), Rem(seconds, d);
      assert q >= 1;
      if r != 0 {
        SplitGoesOn(lengths, seconds, i);
        var tail := Split(lengths, r, i + 1);
        assert parts == [Part(q, i)] + tail;
        SplitUnitsDescend(lengths, r, i + 1);
        forall k, l | 0 <= k < l < |parts|
          ensures parts[k].unit < parts[l].unit
        {
          assert parts[l] == tail[l - 1];
          if k == 0 {
            assert parts[0].unit == i < tail[l - 1].unit;
          } else {
            assert parts[k] == tail[k - 1];
            assert 0 <= k - 1 < l - 1 < |tail|;
          }
        }
        forall k | 0 <= k < |parts|
          ensures parts[k].count >= 1
        {
          if k > 0 {
            assert parts[k] == tail[k - 1];
          }
        }
      } else {
        assert parts == [Part(q, i)];
      }
    }
  }

  /**
   * The split starts greedily: its first unit is the longest from `i` on
   * that fits in the duration.
   */
  lemma {:induction false} SplitStartsGreedy(lengths: seq<nat>, seconds: nat, i: nat)
    requires UnitLengths(lengths) && seconds >= 1 && i < |lengths|
    ensures var first := Split(lengths, seconds, i)[0].unit;
            && lengths[first] <= seconds
            && forall u :: i <= u < first ==> seconds < lengths[u]
    decreases |lengths| - i
  {
    if seconds < lengths[i] {
      SplitGoesOn(lengths, seconds, i);
      SplitStartsGreedy(lengths, seconds, i + 1);
    }
  }

  /**
   * The split is greedy all the way: what the later parts stand for is
   * always less than one unit of the part before them.
   */
  lemma {:induction false} SplitRemaindersShort(lengths: seq<nat>, seconds: nat, i: nat)
    requires UnitLengths(lengths) && seconds >= 1 && i < |lengths|
    ensures var parts := Split(lengths, seconds, i);
            forall k :: 0 <= k < |parts| ==> Total(lengths, parts[k + 1..]) < lengths[parts[k].unit]
    decreases |lengths| - i
  {
    var parts := Split(lengths, seconds, i);
    var d := lengths[i];
    if seconds < d {
      SplitGoesOn(lengths, seconds, i);
      assert parts == Split(lengths, seconds, i + 1);
      SplitRemaindersShort(lengths, seconds, i + 1);
    } else {
      var q, r := Quot(seconds, d), Rem(seconds, d);
      if r == 0 {
        assert parts[1..] == [];
      } else {
        SplitGoesOn(lengths, seconds, i);
        var tail := Split(lengths, r, i + 1);
        assert parts == [Part(q, i)] + tail;
        SplitRemaindersShort(lengths, r, i + 1);
        SplitTotal(lengths, r, i + 1);
        forall k | 0 <= k < |parts|
          ensures Total(lengths, parts[k + 1..]) < lengths[parts[k].unit]
        {
          if k == 0 {
            assert parts[1..] == tail;
          } else {
            assert parts[k] == tail[k - 1] && parts[k + 1..] == tail[k..];
          }
        }
      }
    }
  }

  /** A duration shorter than every unit but the last is all in the last unit. */
  lemma {:induction false} ShortSplit(lengths: seq<nat>, seconds: nat, i: nat)
    requires UnitLengths(lengths) && seconds >= 1 && i < |lengths|
    requires forall u :: i <= u < |lengths| - 1 ==> seconds < lengths[u]
    ensures Split(lengths, seconds, i) == [Part(seconds, |lengths| - 1)]
    decreases |lengths| - i
  {
    if i < |lengths| - 1 {
      assert seconds < lengths[i];
      ShortSplit(lengths, seconds, i + 1);
    } else {
      LastUnit(seconds);
    }
  }

  /**
   * Below a minute the text is the number of seconds, with "second" singular
   * only for one: the early return for 1 < seconds < 60 agrees with what the
   * loop would give.
   */
  lemma ShortDurations(seconds: int)
    requires 1 <= seconds < 60
    ensures Readable(seconds) == IntString(seconds) + (if seconds == 1 then " second" else " seconds")
  {
    IntervalsAreUnitLengths();
    ShortSplit(Lengths(), seconds, 0);
  }

  /**
   * From a minute on, the text starts with the longest unit that fits,
   * counted by `divmod`, and has a second part exactly when that unit
   * leaves a remainder.
   */
  lemma LongDurations(seconds: int)
    requires seconds >= 60
    ensures UnitLengths(Lengths()) && |Lengths()| == 9
    ensures var parts := Split(Lengths(), seconds, 0);
            var d := Lengths()[parts[0].unit];
            && d <= seconds
            && (forall u :: 0 <= u < parts[0].unit ==> seconds < Lengths()[u])
            && parts[0].count == seconds / d
            && (|parts| == 1 <==> seconds % d == 0)
  {
    IntervalsAreUnitLengths();
    var lengths := Lengths();
    var parts := Split(lengths, seconds, 0);
    SplitTotal(lengths, seconds, 0);
    SplitStartsGreedy(lengths, seconds, 0);
    SplitRemaindersShort(lengths, seconds, 0);
    var d := lengths[parts[0].unit];
    var rest := Total(lengths, parts[1..]);
    assert seconds == parts[0].count * d + rest && rest < d;
    if |parts| >= 2 {
      assert rest == Seconds(lengths, parts[1]) + Total(lengths, parts[2..]);
      SplitUnitsDescend(lengths, seconds, 0);
      ProductPositive(parts[1].count, lengths[parts[1].unit]);
    } else {
      assert parts[1..] == [];
    }
    QuotRem(seconds, d);
    QuotRemAreDivMod(seconds, d);
    DivisionUnique(seconds, d, parts[0].count, rest, Quot(seconds, d), Rem(seconds, d));
  }

  /** The unit lengths of `Intervals`, written out. */
  lemma LengthValues()
    ensures Lengths() == [31536000000, 3153600000, 31536000, 2627424, 604800, 86400, 3600, 60, 1]
  {
  }

  /** The split passes over every unit that is longer than the duration. */
  lemma {:induction false} SplitSkips(lengths: seq<nat>, seconds: nat, i: nat, j: nat)
    requires UnitLengths(lengths) && seconds >= 1 && i <= j < |lengths|
    requires forall u :: i <= u < j ==> seconds < lengths[u]
    ensures Split(lengths, seconds, i) == Split(lengths, seconds, j)
    decreases j - i
  {
    if i < j {
      SplitSkips(lengths, seconds, i + 1, j);
    }
  }

  /** `human_time(15)` is "15 seconds". */
  lemma FifteenSeconds()
    ensures Readable(15) == "15 seconds"
  {
    SmallNumbers();
    assert Intervals[7].1 == 60;
  }

  /** The numbers the documented examples print. */
  lemma SmallNumbers()
    ensures IntString(1) == "1" && IntString(2) == "2" && IntString(3) == "3"
    ensures IntString(15) == "15"
  {
    assert NatString(15) == NatString(1) + [Digit(5)];
  }

  /** The labels the documented examples print. */
  lemma ExampleLabels()
    ensures Label(Part(1, 6)) == "1 hour" && Label(Part(2, 6)) == "2 hours"
    ensures Label(Part(2, 7)) == "2 minutes" && Label(Part(3, 5)) == "3 days"
  {
    SmallNumbers();
    assert Intervals[5].0 == "day" && Intervals[6].0 == "hour" && Intervals[7].0 == "minute";
  }

  /** `human_time(3600)` is "1 hour". */
  lemma OneHour()
    ensures Readable(3600) == "1 hour"
  {
    IntervalsAreUnitLengths();
    LengthValues();
    var lengths := Lengths();
    SplitSkips(lengths, 3600, 0, 6);
    QuotRemAreDivMod(3600, 3600);
    assert Split(lengths, 3600, 0) == [Part(1, 6)];
    ExampleLabels();
  }

  /** The split of 3720 seconds: an hour and two minutes. */
  lemma SplitHourAndMinutes()
    ensures UnitLengths(Lengths()) && |Lengths()| == 9
    ensures Split(Lengths(), 3720, 0) == [Part(1, 6), Part(2, 7)]
  {
    IntervalsAreUnitLengths();
    LengthValues();
    var lengths := Lengths();
    SplitSkips(lengths, 3720, 0, 6);
    QuotRemAreDivMod(3720, 3600);
    QuotRemAreDivMod(120, 60);
    assert Split(lengths, 120, 7) == [Part(2, 7)];
  }

  /** `human_time(3720)` is "1 hour and 2 minutes". */
  lemma HourAndMinutes()
    ensures Readable(3720) == "1 hour and 2 minutes"
  {
    SplitHourAndMinutes();
    ExampleLabels();
  }

  /** The split of 266400 seconds: three days and two hours. */
  lemma SplitDaysAndHours()
    ensures UnitLengths(Lengths()) && |Lengths()| == 9
    ensures Split(Lengths(), 266400, 0) == [Part(3, 5), Part(2, 6)]
  {
    IntervalsAreUnitLengths();
    LengthValues();
    var lengths := Lengths();
    SplitSkips(lengths, 266400, 0, 5);
    QuotRemAreDivMod(266400, 86400);
    QuotRemAreDivMod(7200, 3600);
    assert Split(lengths, 7200, 6) == [Part(2, 6)];
  }

  /** `human_time(266400)` is "3 days and 2 hours". */
  lemma DaysAndHours()
    ensures Readable(266400) == "3 days and 2 hours"
  {
    SplitDaysAndHours();
    ExampleLabels();
  }

  /** `human_time(0)` is "0 seconds" and `human_time(1)` is "1 second". */
  lemma ZeroAndOneSecond()
    ensures Readable(0) == "0 seconds"
    ensures Readable(1) == "1 second"
  {
    IntervalsAreUnitLengths();
    ShortSplit(Lengths(), 1, 0);
  }
}
