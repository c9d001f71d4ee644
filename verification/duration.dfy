/** `formatDuration` and `formatTime` (index.mjs:22-59): a whole number of seconds
    as "1 year, 2 days, 3 hours and 4 seconds", and an elapsed-time pair
    `[seconds, nanoseconds]` as that text followed by a millisecond count. */
module Duration {
  import opened Wrappers
  import opened Numbers
  import opened JsText

  /** The unit names, largest unit first. */
  const UnitNames: seq<string> := ["year", "day", "hour", "minute", "second"]

  /** The length in seconds of the unit at index `u` of `UnitNames`: a year of 365
      days (31 536 000 s), a day (86 400 s), an hour (3 600 s), a minute, a second. */
  function UnitLength(u: nat): nat {
    if u == 0 then 31_536_000 else if u == 1 then 86_400 else if u == 2 then 3_600 else if u == 3 then 60 else 1
  }

  /** `count` of the unit at index `unit` of `UnitNames`. */
  datatype Part = Part(count: nat, unit: nat)

  /** A part for `count` of a unit, listed only when the count is at least one. */
  function Listed(count: nat, unit: nat): seq<Part> {
    if count >= 1 then [Part(count, unit)] else []
  }

  /** Whole years, days, hours, minutes and seconds. */
  datatype Counts = Counts(years: nat, days: nat, hours: nat, minutes: nat, seconds: nat)

  /** Each unit, largest first, takes as many whole copies of itself as fit in what
      is left: a mixed-radix reading of `seconds`, with every count below a year
      short of the next unit. */
  function Breakdown(seconds: nat): (c: Counts)
    ensures c.days < 365 && c.hours < 24 && c.minutes < 60 && c.seconds < 60
    ensures 31_536_000 * c.years + 86_400 * c.days + 3_600 * c.hours + 60 * c.minutes + c.seconds == seconds
  {
    var y := seconds / 31_536_000;
    var r1 := seconds - 31_536_000 * y;
    var d := r1 / 86_400;
    var r2 := r1 - 86_400 * d;
    var h := r2 / 3_600;
    var r3 := r2 - 3_600 * h;
    var m := r3 / 60;
    var r4 := r3 - 60 * m;
    Counts(y, d, h, m, r4)
  }

  /** The parts `formatDuration` lists for `seconds`. */
  function Parts(seconds: nat): seq<Part> {
    ListedParts(Breakdown(seconds))
  }

  /** The number of seconds a part stands for. */
  function Seconds(p: Part): nat {
    p.count * UnitLength(p.unit)
  }

  /** The number of seconds a list of parts stands for. */
  function Total(parts: seq<Part>): nat {
    if parts == [] then 0 else Seconds(parts[0]) + Total(parts[1..])
  }

  lemma {:induction false} TotalAppend(a: seq<Part>, b: seq<Part>)
    ensures Total(a + b) == Total(a) + Total(b)
    decreases |a|
  {
    if a != [] {
      assert (a + b)[0] == a[0] && (a + b)[1..] == a[1..] + b;
      assert Total(a + b) == Seconds(a[0]) + Total(a[1..] + b);
      TotalAppend(a[1..], b);
    } else {
      assert a + b == b;
    }
  }

  /** Units strictly decreasing in size from one part to the next. */
  predicate Ordered(parts: seq<Part>) {
    forall i, j :: 0 <= i < j < |parts| ==> parts[i].unit < parts[j].unit
  }

  /** Putting a part after parts of larger units keeps the order. */
  lemma OrderedSnoc(parts: seq<Part>, p: Part)
    requires Ordered(parts)
    requires forall q :: q in parts ==> q.unit < p.unit
    ensures Ordered(parts + [p])
  {
    var r := parts + [p];
    forall i, j | 0 <= i < j < |r| ensures r[i].unit < r[j].unit {
      assert r[i] == parts[i];
      if j < |parts| {
        assert r[j] == parts[j];
      }
    }
  }

  /** The decomposition `formatDuration` lists: units from years down to seconds,
      each count at least one, fewer than 365 days, 24 hours, 60 minutes and 60
      seconds, adding up to the input, and never empty for a positive input. */
  lemma PartsSpec(seconds: nat)
    ensures var parts := Parts(seconds);
      && (forall p :: p in parts ==> InRange(p))
      && Ordered(parts)
      && Total(parts) == seconds
      && (seconds > 0 <==> parts != [])
  {
    var c := Breakdown(seconds);
    ListedChain(c);
  }

  /** The parts listed for five counts in order. */
  function ListedParts(c: Counts): seq<Part> {
    Listed(c.years, 0) + Listed(c.days, 1) + Listed(c.hours, 2) + Listed(c.minutes, 3) + Listed(c.seconds, 4)
  }

  /** A listed part: a count of at least one, below the next larger unit. */
  predicate InRange(p: Part) {
    && p.count >= 1 && p.unit < 5
    && (p.unit == 1 ==> p.count < 365)
    && (p.unit == 2 ==> p.count < 24)
    && (p.unit == 3 ==> p.count < 60)
    && (p.unit == 4 ==> p.count < 60)
  }

  /** Counts within their bounds list ordered, in-range parts that add up. */
  lemma ListedChain(c: Counts)
    requires c.days < 365 && c.hours < 24 && c.minutes < 60 && c.seconds < 60
    ensures var parts := ListedParts(c);
      && (forall p :: p in parts ==> InRange(p))
      && Ordered(parts)
      && Total(parts) == 31_536_000 * c.years + 86_400 * c.days + 3_600 * c.hours + 60 * c.minutes + c.seconds
      && (parts == [] <==> c.years + c.days + c.hours + c.minutes + c.seconds == 0)
  {
    var parts := ListedParts(c);
    forall p | p in parts ensures InRange(p) {
      assert p in Listed(c.years, 0) || p in Listed(c.days, 1) || p in Listed(c.hours, 2)
        || p in Listed(c.minutes, 3) || p in Listed(c.seconds, 4);
    }
    ListedOrdered(c.years, c.days, c.hours, c.minutes, c.seconds);
    ListedSum(c.years, c.days, c.hours, c.minutes, c.seconds);
  }

  lemma ListedOrdered(y: nat, d: nat, h: nat, m: nat, s: nat)
    ensures Ordered(Listed(y, 0) + Listed(d, 1) + Listed(h, 2) + Listed(m, 3) + Listed(s, 4))
  {
    ListedAfter([], y, 0);
    assert [] + Listed(y, 0) == Listed(y, 0);
    ListedAfter(Listed(y, 0), d, 1);
    ListedAfter(Listed(y, 0) + Listed(d, 1), h, 2);
    ListedAfter(Listed(y, 0) + Listed(d, 1) + Listed(h, 2), m, 3);
    ListedAfter(Listed(y, 0) + Listed(d, 1) + Listed(h, 2) + Listed(m, 3), s, 4);
  }

  /** A listed part put after ordered parts of larger units keeps them ordered. */
  lemma ListedAfter(front: seq<Part>, count: nat, unit: nat)
    requires Ordered(front)
    requires forall q :: q in front ==> q.unit < unit
    ensures Ordered(front + Listed(count, unit))
    ensures forall q :: q in front + Listed(count, unit) ==> q.unit <= unit
  {
    if count >= 1 {
      OrderedSnoc(front, Part(count, unit));
    } else {
      assert front + Listed(count, unit) == front;
    }
  }

  lemma ListedSum(y: nat, d: nat, h: nat, m: nat, s: nat)
    ensures Total(Listed(y, 0) + Listed(d, 1) + Listed(h, 2) + Listed(m, 3) + Listed(s, 4))
      == 31_536_000 * y + 86_400 * d + 3_600 * h + 60 * m + s
  {
    ListedTotal(y, 0);
    ListedTotalAfter(Listed(y, 0), 31_536_000 * y, d, 1);
    ListedTotalAfter(Listed(y, 0) + Listed(d, 1), 31_536_000 * y + 86_400 * d, h, 2);
    ListedTotalAfter(Listed(y, 0) + Listed(d, 1) + Listed(h, 2),
      31_536_000 * y + 86_400 * d + 3_600 * h, m, 3);
    ListedTotalAfter(Listed(y, 0) + Listed(d, 1) + Listed(h, 2) + Listed(m, 3),
      31_536_000 * y + 86_400 * d + 3_600 * h + 60 * m, s, 4);
  }

  /** A listed part adds its seconds to the total of the parts before it. */
  lemma ListedTotalAfter(front: seq<Part>, frontTotal: nat, count: nat, unit: nat)
    requires Total(front) == frontTotal
    ensures Total(front + Listed(count, unit)) == frontTotal + UnitLength(unit) * count
  {
    ListedTotal(count, unit);
    TotalAppend(front, Listed(count, unit));
  }

  lemma ListedTotal(count: nat, unit: nat)
    ensures Total(Listed(count, unit)) == UnitLength(unit) * count
  {
    if count >= 1 {
      assert Listed(count, unit)[1..] == [];
      assert Total(Listed(count, unit)) == Seconds(Part(count, unit));
    }
  }

  /** `count + ' unit' + (count > 1 ? 's' : '')`. */
  function PartText(p: Part): string
    requires p.unit < 5
  {
    NatToString(p.count) + UnitWord(p)
  }

  /** The text after the count: a space, the unit name, and "s" for a plural. */
  function UnitWord(p: Part): string
    requires p.unit < 5
  {
    " " + UnitNames[p.unit] + (if p.count > 1 then "s" else "")
  }

  /** A part's text: the count reads back with `parseInt`, the unit name follows a
      space, and the text ends in "s" exactly when the count is more than one. */
  lemma PartTextSpec(p: Part)
    requires p.unit < 5
    ensures ParseInt(PartText(p)) == Some(p.count)
    ensures |NatToString(p.count) + " " + UnitNames[p.unit]| <= |PartText(p)|
    ensures PartText(p)[..|NatToString(p.count) + " " + UnitNames[p.unit]|] == NatToString(p.count) + " " + UnitNames[p.unit]
    ensures PartText(p)[|PartText(p)| - 1] == 's' <==> p.count > 1
  {
    ParseIntOfLabel(p.count, UnitWord(p));
    UnitNameSingular(p.unit);
    PartTextPieces(NatToString(p.count), UnitNames[p.unit], if p.count > 1 then "s" else "");
  }

  /** The count, a space and the name come first; the last character is that of
      the plural suffix, or of the name when there is none. */
  lemma PartTextPieces(count: string, name: string, plural: string)
    requires |name| > 0
    ensures count + (" " + name + plural) == count + " " + name + plural
    ensures (count + " " + name + plural)[..|count + " " + name|] == count + " " + name
    ensures (count + " " + name + plural)[|count + " " + name + plural| - 1]
      == if plural == "" then name[|name| - 1] else plural[|plural| - 1]
  {
  }

  /** No unit name ends in "s" by itself. */
  lemma UnitNameSingular(u: nat)
    requires u < 5
    ensures |UnitNames[u]| > 0 && UnitNames[u][|UnitNames[u]| - 1] != 's'
  {
    assert UnitNames[u] in ["year", "day", "hour", "minute", "second"];
  }

  /** The parts' texts, in order. */
  function Texts(parts: seq<Part>): (r: seq<string>)
    requires forall p :: p in parts ==> p.unit < 5
  {
    seq(|parts|, i requires 0 <= i < |parts| => PartText(parts[i]))
  }

  /** The join at index.mjs:54: all but the last item joined by ", ", then " and "
      unless there is exactly one item, then the last item (`undefined` for none).
      A single item stands alone, and an empty list gives " and undefined";
      `JoinListItems` reads longer lists item by item. */
  function JoinList(a: seq<string>): (r: string)
    ensures |a| == 0 ==> r == " and undefined"
    ensures |a| == 1 ==> r == a[0]
  {
    JoinWith(a[..if |a| == 0 then 0 else |a| - 1], ", ")
      + (if |a| != 1 then " and " else "")
      + (if |a| == 0 then "undefined" else a[|a| - 1])
  }

  /** The join read item by item: one item stands alone, two are joined by
      " and ", and a longer list is its first item, ", ", and the join of the rest. */
  lemma JoinListItems(a: seq<string>)
    ensures |a| == 1 ==> JoinList(a) == a[0]
    ensures |a| == 2 ==> JoinList(a) == a[0] + " and " + a[1]
    ensures |a| >= 3 ==> JoinList(a) == a[0] + ", " + JoinList(a[1..])
  {
    if |a| >= 3 {
      var front := a[..|a| - 1];
      assert front[1..] == a[1..][..|a[1..]| - 1];
      assert JoinWith(front, ", ") == front[0] + ", " + JoinWith(front[1..], ", ");
    } else if |a| == 2 {
      assert a[..1] == [a[0]];
    }
  }

  /** What `formatDuration(seconds)` returns: "now" for zero, the joined parts
      otherwise, which then begin with a digit. */
  function DurationText(seconds: nat): (r: string)
    ensures (r == "now") <==> seconds == 0
    ensures seconds > 0 ==> |r| > 0 && IsDigit(r[0])
  {
    if seconds == 0 then "now"
    else
      PartsSpec(seconds);
      var texts := Texts(Parts(seconds));
      PartTextSpec(Parts(seconds)[0]);
      JoinListStart(texts);
      JoinList(texts)
  }

  /** A join of non-empty parts begins with the first character of the first part. */
  lemma JoinListStart(texts: seq<string>)
    requires |texts| >= 1 && |texts[0]| > 0
    ensures |JoinList(texts)| > 0 && JoinList(texts)[0] == texts[0][0]
  {
    if |texts| >= 2 {
      var front := texts[..|texts| - 1];
      assert front[0] == texts[0];
      assert |front| == 1 || JoinWith(front, ", ") == front[0] + ", " + JoinWith(front[1..], ", ");
    }
  }

  /** `formatDuration` (index.mjs:27-54): each unit in turn, largest first, pushes
      its part onto `a` and takes its seconds off what is left; the last block,
      `if (seconds)`, is the same step with a unit of one second. */
  method FormatDuration(seconds: nat) returns (text: string)
    ensures text == DurationText(seconds)
  {
    if seconds == 0 {
      return "now";
    }
    var a: seq<string> := [];
    var rest := seconds;
    a, rest := TakeUnit(a, rest, 0);
    ghost var a0, r0 := a, rest;
    a, rest := TakeUnit(a, rest, 1);
    ghost var a1, r1 := a, rest;
    a, rest := TakeUnit(a, rest, 2);
    ghost var a2, r2 := a, rest;
    a, rest := TakeUnit(a, rest, 3);
    ghost var a3, r3 := a, rest;
    a, rest := TakeUnit(a, rest, 4);
    ghost var c := Breakdown(seconds);
    BreakdownSteps(seconds, r0, r1, r2, r3);
    assert a == Texts(Listed(c.years, 0)) + Texts(Listed(c.days, 1))
      + Texts(Listed(c.hours, 2)) + Texts(Listed(c.minutes, 3)) + Texts(Listed(c.seconds, 4));
    TextsOfListed(c);
    text := JoinList(a);
  }

  /** The counts `formatDuration` computes block by block are those of `Breakdown`. */
  lemma BreakdownSteps(seconds: nat, r0: int, r1: int, r2: int, r3: int)
    requires r0 == seconds - UnitLength(0) * (seconds / UnitLength(0))
    requires r1 == r0 - UnitLength(1) * (r0 / UnitLength(1))
    requires r2 == r1 - UnitLength(2) * (r1 / UnitLength(2))
    requires r3 == r2 - UnitLength(3) * (r2 / UnitLength(3))
    ensures var c := Breakdown(seconds);
      && c.years == seconds / UnitLength(0) && c.days == r0 / UnitLength(1)
      && c.hours == r1 / UnitLength(2) && c.minutes == r2 / UnitLength(3)
      && c.seconds == r3 && r3 >= 0 && r3 / UnitLength(4) == r3
  {
  }

  /** One block of `formatDuration`: when at least one whole unit fits in `rest`,
      push the part's text and take those seconds off. */
  method TakeUnit(a: seq<string>, rest: nat, unit: nat) returns (a': seq<string>, rest': nat)
    requires unit < 5
    ensures a' == a + Texts(Listed(rest / UnitLength(unit), unit))
    ensures rest' == rest - UnitLength(unit) * (rest / UnitLength(unit))
  {
    var len := UnitLength(unit);
    var n := rest / len;
    assert rest == len * n + rest % len;
    a', rest' := a, rest;
    if n >= 1 {
      assert Texts(Listed(n, unit)) == [PartText(Part(n, unit))];
      a' := a + [PartText(Part(n, unit))];
      rest' := rest - len * n;
    } else {
      assert Texts(Listed(n, unit)) == [];
    }
  }

  lemma {:induction false} TextsAppend(p: seq<Part>, q: seq<Part>)
    requires forall x :: x in p ==> x.unit < 5
    requires forall x :: x in q ==> x.unit < 5
    ensures Texts(p + q) == Texts(p) + Texts(q)
  {
    assert forall i :: 0 <= i < |p + q| ==> Texts(p + q)[i] == (Texts(p) + Texts(q))[i];
  }

  /** The texts of the listed parts, unit by unit. */
  lemma TextsOfListed(c: Counts)
    ensures Texts(ListedParts(c)) == Texts(Listed(c.years, 0)) + Texts(Listed(c.days, 1))
      + Texts(Listed(c.hours, 2)) + Texts(Listed(c.minutes, 3)) + Texts(Listed(c.seconds, 4))
  {
    TextsListedAfter(Listed(c.years, 0), Texts(Listed(c.years, 0)), c.days, 1);
    TextsListedAfter(Listed(c.years, 0) + Listed(c.days, 1),
      Texts(Listed(c.years, 0)) + Texts(Listed(c.days, 1)), c.hours, 2);
    TextsListedAfter(Listed(c.years, 0) + Listed(c.days, 1) + Listed(c.hours, 2),
      Texts(Listed(c.years, 0)) + Texts(Listed(c.days, 1)) + Texts(Listed(c.hours, 2)), c.minutes, 3);
    TextsListedAfter(Listed(c.years, 0) + Listed(c.days, 1) + Listed(c.hours, 2) + Listed(c.minutes, 3),
      Texts(Listed(c.years, 0)) + Texts(Listed(c.days, 1)) + Texts(Listed(c.hours, 2)) + Texts(Listed(c.minutes, 3)),
      c.seconds, 4);
  }

  /** The text of a listed part comes after the texts of the parts before it. */
  lemma TextsListedAfter(front: seq<Part>, frontTexts: seq<string>, count: nat, unit: nat)
    requires unit < 5 && forall x :: x in front ==> x.unit < 5
    requires Texts(front) == frontTexts
    ensures forall x :: x in front + Listed(count, unit) ==> x.unit < 5
    ensures Texts(front + Listed(count, unit)) == frontTexts + Texts(Listed(count, unit))
  {
    TextsAppend(front, Listed(count, unit));
  }

  /** `ms_div`, written `10e6` in the source: ten million. */
  const MsDivAsWritten: nat := 10_000_000
  /** Nanoseconds per millisecond. */
  const NanosPerMs: nat := 1_000_000

  /** What `formatTime` writes before the millisecond count: the duration and
      " and " when the whole seconds are non-zero, nothing otherwise. */
  function TimePrefix(seconds: nat): string {
    if seconds == 0 then "" else DurationText(seconds) + " and "
  }

  /** `formatTime`'s text for a millisecond count: the prefix for the seconds, then
      a number that reads back as the count, then " ms". */
  function TimeText(seconds: nat, count: nat): (r: string)
    ensures |r| >= 3 && r[|r| - 3..] == " ms"
    ensures |TimePrefix(seconds)| + 3 <= |r| && r[..|TimePrefix(seconds)|] == TimePrefix(seconds)
    ensures ParseInt(r[|TimePrefix(seconds)|..]) == Some(count)
  {
    LabelAfter(TimePrefix(seconds), count);
    TimePrefix(seconds) + CountText(count)
  }

  /** The millisecond count and its label. */
  function CountText(count: nat): string {
    NatToString(count) + " ms"
  }

  /** Whatever comes before it, the count reads back after the prefix and the text
      ends in the label. */
  lemma LabelAfter(prefix: string, count: nat)
    ensures var r := prefix + CountText(count);
      && |prefix| + 3 <= |r| && r[..|prefix|] == prefix
      && ParseInt(r[|prefix|..]) == Some(count)
      && r[|r| - 3..] == " ms"
  {
    var number := CountText(count);
    ParseIntOfLabel(count, " ms");
    assert (prefix + number)[..|prefix|] == prefix;
    assert (prefix + number)[|prefix|..] == number;
  }
  /** `formatTime` (index.mjs:58-59) as written: `(ns - ns % ms_div) / ms_div`.
      After the duration of the whole seconds it prints the nanoseconds divided
      by `ms_div`, rounded down. */
  function FormatTime(seconds: nat, nanos: nat): (r: string)
    ensures |TimePrefix(seconds)| <= |r| && r[..|TimePrefix(seconds)|] == TimePrefix(seconds)
    ensures ParseInt(r[|TimePrefix(seconds)|..]) == Some(nanos / MsDivAsWritten)
  {
    assert (nanos - nanos % MsDivAsWritten) / MsDivAsWritten == nanos / MsDivAsWritten;
    TimeText(seconds, (nanos - nanos % MsDivAsWritten) / MsDivAsWritten)
  }

  /** `formatTime` with the divisor the " ms" label calls for: after the duration
      of the whole seconds it prints the whole milliseconds of the nanoseconds. */
  function FormatTimeIntended(seconds: nat, nanos: nat): (r: string)
    ensures |TimePrefix(seconds)| <= |r| && r[..|TimePrefix(seconds)|] == TimePrefix(seconds)
    ensures ParseInt(r[|TimePrefix(seconds)|..]) == Some(nanos / NanosPerMs)
  {
    assert (nanos - nanos % NanosPerMs) / NanosPerMs == nanos / NanosPerMs;
    TimeText(seconds, (nanos - nanos % NanosPerMs) / NanosPerMs)
  }

  /** As written, for any whole seconds, the number before " ms" counts the
      nanoseconds in whole tens of milliseconds, so a sub-second remainder never
      prints more than "99 ms". */
  lemma FormatTimeAsWritten(seconds: nat, nanos: nat)
    ensures var c := ParseInt(FormatTime(seconds, nanos)[|TimePrefix(seconds)|..]).value;
      && c * 10 * NanosPerMs <= nanos < (c + 1) * 10 * NanosPerMs
      && (nanos < 1_000_000_000 ==> c <= 99)
  {
    var c := nanos / MsDivAsWritten;
    assert c * MsDivAsWritten <= nanos < (c + 1) * MsDivAsWritten;
  }

  /** The input that shows it: five milliseconds print as "0 ms" as written, and as
      "5 ms" with the intended divisor. */
  lemma FormatTimeCountsTens()
    ensures FormatTime(0, 5_000_000) == "0 ms"
    ensures FormatTimeIntended(0, 5_000_000) == "5 ms"
  {
    assert FormatTime(0, 5_000_000) == TimeText(0, 0);
    assert FormatTimeIntended(0, 5_000_000) == TimeText(0, 5);
    CountOnly(0);
    CountOnly(5);
    ZeroAndFive();
  }

  /** Without whole seconds the text is the count and its label alone. */
  lemma CountOnly(count: nat)
    ensures TimeText(0, count) == CountText(count)
  {
    assert TimePrefix(0) == "";
  }

  lemma ZeroAndFive()
    ensures CountText(0) == "0 ms" && CountText(5) == "5 ms"
  {
    assert NatToString(0) == "0" && NatToString(5) == "5";
  }

  /** With the intended divisor, for any whole seconds, the printed count is the
      whole milliseconds of the nanosecond part. */
  lemma FormatTimeIntendedMs(seconds: nat, nanos: nat)
    ensures var m := ParseInt(FormatTimeIntended(seconds, nanos)[|TimePrefix(seconds)|..]).value;
      m * NanosPerMs <= nanos < (m + 1) * NanosPerMs
  {
    var m := nanos / NanosPerMs;
    assert m * NanosPerMs <= nanos < (m + 1) * NanosPerMs;
  }

  /** A worked example: 3725 seconds are one hour, two minutes and five seconds. */
  lemma DurationExample()
    ensures DurationText(3725) == "1 hour" + ", " + "2 minutes" + " and " + "5 seconds"
  {
    ExampleParts();
    ExampleTexts();
    assert DurationText(3725) == JoinList(["1 hour", "2 minutes", "5 seconds"]);
    ExampleJoin();
  }

  lemma ExampleJoin()
    ensures JoinList(["1 hour", "2 minutes", "5 seconds"]) == "1 hour" + ", " + "2 minutes" + " and " + "5 seconds"
  {
    JoinListItems(["1 hour", "2 minutes", "5 seconds"]);
    JoinListItems(["2 minutes", "5 seconds"]);
    assert ["1 hour", "2 minutes", "5 seconds"][1..] == ["2 minutes", "5 seconds"];
  }

  lemma ExampleParts()
    ensures Parts(3725) == [Part(1, 2), Part(2, 3), Part(5, 4)]
  {
    assert Breakdown(3725) == Counts(0, 0, 1, 2, 5);
  }

  lemma ExampleTexts()
    ensures Texts([Part(1, 2), Part(2, 3), Part(5, 4)]) == ["1 hour", "2 minutes", "5 seconds"]
  {
    OneHour();
    TwoMinutes();
    FiveSeconds();
    var texts := Texts([Part(1, 2), Part(2, 3), Part(5, 4)]);
    assert texts[0] == "1 hour" && texts[1] == "2 minutes" && texts[2] == "5 seconds";
  }

  lemma OneHour()
    ensures PartText(Part(1, 2)) == "1 hour"
  {
    assert NatToString(1) == "1" && UnitNames[2] == "hour";
  }

  lemma TwoMinutes()
    ensures PartText(Part(2, 3)) == "2 minutes"
  {
    assert NatToString(2) == "2" && UnitNames[3] == "minute";
  }

  lemma FiveSeconds()
    ensures PartText(Part(5, 4)) == "5 seconds"
  {
    assert NatToString(5) == "5" && UnitNames[4] == "second";
  }
}
