/**
 * The "time ago" text shown next to a post. A table of units, largest first,
 * is searched for the first unit shorter than the elapsed time. The count of
 * whole units is printed with the unit's label, pluralised with an "s".
 *
 * The table is shared by every call and one call can change it: a month count
 * other than one renames the month label to the plural stem "mese" for good,
 * so only two tables can ever be observed (`Reachable`).
 */
module RelativeTime {
  import opened Seqs
  import opened Strings

  datatype Interval = Interval(name: string, seconds: int)

  const MonthIndex: nat := 1
  const MonthLabel := "mês"
  const MonthPluralStem := "mese"
  const JustNow := "Recentemente"
  const Ago := " atrás"

  /** The table as the program starts with it, largest unit first. */
  const InitialIntervals: seq<Interval> := [
    Interval("ano", 31536000),
    Interval(MonthLabel, 2592000),
    Interval("dia", 86400),
    Interval("hora", 3600),
    Interval("minuto", 60),
    Interval("segundo", 1)
  ]

  /** The table after the month label has been overwritten. */
  const RenamedIntervals: seq<Interval> :=
    InitialIntervals[MonthIndex := Interval(MonthPluralStem, InitialIntervals[MonthIndex].seconds)]

  /** The plural each unit is meant to print, listed independently of the table. */
  const Plurals: seq<string> := ["anos", "meses", "dias", "horas", "minutos", "segundos"]

  /** The tables that can exist while the program runs. */
  predicate Reachable(table: seq<Interval>)
  {
    table == InitialIntervals || table == RenamedIntervals
  }

  predicate PositiveUnits(table: seq<Interval>)
  {
    forall j :: 0 <= j < |table| ==> table[j].seconds > 0
  }

  /** Whole seconds between two instants given in milliseconds, rounded down. */
  function ElapsedSeconds(nowMs: int, dateMs: int): (s: int)
    ensures 1000 * s <= nowMs - dateMs < 1000 * s + 1000
  {
    (nowMs - dateMs) / 1000
  }

  /** `intervals.find(i => i.seconds < seconds)`, as an index into the table. */
  function FirstShorter(table: seq<Interval>, seconds: int): (k: Option<nat>)
  {
    First(table, (i: Interval) => i.seconds < seconds)
  }

  /** What the formatter decides: no unit fits, or a unit and how many whole ones elapsed. */
  datatype Choice = Recent | Units(index: nat, count: nat)

  function Choose(table: seq<Interval>, seconds: int): (c: Choice)
    requires PositiveUnits(table)
    ensures c.Recent? <==> forall j :: 0 <= j < |table| ==> table[j].seconds >= seconds
    ensures c.Units? ==> c.index < |table| && table[c.index].seconds < seconds
    ensures c.Units? ==> forall j :: 0 <= j < c.index ==> table[j].seconds >= seconds
    ensures c.Units? ==> 1 <= c.count
    ensures c.Units? ==>
      c.count * table[c.index].seconds <= seconds < (c.count + 1) * table[c.index].seconds
  {
    match FirstShorter(table, seconds)
    case None => Recent
    case Some(k) =>
      WholeUnits(seconds, table[k].seconds);
      Units(k, seconds / table[k].seconds)
  }

  /** Dividing by a shorter positive unit counts at least one whole unit, rounded down. */
  lemma WholeUnits(seconds: int, unit: int)
    requires 0 < unit < seconds
    ensures 1 <= seconds / unit
    ensures (seconds / unit) * unit <= seconds < (seconds / unit + 1) * unit
  {
    var q, r := seconds / unit, seconds % unit;
    assert seconds == q * unit + r && 0 <= r < unit;
    assert (q + 1) * unit == q * unit + unit;
  }

  /** The table after a call: the month entry is renamed when its count is not one. */
  function Relabel(table: seq<Interval>, seconds: int): (t: seq<Interval>)
    requires PositiveUnits(table)
    ensures |t| == |table|
    ensures forall j :: 0 <= j < |table| ==> t[j].seconds == table[j].seconds
    ensures forall j :: 0 <= j < |table| && table[j].name != MonthLabel ==> t[j] == table[j]
    ensures forall j :: 0 <= j < |table| ==> t[j].name in {table[j].name, MonthPluralStem}
  {
    match Choose(table, seconds)
    case Recent => table
    case Units(k, count) => table[k := Interval(LabelAfter(table[k].name, count), table[k].seconds)]
  }

  /** The label an entry holds once a call has counted `count` of it: only `mês` with a plural count changes. */
  function LabelAfter(name: string, count: nat): (r: string)
  {
    if name == MonthLabel && count != 1 then MonthPluralStem else name
  }

  /** `${count} ${label}${count !== 1 ? 's' : ''} atrás`: the count and the label first, " atrás" last. */
  function Render(count: nat, unit: string): (text: string)
    ensures NatToString(count) + " " + unit <= text
    ensures |Ago| <= |text| && text[|text| - |Ago|..] == Ago
  {
    NatToString(count) + " " + unit + (if count != 1 then "s" else "") + Ago
  }

  /**
   * The text a call returns; the label is read after the call has renamed it.
   * It is the "just now" text exactly when no unit is shorter than the elapsed time.
   */
  function Describe(table: seq<Interval>, seconds: int): (text: string)
    requires PositiveUnits(table)
    ensures text == JustNow <==> Choose(table, seconds).Recent?
  {
    match Choose(table, seconds)
    case Recent => JustNow
    case Units(k, count) =>
      var text := Render(count, LabelAfter(table[k].name, count));
      assert JustNow[|JustNow| - |Ago|..] != Ago;
      text
  }

  /** The formatter object: the table shared by every rendering. */
  class Formatter {
    var intervals: seq<Interval>

    ghost predicate Valid()
      reads this
    {
      Reachable(intervals)
    }

    constructor ()
      ensures Valid() && intervals == InitialIntervals
    {
      intervals := InitialIntervals;
    }

    /** `timeSince(date)` at the instant `nowMs`, both in milliseconds. */
    method TimeSince(nowMs: int, dateMs: int) returns (text: string)
      requires Valid()
      modifies this
      ensures Valid()
      ensures text == Describe(old(intervals), ElapsedSeconds(nowMs, dateMs))
      ensures intervals == Relabel(old(intervals), ElapsedSeconds(nowMs, dateMs))
    {
      ReachableShape(intervals);
      RelabelKeepsReachable(intervals, ElapsedSeconds(nowMs, dateMs));
      var seconds := (nowMs - dateMs) / 1000;
      var found := FirstShorter(intervals, seconds);
      if found.None? {
        return JustNow;
      }
      var k := found.value;
      var count := seconds / intervals[k].seconds;
      if intervals[k].name == MonthLabel && count != 1 {
        intervals := intervals[k := Interval(MonthPluralStem, intervals[k].seconds)];
      }
      text := Render(count, intervals[k].name);
    }
  }

  /** What every reachable table holds: the six unit lengths, and the labels other than the month's. */
  lemma ReachableShape(table: seq<Interval>)
    requires Reachable(table)
    ensures PositiveUnits(table) && |table| == 6
    ensures table[0] == Interval("ano", 31536000)
    ensures table[1].seconds == 2592000 && table[1].name in {MonthLabel, MonthPluralStem}
    ensures table[2] == Interval("dia", 86400)
    ensures table[3] == Interval("hora", 3600)
    ensures table[4] == Interval("minuto", 60)
    ensures table[5] == Interval("segundo", 1)
  {
  }

  /** The unit chosen is the one at `k` when `k` is the first unit shorter than the elapsed time. */
  lemma ChosenAt(table: seq<Interval>, seconds: int, k: nat)
    requires PositiveUnits(table) && k < |table|
    requires table[k].seconds < seconds
    requires forall j :: 0 <= j < k ==> table[j].seconds >= seconds
    ensures Choose(table, seconds).Units? && Choose(table, seconds).index == k
  {
  }

  /** A call leaves a table that can exist, and only the initial table can change. */
  lemma RelabelKeepsReachable(table: seq<Interval>, seconds: int)
    requires Reachable(table)
    ensures PositiveUnits(table)
    ensures Reachable(Relabel(table, seconds))
    ensures Relabel(table, seconds) != table <==>
              table == InitialIntervals && Choose(table, seconds).Units? &&
              Choose(table, seconds).index == MonthIndex && Choose(table, seconds).count != 1
  {
    ReachableShape(table);
    match Choose(table, seconds)
    case Recent =>
    case Units(k, count) =>
      assert table[k].name == MonthLabel <==> table == InitialIntervals && k == MonthIndex;
  }

  /** Once the month label has been renamed it stays renamed: no call changes the table again. */
  lemma RenamedIsFinal(seconds: int)
    ensures PositiveUnits(RenamedIntervals)
    ensures Relabel(RenamedIntervals, seconds) == RenamedIntervals
  {
    RelabelKeepsReachable(RenamedIntervals, seconds);
  }

  /** The choice depends on the units' lengths only, never on their labels. */
  lemma ChoiceIgnoresLabels(a: seq<Interval>, b: seq<Interval>, seconds: int)
    requires PositiveUnits(a) && |a| == |b|
    requires forall j :: 0 <= j < |a| ==> a[j].seconds == b[j].seconds
    ensures PositiveUnits(b)
    ensures Choose(a, seconds) == Choose(b, seconds)
  {
  }

  /** The result is the fixed "just now" text exactly when at most one whole second elapsed. */
  lemma JustNowIffAtMostOneSecond(table: seq<Interval>, seconds: int)
    requires Reachable(table)
    ensures PositiveUnits(table)
    ensures Describe(table, seconds) == JustNow <==> seconds <= 1
  {
    ReachableShape(table);
    match Choose(table, seconds)
    case Recent =>
      assert table[5].seconds >= seconds;
    case Units(k, count) =>
      var text := Describe(table, seconds);
      assert text[|text| - 1] == 's';
      assert JustNow[|JustNow| - 1] == 'e';
  }

  /** In milliseconds: less than two seconds ago, or a date in the future, reads as just now. */
  lemma JustNowWithinTwoSeconds(table: seq<Interval>, nowMs: int, dateMs: int)
    requires Reachable(table)
    ensures PositiveUnits(table)
    ensures Describe(table, ElapsedSeconds(nowMs, dateMs)) == JustNow <==> nowMs - dateMs < 2000
  {
    JustNowIffAtMostOneSecond(table, ElapsedSeconds(nowMs, dateMs));
  }

  /**
   * Every plural prints the unit's intended plural form, whatever happened to the
   * table before; a count of one prints the label as the table holds it now.
   */
  lemma DescribeUnits(table: seq<Interval>, seconds: int)
    requires Reachable(table)
    ensures PositiveUnits(table)
    ensures Choose(table, seconds).Units? ==>
      var k, count := Choose(table, seconds).index, Choose(table, seconds).count;
      Describe(table, seconds) ==
        NatToString(count) + " " + (if count != 1 then Plurals[k] else table[k].name) + Ago
  {
    ReachableShape(table);
    match Choose(table, seconds)
    case Recent =>
    case Units(k, count) =>
      var unit := LabelAfter(table[k].name, count);
      if count != 1 {
        PluralForm(table, k, count);
        assert Render(count, unit) == NatToString(count) + " " + (unit + "s") + Ago;
      } else {
        assert Render(count, unit) == NatToString(count) + " " + unit + Ago;
      }
  }

  /** A count other than one prints the unit's entry in `Plurals`. */
  lemma PluralForm(table: seq<Interval>, k: nat, count: nat)
    requires Reachable(table) && k < |table| && count != 1
    ensures LabelAfter(table[k].name, count) + "s" == Plurals[k]
  {
    ReachableShape(table);
    if k == MonthIndex {
      assert LabelAfter(table[k].name, count) == MonthPluralStem;
    } else {
      assert LabelAfter(table[k].name, count) == table[k].name;
    }
  }

  /**
   * Two months or more, up to a year: the month entry is renamed (if it was not
   * already) and the text is the number of months followed by "meses atrás".
   */
  lemma PluralMonths(table: seq<Interval>, seconds: int)
    requires Reachable(table)
    requires 2 * 2592000 <= seconds <= 31536000
    ensures PositiveUnits(table)
    ensures Choose(table, seconds) == Units(MonthIndex, seconds / 2592000)
    ensures Relabel(table, seconds) == RenamedIntervals
    ensures Describe(table, seconds) == NatToString(seconds / 2592000) + " meses" + Ago
  {
    ReachableShape(table);
    ChosenAt(table, seconds, MonthIndex);
    var count := Choose(table, seconds).count;
    assert count != 1;
    assert LabelAfter(table[MonthIndex].name, count) == MonthPluralStem;
    assert Relabel(table, seconds)[MonthIndex] == Interval(MonthPluralStem, 2592000);
    RenderMonths(count);
  }

  lemma RenderMonths(count: nat)
    requires count != 1
    ensures Render(count, MonthPluralStem) == NatToString(count) + " meses" + Ago
  {
    assert MonthPluralStem + "s" == "meses";
  }

  /** Between one and two months: one month, and the table is left as it was. */
  lemma OneMonth(table: seq<Interval>, seconds: int)
    requires Reachable(table)
    requires 2592000 < seconds < 2 * 2592000
    ensures PositiveUnits(table)
    ensures Choose(table, seconds) == Units(MonthIndex, 1)
    ensures Relabel(table, seconds) == table
    ensures Describe(table, seconds) == if table == InitialIntervals then "1 mês atrás" else "1 mese atrás"
  {
    ReachableShape(table);
    ChosenAt(table, seconds, MonthIndex);
    assert Choose(table, seconds).count == 1;
    assert LabelAfter(table[MonthIndex].name, 1) == table[MonthIndex].name;
    RenderOneMonth();
  }

  lemma RenderOneMonth()
    ensures Render(1, MonthLabel) == "1 mês atrás"
    ensures Render(1, MonthPluralStem) == "1 mese atrás"
  {
    assert NatToString(1) == "1";
  }

  /**
   * After one call that printed a plural number of months, every later one-month
   * result reads "1 mese atrás" where the initial table gives "1 mês atrás".
   */
  lemma SingleMonthAfterPluralMonths(table: seq<Interval>, earlier: int, later: int)
    requires Reachable(table)
    requires 2 * 2592000 <= earlier <= 31536000
    requires 2592000 < later < 2 * 2592000
    ensures PositiveUnits(table) && PositiveUnits(InitialIntervals)
    ensures PositiveUnits(Relabel(table, earlier))
    ensures Relabel(table, earlier) == RenamedIntervals
    ensures Describe(Relabel(table, earlier), later) == "1 mese atrás"
    ensures Describe(InitialIntervals, later) == "1 mês atrás"
  {
    PluralMonths(table, earlier);
    OneMonth(RenamedIntervals, later);
    OneMonth(InitialIntervals, later);
    assert RenamedIntervals[MonthIndex] != InitialIntervals[MonthIndex];
  }

  /** Exactly sixty seconds is not more than a minute, so it is counted in seconds. */
  lemma SixtySecondsInSeconds(table: seq<Interval>)
    requires Reachable(table)
    ensures PositiveUnits(table)
    ensures Describe(table, 60) == "60 segundos atrás"
  {
    ReachableShape(table);
    ChosenAt(table, 60, 5);
    assert Choose(table, 60) == Units(5, 60);
    assert LabelAfter(table[5].name, 60) == "segundo";
    RenderSixtySeconds();
  }

  lemma RenderSixtySeconds()
    ensures Render(60, "segundo") == "60 segundos atrás"
  {
    assert NatToString(60) == "60";
  }

  /** Ninety seconds is one minute, singular. */
  lemma NinetySecondsIsOneMinute(table: seq<Interval>)
    requires Reachable(table)
    ensures PositiveUnits(table)
    ensures Describe(table, 90) == "1 minuto atrás"
  {
    ReachableShape(table);
    ChosenAt(table, 90, 4);
    assert Choose(table, 90) == Units(4, 1);
    assert LabelAfter(table[4].name, 1) == "minuto";
    RenderOneMinute();
  }

  lemma RenderOneMinute()
    ensures Render(1, "minuto") == "1 minuto atrás"
  {
    assert NatToString(1) == "1";
  }

  /**
   * Two renderings through one formatter: sixty days ago, then thirty-one days
   * ago. The second reads "1 mese atrás" because the first renamed the label.
   */
  method TwoRenderings(nowMs: int) returns (first: string, second: string)
    ensures first == "2 meses atrás"
    ensures second == "1 mese atrás"
  {
    var earlier, later := 60 * 86400, 31 * 86400;
    ElapsedWholeSeconds(nowMs, earlier);
    ElapsedWholeSeconds(nowMs, later);
    var f := new Formatter();
    first := f.TimeSince(nowMs, nowMs - earlier * 1000);
    PluralMonths(InitialIntervals, earlier);
    assert f.intervals == RenamedIntervals;
    assert NatToString(2) == "2";
    assert first == "2 meses atrás";
    second := f.TimeSince(nowMs, nowMs - later * 1000);
    SingleMonthAfterPluralMonths(InitialIntervals, earlier, later);
  }

  lemma ElapsedWholeSeconds(nowMs: int, seconds: int)
    ensures ElapsedSeconds(nowMs, nowMs - seconds * 1000) == seconds
  {
  }
}
