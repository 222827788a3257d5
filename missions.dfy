/**
 * The 30-entry mission catalog and the lookup of today's mission.
 *
 * The catalog is built once at start-up by a loop (`BuildMissions`); the
 * function `Catalog` is the table that loop is proved to build, and the
 * lookup reads it.
 */
module Missions {
  import opened Wrappers
  import opened Calendar
  import opened Numbers
  import opened Text

  const Observation := "Наблюдение: выбери место, 5 мин — запомни 10 деталей, потом восстанови."
  const Memory := "Память: 10 минут головоломок или тренировка loci на 10 элементов."
  const Communication := "Коммуникация: отзеркаль 1–2 собеседников и проанализируй реакцию."
  const Strategy := "Стратегия: сформируй план дня в формате OODA и выполни миссию вне зоны комфорта."

  /** The theme of day i: observation in the first week, memory in the second,
      communication in the third, strategy for the rest. */
  function Theme(i: int): string {
    if i <= 7 then Observation
    else if i <= 14 then Memory
    else if i <= 21 then Communication
    else Strategy
  }

  /** A catalog line: "День", the day number, a colon and the theme text. */
  function Line(day: nat, theme: string): string {
    "День " + Decimal(day) + ": " + theme
  }

  /** The catalog line of day i. */
  function Entry(i: nat): string {
    Line(i, Theme(i))
  }

  /** The catalog: entry k holds the mission of day k + 1. */
  function Catalog(): (missions: seq<string>)
    ensures |missions| == 30
  {
    seq(30, k requires 0 <= k < 30 => Entry(k + 1))
  }

  /** The start-up loop that fills the mission list, one line per day 1..30. */
  method BuildMissions() returns (missions: seq<string>)
    ensures missions == Catalog()
  {
    missions := [];
    for i := 1 to 31
      invariant |missions| == i - 1
      invariant forall k :: 0 <= k < |missions| ==> missions[k] == Entry(k + 1)
    {
      var m;
      if i <= 7 {
        m := Observation;
      } else if i <= 14 {
        m := Memory;
      } else if i <= 21 {
        m := Communication;
      } else {
        m := Strategy;
      }
      assert Line(i, m) == Entry(i);
      ghost var before := missions;
      missions := missions + [Line(i, m)];
      assert forall k :: 0 <= k < |before| ==> missions[k] == before[k];
    }
    assert forall k :: 0 <= k < 30 ==> missions[k] == Catalog()[k];
  }

  /** The catalog has 30 lines; line i - 1 is "День i: " followed by the
      observation text for days 1-7, memory for 8-14, communication for
      15-21 and strategy for 22-30. */
  lemma CatalogThemes()
    ensures |Catalog()| == 30
    ensures forall i :: 1 <= i <= 7 ==> Catalog()[i - 1] == Line(i, Observation)
    ensures forall i :: 8 <= i <= 14 ==> Catalog()[i - 1] == Line(i, Memory)
    ensures forall i :: 15 <= i <= 21 ==> Catalog()[i - 1] == Line(i, Communication)
    ensures forall i :: 22 <= i <= 30 ==> Catalog()[i - 1] == Line(i, Strategy)
  {
  }

  /** `/mission`: the catalog line for today's day of the month. The index
      `(day_index - 1) % 30` is always in range and is just `day_index - 1`. */
  function MissionFor(dayOfMonth: int): (mission: string)
    ensures mission == Catalog()[DayIndex(dayOfMonth) - 1]
    ensures mission == Entry(DayIndex(dayOfMonth))
    ensures 1 <= dayOfMonth <= 30 ==> mission == Entry(dayOfMonth)
    ensures dayOfMonth == 31 ==> mission == Entry(1)
  {
    var missions := Catalog();
    var idx := DayIndex(dayOfMonth);
    assert |missions| == 30 && (idx - 1) % 30 == idx - 1;
    missions[(idx - 1) % |missions|]
  }

  /** The text before the first colon of a catalog line is "День " and the
      day number: the theme cannot disturb it. */
  lemma LineDayNumber(day: nat, theme: string)
    ensures Split(Line(day, theme), ':')[0] == "День " + Decimal(day)
  {
    var digits := Decimal(day);
    var head := "День " + digits;
    assert ':' !in head;
    assert Line(day, theme) == head + [':'] + (" " + theme) by {
      assert ": " == [':'] + " ";
    }
    SplitAtFirst(head, ':', " " + theme);
  }

  /** Different days get different catalog lines, so each of the 30 entries
      is the mission of exactly one day index. */
  lemma EntryInjective(i: nat, j: nat)
    requires Entry(i) == Entry(j)
    ensures i == j
  {
    LineDayNumber(i, Theme(i));
    LineDayNumber(j, Theme(j));
    var hi, hj := "День " + Decimal(i), "День " + Decimal(j);
    assert hi[5..] == Decimal(i) && hj[5..] == Decimal(j);
    DecimalInjective(i, j);
  }

  /** Two days of the month share a mission exactly when they share a day index. */
  lemma SameMissionSameIndex(d1: int, d2: int)
    ensures MissionFor(d1) == MissionFor(d2) <==> DayIndex(d1) == DayIndex(d2)
  {
    if MissionFor(d1) == MissionFor(d2) {
      EntryInjective(DayIndex(d1), DayIndex(d2));
    }
  }
}
