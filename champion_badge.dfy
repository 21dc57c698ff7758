/** `ChampionBadge` from `src/components/ChampionBadge.jsx`: nothing for a
    missing or empty list of championship years; otherwise a title
    "<count>x World Champion" and the years joined with ", ". The markup and
    the trophy icon are left out; the two texts are what the badge shows. */
module ChampionBadge {
  import opened Optional
  import opened Decimal

  const Separator: string := ", "
  const TitleTail: string := "x World Champion"

  /** The two texts the badge displays. */
  datatype Badge = Badge(title: string, yearsDisplay: string)

  /** `years.join(', ')` for a list of numbers. */
  function JoinYears(years: seq<int>): (text: string)
    ensures text == "" <==> years == []
    ensures |text| >= 3 * |years| - 2
    decreases |years|
  {
    if years == [] then ""
    else if |years| == 1 then IntToString(years[0])
    else IntToString(years[0]) + Separator + JoinYears(years[1..])
  }

  /** Reads a years text back: numbers separated by exactly ", ", with nothing
      before the first or after the last. */
  function ParseYears(s: string): Option<seq<int>>
    decreases |s|
  {
    match ParseInt(s)
    case None => None
    case Some((n, rest)) =>
      if rest == [] then Some([n])
      else if |rest| >= 2 && rest[..2] == Separator then
        match ParseYears(rest[2..])
        case None => None
        case Some(ns) => Some([n] + ns)
      else None
  }

  /** Reads a title back: a decimal count directly followed by
      "x World Champion". */
  function ParseTitle(t: string): Option<nat>
  {
    if |t| > |TitleTail| && t[|t| - |TitleTail|..] == TitleTail && AllDigits(t[..|t| - |TitleTail|])
    then Some(DigitsValue(t[..|t| - |TitleTail|]))
    else None
  }

  /** A single number reads back as a one-year list. */
  lemma ParseYearsSingle(year: int)
    ensures ParseYears(IntToString(year)) == Some([year])
  {
    IntToStringRoundTrip(year, []);
    assert IntToString(year) + [] == IntToString(year);
  }

  /** A number followed by the separator: the rest is read as more years. */
  lemma ParseYearsCons(year: int, rest: string, more: seq<int>)
    requires ParseYears(rest) == Some(more)
    ensures ParseYears(IntToString(year) + (Separator + rest)) == Some([year] + more)
  {
    var t := Separator + rest;
    IntToStringRoundTrip(year, t);
    assert t != [] && |t| >= 2 && t[..2] == Separator && t[2..] == rest;
  }

  lemma JoinYearsCons(years: seq<int>)
    requires |years| >= 2
    ensures JoinYears(years) == IntToString(years[0]) + (Separator + JoinYears(years[1..]))
  {
  }

  /** The years text lists the years in order, separated by ", ", with no
      separator at either end: reading it back gives the list. */
  lemma {:induction false} JoinYearsRoundTrip(years: seq<int>)
    requires years != []
    ensures ParseYears(JoinYears(years)) == Some(years)
    decreases |years|
  {
    if |years| == 1 {
      ParseYearsSingle(years[0]);
      assert JoinYears(years) == IntToString(years[0]) && years == [years[0]];
    } else {
      var tail := JoinYears(years[1..]);
      JoinYearsCons(years);
      JoinYearsRoundTrip(years[1..]);
      ParseYearsCons(years[0], tail, years[1..]);
      assert [years[0]] + years[1..] == years;
    }
  }

  /** The title reads back as the count it was built from. */
  lemma TitleRoundTrip(count: nat)
    ensures ParseTitle(NatToString(count) + TitleTail) == Some(count)
  {
    var t := NatToString(count) + TitleTail;
    assert t[..|t| - |TitleTail|] == NatToString(count);
    assert t[|t| - |TitleTail|..] == TitleTail;
    NatToStringRoundTrip(count);
  }

  /** The badge for a driver's `championshipYears`: none when the list is
      missing or empty; otherwise its title counts the years and its years
      text lists them in order. */
  function Render(championshipYears: Option<seq<int>>): (badge: Option<Badge>)
    ensures badge.None? <==> championshipYears.None? || championshipYears.value == []
    ensures badge.Some? ==> ParseTitle(badge.value.title) == Some(|championshipYears.value|)
    ensures badge.Some? ==> ParseYears(badge.value.yearsDisplay) == championshipYears
  {
    match championshipYears
    case None => None
    case Some(years) =>
      if |years| == 0 then None
      else
        var championCount := |years|;
        TitleRoundTrip(championCount);
        JoinYearsRoundTrip(years);
        Some(Badge(NatToString(championCount) + TitleTail, JoinYears(years)))
  }

  /** A single year is shown alone, without a separator, under the title
      "1x World Champion". */
  lemma SingleYearBadge(year: int)
    ensures Render(Some([year])) == Some(Badge("1x World Champion", IntToString(year)))
  {
    assert NatToString(1) == "1";
    assert NatToString(|[year]|) + TitleTail == "1x World Champion";
    assert JoinYears([year]) == IntToString(year);
  }

  /** The decimal texts of the years in the component's tests. */
  lemma TestYearTexts()
    ensures IntToString(2008) == "2008"
    ensures IntToString(2014) == "2014"
    ensures IntToString(2015) == "2015"
  {
    assert NatToString(20) == NatToString(2) + "0";
    assert NatToString(201) == NatToString(20) + "1";
    assert NatToString(200) == NatToString(20) + "0";
    assert NatToString(2008) == NatToString(200) + "8";
    assert NatToString(2014) == NatToString(201) + "4";
    assert NatToString(2015) == NatToString(201) + "5";
  }

  /** The badge of the component's tests. */
  lemma RenderExample()
    ensures Render(Some([2008, 2014, 2015])) == Some(Badge("3x World Champion", "2008, 2014, 2015"))
    ensures Render(Some([])) == None
  {
    TestYearTexts();
    var years := [2008, 2014, 2015];
    JoinYearsCons(years);
    JoinYearsCons(years[1..]);
    assert years[1..][1..] == [2015];
    assert JoinYears(years) == "2008, 2014, 2015";
    assert NatToString(|years|) + TitleTail == "3x World Champion";
  }
}
