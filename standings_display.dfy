/** `formatPosition` from `src/components/StandingsDisplay.jsx`: a standing as
    an English ordinal ("1st", "22nd", "113th"), or "N/A" for no standing.

    The source picks the suffix with one compact expression over the last two
    digits: the table entry at the truncated remainder of (last two - 20) by
    10, else the entry at the last two digits, else entry 0. It is modelled
    here as JavaScript evaluates it, and then proved equal to the usual
    English rule. */
module StandingsDisplay {
  import opened Optional
  import opened Decimal

  /** The suffix table, indexed 0 to 3. */
  const Suffixes: seq<string> := ["th", "st", "nd", "rd"]

  /** JavaScript's `%` on whole numbers: the quotient truncates toward zero, so
      the remainder has the sign of the dividend (`-13 % 10` is `-3`). */
  function JsRemainder(a: int, b: int): (r: int)
    requires b > 0
    ensures -b < r < b
    ensures a >= 0 ==> 0 <= r == a % b
    ensures a < 0 ==> r <= 0 && r == -((-a) % b)
  {
    if a >= 0 then a % b else -((-a) % b)
  }

  /** `suffix[i]`: the entry, or `undefined` for any other index. A remainder
      of `-0` indexes the property "0" in JavaScript, the same entry the
      integer 0 selects here. */
  function SuffixAt(i: int): (r: Option<string>)
    ensures r.Some? <==> 0 <= i < 4
  {
    if 0 <= i < |Suffixes| then Some(Suffixes[i]) else None
  }

  /** `x || y` where each side is a string or `undefined`: `x` when it is a
      non-empty string, `y` otherwise. */
  function Or(x: Option<string>, y: Option<string>): Option<string>
  {
    if x.Some? && x.value != "" then x else y
  }

  /** What `number + v` appends for `v`: the string itself, or the text
      "undefined". */
  function AppendedText(v: Option<string>): string
  {
    match v
    case Some(s) => s
    case None => "undefined"
  }

  /** The three-way fallback of the source over the last two digits `value`:
      the entry at the truncated remainder of `value - 20` by 10, else the
      entry at `value`, else entry 0. */
  function LastTwoSuffix(value: int): Option<string>
  {
    Or(Or(SuffixAt(JsRemainder(value - 20, 10)), SuffixAt(value)), SuffixAt(0))
  }

  /** The suffix expression of the source, evaluated as JavaScript does. It
      always finds a table entry, so `undefined` is never appended. */
  function PositionSuffix(pos: nat): (r: Option<string>)
    ensures r.Some? && r.value in Suffixes
  {
    LastTwoSuffix(JsRemainder(pos, 100))
  }

  /** `formatPosition(pos)` for a non-negative whole number. */
  function FormatPosition(pos: nat): (r: string)
    ensures r == "N/A" <==> pos == 0
    ensures pos != 0 ==> |r| == |NatToString(pos)| + 2
    ensures pos != 0 ==> r[..|NatToString(pos)|] == NatToString(pos)
    ensures pos != 0 ==> r[|NatToString(pos)|..] in Suffixes
  {
    if pos == 0 then "N/A"
    else
      var digits := NatToString(pos);
      var r := digits + AppendedText(PositionSuffix(pos));
      assert r[..|digits|] == digits;
      assert r[0] != 'N';
      r
  }

  /** The usual English rule: 11, 12 and 13 (modulo 100) take "th"; otherwise
      a last digit of 1, 2 or 3 takes "st", "nd" or "rd", and any other
      "th". */
  function OrdinalSuffix(n: nat): string
  {
    if 11 <= n % 100 <= 13 then "th"
    else if n % 10 == 1 then "st"
    else if n % 10 == 2 then "nd"
    else if n % 10 == 3 then "rd"
    else "th"
  }

  lemma LastDigitOfLastTwo(n: nat)
    ensures n % 10 == (n % 100) % 10
  {
    var q, r := n / 100, n % 100;
    assert n == 100 * q + r;
    assert n == 10 * (10 * q + r / 10) + r % 10;
  }

  /** The suffix is a function of `pos % 100` alone. */
  lemma SuffixDependsOnLastTwoDigits(p: nat, q: nat)
    requires p % 100 == q % 100
    ensures PositionSuffix(p) == PositionSuffix(q)
  {
  }

  /** The compact expression agrees with the English rule on the last two
      digits: from 20 on, the remainder of `value - 20` by 10 is the last digit
      and indexes the table when it is 0 to 3; below 20 it is zero or
      negative, so the entry at `value` decides, which exists only for 1, 2
      and 3; every remaining case falls back to entry 0. */
  lemma SuffixOfLastTwo(value: int)
    requires 0 <= value < 100
    ensures LastTwoSuffix(value) == Some(OrdinalSuffix(value))
  {
    var index := JsRemainder(value - 20, 10);
    if value >= 20 {
      assert index == value % 10;
      assert SuffixAt(value).None?;
    } else if value == 0 || value == 10 {
      assert index == 0;
    } else {
      assert index < 0;
    }
  }

  /** The suffix expression of the source equals the English rule for every
      standing. */
  lemma PositionSuffixIsOrdinal(pos: nat)
    ensures PositionSuffix(pos) == Some(OrdinalSuffix(pos))
  {
    var value := pos % 100;
    LastDigitOfLastTwo(pos);
    SuffixOfLastTwo(value);
    assert OrdinalSuffix(value) == OrdinalSuffix(pos);
  }

  /** Every non-zero standing is its decimal digits followed by its English
      ordinal suffix. */
  lemma FormatPositionIsEnglishOrdinal(pos: nat)
    requires pos >= 1
    ensures FormatPosition(pos) == NatToString(pos) + OrdinalSuffix(pos)
  {
    PositionSuffixIsOrdinal(pos);
  }

  /** Different standings are displayed differently. */
  lemma FormatPositionInjective(p: nat, q: nat)
    requires FormatPosition(p) == FormatPosition(q)
    ensures p == q
  {
    if p != 0 && q != 0 {
      var r := FormatPosition(p);
      assert |NatToString(p)| == |NatToString(q)| == |r| - 2;
      NatToStringInjective(p, q);
    }
  }

  /** The standings shown in the component's tests. */
  lemma FormatPositionExamples()
    ensures FormatPosition(0) == "N/A"
    ensures FormatPosition(1) == "1st"
    ensures FormatPosition(2) == "2nd"
    ensures FormatPosition(3) == "3rd"
    ensures FormatPosition(4) == "4th"
  {
    FormatPositionIsEnglishOrdinal(1);
    FormatPositionIsEnglishOrdinal(2);
    FormatPositionIsEnglishOrdinal(3);
    FormatPositionIsEnglishOrdinal(4);
  }

  /** The teens and later "1st" and "2nd". */
  lemma FormatPositionMoreExamples()
    ensures FormatPosition(11) == "11th"
    ensures FormatPosition(21) == "21st"
    ensures FormatPosition(22) == "22nd"
  {
    assert NatToString(11) == "11" by { assert NatToString(11) == NatToString(1) + "1"; }
    assert NatToString(21) == "21" by { assert NatToString(21) == NatToString(2) + "1"; }
    assert NatToString(22) == "22" by { assert NatToString(22) == NatToString(2) + "2"; }
    FormatPositionIsEnglishOrdinal(11);
    FormatPositionIsEnglishOrdinal(21);
    FormatPositionIsEnglishOrdinal(22);
  }

  /** The hundreds: the suffix follows the last two digits only. */
  lemma FormatPositionHundredsExamples()
    ensures FormatPosition(100) == "100th"
    ensures FormatPosition(101) == "101st"
    ensures FormatPosition(111) == "111th"
    ensures FormatPosition(112) == "112th"
  {
    assert NatToString(10) == "10" by { assert NatToString(10) == NatToString(1) + "0"; }
    assert NatToString(11) == "11" by { assert NatToString(11) == NatToString(1) + "1"; }
    assert NatToString(100) == "100" by { assert NatToString(100) == NatToString(10) + "0"; }
    assert NatToString(101) == "101" by { assert NatToString(101) == NatToString(10) + "1"; }
    assert NatToString(111) == "111" by { assert NatToString(111) == NatToString(11) + "1"; }
    assert NatToString(112) == "112" by { assert NatToString(112) == NatToString(11) + "2"; }
    FormatPositionIsEnglishOrdinal(100);
    FormatPositionIsEnglishOrdinal(101);
    FormatPositionIsEnglishOrdinal(111);
    FormatPositionIsEnglishOrdinal(112);
  }
}
