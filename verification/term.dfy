/**
 Term-code resolution (`Season` in src/lib.rs). The clock reading the source
 takes from `chrono::Utc::now()` is passed in as a calendar year and month.
 */
module Term {
  import opened Wrappers
  import opened Decimal

  datatype Season = Fall | Spring | Summer

  /** A calendar month as the clock reports it. */
  type Month = m: int | 1 <= m <= 12 witness 1

  /** The fixed single-digit term id of a season. */
  function Id(season: Season): (id: nat)
    ensures 1 <= id <= 9
  {
    match season
    case Fall => 8
    case Spring => 2
    case Summer => 5
  }

  /** Distinct seasons have distinct ids. */
  lemma IdInjective(a: Season, b: Season)
    ensures Id(a) == Id(b) <==> a == b
  {
  }

  /** The season a term id stands for, if any: the inverse of `Id`. */
  function SeasonOfId(id: int): (r: Option<Season>)
    ensures forall season: Season :: r == Some(season) <==> Id(season) == id
  {
    if id == 8 then Some(Fall)
    else if id == 2 then Some(Spring)
    else if id == 5 then Some(Summer)
    else None
  }

  /** The academic year of the season's term: Spring is the next calendar year once April is over. */
  function Year(season: Season, year: int, month: Month): (y: int)
    ensures y == year || y == year + 1
    ensures y == year + 1 <==> season == Spring && month > 4
  {
    if season == Spring && month > 4 then year + 1 else year
  }

  /** The term code: the decimal year, a literal '0', then the decimal id. */
  function TermCode(season: Season, year: int, month: Month): (code: string)
    ensures |code| == |ShowInt(Year(season, year, month))| + 2
    ensures code[..|code| - 2] == ShowInt(Year(season, year, month))
    ensures code[|code| - 2] == '0'
    ensures code[|code| - 1] == DigitChar(Id(season))
  {
    ShowInt(Year(season, year, month)) + "0" + ShowInt(Id(season))
  }

  /** Reads a term code back into its academic year and season. */
  function DecodeTermCode(code: string): (r: Option<(int, Season)>)
  {
    if |code| < 3 || code[|code| - 2] != '0' || !IsDigit(code[|code| - 1]) then None
    else
      match (ParseInt(code[..|code| - 2]), SeasonOfId(DigitValue(code[|code| - 1])))
      case (Some(y), Some(season)) => Some((y, season))
      case _ => None
  }

  /** Decoding a term code recovers the academic year and the season. */
  lemma DecodeTermCodeRoundTrip(season: Season, year: int, month: Month)
    ensures DecodeTermCode(TermCode(season, year, month)) == Some((Year(season, year, month), season))
  {
    var code := TermCode(season, year, month);
    ParseShowInt(Year(season, year, month));
    assert DigitValue(code[|code| - 1]) == Id(season);
  }

  /** Two clock readings give the same term code exactly when they give the same season and academic year. */
  lemma TermCodeInjective(s1: Season, y1: int, m1: Month, s2: Season, y2: int, m2: Month)
    ensures TermCode(s1, y1, m1) == TermCode(s2, y2, m2)
        <==> s1 == s2 && Year(s1, y1, m1) == Year(s2, y2, m2)
  {
    if TermCode(s1, y1, m1) == TermCode(s2, y2, m2) {
      DecodeTermCodeRoundTrip(s1, y1, m1);
      DecodeTermCodeRoundTrip(s2, y2, m2);
    }
  }

  /** Spring before May keeps the calendar year. */
  lemma SpringEarlyKeepsYear(year: int, month: Month)
    requires month <= 4
    ensures Year(Spring, year, month) == year
  {
  }

  /** Spring from May on moves to the next calendar year. */
  lemma SpringLateNextYear(year: int, month: Month)
    requires month > 4
    ensures Year(Spring, year, month) == year + 1
  {
  }

  /** Fall and Summer terms do not depend on the month. */
  lemma FallSummerIgnoreMonth(season: Season, year: int, m1: Month, m2: Month)
    requires season != Spring
    ensures Year(season, year, m1) == year
    ensures TermCode(season, year, m1) == TermCode(season, year, m2)
  {
  }

  /**
   The Spring code is one value for January to April and another from May to
   December, and the two values differ.
   */
  lemma SpringCodeByHalfYear(year: int, m1: Month, m2: Month)
    ensures TermCode(Spring, year, m1) == TermCode(Spring, year, m2) <==> (m1 <= 4 <==> m2 <= 4)
  {
    TermCodeInjective(Spring, year, m1, Spring, year, m2);
  }

  /** The last two characters are the zero-padded id: "08", "02" or "05". */
  lemma TermCodeSuffix(season: Season, year: int, month: Month)
    ensures var code := TermCode(season, year, month);
      code[|code| - 2..] == match season case Fall => "08" case Spring => "02" case Summer => "05"
  {
  }

  /** For a four-digit academic year the code is six characters long. */
  lemma TermCodeLengthSix(season: Season, year: int, month: Month)
    requires 1000 <= Year(season, year, month) <= 9999
    ensures |TermCode(season, year, month)| == 6
  {
    ShowNatFourDigits(Year(season, year, month));
  }

  /** May 2025 resolves Spring to the 2026 term and Fall to the 2025 term. */
  lemma TermCodeExamples()
    ensures TermCode(Spring, 2025, 5) == "202602"
    ensures TermCode(Spring, 2025, 4) == "202502"
    ensures TermCode(Fall, 2025, 5) == "202508"
    ensures TermCode(Summer, 2025, 12) == "202505"
  {
    var s26 := ShowNat(2026);
    assert ShowNat(202) == ShowNat(20) + "2";
    assert s26 == ShowNat(202) + "6";
    assert ShowNat(2025) == ShowNat(202) + "5";
  }
}
