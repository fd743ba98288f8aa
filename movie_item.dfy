/**
  The runtime helpers of `AIMovieSearch/Models/MovieItem.swift`: the raw
  `"142 min"` text of the catalog becomes a number of minutes, and a number
  of minutes is shown as hours and minutes with singular or plural unit
  words. Swift's `Int` is 64 bits wide and its `/` and `%` truncate toward
  zero; both are written out here.
 */
module Movie {
  import opened Wrappers
  import opened Text

  /** The catalog record as decoded from the CSV file; every field is text. */
  datatype MovieDataItem = MovieDataItem(
    title: string, titleProcessed: string, releaseYear: string,
    posterLinkSmall: string, posterLinkLarge: string,
    plotIMBDShort: string, plotWikiLong: Option<string>,
    certificate: string, runtime: string, genre: string,
    imbdRating: string, metaScore: string, director: string)

  /**
    The stored movie. The identifier, release year, poster URLs, rating and
    meta score are not part of this model.
   */
  datatype MovieItem = MovieItem(
    title: string, titleProcessed: string,
    plotIMBDShort: string, plotWikiLong: Option<string>,
    certificate: string, runtime: Option<int>, genre: string, director: string)

  const MinSuffix: string := " min"

  /** `MovieItemHelper.convertToMinutes`: drop every `" min"`, then `Int(_:)`. */
  function ConvertToMinutes(minutesString: string): (r: Option<int>)
    ensures r.Some? ==> INT64_MIN <= r.value <= INT64_MAX
    ensures r.Some? ==> IsIntegerLiteral(ReplaceAll(minutesString, MinSuffix, ""))
  {
    ParseIntIsLiteral(ReplaceAll(minutesString, MinSuffix, ""));
    ParseInt(ReplaceAll(minutesString, MinSuffix, ""))
  }

  /** `init(movieData:)`: the text fields are copied, the runtime is converted. */
  function FromData(d: MovieDataItem): (m: MovieItem)
    ensures m.title == d.title && m.titleProcessed == d.titleProcessed
    ensures m.runtime == ConvertToMinutes(d.runtime)
  {
    MovieItem(d.title, d.titleProcessed, d.plotIMBDShort, d.plotWikiLong,
              d.certificate, ConvertToMinutes(d.runtime), d.genre, d.director)
  }

  /** Swift's `/` on `Int`: the quotient rounded toward zero. */
  function TruncDiv(a: int, b: int): int
    requires b > 0
  {
    if a >= 0 then a / b else -((-a) / b)
  }

  /** Swift's `%` on `Int`: the remainder takes the sign of the dividend. */
  function TruncRem(a: int, b: int): int
    requires b > 0
  {
    if a >= 0 then a % b else -((-a) % b)
  }

  function HourText(hours: int): string {
    if hours == 1 then "hour" else "hours"
  }

  function MinuteText(minutes: int): string {
    if minutes == 1 then "minute" else "minutes"
  }

  /** `MovieItem.adjustedRuntime`. */
  function AdjustedRuntime(runtime: Option<int>): (r: Option<string>)
    ensures r.None? <==> runtime.None?
  {
    match runtime
    case None => None
    case Some(totalMinutes) =>
      var hours := TruncDiv(totalMinutes, 60);
      var minutes := TruncRem(totalMinutes, 60);
      Some(IntToString(hours) + " " + HourText(hours) + ", " + IntToString(minutes) + " " + MinuteText(minutes))
  }

  // ----- properties -----

  /** Truncating division and remainder put the minutes back together, for every sign. */
  lemma RuntimeSplit(m: int)
    ensures TruncDiv(m, 60) * 60 + TruncRem(m, 60) == m
    ensures -60 < TruncRem(m, 60) < 60
    ensures m >= 0 ==> TruncDiv(m, 60) == m / 60 && 0 <= TruncRem(m, 60) < 60
    ensures m < 0 ==> TruncDiv(m, 60) <= 0 && TruncRem(m, 60) <= 0
  {
  }

  /** A unit word is singular exactly when its number is 1. */
  lemma UnitWordsSingularOnlyAtOne(n: int)
    ensures HourText(n) == "hour" <==> n == 1
    ensures MinuteText(n) == "minute" <==> n == 1
    ensures HourText(n) == "hour" || HourText(n) == "hours"
    ensures MinuteText(n) == "minute" || MinuteText(n) == "minutes"
  {
    assert "hours" != "hour" by { assert |"hours"| != |"hour"|; }
    assert "minutes" != "minute" by { assert |"minutes"| != |"minute"|; }
  }

  lemma IntToStringHasNoSpace(i: int)
    ensures ' ' !in IntToString(i)
  {
    var d := NatToString(if i < 0 then -i else i);
    assert forall k :: 0 <= k < |d| ==> IsDigit(d[k]);
    if i < 0 {
      assert IntToString(i) == ['-'] + d;
    }
  }

  /** The displayed text is the four words "<h> <unit>, <m> <unit>" separated by single spaces. */
  lemma AdjustedRuntimeWords(m: int)
    ensures var h, mi := TruncDiv(m, 60), TruncRem(m, 60);
      Split(AdjustedRuntime(Some(m)).value, ' ') == [IntToString(h), HourText(h) + ",", IntToString(mi), MinuteText(mi)]
  {
    var h, mi := TruncDiv(m, 60), TruncRem(m, 60);
    IntToStringHasNoSpace(h);
    IntToStringHasNoSpace(mi);
    UnitWordsSingularOnlyAtOne(h);
    UnitWordsSingularOnlyAtOne(mi);
    SplitFourWords(IntToString(h), HourText(h), IntToString(mi), MinuteText(mi));
  }

  /** `"a u, b v"` splits on spaces into its four words when none of them holds a space. */
  lemma SplitFourWords(a: string, u: string, b: string, v: string)
    requires ' ' !in a && ' ' !in u && ' ' !in b && ' ' !in v
    ensures Split(a + " " + u + ", " + b + " " + v, ' ') == [a, u + ",", b, v]
  {
    var w := u + ",";
    NoSpaceAppendComma(u);
    var r2 := b + [' '] + v;
    var r1 := w + [' '] + r2;
    CommaSpaceNested(a, u, b, v);
    SplitPieces(a, w, b, v, r1, r2);
  }

  lemma SplitPieces(a: string, w: string, b: string, v: string, r1: string, r2: string)
    requires ' ' !in a && ' ' !in w && ' ' !in b && ' ' !in v
    requires r2 == b + [' '] + v && r1 == w + [' '] + r2
    ensures Split(a + [' '] + r1, ' ') == [a, w, b, v]
  {
    SplitNoSeparator(v, ' ');
    SplitAfterPart(b, ' ', v);
    SplitAfterPart(w, ' ', r2);
    SplitAfterPart(a, ' ', r1);
  }

  lemma NoSpaceAppendComma(u: string)
    requires ' ' !in u
    ensures ' ' !in u + ","
  {
    forall k | 0 <= k < |u + ","| ensures (u + ",")[k] != ' ' {
      if k < |u| {
        assert (u + ",")[k] == u[k];
      }
    }
  }

  lemma CommaSpaceNested(a: string, u: string, b: string, v: string)
    ensures a + " " + u + ", " + b + " " + v == a + [' '] + ((u + ",") + [' '] + (b + [' '] + v))
  {
    assert (u + ",") + [' '] == u + ", ";
  }

  /** Different runtimes are displayed differently, so the text determines the runtime. */
  lemma AdjustedRuntimeInjective(a: int, b: int)
    requires AdjustedRuntime(Some(a)) == AdjustedRuntime(Some(b))
    ensures a == b
  {
    AdjustedRuntimeWords(a);
    AdjustedRuntimeWords(b);
    IntToStringInjective(TruncDiv(a, 60), TruncDiv(b, 60));
    IntToStringInjective(TruncRem(a, 60), TruncRem(b, 60));
    RuntimeSplit(a);
    RuntimeSplit(b);
  }

  /** `122 + 20 = 142` minutes are two hours (plural) and twenty-two minutes (plural). */
  lemma AdjustedRuntimeExamplePlural(m: int, text: string)
    requires m == 142 && text == "2 hours, 22 minutes"
    ensures AdjustedRuntime(Some(m)) == Some(text)
  {
    assert TruncDiv(m, 60) == 2 && TruncRem(m, 60) == 22;
    assert NatToString(22) == NatToString(2) + [DigitChar(2)];
    assert IntToString(2) == "2" && IntToString(22) == "22";
    assert AdjustedRuntime(Some(m)).value == "2" + " " + "hours" + ", " + "22" + " " + "minutes";
    assert "2" + " " + "hours" + ", " + "22" + " " + "minutes" == text;
  }

  lemma AdjustedRuntimeExampleSingular(m: int, text: string)
    requires m == 61 && text == "1 hour, 1 minute"
    ensures AdjustedRuntime(Some(m)) == Some(text)
  {
    assert TruncDiv(m, 60) == 1 && TruncRem(m, 60) == 1;
    assert IntToString(1) == "1";
    assert AdjustedRuntime(Some(m)).value == "1" + " " + "hour" + ", " + "1" + " " + "minute";
    assert "1" + " " + "hour" + ", " + "1" + " " + "minute" == text;
  }

  /** Zero takes the plural: "0 hours, 0 minutes". */
  lemma AdjustedRuntimeExampleZero(m: int, text: string)
    requires m == 0 && text == "0 hours, 0 minutes"
    ensures AdjustedRuntime(Some(m)) == Some(text)
  {
    assert TruncDiv(m, 60) == 0 && TruncRem(m, 60) == 0;
    assert IntToString(0) == "0";
    assert AdjustedRuntime(Some(m)).value == "0" + " " + "hours" + ", " + "0" + " " + "minutes";
    assert "0" + " " + "hours" + ", " + "0" + " " + "minutes" == text;
  }

  /** No `" min"` can start inside a rendered integer, which holds no space. */
  lemma NoSuffixInsideNumber(i: int)
    ensures forall j: nat :: j < |IntToString(i)| ==> !OccursAt(IntToString(i) + MinSuffix, MinSuffix, j)
  {
    var s := IntToString(i);
    var t := s + MinSuffix;
    IntToStringHasNoSpace(i);
    forall j: nat | j < |s| ensures !OccursAt(t, MinSuffix, j) {
      assert s[j] in s;
      assert t[j] == s[j] != ' ';
      if j + |MinSuffix| <= |t| {
        assert t[j..j + |MinSuffix|][0] == t[j];
        assert MinSuffix[0] == ' ';
      }
    }
  }

  /** Parsing what the catalog writes for a 64-bit number of minutes gives that number back. */
  lemma ConvertToMinutesOfRendered(n: int)
    requires INT64_MIN <= n <= INT64_MAX
    ensures ConvertToMinutes(IntToString(n) + MinSuffix) == Some(n)
  {
    NoSuffixInsideNumber(n);
    ReplaceAllSkipsPrefix(IntToString(n), MinSuffix, MinSuffix, "");
    assert MinSuffix[..|MinSuffix|] == MinSuffix && MinSuffix[|MinSuffix|..] == [];
    assert ReplaceAll(MinSuffix, MinSuffix, "") == "";
    assert IntToString(n) + "" == IntToString(n);
    ParseIntOfToString(n);
  }

  lemma ConvertToMinutesExample(raw: string)
    requires raw == "142 min"
    ensures ConvertToMinutes(raw) == Some(142)
  {
    var n := 142;
    assert NatToString(n) == NatToString(14) + [DigitChar(2)];
    assert NatToString(14) == NatToString(1) + [DigitChar(4)];
    assert IntToString(n) == "142";
    assert raw == IntToString(n) + MinSuffix;
    ConvertToMinutesOfRendered(n);
  }

  /** Text that is not an integer once `" min"` is gone gives nil. */
  lemma ConvertToMinutesRejects(minutesString: string)
    requires !IsIntegerLiteral(ReplaceAll(minutesString, MinSuffix, ""))
    ensures ConvertToMinutes(minutesString) == None
  {
  }

  lemma ConvertToMinutesRejectsExample(raw: string)
    requires raw == "N/A"
    ensures ConvertToMinutes(raw) == None
  {
    ReplaceAllAbsent(raw, MinSuffix, "");
    assert !IsDigit(raw[0]);
  }

  /** A stored movie built from `"<n> min"` shows `n` as hours and minutes. */
  lemma FromDataRuntime(d: MovieDataItem, n: int)
    requires INT64_MIN <= n <= INT64_MAX
    requires d.runtime == IntToString(n) + MinSuffix
    ensures FromData(d).runtime == Some(n)
    ensures AdjustedRuntime(FromData(d).runtime).Some?
  {
    ConvertToMinutesOfRendered(n);
  }
}
