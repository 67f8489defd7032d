/** Concrete instances of the aggregation and the merge, proved by the verifier. */
module Examples {
  import opened Wrappers
  import opened Dates
  import opened Dicts
  import opened Grouping
  import opened Aggregator
  import opened StoreMerger

  /** The ISO spelling of a date is accepted, in a leap year even on February 29. */
  lemma IsoDatesAccepted()
    ensures ParseDate("2024-01-01") == Some(Date(2024, 1, 1))
    ensures ParseDate("2024-02-29") == Some(Date(2024, 2, 29))
    ensures ParseDate("2000-02-29") == Some(Date(2000, 2, 29))
  {
    ParseFormat(Date(2024, 1, 1));
    ParseFormat(Date(2024, 2, 29));
    ParseFormat(Date(2000, 2, 29));
    assert Format(Date(2024, 1, 1)) == "2024-01-01";
    assert Format(Date(2024, 2, 29)) == "2024-02-29";
    assert Format(Date(2000, 2, 29)) == "2000-02-29";
  }

  /** February 29 outside a leap year, and April 31, are rejected. */
  lemma ImpossibleDaysRejected()
    ensures ParseDate("2023-02-29") == None
    ensures ParseDate("1900-02-29") == None
    ensures ParseDate("2024-04-31") == None
  {
    February29Rejected("2023-02-29", 2023);
    February29Rejected("1900-02-29", 1900);
    April31Rejected();
  }

  lemma February29Rejected(s: string, year: int)
    requires |s| == 10 && s[4..] == "-02-29"
    requires YearField(s[..4]) == Some(year) && !IsLeapYear(year)
    ensures ParseDate(s) == None
  {
    ParseTenChars(s);
    assert s[5..7] == "02" && s[8..] == "29" by {
      assert s[5..7] == s[4..][1..3];
      assert s[8..] == s[4..][4..];
    }
  }

  lemma April31Rejected()
    ensures ParseDate("2024-04-31") == None
  {
    ParseTenChars("2024-04-31");
    assert "2024-04-31"[..4] == "2024" && "2024-04-31"[5..7] == "04" && "2024-04-31"[8..] == "31";
  }

  /** Month 13 and year 0 are rejected. */
  lemma OutOfRangeFieldsRejected()
    ensures ParseDate("2024-13-01") == None
    ensures ParseDate("0000-01-01") == None
  {
    Month13Rejected();
    Year0Rejected();
  }

  lemma Month13Rejected()
    ensures ParseDate("2024-13-01") == None
  {
    ParseTenChars("2024-13-01");
    assert "2024-13-01"[5..7] == "13";
  }

  lemma Year0Rejected()
    ensures ParseDate("0000-01-01") == None
  {
    ParseTenChars("0000-01-01");
    assert "0000-01-01"[..4] == "0000" && "0000-01-01"[5..7] == "01" && "0000-01-01"[8..] == "01";
  }

  /** `strptime` also accepts one-digit months and days, and a space before a one-digit day. */
  lemma ShortFieldsAccepted()
    ensures ParseDate("2024-1-5") == Some(Date(2024, 1, 5))
    ensures ParseDate("2024-01- 5") == Some(Date(2024, 1, 5))
  {
    OneDigitFieldsAccepted();
    SpacedDayAccepted();
  }

  lemma OneDigitFieldsAccepted()
    ensures ParseDate("2024-1-5") == Some(Date(2024, 1, 5))
  {
    assert "2024-1-5"[5..] == "1-5" && "2024-1-5"[..4] == "2024";
    assert "1-5"[1..] == "-5";
    assert IndexOf("1-5", '-') == Some(1);
  }

  lemma SpacedDayAccepted()
    ensures ParseDate("2024-01- 5") == Some(Date(2024, 1, 5))
  {
    ParseTenChars("2024-01- 5");
    assert "2024-01- 5"[..4] == "2024" && "2024-01- 5"[5..7] == "01" && "2024-01- 5"[8..] == " 5";
  }

  /** Other separators and two-digit years are rejected. */
  lemma OtherSpellingsRejected()
    ensures ParseDate("2024/01/01") == None
    ensures ParseDate("24-01-01") == None
    ensures ParseDate("") == None
  {
  }

  /**
   * Two articles stamped on the same day, the second with `null` content
   * and description: both are counted, the second as a neutral 0.0.
   */
  lemma TextlessArticleGrouped(day: Date, stamp1: string, stamp2: string, text: string, analyzer: string -> real)
    requires ValidDate(day)
    requires |stamp1| > 10 && stamp1[..10] == Format(day)
    requires |stamp2| > 10 && stamp2[..10] == Format(day)
    requires text != ""
    ensures Grouped([Article(Str(stamp1), Str(text), Absent), Article(Str(stamp2), Null, Null)], analyzer) ==
              DateDict([day], map[day := [analyzer(text), 0.0]])
  {
    var a, b := Article(Str(stamp1), Str(text), Absent), Article(Str(stamp2), Null, Null);
    StampedOnDay(a, day);
    StampedOnDay(b, day);
    assert ScoreWith(analyzer)(a) == analyzer(text);
    assert ScoreWith(analyzer)(b) == 0.0;
    TwoOnOneDay(a, b, ArticleDate, ScoreWith(analyzer), day);
  }

  /** A dict of one group of two scores, such as the one above, averages to their mean. */
  lemma OneDayAverage(g: DateDict<seq<real>>, d: Date, x: real, y: real)
    requires g == DateDict([d], map[d := [x, y]])
    ensures DailyAverages(g).keys == [d]
    ensures DailyAverages(g).entries == map[d := (x + y) / 2.0]
  {
    TwoScoresMean(x, y);
    assert [d][..0] == [];
  }

  /** Two items filed under the same date form a single group of both scores. */
  lemma TwoOnOneDay<A>(a: A, b: A, key: A -> Option<Date>, score: A -> real, d: Date)
    requires key(a) == Some(d) && key(b) == Some(d)
    ensures GroupBy([a, b], key, score) == DateDict([d], map[d := [score(a), score(b)]])
  {
    assert [a, b][..1] == [a];
    assert [a][..0] == [];
    var g1 := AddScore(EmptyDict(), d, score(a));
    assert GroupBy([a], key, score) == g1;
    assert GroupBy([a, b], key, score) == AddScore(g1, d, score(b));
    assert [score(a)] + [score(b)] == [score(a), score(b)];
  }

  lemma TwoScoresMean(x: real, y: real)
    ensures Mean([x, y]) == (x + y) / 2.0
  {
    assert [x, y][..1] == [x];
    assert [x][..0] == [];
    assert Sum([x]) == x;
  }

  /** A `null` `publishedAt` raises, even after articles that were fine. */
  method NullDateRaises(analyzer: string -> real) returns (r: Result<DateDict<real>, string>)
    ensures r == Err(NullSliceError)
  {
    var ok := Article(Str("2024-01-01T10:00:00Z"), Str("great news"), Absent);
    var bad := Article(Null, Str("more news"), Absent);
    r := AggregateDailySentiment([ok, bad], analyzer);
    assert [ok, bad][1].publishedAt.Null?;
  }

  /**
   * Symbol SPY, no store yet, two days: both are appended in order; merging
   * 2024-01-01 again, with another value, appends nothing.
   */
  lemma SpyTwoDays()
    ensures var d1, d2 := Date(2024, 1, 1), Date(2024, 1, 2);
            var first := DateDict([d1, d2], map[d1 := 0.35, d2 := -0.10]);
            var after := StoreAfter(None, "SPY", first);
            && after == Some([Row("SPY", d1, 0.35), Row("SPY", d2, -0.10)])
            && Appended(after, "SPY", DateDict([d1], map[d1 := 0.99])) == []
            && StoreAfter(after, "SPY", DateDict([d1], map[d1 := 0.99])) == after
  {
    var d1, d2 := Date(2024, 1, 1), Date(2024, 1, 2);
    SpyFirstMerge();
    var after: Option<seq<Row>> := Some([Row("SPY", d1, 0.35), Row("SPY", d2, -0.10)]);
    assert d1 in StoredDates(after.value, "SPY") by {
      assert after.value[0].date == d1;
    }
    assert d1 in ExistingDates(after, "SPY");
  }

  lemma SpyFirstMerge()
    ensures var d1, d2 := Date(2024, 1, 1), Date(2024, 1, 2);
            StoreAfter(None, "SPY", DateDict([d1, d2], map[d1 := 0.35, d2 := -0.10])) ==
              Some([Row("SPY", d1, 0.35), Row("SPY", d2, -0.10)])
  {
    var d1, d2 := Date(2024, 1, 1), Date(2024, 1, 2);
    var m := map[d1 := 0.35, d2 := -0.10];
    var first := DateDict([d1, d2], m);
    assert ExistingDates(None, "SPY") == {};
    assert [d1, d2][..1] == [d1];
    assert [d1][..0] == [];
    assert NewRows([d1], m, {}, "SPY") == [Row("SPY", d1, 0.35)];
    assert NewRows([d1, d2], m, {}, "SPY") == [Row("SPY", d1, 0.35), Row("SPY", d2, -0.10)];
    assert Appended(None, "SPY", first) == [Row("SPY", d1, 0.35), Row("SPY", d2, -0.10)];
    assert LoadedRows(None) + Appended(None, "SPY", first) == Appended(None, "SPY", first);
  }

  /** A date stored only for another symbol does not block SPY's row for it. */
  lemma OtherSymbolDoesNotBlock()
    ensures var d1 := Date(2024, 1, 1);
            var store := Some([Row("QQQ", d1, 0.5)]);
            StoreAfter(store, "SPY", DateDict([d1], map[d1 := 0.35])) ==
              Some([Row("QQQ", d1, 0.5), Row("SPY", d1, 0.35)])
  {
    var d1 := Date(2024, 1, 1);
    var store := Some([Row("QQQ", d1, 0.5)]);
    assert ExistingDates(store, "SPY") == {};
    assert [d1][..0] == [];
    assert NewRows([d1], map[d1 := 0.35], {}, "SPY") == [Row("SPY", d1, 0.35)];
    assert Appended(store, "SPY", DateDict([d1], map[d1 := 0.35])) == [Row("SPY", d1, 0.35)];
    assert LoadedRows(store) + [Row("SPY", d1, 0.35)] == [Row("QQQ", d1, 0.5), Row("SPY", d1, 0.35)];
  }
}
