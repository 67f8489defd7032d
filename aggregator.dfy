/**
 * `aggregate_daily_sentiment`: the articles of one fetch are grouped by the
 * calendar date their `publishedAt` starts with, each dated article
 * contributes the score of its text, and each day's scores are averaged.
 */
module Aggregator {
  import opened Wrappers
  import opened Dates
  import opened Dicts
  import opened Grouping
  import Scorer

  /** A member of an article's JSON object: missing, `null`, or a string. */
  datatype Field = Absent | Null | Str(value: string)

  /** The members of a NewsAPI article that the aggregation reads. */
  datatype Article = Article(publishedAt: Field, content: Field, description: Field)

  /** What `article.get('publishedAt', '')[:10]` raises when the member is `null`. */
  const NullSliceError := "TypeError: 'NoneType' object is not subscriptable"

  /** Python's truth value of a member: only a non-empty string is truthy. */
  predicate Truthy(f: Field) {
    f.Str? && f.value != ""
  }

  /** `s[:10]` */
  function Prefix10(s: string): (p: string)
    ensures |p| == if |s| < 10 then |s| else 10
    ensures p == s[..|p|]
  {
    if |s| <= 10 then s else s[..10]
  }

  /**
   * The date an article is filed under, or `None` when it is skipped: its
   * `publishedAt` is missing, its first ten characters are empty, or they do
   * not parse as `%Y-%m-%d`. (A `null` member raises instead; see
   * `AggregateDailySentiment`.)
   */
  function ArticleDate(a: Article): (r: Option<Date>)
    ensures r.Some? ==> ValidDate(r.value)
  {
    match a.publishedAt
    case Str(s) =>
      var p := Prefix10(s);
      if p == "" then None else ParseDate(p)
    case _ => None
  }

  /** An article whose stamp starts with the ISO spelling of a day is filed under that day. */
  lemma StampedOnDay(a: Article, day: Date)
    requires ValidDate(day)
    requires a.publishedAt.Str? && |a.publishedAt.value| >= 10
    requires a.publishedAt.value[..10] == Format(day)
    ensures ArticleDate(a) == Some(day)
  {
    assert Prefix10(a.publishedAt.value) == Format(day);
    ParseFormat(day);
  }

  /**
   * Conversely, an article with a full ten-character prefix is filed only
   * under the day that prefix spells: its ISO spelling, or that spelling
   * with a space for the leading zero of the day.
   */
  lemma FiledDaySpelled(a: Article)
    requires a.publishedAt.Str? && |a.publishedAt.value| >= 10
    requires ArticleDate(a).Some?
    ensures var p := a.publishedAt.value[..10];
            Format(ArticleDate(a).value) == if p[8] == ' ' then p[..8] + "0" + p[9..] else p
  {
    var p := a.publishedAt.value[..10];
    assert Prefix10(a.publishedAt.value) == p;
    FormatParse(p);
  }

  /** `article.get('content') or article.get('description') or ""` */
  function ArticleText(a: Article): (t: string)
    ensures Truthy(a.content) ==> t == a.content.value
    ensures !Truthy(a.content) && Truthy(a.description) ==> t == a.description.value
    ensures !Truthy(a.content) && !Truthy(a.description) ==> t == ""
  {
    if Truthy(a.content) then a.content.value
    else if Truthy(a.description) then a.description.value
    else ""
  }

  function ArticleScore(a: Article, analyzer: string -> real): real {
    Scorer.Score(ArticleText(a), analyzer)
  }

  /** Scoring an article with a given analyzer, as a function value. */
  function ScoreWith(analyzer: string -> real): Article -> real {
    a => ArticleScore(a, analyzer)
  }

  /**
   * The head of the loop body: slice `publishedAt` to ten characters, skip
   * an empty prefix, and parse the rest, skipping a prefix `strptime`
   * refuses. Slicing a `null` member raises.
   */
  method PublishedDate(article: Article) returns (r: Result<Option<Date>, string>)
    ensures r.Err? <==> article.publishedAt.Null?
    ensures r.Err? ==> r.error == NullSliceError
    ensures r.Ok? ==> r.value == ArticleDate(article)
  {
    if article.publishedAt.Null? {
      return Err(NullSliceError);
    }
    var publishedAt := if article.publishedAt.Str? then Prefix10(article.publishedAt.value) else "";
    if publishedAt == "" {
      return Ok(None);
    }
    var date := ParseDate(publishedAt);
    if date.None? {
      return Ok(None);
    }
    r := Ok(date);
  }

  /** `sentiment_per_date` once the loop has visited every article. */
  function Grouped(articles: seq<Article>, analyzer: string -> real): DateDict<seq<real>> {
    GroupBy(articles, ArticleDate, ScoreWith(analyzer))
  }

  /** One iteration of the loop over articles. */
  lemma GroupedStep(articles: seq<Article>, i: nat, analyzer: string -> real)
    requires i < |articles|
    ensures Grouped(articles[..i + 1], analyzer) ==
              match ArticleDate(articles[i])
              case None => Grouped(articles[..i], analyzer)
              case Some(d) => AddScore(Grouped(articles[..i], analyzer), d, ArticleScore(articles[i], analyzer))
  {
    GroupByStep(articles, i, ArticleDate, ScoreWith(analyzer));
  }

  /**
   * What the result of the aggregation means, independently of how it is
   * computed: one entry for each date some article is filed under, holding
   * the mean of exactly the scores of the articles filed under that date.
   */
  ghost predicate IsDailyAverage(articles: seq<Article>, analyzer: string -> real, avg: DateDict<real>) {
    && avg.Valid()
    && (forall d :: d in avg.entries <==> FiledUnder(articles, ArticleDate, d))
    && (forall d :: d in avg.entries ==>
          ScoresOn(articles, ArticleDate, ScoreWith(analyzer), d) != [] &&
          avg.entries[d] == Mean(ScoresOn(articles, ArticleDate, ScoreWith(analyzer), d)))
  }

  /**
   * The daily averages meet that definition, and list their dates in the
   * order the grouping loop first met them.
   */
  lemma DailyAveragesMeanScores(articles: seq<Article>, analyzer: string -> real)
    ensures IsDailyAverage(articles, analyzer, DailyAverages(Grouped(articles, analyzer)))
    ensures DailyAverages(Grouped(articles, analyzer)).keys == Grouped(articles, analyzer).keys
  {
    GroupByKeys(articles, ArticleDate, ScoreWith(analyzer));
    GroupByScores(articles, ArticleDate, ScoreWith(analyzer));
  }

  /**
   * The grouping loop and the per-day average. A `null` `publishedAt`
   * raises wherever it stands; otherwise the result has one entry per date
   * some article is filed under, and it is the mean of exactly the scores of
   * the articles filed under it.
   */
  method AggregateDailySentiment(articles: seq<Article>, analyzer: string -> real)
    returns (r: Result<DateDict<real>, string>)
    ensures r.Err? <==> exists i :: 0 <= i < |articles| && articles[i].publishedAt.Null?
    ensures r.Err? ==> r.error == NullSliceError
    ensures r.Ok? ==> r.value == DailyAverages(Grouped(articles, analyzer))
    ensures r.Ok? ==> IsDailyAverage(articles, analyzer, r.value)
  {
    var sentimentPerDate: DateDict<seq<real>> := EmptyDict();
    for i := 0 to |articles|
      invariant sentimentPerDate == Grouped(articles[..i], analyzer)
      invariant forall j :: 0 <= j < i ==> !articles[j].publishedAt.Null?
    {
      var article := articles[i];
      GroupedStep(articles, i, analyzer);
      var date := PublishedDate(article);
      if date.Err? {
        return Err(date.error);
      }
      assert date.value == ArticleDate(articles[i]);
      if date.value.Some? {
        var sentiment := Scorer.Score(ArticleText(article), analyzer);
        assert sentiment == ArticleScore(articles[i], analyzer);
        sentimentPerDate := AddScore(sentimentPerDate, date.value.value, sentiment);
      }
    }
    assert articles[..|articles|] == articles;
    DailyAveragesMeanScores(articles, analyzer);
    r := Ok(DailyAverages(sentimentPerDate));
  }

  /** The group sizes add up to the number of articles that are not skipped. */
  lemma ArticleGroupSizes(articles: seq<Article>, analyzer: string -> real)
    ensures SizeOver(Grouped(articles, analyzer).keys, Grouped(articles, analyzer).entries) ==
              DatedCount(articles, ArticleDate)
  {
    GroupSizesSum(articles, ArticleDate, ScoreWith(analyzer));
  }

  /**
   * A dated article with neither content nor description is not dropped:
   * it adds a neutral 0.0 to its day, and the analyzer is not consulted.
   */
  lemma TextlessArticleScoresZero(articles: seq<Article>, a: Article, analyzer: string -> real)
    requires ArticleDate(a).Some?
    requires !Truthy(a.content) && !Truthy(a.description)
    ensures var d := ArticleDate(a).value;
            var before := Grouped(articles, analyzer);
            d in Grouped(articles + [a], analyzer).entries &&
            Grouped(articles + [a], analyzer).entries[d] ==
              (if d in before.entries then before.entries[d] else []) + [0.0]
  {
    FiledItemAppended(articles, a, ArticleDate, ScoreWith(analyzer));
  }

  /** An article without a usable date prefix changes nothing. */
  lemma UndatedArticleIgnored(articles: seq<Article>, a: Article, analyzer: string -> real)
    requires ArticleDate(a).None?
    ensures Grouped(articles + [a], analyzer) == Grouped(articles, analyzer)
  {
    SkippedItemIgnored(articles, a, ArticleDate, ScoreWith(analyzer));
  }
}
