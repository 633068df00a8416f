/** `analyze_github`: scores a GitHub account from the fetched repository
    count and languages. The fetch is `GithubApi.FetchGithubData`, whose
    HTTP outcomes are inputs here as well. */
module GithubAnalyzer {
  import opened Common
  import opened Text
  import opened GithubApi

  const NoUsernameSummary := "No GitHub username provided"
  const NoDataSummary := "No public GitHub data found"

  /** The dictionary `analyze_github` returns. */
  datatype GithubReport = GithubReport(score: int, repoCount: int, languages: set<string>, summary: string)

  /** The report together with the URLs requested while producing it. */
  datatype GithubOutcome = GithubOutcome(report: GithubReport, requested: seq<string>)

  /** `str(n)` for any integer: the canonical numeral of `n`. It reads back
      as `n` (see `IntToStringParses`), has a minus sign exactly for negative
      `n`, never a plus sign, and no leading zero except in `"0"` itself. */
  function IntToString(n: int): (r: string)
    ensures IsNumeral(r) && Trimmed(r)
    ensures n < 0 <==> r[0] == '-'
    ensures r[0] != '+'
    ensures r[0] == '0' ==> r == "0"
    ensures n < 0 ==> r[1] != '0'
    ensures n >= 0 ==> AllDigits(r) && DigitsValue(r) == n
    ensures n < 0 ==> AllDigits(r[1..]) && DigitsValue(r[1..]) == -n
  {
    if n >= 0 then NatToString(n) else "-" + NatToString(-n)
  }

  /** `min(min(r * 6, 40) + min(l * 10, 40) + (10 if r >= 5 else 0), 100)`. */
  function GithubScore(repoCount: int, languages: nat): (score: int)
    ensures score <= 90
    ensures repoCount >= 1 ==> 6 <= score
    ensures repoCount >= 7 && languages >= 4 <==> score == 90
  {
    var repoScore := Min(repoCount * 6, 40);
    var languageScore := Min(languages * 10, 40);
    var bonus := if repoCount >= 5 then 10 else 0;
    Min(repoScore + languageScore + bonus, 100)
  }

  function GithubSummary(repoCount: int, languages: nat, source: Source): string {
    IntToString(repoCount) + " repositories, "
    + NatToString(languages) + " languages detected "
    + "(source: " + source.Name() + ")"
  }

  /** The report for fetched data: `repo_count` defaults to 0 and
      `languages` to `[]` when absent, and a zero count gives the empty
      report. */
  function Report(data: GithubData): (r: GithubReport)
    ensures data.repoCount.GetOr(0) == 0 ==> r == GithubReport(0, 0, {}, NoDataSummary)
    ensures data.repoCount.GetOr(0) != 0 ==>
              r.repoCount == data.repoCount.value && r.languages == data.languages.GetOr({})
    ensures data.repoCount.GetOr(0) != 0 ==>
              r.score == GithubScore(data.repoCount.value, |data.languages.GetOr({})|)
    ensures r.repoCount >= 1 ==> 6 <= r.score <= 90
  {
    var repoCount := data.repoCount.GetOr(0);
    var languages := data.languages.GetOr({});
    if repoCount == 0 then GithubReport(0, 0, {}, NoDataSummary)
    else
      GithubReport(
        GithubScore(repoCount, |languages|),
        repoCount,
        languages,
        GithubSummary(repoCount, |languages|, data.source))
  }

  /** `analyze_github(username)`: an empty username is answered without any
      request; otherwise the data is fetched and scored. */
  function AnalyzeGithub(username: string, api: ApiResponse, profile: ProfileResponse): (r: GithubOutcome)
    ensures username == "" ==> r == GithubOutcome(GithubReport(0, 0, {}, NoUsernameSummary), [])
    ensures username != "" ==> |r.requested| >= 1 && r.requested[0] == ApiUrl(username)
    ensures username != "" ==> r.report == Report(FetchGithubData(username, api, profile).data)
    ensures r.report.score <= 90
  {
    if username == "" then GithubOutcome(GithubReport(0, 0, {}, NoUsernameSummary), [])
    else
      var fetched := FetchGithubData(username, api, profile);
      GithubOutcome(Report(fetched.data), fetched.requested)
  }

  // ---------------------------------------------------------------------
  // Properties
  // ---------------------------------------------------------------------

  /** An empty username gives a zero report and no request at all. */
  lemma EmptyUsername(api: ApiResponse, profile: ProfileResponse)
    ensures AnalyzeGithub("", api, profile).report == GithubReport(0, 0, {}, NoUsernameSummary)
    ensures AnalyzeGithub("", api, profile).requested == []
  {
  }

  /** A failed scrape after an empty API answer leaves no count, which reads
      as 0 and gives the empty report. */
  lemma NothingFetchedScoresZero(username: string, api: ApiResponse, profile: ProfileResponse)
    requires username != ""
    requires FetchRepositoriesApi(api) == [] && ScrapeProfile(profile).None?
    ensures AnalyzeGithub(username, api, profile).report == GithubReport(0, 0, {}, NoDataSummary)
  {
    ScrapeFailureKeepsSource(username, api, profile);
  }

  /** Repositories found through the API give a score between 6 and 90 and
      pass the count and the languages through unchanged. */
  lemma ApiRepositoriesScored(username: string, api: ApiResponse, profile: ProfileResponse)
    requires username != "" && FetchRepositoriesApi(api) != []
    ensures var repos := FetchRepositoriesApi(api);
            var report := AnalyzeGithub(username, api, profile).report;
            && report.repoCount == |repos|
            && report.languages == LanguagesOf(repos)
            && 6 <= report.score <= 90
  {
  }

  /** In the formula, more repositories never lower the score. For the
      report this holds only from a count of 0 on: see
      `ReportMonotoneInRepos` and `NegativeCountOutscoresZero`. */
  lemma ScoreMonotoneInRepos(r1: int, r2: int, languages: nat)
    requires r1 <= r2
    ensures GithubScore(r1, languages) <= GithubScore(r2, languages)
  {
  }

  /** For non-negative counts, a larger repository count never lowers the
      reported score, whatever the languages and the `source` tag. */
  lemma ReportMonotoneInRepos(r1: int, r2: int, languages: set<string>, source: Source)
    requires 0 <= r1 <= r2
    ensures Report(GithubData(Some(r1), Some(languages), source)).score
            <= Report(GithubData(Some(r2), Some(languages), source)).score
  {
    if r1 != 0 {
      ScoreMonotoneInRepos(r1, r2, |languages|);
    }
  }

  /** Below 0 the report is not monotone: the early exit applies only to a
      count of exactly 0, so a count of -1 with three languages scores 24
      while a count of 0 scores 0. */
  lemma NegativeCountOutscoresZero()
    ensures var languages := {"C", "Go", "Rust"};
            && Report(GithubData(Some(-1), Some(languages), Scrape)).score == 24
            && Report(GithubData(Some(0), Some(languages), Scrape)).score == 0
  {
    var languages := {"C", "Go", "Rust"};
    assert "C" != "Go" && "C" != "Rust" && "Go" != "Rust" by {
      assert |"C"| != |"Go"| && |"C"| != |"Rust"| && |"Go"| != |"Rust"|;
    }
    assert |languages| == 3;
  }

  /** More languages never lower the score. */
  lemma ScoreMonotoneInLanguages(repoCount: int, l1: nat, l2: nat)
    requires l1 <= l2
    ensures GithubScore(repoCount, l1) <= GithubScore(repoCount, l2)
  {
  }

  /** The cap of 100 never takes effect: the three parts add up to at most
      90. */
  lemma CapNeverReached(repoCount: int, languages: nat)
    ensures Min(repoCount * 6, 40) + Min(languages * 10, 40) + (if repoCount >= 5 then 10 else 0) <= 90
    ensures GithubScore(repoCount, languages) ==
              Min(repoCount * 6, 40) + Min(languages * 10, 40) + (if repoCount >= 5 then 10 else 0)
  {
  }

  /** Nothing keeps the score from going negative: when the API lists no
      repository and the profile page shows a counter reading "-3" and no
      language, `int` accepts the counter and the reported score is -18. */
  lemma NegativeCounterScoresBelowZero(username: string)
    requires username != ""
    ensures var profile := ProfileReply(200, ProfilePage(Some("-3"), []));
            var report := AnalyzeGithub(username, ApiReply(200, JsonArray([])), profile).report;
            && report.repoCount == -3
            && report.languages == {}
            && report.score == -18
  {
    var profile := ProfileReply(200, ProfilePage(Some("-3"), []));
    ParseIntSigned();
    assert ScrapeProfile(profile) == Some(Scraped(-3, {}));
  }

  /** `int(str(n)) == n`: the count in a summary reads back as the count. */
  lemma IntToStringParses(n: int)
    ensures ParseInt(IntToString(n)) == Some(n)
  {
    var t := IntToString(n);
    assert Strip(t) == t;
    if n >= 0 {
      assert !IsSign(t[0]) by { assert IsDigit(NatToString(n)[0]); }
      assert AllDigits(t);
    } else {
      assert t[1..] == NatToString(-n);
    }
  }
}
