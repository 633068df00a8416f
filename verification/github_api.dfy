/** `fetch_github_data`: asks the GitHub REST API for a user's repositories
    and, only when that yields no repositories, scrapes the public profile
    page instead.

    Nothing here performs I/O: the outcome of each HTTP request is an input
    (a reply with a status and the parts of the body the code reads, or a
    failed request), and the result records which URLs were requested. */
module GithubApi {
  import opened Common
  import opened Text

  const GithubApiBase := "https://api.github.com"

  /** The repository listing requested from the API. */
  function ApiUrl(username: string): (url: string)
    ensures |url| == 29 + |username| + 6
    ensures url[..29] == "https://api.github.com/users/"
    ensures url[29..|url| - 6] == username
    ensures url[|url| - 6..] == "/repos"
  {
    GithubApiBase + "/users/" + username + "/repos"
  }

  /** The profile page requested by the scraper. */
  function ProfileUrl(username: string): (url: string)
    ensures |url| == 19 + |username|
    ensures url[..19] == "https://github.com/"
    ensures url[19..] == username
  {
    "https://github.com/" + username
  }

  /** An element of the JSON list the API returns, to the depth the code
      looks at it: an object, whose `"language"` is `None` when the key is
      absent or `null`, or any other JSON value. */
  datatype RepoItem = RepoObject(language: Option<string>) | OtherItem

  /** What `r.json()` makes of the body: a list, another JSON value, or an
      exception because the body is not JSON. */
  datatype JsonBody = JsonArray(items: seq<RepoItem>) | OtherJson | Undecodable

  /** The outcome of the API request: a reply, or an exception raised by
      `requests.get` (timeout, connection error). */
  datatype ApiResponse = ApiReply(status: int, body: JsonBody) | ApiRequestFailed

  /** The parts of the parsed profile page the scraper reads: the text of the
      first `span.Counter`, if there is one, and the texts of the spans
      marked `itemprop="programmingLanguage"`. */
  datatype ProfilePage = ProfilePage(counter: Option<string>, languageSpans: seq<string>)

  datatype ProfileResponse = ProfileReply(status: int, page: ProfilePage) | ProfileRequestFailed

  /** The dictionary a successful scrape returns. */
  datatype Scraped = Scraped(repoCount: int, languages: set<string>)

  /** The `"source"` tag of the fetched data. */
  datatype Source = Api | Scrape {
    function Name(): string {
      match this
      case Api => "api"
      case Scrape => "scrape"
    }
  }

  /** The dictionary `fetch_github_data` returns. `repo_count` and
      `languages` are both absent when the scrape failed; the languages are
      a Python set turned into a list, so only their set matters. */
  datatype GithubData = GithubData(repoCount: Option<int>, languages: Option<set<string>>, source: Source)

  /** The fetched data together with the URLs requested, in order. */
  datatype Fetch = Fetch(data: GithubData, requested: seq<string>)

  // ---------------------------------------------------------------------
  // fetch_repositories_api
  // ---------------------------------------------------------------------

  /** `fetch_repositories_api`: the decoded list on a 200 reply whose body is
      a JSON list, and `[]` on any other status, any other body, or an
      exception. */
  function FetchRepositoriesApi(resp: ApiResponse): (repos: seq<RepoItem>)
    ensures repos != [] ==> resp.ApiReply? && resp.status == 200 && resp.body == JsonArray(repos)
    ensures resp.ApiReply? && resp.status == 200 && resp.body.JsonArray? ==> repos == resp.body.items
  {
    match resp
    case ApiRequestFailed => []
    case ApiReply(status, body) =>
      if status != 200 then []
      else if body.JsonArray? then body.items
      else []
  }

  /** The distinct truthy `"language"` values of the objects in the list:
      a present, non-null, non-empty string. */
  function LanguagesOf(repos: seq<RepoItem>): (langs: set<string>)
    ensures |langs| <= |repos|
    ensures forall l :: l in langs <==> l != "" && RepoObject(Some(l)) in repos
  {
    if |repos| == 0 then {}
    else
      var init := repos[..|repos| - 1];
      var last := repos[|repos| - 1];
      assert repos == init + [last];
      var before := LanguagesOf(init);
      if last.RepoObject? && last.language.Some? && last.language.value != "" then
        AddOneCardinality(before, last.language.value);
        before + {last.language.value}
      else before
  }

  // ---------------------------------------------------------------------
  // fetch_repositories_scrape
  // ---------------------------------------------------------------------

  /** The characters that may prefix the digits of a numeral read by `int`. */
  predicate IsSign(c: char) {
    c == '+' || c == '-'
  }

  predicate AllDigits(s: string) {
    forall i :: 0 <= i < |s| ==> IsDigit(s[i])
  }

  /** A text `int` accepts once its surrounding whitespace is stripped: one
      or more ASCII digits, possibly after a single sign. */
  predicate IsNumeral(t: string) {
    || (|t| > 0 && AllDigits(t))
    || (|t| > 1 && IsSign(t[0]) && AllDigits(t[1..]))
  }

  /** `int(text)` on the counter text: surrounding whitespace, then an
      optional sign and at least one digit, read in base ten. `None` stands
      for the `ValueError` anything else raises. */
  function ParseInt(text: string): (r: Option<int>)
    ensures r.Some? <==> IsNumeral(Strip(text))
    ensures r.Some? ==> |Strip(text)| > 0 && (r.value < 0 ==> Strip(text)[0] == '-')
    ensures r.Some? && AllDigits(Strip(text)) ==> r.value == DigitsValue(Strip(text))
    ensures r.Some? && Strip(text)[0] == '+' ==> r.value == DigitsValue(Strip(text)[1..])
    ensures r.Some? && Strip(text)[0] == '-' ==> r.value == -(DigitsValue(Strip(text)[1..]) as int)
  {
    var t := Strip(text);
    var negative := |t| > 0 && t[0] == '-';
    var digits := if |t| > 0 && IsSign(t[0]) then t[1..] else t;
    if |digits| > 0 && AllDigits(digits) then
      var magnitude: int := DigitsValue(digits);
      Some(if negative then -magnitude else magnitude)
    else None
  }

  /** The stripped texts of the language spans, collected into a set. */
  function StrippedTexts(spans: seq<string>): (langs: set<string>)
    ensures |langs| <= |spans|
    ensures forall l :: l in langs <==> exists i :: 0 <= i < |spans| && Strip(spans[i]) == l
  {
    ImageOf(spans, Strip)
  }

  /** `fetch_repositories_scrape`: `None` stands for the empty dictionary
      returned on a non-200 status, on a failed request, or when the counter
      text is not a numeral; a missing counter counts as 0 repositories. */
  function ScrapeProfile(resp: ProfileResponse): (r: Option<Scraped>)
    ensures resp.ProfileRequestFailed? ==> r == None
    ensures resp.ProfileReply? && resp.status != 200 ==> r == None
    ensures r.Some? ==> r.value.languages == StrippedTexts(resp.page.languageSpans)
    ensures r.Some? ==> |r.value.languages| <= |resp.page.languageSpans|
    ensures resp.ProfileReply? && resp.status == 200 && resp.page.counter.None? ==> r.Some? && r.value.repoCount == 0
    ensures resp.ProfileReply? && resp.status == 200 && resp.page.counter.Some? ==>
              (r.Some? <==> ParseInt(resp.page.counter.value).Some?)
    ensures resp.ProfileReply? && resp.page.counter.Some? && r.Some? ==>
              r.value.repoCount == ParseInt(resp.page.counter.value).value
  {
    match resp
    case ProfileRequestFailed => None
    case ProfileReply(status, page) =>
      if status != 200 then None
      else
        var count :=
          match page.counter
          case None => Some(0)
          case Some(text) => ParseInt(text);
        match count
        case None => None
        case Some(n) => Some(Scraped(n, StrippedTexts(page.languageSpans)))
  }

  // ---------------------------------------------------------------------
  // fetch_github_data
  // ---------------------------------------------------------------------

  /** `fetch_github_data(username)`. A non-empty API list is used and the
      profile is never requested; otherwise the scrape result is returned
      tagged `"scrape"`, even when the scrape itself failed. */
  function FetchGithubData(username: string, api: ApiResponse, profile: ProfileResponse): (r: Fetch)
    ensures r.data.source == Api <==> FetchRepositoriesApi(api) != []
    ensures r.data.source == Api ==> r.requested == [ApiUrl(username)]
    ensures r.data.source == Scrape ==> r.requested == [ApiUrl(username), ProfileUrl(username)]
    ensures r.data.source == Api ==>
              r.data.repoCount == Some(|FetchRepositoriesApi(api)|) &&
              r.data.languages == Some(LanguagesOf(FetchRepositoriesApi(api)))
    ensures r.data.source == Api ==> 1 <= r.data.repoCount.value && |r.data.languages.value| <= r.data.repoCount.value
    ensures r.data.source == Scrape && ScrapeProfile(profile).None? ==>
              r.data.repoCount.None? && r.data.languages.None?
    ensures r.data.source == Scrape && ScrapeProfile(profile).Some? ==>
              r.data.repoCount == Some(ScrapeProfile(profile).value.repoCount) &&
              r.data.languages == Some(ScrapeProfile(profile).value.languages)
  {
    var repos := FetchRepositoriesApi(api);
    if repos != [] then
      Fetch(GithubData(Some(|repos|), Some(LanguagesOf(repos)), Api), [ApiUrl(username)])
    else
      var data :=
        match ScrapeProfile(profile)
        case None => GithubData(None, None, Scrape)
        case Some(s) => GithubData(Some(s.repoCount), Some(s.languages), Scrape);
      Fetch(data, [ApiUrl(username), ProfileUrl(username)])
  }

  // ---------------------------------------------------------------------
  // Properties
  // ---------------------------------------------------------------------

  /** Each request URL names exactly one user, and an API URL is never a
      profile URL. */
  lemma RequestUrlsIdentifyUser(u: string, v: string)
    ensures ApiUrl(u) == ApiUrl(v) <==> u == v
    ensures ProfileUrl(u) == ProfileUrl(v) <==> u == v
    ensures ApiUrl(u) != ProfileUrl(v)
  {
    assert ApiUrl(u)[8] != ProfileUrl(v)[8];
  }

  /** A non-200 status, a body that is not a list, and a failed request all
      give the empty list. */
  lemma ApiFailuresGiveEmpty(status: int, body: JsonBody)
    ensures FetchRepositoriesApi(ApiRequestFailed) == []
    ensures status != 200 ==> FetchRepositoriesApi(ApiReply(status, body)) == []
    ensures !body.JsonArray? ==> FetchRepositoriesApi(ApiReply(status, body)) == []
  {
  }

  /** When the API yields repositories the profile page plays no part: the
      result is the same whatever the scrape would have returned, and the
      profile URL is never requested. */
  lemma ScrapeNotAttemptedAfterApi(username: string, api: ApiResponse, p1: ProfileResponse, p2: ProfileResponse)
    requires FetchRepositoriesApi(api) != []
    ensures FetchGithubData(username, api, p1) == FetchGithubData(username, api, p2)
    ensures ProfileUrl(username) !in FetchGithubData(username, api, p1).requested
  {
    assert ProfileUrl(username)[8] != ApiUrl(username)[8];
  }

  /** When the API yields nothing and the scrape fails too, the result holds
      only the source tag. */
  lemma ScrapeFailureKeepsSource(username: string, api: ApiResponse, profile: ProfileResponse)
    requires FetchRepositoriesApi(api) == [] && ScrapeProfile(profile).None?
    ensures FetchGithubData(username, api, profile).data == GithubData(None, None, Scrape)
  {
  }

  /** A counter rendered as `str(n)`, with or without surrounding
      whitespace, is read back as `n`. */
  lemma ParseIntRoundTrip(n: nat, before: string, after: string)
    requires forall i :: 0 <= i < |before| ==> IsSpace(before[i])
    requires forall i :: 0 <= i < |after| ==> IsSpace(after[i])
    ensures ParseInt(before + NatToString(n) + after) == Some(n)
  {
    var numeral := NatToString(n);
    var text := before + numeral + after;
    StripSurrounded(before, numeral, after);
    assert Strip(text) == numeral;
    assert !IsSign(numeral[0]) by {
      assert IsDigit(numeral[0]);
    }
  }

  /** Leading zeros are accepted. */
  lemma ParseIntLeadingZeros()
    ensures ParseInt("007") == Some(7)
  {
    assert Strip("007") == "007";
    assert "007"[..2] == "00" && "00"[..1] == "0" && "0"[..0] == "";
    assert DigitsValue("007") == 7;
  }

  /** An explicit sign is accepted. */
  lemma ParseIntSigned()
    ensures ParseInt("+5") == Some(5)
    ensures ParseInt("-3") == Some(-3)
  {
    assert Strip("+5") == "+5";
    assert Strip("-3") == "-3";
    assert "+5"[1..] == "5" && "-3"[1..] == "3";
  }

  /** A lone sign, a decimal point or trailing words make `int` raise. */
  lemma ParseIntRejects()
    ensures ParseInt("1.2k") == None
    ensures ParseInt("12 repos") == None
    ensures ParseInt("-") == None
  {
    assert Strip("-") == "-";
    assert Strip("1.2k") == "1.2k";
    assert !IsDigit("1.2k"[1]) && !IsDigit("1.2k"[1..][0]);
    assert Strip("12 repos") == "12 repos";
    assert !IsDigit("12 repos"[2]) && !IsDigit("12 repos"[1..][1]);
  }

  /** The API lists nothing, the profile page shows the counter `2` and no
      language badge: the result comes from the scrape. */
  lemma ScrapeCounterExample(username: string)
    ensures FetchGithubData(username, ApiReply(200, JsonArray([])), ProfileReply(200, ProfilePage(Some("2"), []))).data
            == GithubData(Some(2), Some({}), Scrape)
  {
    assert Strip("2") == "2";
    assert DigitsValue("2") == 2;
  }

  /** Repeated language spans are collected once: the scraped languages are
      exactly the distinct stripped span texts. */
  lemma ScrapedLanguagesDeduplicated(spans: seq<string>, extra: nat)
    requires extra < |spans|
    ensures StrippedTexts(spans + [spans[extra]]) == StrippedTexts(spans)
  {
    var more := spans + [spans[extra]];
    forall l | l in StrippedTexts(more) ensures l in StrippedTexts(spans) {
      var i :| 0 <= i < |more| && Strip(more[i]) == l;
      if i == |spans| {
        assert Strip(spans[extra]) == l;
      } else {
        assert Strip(spans[i]) == l;
      }
    }
    forall l | l in StrippedTexts(spans) ensures l in StrippedTexts(more) {
      var i :| 0 <= i < |spans| && Strip(spans[i]) == l;
      assert more[i] == spans[i];
    }
  }

}
