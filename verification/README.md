# Candidate screening: a Dafny model of the scoring core

This project models the deterministic part of an AI-assisted candidate
screening application. The application scores four signals about a candidate
and proves nothing about them itself. The model covers:

- **Resume skill detection** (`ResumeAnalyzer`, `TextNormalizer`). The
  extracted resume text is normalized: letter-spaced words such as
  "P y t h o n" are joined, whitespace is collapsed and the text is
  lowercased. A skill of an eight-entry taxonomy is then credited when one of
  its patterns occurs as a whole word. The result is the sorted, deduplicated
  list of skills, 12 points each.
- **Project classification** (`ProjectAnalyzer`). Each description is
  lowercased and searched for keywords of five knowledge areas and for
  "real-world" terms. The score is 15 points per covered area (at most 60)
  plus 20 per real-world project (at most 40). The report holds exactly one
  strength or weakness per dimension.
- **GitHub presence** (`GithubApi`, `GithubAnalyzer`). The repository list
  comes from the REST API. Only when that list is empty does the fetcher
  scrape the profile page. The analyzer scores the repository count and the
  number of distinct languages.
- **Academic record** (`AcademicAnalyzer`). A fixed weighted sum of two
  percentages and a CGPA.
- **Input handling of the application script** (`App`). A GitHub username
  is extracted from a username or profile URL, and the project text area is
  split into non-blank, stripped lines.

Shared modules:

- `Common`: optional values, `min`, sets of sequence elements.
- `Text`: ASCII character classes, `lower`, `strip`, `str(n)`, `join`/`split`,
  and substring and whole-word search.
- `Selection`: deleting characters by a keep-mask, with the index bookkeeping
  the normalizer proofs use.
- `WordSeparators`: what normalization does at one whitespace run between two
  non-whitespace characters.
- `StringOrder`: Python's string order and `sorted(set(...))`.

HTTP requests are not performed. Their outcomes are parameters of the
fetch functions: a reply with a status and the part of the body the code
reads, or a failed request. The fetch result also lists the URLs requested,
so "the profile page is never requested" can be stated as a property.

Some consequences of the code that the model makes explicit:

- **No "none" source.** When the API list is empty, the result is always
  tagged `"scrape"`, whether or not the scrape succeeds. When the scrape
  fails as well, the result has no `repo_count` or `languages` at all, and
  the analyzer reads the missing count as 0
  (`GithubApi.ScrapeFailureKeepsSource`,
  `GithubAnalyzer.NothingFetchedScoresZero`).
- **Unparsable counter.** A repository counter that `int()` rejects makes
  the whole scrape return the empty dictionary. It is not read as 0
  (`GithubApi.ScrapeProfile`, `GithubApi.ParseIntRejects`).
- **Scores outside [0, 100].** Nothing validates the inputs, so two scores
  can leave that range:
  - The academic score can exceed 100. With both percentages at 100, a CGPA
    of 11 scores 104 (`AcademicAnalyzer.UnvalidatedCgpa`).
  - The GitHub score can be negative. A scraped counter reading "-3" with
    no language scores -18 (`GithubAnalyzer.NegativeCounterScoresBelowZero`).
- **A negative count outscores zero.** The early exit tests for a count of
  exactly 0, so the reported score rises with the count only from 0 on. A
  count of -1 with three languages scores 24; a count of 0 scores 0
  (`GithubAnalyzer.ReportMonotoneInRepos`,
  `GithubAnalyzer.NegativeCountOutscoresZero`).

## Model

| member | source | states |
|---|---|---|
| Text.Lower | analyzers/resume_analyzer.py:65 | lowercasing keeps the length and every character's class (space, letter, word); an ASCII uppercase letter becomes the lowercase letter at the same alphabet position and every other character is unchanged, so no uppercase letter is left |
| Text.Strip | app.py:30 | the stripped text neither starts nor ends with whitespace, is no longer than the input, and equals the input when that is already stripped |
| Text.StripSlice | app.py:30 | what `strip` keeps is a contiguous slice of the input with only whitespace before and after it |
| Text.StripSurrounded | app.py:30 | whitespace placed around a non-empty stripped text is exactly what `strip` removes |
| Text.SplitOn | app.py:142 | `split` on one character gives at least one piece, no piece contains the separator, and joining the pieces with the separator gives back the input |
| Text.SplitOnJoin | app.py:142 | pieces free of the separator are recovered by splitting their join |
| Text.JoinInjective | app.py:142 | two lists of separator-free pieces with the same join are equal |
| Text.ContainsFrom | analyzers/project_analyzer.py:63 | the left-to-right scan succeeds exactly when the keyword occurs as a substring at or after the start position |
| Text.ContainsWordFrom | analyzers/resume_analyzer.py:87 | the regex scan for a `\b`-anchored pattern succeeds exactly when the pattern occurs with a word boundary on both sides |
| Text.NatToString | analyzers/resume_analyzer.py:99 | `str(n)` is a non-empty digit string without a leading zero whose decimal value is `n` |
| TextNormalizer.JoinLetters | analyzers/resume_analyzer.py:59-60 | the first substitution keeps every non-whitespace character, unchanged and in order, leaves no whitespace gap between a word-opening and a word-closing letter, and leaves a text without such a gap unchanged; which whitespace runs it deletes is stated by `WordSeparators.JoinAround` |
| TextNormalizer.CollapseSpaces | analyzers/resume_analyzer.py:62-63 | the second substitution agrees with `ReplaceRuns`, the left-to-right reading in which every maximal whitespace run becomes exactly one space and every other character is copied; the result is single spaced, has the same non-whitespace characters, equals a single-spaced input, and creates no new letter gap or uppercase letter |
| TextNormalizer.NormalizeText | analyzers/resume_analyzer.py:54-65 | the normalized text is lowercase, single-spaced, has no letter gap left, is no longer than the input, and its non-whitespace characters are exactly the input's, lowercased, in order; where a space survives is stated by `WordSeparators.NormalizeAround` |
| TextNormalizer.NormalizedFixpoint | analyzers/resume_analyzer.py:54-65 | any text that is lowercase, single-spaced and gap-free is left unchanged by normalization |
| TextNormalizer.NormalizeIdempotent | analyzers/resume_analyzer.py:54-65 | normalizing twice gives the same text as normalizing once |
| TextNormalizer.LetterspacedJoins | analyzers/resume_analyzer.py:55-60 | letters separated by single whitespace characters normalize to the lowercased word |
| TextNormalizer.PythonExample | analyzers/resume_analyzer.py:57 | "P y t h o n" normalizes to "python" |
| TextNormalizer.CollapseRuns | analyzers/resume_analyzer.py:62-63 | keeping the first character of each whitespace run and blanking it gives `ReplaceRuns` |
| WordSeparators.SqueezedMiddle | analyzers/resume_analyzer.py:60 | a character of a whitespace run between two non-whitespace characters matches the first pattern exactly when the character before the run is a letter starting a word and the one after it is a letter ending a word |
| WordSeparators.GapMaskSplit | analyzers/resume_analyzer.py:60 | cut at one whitespace run, the first pattern matches in each side exactly where it matches in that side alone, and on the whole run or nowhere in it |
| WordSeparators.JoinAround | analyzers/resume_analyzer.py:59-60 | the first substitution deletes a whitespace run between two non-whitespace characters exactly when the character before it is a word-opening letter and the one after it a word-closing letter, keeps it unchanged otherwise, and acts on each side on its own |
| WordSeparators.ReplaceRunsAppend | analyzers/resume_analyzer.py:62-63 | collapsing is done piecewise at any point followed by a non-whitespace character |
| WordSeparators.ReplaceRunsSpaces | analyzers/resume_analyzer.py:62-63 | a whitespace run after a non-whitespace character, or at the start, collapses to one space |
| WordSeparators.CollapseAround | analyzers/resume_analyzer.py:62-63 | a whitespace run between two non-whitespace characters becomes one space, and each side is collapsed on its own |
| WordSeparators.NormalizeAround | analyzers/resume_analyzer.py:54-65 | `normalize_text` of a text cut at one whitespace run is the normalized left part, then one space, or nothing when the run is a gap between a word-opening and a word-closing letter, then the normalized right part |
| Text.UnspacedLower | analyzers/resume_analyzer.py:65 | lowercasing and deleting whitespace commute |
| StringOrder.SortedUnique | analyzers/resume_analyzer.py:91 | `sorted(set(xs))` is strictly ascending in Python string order and has exactly the elements of `xs` |
| StringOrder.SortedUniqueDetermined | analyzers/resume_analyzer.py:91 | two strictly ascending lists with the same elements are equal, so the result of `sorted(set(xs))` is fully determined |
| StringOrder.LessTotal | analyzers/resume_analyzer.py:91 | any two different strings are ordered one way or the other |
| StringOrder.LessTransitive | analyzers/resume_analyzer.py:91 | the string order is transitive |
| ResumeAnalyzer.AnyPatternMatches | analyzers/resume_analyzer.py:86-89 | the pattern loop succeeds exactly when some pattern of the skill occurs as a whole word |
| ResumeAnalyzer.FirstPatternSuffices | analyzers/resume_analyzer.py:86-89 | once the first pattern matches, the skill is credited whatever the later patterns are |
| ResumeAnalyzer.MatchedLabels | analyzers/resume_analyzer.py:83-89 | every collected label belongs to a skill one of whose patterns matched, and every such skill's label is collected |
| ResumeAnalyzer.CreditedSkills | analyzers/resume_analyzer.py:81-91 | the credited skills are strictly ascending, at most eight, all taxonomy labels, and a label is present exactly when one of its patterns occurs as a whole word |
| ResumeAnalyzer.AnalyzeResume | analyzers/resume_analyzer.py:72-109 | empty text gives no skills, score 0 and the missing-text summary; otherwise the skills are those credited in the normalized text, the score is 12 per skill, and the no-skills summary appears exactly when no skill is credited |
| ResumeAnalyzer.EmptyResume | analyzers/resume_analyzer.py:74-79 | empty resume text gives `[]`, 0 and "No resume text provided" |
| ResumeAnalyzer.ResumeScoreRange | analyzers/resume_analyzer.py:96 | the score is a multiple of 12 between 0 and 96, so the cap of 100 never applies |
| ResumeAnalyzer.JobDescriptionIgnored | analyzers/resume_analyzer.py:72 | the result is the same for every job description |
| ResumeAnalyzer.LabelsDistinct | analyzers/resume_analyzer.py:8-48 | no two taxonomy entries share a label |
| ResumeAnalyzer.SummaryDistinguishesEmpty | analyzers/resume_analyzer.py:98-103 | the summary is the no-skills message exactly when the skill list is empty |
| ResumeAnalyzer.SkillScore | analyzers/resume_analyzer.py:96 | the score is 12 per skill up to eight skills, and 100 from nine on; it never exceeds 100 |
| ProjectAnalyzer.AnyKeyword | analyzers/project_analyzer.py:63 | `any(k in text ...)` holds exactly when some keyword occurs as a substring |
| ProjectAnalyzer.AreasOf | analyzers/project_analyzer.py:62-64 | for one description, an area name is collected exactly when that area is revealed by the lowercased description |
| ProjectAnalyzer.CoveredAreas | analyzers/project_analyzer.py:55-64 | every covered name belongs to an area some description reveals, and every revealed area is covered |
| ProjectAnalyzer.CoreAreaCovered | analyzers/project_analyzer.py:7-27 | each of the five areas is covered exactly when some lowercased description contains one of its keywords |
| ProjectAnalyzer.CoveredIff | analyzers/project_analyzer.py:58-64 | with pairwise different area names, an area is covered exactly when some description reveals it |
| ProjectAnalyzer.CoveredAreasBound | analyzers/project_analyzer.py:7-27 | no more areas are covered than the taxonomy has |
| ProjectAnalyzer.RealWorldCount | analyzers/project_analyzer.py:66-68 | the real-world count is at most the number of descriptions, and zero exactly when no description contains a real-world term |
| ProjectAnalyzer.ProjectScore | analyzers/project_analyzer.py:73-76 | the score is a multiple of 5 no greater than 100, and reaches 100 exactly with four areas and two real-world projects |
| ProjectAnalyzer.AreaFinding | analyzers/project_analyzer.py:84-91 | the area dimension yields exactly one entry: the strength carrying the covered set when some area is covered, and otherwise the weakness "no core concepts"; no other entry |
| ProjectAnalyzer.PracticalFinding | analyzers/project_analyzer.py:93-100 | the real-world dimension yields exactly one entry: the strength carrying the count when it is positive, and otherwise the weakness "no real-world focus"; no other entry |
| ProjectAnalyzer.FindingsExact | analyzers/project_analyzer.py:81-100 | the findings of a non-empty list are written out: the area strength, then the real-world strength, each present exactly when its dimension found something, and the two weaknesses in the same order otherwise |
| ProjectAnalyzer.FindingsDetermined | analyzers/project_analyzer.py:81-100 | the covered areas and the real-world count leave no choice in the strengths and weaknesses, order included |
| ProjectAnalyzer.Analyze | analyzers/project_analyzer.py:39-116 | for any taxonomy: the empty-list report on no input; otherwise the capped score of the covered areas and real-world count, never the "no projects" weakness, and exactly the findings `FindingsFor` describes for the covered areas and the count (one strength carrying the covered set or the count, or the dimension's weakness, per dimension, the area dimension first), each weakness present exactly when its dimension found nothing |
| ProjectAnalyzer.AnalyzeProjects | analyzers/project_analyzer.py:39-116 | the report with the module's taxonomy: score a multiple of 5 in [0, 100], the empty-list report, and for a non-empty list never the "no projects" weakness and exactly the findings `FindingsFor` describes for its covered areas and real-world count |
| ProjectAnalyzer.EmptyProjects | analyzers/project_analyzer.py:47-53 | an empty list gives score 0, no strengths and the single weakness "No projects provided" |
| ProjectAnalyzer.RealWorldCountAppend | analyzers/project_analyzer.py:58-68 | the real-world count of two concatenated lists is the sum of their counts |
| ProjectAnalyzer.RealWorldCountPermutation | analyzers/project_analyzer.py:58-68 | reordering the descriptions does not change the real-world count |
| ProjectAnalyzer.CoveredAreasPermutation | analyzers/project_analyzer.py:55-64 | reordering the descriptions does not change the covered areas |
| ProjectAnalyzer.AnalyzePermutation | analyzers/project_analyzer.py:39-116 | for any taxonomy, the whole report depends only on the multiset of descriptions |
| ProjectAnalyzer.ProjectsPermutationInvariant | analyzers/project_analyzer.py:55-116 | the whole report, score included, is invariant under any permutation of the descriptions |
| ProjectAnalyzer.CoveredAreasGrow | analyzers/project_analyzer.py:58-64 | appending descriptions keeps every covered area covered |
| ProjectAnalyzer.ProjectScoreMonotone | analyzers/project_analyzer.py:73-76 | the score never decreases when the area count or the real-world count grows |
| ProjectAnalyzer.AppendNeverLowersScore | analyzers/project_analyzer.py:58-76 | appending descriptions never lowers the score |
| ProjectAnalyzer.NoAreaCovered | analyzers/project_analyzer.py:84-91 | the covered set is empty exactly when no description reveals any area |
| ProjectAnalyzer.WeaknessMessagesDistinct | analyzers/project_analyzer.py:47-100 | the three weakness texts are pairwise different, so the weakness values determine the strings of the report |
| GithubApi.ApiUrl | utils/github_api.py:5-11 | the API URL is "https://api.github.com/users/", the username, then "/repos" |
| GithubApi.ProfileUrl | utils/github_api.py:26 | the profile URL is "https://github.com/" followed by the username |
| GithubApi.RequestUrlsIdentifyUser | utils/github_api.py:11-26 | different usernames give different API URLs and different profile URLs, and no API URL is a profile URL |
| GithubApi.FetchRepositoriesApi | utils/github_api.py:8-20 | a non-empty result is only ever the list body of a 200 reply, and a 200 reply with a list body yields that list |
| GithubApi.ApiFailuresGiveEmpty | utils/github_api.py:14-20 | a failed request, a non-200 status or a body that is not a list gives `[]` |
| GithubApi.LanguagesOf | utils/github_api.py:62-65 | the languages are exactly the non-empty language strings of repository objects, and there are no more of them than list entries |
| GithubApi.ParseInt | utils/github_api.py:36 | `int` succeeds exactly when the stripped text is an optional sign followed by at least one ASCII digit; the value is the decimal value of the digits, negated exactly after a '-' |
| GithubApi.ParseIntRoundTrip | utils/github_api.py:36 | a counter rendered as `str(n)`, with any whitespace around it, is read back as `n` |
| GithubApi.ParseIntLeadingZeros | utils/github_api.py:36 | "007" reads as 7 |
| GithubApi.ParseIntSigned | utils/github_api.py:36 | "+5" reads as 5 and "-3" as -3 |
| GithubApi.ParseIntRejects | utils/github_api.py:36 | "1.2k", "12 repos" and a lone "-" are rejected |
| GithubApi.StrippedTexts | utils/github_api.py:39-41 | the scraped languages are exactly the stripped span texts, no more of them than spans |
| GithubApi.ScrapedLanguagesDeduplicated | utils/github_api.py:39-45 | a repeated language span adds nothing to the scraped languages |
| GithubApi.ScrapeProfile | utils/github_api.py:23-49 | a failed request or non-200 status gives the empty result; a missing counter gives 0 repositories; with a counter the scrape succeeds exactly when `int` accepts it, and the count is the value `int` reads; languages are the stripped span texts |
| GithubApi.FetchGithubData | utils/github_api.py:52-76 | the source is "api" exactly when the API list is non-empty; then only the API URL is requested, the count is the list length and there are at most that many languages; otherwise the profile is requested as well, and the count and languages are those of the scrape, or both absent when it failed |
| GithubApi.ScrapeNotAttemptedAfterApi | utils/github_api.py:59-71 | with a non-empty API list the profile page plays no part and its URL is never requested |
| GithubApi.ScrapeFailureKeepsSource | utils/github_api.py:73-76 | an empty API list and a failed scrape give data holding only the source "scrape" |
| GithubApi.ScrapeCounterExample | utils/github_api.py:59-76 | an empty API list and a profile showing the counter "2" and no language give count 2, no languages, source "scrape" |
| GithubAnalyzer.GithubScore | analyzers/github_analyzer.py:28-41 | the score never exceeds 90, is at least 6 for one or more repositories, and is 90 exactly from seven repositories and four languages on |
| GithubAnalyzer.Report | analyzers/github_analyzer.py:15-45 | a missing or zero count gives the empty report; otherwise count and languages pass through, the score is `GithubScore` of the count and the number of languages, and a positive count scores between 6 and 90 |
| GithubAnalyzer.AnalyzeGithub | analyzers/github_analyzer.py:4-45 | an empty username gives the zero report with no request made; otherwise the API is asked first and the fetched data is scored |
| GithubAnalyzer.EmptyUsername | analyzers/github_analyzer.py:5-11 | an empty username gives score 0, count 0, no languages, "No GitHub username provided", and no request |
| GithubAnalyzer.NothingFetchedScoresZero | analyzers/github_analyzer.py:15-25 | when neither the API nor the scrape yields data, the report is the zero report |
| GithubAnalyzer.ApiRepositoriesScored | analyzers/github_analyzer.py:28-44 | repositories from the API pass count and languages through unchanged and score between 6 and 90 |
| GithubAnalyzer.ScoreMonotoneInRepos | analyzers/github_analyzer.py:28-32 | in the scoring formula alone, a larger repository count never lowers the score |
| GithubAnalyzer.ReportMonotoneInRepos | analyzers/github_analyzer.py:15-41 | for counts of 0 and more, a larger count never lowers the reported score |
| GithubAnalyzer.NegativeCountOutscoresZero | analyzers/github_analyzer.py:15-41 | below 0 the reported score is not monotone: a count of -1 with three languages scores 24, a count of 0 scores 0 |
| GithubAnalyzer.ScoreMonotoneInLanguages | analyzers/github_analyzer.py:28-32 | more languages never lower the score |
| GithubAnalyzer.CapNeverReached | analyzers/github_analyzer.py:28-41 | the three parts add up to at most 90, so the cap of 100 never changes the score |
| GithubAnalyzer.NegativeCounterScoresBelowZero | analyzers/github_analyzer.py:4-45 | with an empty API list, a profile counter reading "-3" and no language span, `analyze_github` reports count -3, no languages and score -18 |
| GithubAnalyzer.IntToString | analyzers/github_analyzer.py:35 | `str(n)` is the canonical numeral of `n`: stripped, a '-' exactly when `n` is negative, never a '+', no leading zero except in "0" itself, and digits whose decimal value is the magnitude of `n` |
| GithubAnalyzer.IntToStringParses | analyzers/github_analyzer.py:35 | `int(str(n)) == n` for every integer, so the count in the summary reads back as the count |
| AcademicAnalyzer.AcademicScore | analyzers/academic_analyzer.py:2 | within the ranges the input form enforces the score lies in [0, 100], and equal percentages and scaled CGPA score that common value |
| AcademicAnalyzer.AnalyzeAcademics | analyzers/academic_analyzer.py:1-6 | the summary is always "Academic consistency evaluated" and the score lies in [0, 100] for in-range inputs |
| AcademicAnalyzer.AcademicExtremes | analyzers/academic_analyzer.py:2 | (0, 0, 0) scores 0 and (100, 100, 10) scores 100 |
| AcademicAnalyzer.AcademicExample | analyzers/academic_analyzer.py:2 | (80, 85, 8.5) scores 83.5 |
| AcademicAnalyzer.AcademicMonotone | analyzers/academic_analyzer.py:2 | raising any input never lowers the score |
| AcademicAnalyzer.UnvalidatedCgpa | analyzers/academic_analyzer.py:1-2 | nothing validates the inputs: a CGPA of 11 scores 104 |
| App.FindMatch | app.py:33 | the search reports the first position where `github.com/` is followed by a username character, or that there is none |
| App.HandleEnd | app.py:33 | the greedy run of `[A-Za-z0-9_-]` ends at the first character outside the class or at the end |
| App.UsernameIn | app.py:32-38 | at the leftmost match the result is the maximal non-empty username run after `github.com/`; without a match it is the text itself |
| App.NormalizeGithubUsername | app.py:22-38 | empty input gives ""; the result never has edge whitespace; otherwise it is the search result on the stripped input |
| App.NormalizeIdempotent | app.py:22-38 | normalizing a normalized username changes nothing |
| App.PlainUsernameKept | app.py:37-38 | a plain username is returned as it is |
| App.ProfileUrlGivesUsername | app.py:33-35 | `https://github.com/<name>` gives `<name>` |
| App.ProjectsOf | app.py:142 | the kept descriptions are non-empty and stripped, and no more numerous than the lines |
| App.ProjectsOfMembers | app.py:142 | a description is kept exactly when it is the non-empty stripped text of some line |
| App.ProjectsOfAppend | app.py:142 | lines are handled in order: the list for two blocks of lines is the first block's list followed by the second's |
| App.ProjectsOfLine | app.py:142 | one line contributes its stripped text, or nothing when blank |
| App.ProjectList | app.py:142 | every project is non-empty and stripped, and there are at most as many as lines |
| App.ProjectListRoundTrip | app.py:142 | descriptions written one per line without blanks or edge whitespace are read back exactly |

## Left out

- The Streamlit page: widgets, messages and spinners (app.py:44-205 apart from line 142), and the one-hour result cache (app.py:56-58). These are user-interface and framework code.
- `final_score` from `scoring/score_engine`: it is imported at app.py:12, but `scoring/score_engine` is not part of this model, and its weights are unknown.
- `llm/ollama_client.py`, `llm/prompts.py` and `utils/pdf_parser.py` are not part of this model. They are a subprocess wrapper, a string template and a PDF library wrapper.
- HTTP and HTML parsing. Requests, JSON decoding and BeautifulSoup are replaced by their outcomes: status, decoded shape, counter text and language-span texts. Which element BeautifulSoup finds first is taken as given.
- Float rounding: `round(score, 2)` in the academic and project analyzers. The academic score is an exact real; the project score is an integer, which rounding leaves unchanged.
- ProjectAnalyzer.Strength: strengths are values, not strings. The "Covers core areas: ..." text (analyzers/project_analyzer.py:86) lists the areas in Python set-iteration order, which is not determined, so that strength carries the set of covered areas (`ProjectAnalyzer.FindingsFor`); the real-world strength carries its count, not the text of line 95.
- Unicode. Characters are classified as ASCII:
  - whitespace is space, 9..13 and 28..31;
  - word characters are `[A-Za-z0-9_]`;
  - every other character is an ordinary symbol that `lower()` leaves unchanged.

  Python's `\s`, `\b`, `strip()` and `lower()` treat non-ASCII whitespace, letters and case pairs differently.
- GithubApi.ParseInt: reads an optional sign and ASCII digits. `int()` also accepts `_` digit separators and non-ASCII digits; such counters are treated as malformed here.
- GithubApi.LanguagesOf: a repository's `"language"` is modelled as absent, null or a string. A non-string truthy value would be collected as is, or raise when unhashable; that case is not modelled.
- The `isinstance(text, str)` test in `analyze_resume`: the model's resume text is always a string.
- The `"unknown"` default for a missing source in `analyze_github`: the fetch always sets a source, so that default is unreachable.
- ResumeAnalyzer.SkillSummary: no contract states the text of the summary. Only which message is chosen is stated (`ResumeAnalyzer.SummaryDistinguishesEmpty`).
- ProjectAnalyzer.ProjectSummary: no contract states the text of the summary (analyzers/project_analyzer.py:105-109).
- ProjectAnalyzer.Weakness.Message: no contract of its own. It maps each weakness to its literal text (analyzers/project_analyzer.py:51, 90, 99). Only that the map is one-to-one is stated (`ProjectAnalyzer.WeaknessMessagesDistinct`).
- Text.JoinWith: no contract of its own. `', '.join` (analyzers/resume_analyzer.py:100) is used only for the summary text. The `'\n'` join is characterized through `Text.SplitOn`, `Text.SplitOnJoin` and `Text.JoinInjective`: a join with a one-character separator absent from the pieces can be undone.
- GithubAnalyzer.GithubSummary: no contract states the text of the summary beyond its count part (`GithubAnalyzer.IntToStringParses`).
