/** The two pieces of input handling in the application script: turning a
    GitHub username or profile URL into a username, and turning the project
    text area into a list of project descriptions. */
module App {
  import opened Common
  import opened Text

  // ---------------------------------------------------------------------
  // normalize_github_username
  // ---------------------------------------------------------------------

  /** The literal part of the pattern `github\.com/([A-Za-z0-9_-]+)`. */
  const UrlPrefix := "github.com/"

  /** `[A-Za-z0-9_-]`, the characters of the captured username. */
  predicate IsHandleChar(c: char) {
    IsLetter(c) || IsDigit(c) || c == '_' || c == '-'
  }

  /** The pattern matches `t` starting at `i`: the literal prefix followed by
      at least one username character. */
  predicate MatchAt(t: string, i: nat) {
    OccursAt(t, UrlPrefix, i) && i + |UrlPrefix| < |t| && IsHandleChar(t[i + |UrlPrefix|])
  }

  /** `re.search` tries the start positions from `i` on, left to right, and
      reports the first one where the pattern matches. */
  function FindMatch(t: string, i: nat): (r: Option<nat>)
    requires i <= |t|
    ensures r.Some? ==> i <= r.value <= |t| && MatchAt(t, r.value)
    ensures r.Some? ==> forall k :: i <= k < r.value ==> !MatchAt(t, k)
    ensures r.None? ==> forall k :: i <= k <= |t| ==> !MatchAt(t, k)
    decreases |t| - i
  {
    if MatchAt(t, i) then Some(i)
    else if i == |t| then None
    else FindMatch(t, i + 1)
  }

  /** The greedy `+`: the end of the run of username characters that starts
      at `j`. */
  function HandleEnd(t: string, j: nat): (e: nat)
    requires j <= |t|
    ensures j <= e <= |t|
    ensures forall k :: j <= k < e ==> IsHandleChar(t[k])
    ensures e == |t| || !IsHandleChar(t[e])
    decreases |t| - j
  {
    if j < |t| && IsHandleChar(t[j]) then HandleEnd(t, j + 1) else j
  }

  /** `i` is where `re.search` finds its match: the pattern matches there
      and at no earlier position. */
  predicate LeftmostMatch(t: string, i: nat) {
    i <= |t| && MatchAt(t, i) && forall k :: 0 <= k < i ==> !MatchAt(t, k)
  }

  /** `r` is what the capture group holds for a match at `i`: the longest
      non-empty run of username characters right after the prefix. */
  predicate CapturedAt(t: string, i: nat, r: string) {
    var start := i + |UrlPrefix|;
    && start + |r| <= |t|
    && |r| > 0
    && r == t[start..start + |r|]
    && (forall k :: 0 <= k < |r| ==> IsHandleChar(r[k]))
    && (start + |r| == |t| || !IsHandleChar(t[start + |r|]))
  }

  /** The search on the stripped text: the captured username at the leftmost
      match, or the whole text when the pattern matches nowhere. */
  function UsernameIn(t: string): (r: string)
    ensures (forall k :: 0 <= k <= |t| ==> !MatchAt(t, k)) ==> r == t
    ensures forall i :: LeftmostMatch(t, i) ==> CapturedAt(t, i, r)
    ensures Trimmed(t) ==> Trimmed(r)
  {
    match FindMatch(t, 0)
    case None => t
    case Some(i) =>
      var start := i + |UrlPrefix|;
      var handle := t[start..HandleEnd(t, start)];
      CapturedHandle(t, i);
      LeftmostFound(t);
      HandleRunTrimmed(handle);
      handle
  }

  /** At a match, the greedy run after the prefix is what the group
      captures. */
  lemma {:induction false} CapturedHandle(t: string, i: nat)
    requires i + |UrlPrefix| < |t| && IsHandleChar(t[i + |UrlPrefix|])
    ensures var start := i + |UrlPrefix|;
            CapturedAt(t, i, t[start..HandleEnd(t, start)])
  {
    var start := i + |UrlPrefix|;
    var e := HandleEnd(t, start);
    assert e > start;
    var handle := t[start..e];
    forall k | 0 <= k < |handle| ensures IsHandleChar(handle[k]) {
      assert handle[k] == t[start + k];
    }
  }

  /** Every leftmost match is the one the search reports. */
  lemma {:induction false} LeftmostFound(t: string)
    ensures forall i: nat :: LeftmostMatch(t, i) ==> FindMatch(t, 0) == Some(i)
  {
    forall i: nat | LeftmostMatch(t, i) ensures FindMatch(t, 0) == Some(i) {
      LeftmostUnique(t, i);
    }
  }

  /** `normalize_github_username(input_text)`: empty input stays empty;
      otherwise the input is stripped and searched. */
  function NormalizeGithubUsername(input: string): (r: string)
    ensures input == "" ==> r == ""
    ensures Trimmed(r)
    ensures input != "" ==> r == UsernameIn(Strip(input))
  {
    if input == "" then "" else UsernameIn(Strip(input))
  }

  /** Normalizing an already normalized username changes nothing. */
  lemma NormalizeIdempotent(input: string)
    ensures NormalizeGithubUsername(NormalizeGithubUsername(input)) == NormalizeGithubUsername(input)
  {
    var r := NormalizeGithubUsername(input);
    if r != "" {
      var t := Strip(input);
      assert Strip(r) == r;
      if FindMatch(t, 0).Some? {
        var i := FindMatch(t, 0).value;
        assert CapturedAt(t, i, r);
        NoMatchInHandles(r);
      } else {
        assert r == t;
        assert Strip(t) == t;
      }
    }
  }

  /** A plain username is kept as it is. */
  lemma PlainUsernameKept(name: string)
    requires |name| > 0
    requires forall k :: 0 <= k < |name| ==> IsHandleChar(name[k])
    ensures NormalizeGithubUsername(name) == name
  {
    HandleRunTrimmed(name);
    NoMatchInHandles(name);
  }

  /** A profile URL gives the username it ends with. */
  lemma ProfileUrlGivesUsername(name: string)
    requires |name| > 0
    requires forall k :: 0 <= k < |name| ==> IsHandleChar(name[k])
    ensures NormalizeGithubUsername("https://github.com/" + name) == name
  {
    var input := "https://github.com/" + name;
    HandleRunTrimmed(name);
    assert Trimmed(input);
    var t := Strip(input);
    assert t == input;
    assert MatchAt(t, 8) by {
      assert t[8..19] == UrlPrefix;
      assert t[19] == name[0];
    }
    forall k | 0 <= k < 8 ensures !MatchAt(t, k) {
      MatchNeedsDot(t, k);
      assert t[k + 6] == "https://github.com/"[k + 6];
    }
    assert LeftmostMatch(t, 8);
    var r := UsernameIn(t);
    assert CapturedAt(t, 8, r);
    HandlesToEnd(t, 19);
    assert t[19..] == name;
  }

  // ---------------------------------------------------------------------
  // Lemmas behind the contracts
  // ---------------------------------------------------------------------

  /** Two matches that are each the leftmost one coincide. */
  lemma LeftmostUnique(t: string, i: nat)
    requires LeftmostMatch(t, i)
    ensures FindMatch(t, 0) == Some(i)
  {
  }

  /** Every match has the dot of `github.com` six places after its start. */
  lemma MatchNeedsDot(t: string, k: nat)
    ensures MatchAt(t, k) ==> k + 6 < |t| && t[k + 6] == '.'
  {
    if MatchAt(t, k) {
      assert t[k..k + |UrlPrefix|][6] == UrlPrefix[6];
    }
  }

  /** A text made of username characters contains no match, since it has no
      dot. */
  lemma NoMatchInHandles(r: string)
    requires forall k :: 0 <= k < |r| ==> IsHandleChar(r[k])
    ensures forall k :: 0 <= k <= |r| ==> !MatchAt(r, k)
  {
    forall k | 0 <= k <= |r| ensures !MatchAt(r, k) {
      MatchNeedsDot(r, k);
    }
  }

  /** A non-empty run of username characters has no whitespace at its ends. */
  lemma HandleRunTrimmed(r: string)
    requires forall k :: 0 <= k < |r| ==> IsHandleChar(r[k])
    ensures Trimmed(r)
  {
  }

  /** A run of username characters that reaches the end of the text is
      taken whole. */
  lemma HandlesToEnd(t: string, j: nat)
    requires j <= |t|
    requires forall k :: j <= k < |t| ==> IsHandleChar(t[k])
    ensures HandleEnd(t, j) == |t|
    decreases |t| - j
  {
    if j < |t| {
      HandlesToEnd(t, j + 1);
    }
  }

  // ---------------------------------------------------------------------
  // The project list
  // ---------------------------------------------------------------------

  /** `[p.strip() for p in lines if p.strip()]` */
  function ProjectsOf(lines: seq<string>): (r: seq<string>)
    ensures |r| <= |lines|
    ensures forall j :: 0 <= j < |r| ==> r[j] != "" && Trimmed(r[j])
  {
    if |lines| == 0 then []
    else
      var head := Strip(lines[0]);
      var rest := ProjectsOf(lines[1..]);
      if head != "" then [head] + rest else rest
  }

  /** The project list read from the text area, one description per line. */
  function ProjectList(text: string): (r: seq<string>)
    ensures forall j :: 0 <= j < |r| ==> r[j] != "" && Trimmed(r[j])
    ensures |r| <= |SplitOn(text, '\n')|
  {
    ProjectsOf(SplitOn(text, '\n'))
  }

  /** Lines are handled one at a time and in order: the list for two blocks
      of lines is the list of the first followed by the list of the second. */
  lemma {:induction false} ProjectsOfAppend(a: seq<string>, b: seq<string>)
    ensures ProjectsOf(a + b) == ProjectsOf(a) + ProjectsOf(b)
  {
    if |a| == 0 {
      assert a + b == b;
    } else {
      assert (a + b)[1..] == a[1..] + b;
      ProjectsOfAppend(a[1..], b);
    }
  }

  /** A description is in the list exactly when it is the non-empty
      stripped text of some line. */
  lemma ProjectsOfMembers(lines: seq<string>, p: string)
    ensures p in ProjectsOf(lines) <==> p != "" && exists i :: 0 <= i < |lines| && Strip(lines[i]) == p
  {
    if p in ProjectsOf(lines) {
      var i := ProjectsOfSource(lines, p);
    }
    if p != "" && exists i :: 0 <= i < |lines| && Strip(lines[i]) == p {
      var i :| 0 <= i < |lines| && Strip(lines[i]) == p;
      ProjectsOfKeeps(lines, i);
    }
  }

  /** Every kept description comes from some line. */
  lemma {:induction false} ProjectsOfSource(lines: seq<string>, p: string) returns (i: nat)
    requires p in ProjectsOf(lines)
    ensures i < |lines| && Strip(lines[i]) == p
  {
    var head := Strip(lines[0]);
    var rest := ProjectsOf(lines[1..]);
    assert ProjectsOf(lines) == if head != "" then [head] + rest else rest;
    if head == p {
      i := 0;
    } else {
      assert p in rest by {
        if head != "" {
          assert ([head] + rest)[0] == head;
        }
      }
      var j := ProjectsOfSource(lines[1..], p);
      i := j + 1;
      assert lines[i] == lines[1..][j];
    }
  }

  /** Every non-blank line contributes its stripped text. */
  lemma {:induction false} ProjectsOfKeeps(lines: seq<string>, i: nat)
    requires i < |lines| && Strip(lines[i]) != ""
    ensures Strip(lines[i]) in ProjectsOf(lines)
  {
    var head := Strip(lines[0]);
    var rest := ProjectsOf(lines[1..]);
    assert ProjectsOf(lines) == if head != "" then [head] + rest else rest;
    if i > 0 {
      assert lines[i] == lines[1..][i - 1];
      ProjectsOfKeeps(lines[1..], i - 1);
    }
  }

  /** One line contributes its stripped text, or nothing when it is blank. */
  lemma ProjectsOfLine(line: string)
    ensures ProjectsOf([line]) == if Strip(line) == "" then [] else [Strip(line)]
  {
  }

  /** Descriptions written one per line, without blank lines or surrounding
      whitespace, are read back exactly. */
  lemma ProjectListRoundTrip(projects: seq<string>)
    requires forall j :: 0 <= j < |projects| ==> projects[j] != "" && Trimmed(projects[j]) && '\n' !in projects[j]
    ensures ProjectList(JoinWith(projects, "\n")) == projects
  {
    if |projects| > 0 {
      SplitOnJoin(projects, '\n');
      ProjectsOfStripped(projects);
    }
  }

  /** Non-blank, stripped lines pass through unchanged. */
  lemma {:induction false} ProjectsOfStripped(lines: seq<string>)
    requires forall j :: 0 <= j < |lines| ==> lines[j] != "" && Trimmed(lines[j])
    ensures ProjectsOf(lines) == lines
  {
    if |lines| > 0 {
      ProjectsOfStripped(lines[1..]);
    }
  }
}
