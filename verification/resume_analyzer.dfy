/** `analyze_resume`: credits each skill of a fixed taxonomy whose patterns
    occur as whole words in the normalized resume text, and scores 12 points
    per skill, capped at 100. */
module ResumeAnalyzer {
  import opened Common
  import opened Text
  import opened TextNormalizer
  import opened StringOrder

  /** A taxonomy entry: a skill label and the words whose `\b...\b` regex
      credits it, tried in order. */
  datatype Skill = Skill(name: string, patterns: seq<string>)

  /** `SKILL_PATTERNS`, in the dictionary's order. Each pattern is stored
      without the surrounding `\b` anchors. */
  const SkillPatterns: seq<Skill> := [
    Skill("Python", ["python"]),
    Skill("Machine Learning", ["machine learning", "ml"]),
    Skill("Data Science", ["data science", "data analysis", "pandas", "numpy"]),
    Skill("Web Development", ["react", "html", "css", "javascript"]),
    Skill("Backend Development", ["flask", "django", "fastapi", "api"]),
    Skill("Databases", ["sql", "mysql", "postgres", "mongodb"]),
    Skill("Power BI", ["power bi", "dax"]),
    Skill("Core CS", ["operating systems", "computer networks", "oop", "object oriented"])
  ]

  const NoResumeSummary := "No resume text provided"
  const NoSkillsSummary := "No recognizable technical skills detected"

  datatype ResumeReport = ResumeReport(skills: seq<string>, score: nat, summary: string)

  /** The inner `for pattern in patterns` loop: true as soon as one pattern
      occurs as a whole word; the remaining patterns are not consulted. */
  function AnyPatternMatches(t: string, patterns: seq<string>): (r: bool)
    ensures r <==> exists k :: 0 <= k < |patterns| && ContainsWord(t, patterns[k])
  {
    if |patterns| == 0 then false
    else if ContainsWordFrom(t, patterns[0], 0) then true
    else AnyPatternMatches(t, patterns[1..])
  }

  /** The outer loop: the labels of the skills credited, in taxonomy order. */
  function MatchedLabels(t: string, skills: seq<Skill>): (r: seq<string>)
    ensures |r| <= |skills|
    ensures forall l :: l in r ==> exists k :: 0 <= k < |skills| && skills[k].name == l && AnyPatternMatches(t, skills[k].patterns)
    ensures forall k :: 0 <= k < |skills| && AnyPatternMatches(t, skills[k].patterns) ==> skills[k].name in r
  {
    if |skills| == 0 then []
    else
      var rest := MatchedLabels(t, skills[1..]);
      assert forall k :: 1 <= k < |skills| ==> skills[k] == skills[1..][k - 1];
      if AnyPatternMatches(t, skills[0].patterns) then [skills[0].name] + rest else rest
  }

  /** Python's `min(n * 12, 100)`. */
  function SkillScore(n: nat): (score: nat)
    ensures score <= 100 && score <= 12 * n
    ensures n <= 8 ==> score == 12 * n
    ensures n >= 9 ==> score == 100
  {
    Min(n * 12, 100)
  }

  function SkillSummary(skills: seq<string>): string {
    if |skills| == 0 then NoSkillsSummary
    else "Detected " + NatToString(|skills|) + " skill areas: " + JoinWith(skills, ", ")
  }

  /** The credited labels, `sorted(set(matched_skills))`: strictly
      ascending, drawn from the taxonomy, and containing a label exactly when
      one of its patterns occurs as a whole word in `clean`. */
  function CreditedSkills(clean: string): (skills: seq<string>)
    ensures StrictlySorted(skills)
    ensures |skills| <= 8
    ensures forall l :: l in skills ==> IsSkillLabel(l)
    ensures forall k :: 0 <= k < |SkillPatterns| ==>
              (SkillPatterns[k].name in skills <==> AnyPatternMatches(clean, SkillPatterns[k].patterns))
  {
    var matched := MatchedLabels(clean, SkillPatterns);
    var skills := SortedUnique(matched);
    SkillCount(matched, skills);
    LabelsDistinct();
    CreditedIff(clean, SkillPatterns, skills);
    skills
  }

  /** `analyze_resume(text, job_desc)`. `analyze_resume` accepts the job
      description and ignores it. */
  function AnalyzeResume(text: string, jobDesc: string): (r: ResumeReport)
    ensures text == "" ==> r == ResumeReport([], 0, NoResumeSummary)
    ensures text != "" ==> r.skills == CreditedSkills(NormalizeText(text))
    ensures |r.skills| <= 8 && r.score == 12 * |r.skills|
    ensures text != "" ==> (r.summary == NoSkillsSummary <==> r.skills == [])
  {
    if text == "" then ResumeReport([], 0, NoResumeSummary)
    else
      var skills := CreditedSkills(NormalizeText(text));
      SummaryDistinguishesEmpty(skills);
      ResumeReport(skills, SkillScore(|skills|), SkillSummary(skills))
  }

  /** `l` is the label of a taxonomy entry. */
  predicate IsSkillLabel(l: string) {
    exists k :: 0 <= k < |SkillPatterns| && SkillPatterns[k].name == l
  }

  // ---------------------------------------------------------------------
  // Properties
  // ---------------------------------------------------------------------

  /** Empty resume text is reported as missing, with no skills and score 0. */
  lemma EmptyResume(jobDesc: string)
    ensures AnalyzeResume("", jobDesc) == ResumeReport([], 0, NoResumeSummary)
  {
  }

  /** The score is a multiple of 12 between 0 and 96: with eight skills in
      the taxonomy the cap of 100 is never reached. */
  lemma ResumeScoreRange(text: string, jobDesc: string)
    ensures var r := AnalyzeResume(text, jobDesc);
            r.score % 12 == 0 && 0 <= r.score <= 96
  {
    var r := AnalyzeResume(text, jobDesc);
    TwelvePerSkill(|r.skills|);
  }

  /** The job description has no influence on the result. */
  lemma JobDescriptionIgnored(text: string, jobDesc1: string, jobDesc2: string)
    ensures AnalyzeResume(text, jobDesc1) == AnalyzeResume(text, jobDesc2)
  {
  }

  /** A skill is credited as soon as its first pattern matches, whatever the
      later patterns are. */
  lemma FirstPatternSuffices(t: string, p: string, later: seq<string>)
    requires ContainsWord(t, p)
    ensures AnyPatternMatches(t, [p] + later)
  {
    assert ([p] + later)[0] == p;
  }

  // ---------------------------------------------------------------------
  // Lemmas behind the contracts
  // ---------------------------------------------------------------------

  /** No two taxonomy entries share a label. */
  lemma LabelsDistinct()
    ensures forall i, j :: 0 <= i < j < |SkillPatterns| ==> SkillPatterns[i].name != SkillPatterns[j].name
  {
  }

  /** Membership in any sequence with the same elements as the matched
      labels is decided by the skill's own patterns, provided no two
      entries share a label. */
  lemma CreditedIff(t: string, table: seq<Skill>, skills: seq<string>)
    requires forall i, j :: 0 <= i < j < |table| ==> table[i].name != table[j].name
    requires Elems(skills) == Elems(MatchedLabels(t, table))
    ensures forall l :: l in skills ==> exists k :: 0 <= k < |table| && table[k].name == l
    ensures forall k :: 0 <= k < |table| ==>
              (table[k].name in skills <==> AnyPatternMatches(t, table[k].patterns))
  {
    var matched := MatchedLabels(t, table);
    assert forall l :: l in skills <==> l in matched by {
      assert forall l :: l in skills <==> l in Elems(skills);
      assert forall l :: l in matched <==> l in Elems(matched);
    }
    forall k | 0 <= k < |table| && table[k].name in skills
      ensures AnyPatternMatches(t, table[k].patterns)
    {
      var k' :| 0 <= k' < |table| && table[k'].name == table[k].name && AnyPatternMatches(t, table[k'].patterns);
      assert k' == k;
    }
  }

  lemma TwelvePerSkill(n: nat)
    requires n <= 8
    ensures (12 * n) % 12 == 0 && 12 * n <= 96
  {
  }

  /** The sorted, deduplicated labels are no more numerous than the entries. */
  lemma SkillCount(matched: seq<string>, skills: seq<string>)
    requires |matched| <= 8
    requires StrictlySorted(skills) && Elems(skills) == Elems(matched)
    ensures |skills| <= 8
  {
    StrictlySortedDistinct(skills);
    ElemsCardinality(skills);
    ElemsCardinality(matched);
  }

  lemma SummaryDistinguishesEmpty(skills: seq<string>)
    ensures SkillSummary(skills) == NoSkillsSummary <==> skills == []
  {
    if skills != [] {
      assert SkillSummary(skills)[0] == 'D';
    }
  }
}
