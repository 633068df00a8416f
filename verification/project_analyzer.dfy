/** `analyze_projects`: finds which core knowledge areas the project
    descriptions touch and how many of them read as real-world work, by plain
    substring search in the lower-cased descriptions, and scores 15 points per
    area (at most 60) plus 20 per real-world project (at most 40). */
module ProjectAnalyzer {
  import opened Common
  import opened Text

  /** A knowledge area and the keywords that reveal it. */
  datatype Area = Area(name: string, keywords: seq<string>)

  /** `CORE_KNOWLEDGE_KEYWORDS`, in the dictionary's order. */
  const CoreKnowledge: seq<Area> := [
    Area("machine_learning", ["machine learning", "classification", "regression",
                              "model", "training", "accuracy", "scikit", "tensorflow"]),
    Area("data_structures", ["array", "linked list", "stack", "queue", "tree",
                             "graph", "hash", "algorithm"]),
    Area("web_development", ["react", "flask", "fastapi", "django",
                             "frontend", "backend", "api", "rest"]),
    Area("databases", ["sql", "mysql", "postgres", "mongodb", "database"]),
    Area("ai_llm", ["llm", "langchain", "ollama", "openai",
                    "embedding", "faiss", "vector"])
  ]

  /** `REAL_WORLD_TERMS` */
  const RealWorldTerms: seq<string> := [
    "real-world", "production", "scalable",
    "dashboard", "automation", "system", "application"
  ]

  const NoProjectsSummary := "No projects available for evaluation"

  datatype Strength =
    | CoversAreas(areas: set<string>)
    | RealWorldProjects(count: nat)

  datatype Weakness =
    | NoProjectsProvided
    | NoCoreConcepts
    | NoRealWorldFocus
  {
    function Message(): string {
      match this
      case NoProjectsProvided => "No projects provided"
      case NoCoreConcepts => "Projects do not clearly demonstrate core CS concepts"
      case NoRealWorldFocus => "Projects lack clear real-world application focus"
    }
  }

  datatype ProjectReport = ProjectReport(
    score: nat,
    strengths: seq<Strength>,
    weaknesses: seq<Weakness>,
    summary: string)

  /** `any(k in text for k in keywords)` */
  function AnyKeyword(text: string, keywords: seq<string>): (r: bool)
    ensures r <==> exists k :: 0 <= k < |keywords| && Contains(text, keywords[k])
  {
    if |keywords| == 0 then false
    else if ContainsFrom(text, keywords[0], 0) then true
    else AnyKeyword(text, keywords[1..])
  }

  /** The description `d` reveals the area `area`: one of its keywords
      occurs in the lower-cased description. */
  predicate Reveals(d: string, area: Area) {
    AnyKeyword(Lower(d), area.keywords)
  }

  /** The description `d` counts as a real-world project for `terms`. */
  predicate IsRealWorld(d: string, terms: seq<string>) {
    AnyKeyword(Lower(d), terms)
  }

  /** The inner loop over the areas for one description: the names of the
      areas it reveals. */
  function AreasOf(d: string, table: seq<Area>): (r: set<string>)
    ensures forall a :: a in r ==> exists k :: 0 <= k < |table| && table[k].name == a && Reveals(d, table[k])
    ensures forall k :: 0 <= k < |table| && Reveals(d, table[k]) ==> table[k].name in r
  {
    if |table| == 0 then {}
    else
      var rest := AreasOf(d, table[1..]);
      assert forall k :: 1 <= k < |table| ==> table[k] == table[1..][k - 1];
      (if Reveals(d, table[0]) then {table[0].name} else {}) + rest
  }

  /** `core_areas_covered` after the outer loop has visited every
      description: every name in it is that of an area some description
      reveals, and every area some description reveals is in it. */
  function CoveredAreas(descs: seq<string>, table: seq<Area>): (r: set<string>)
    ensures forall a :: a in r ==> exists k, d :: 0 <= k < |table| && table[k].name == a && d in descs && Reveals(d, table[k])
    ensures forall k, d :: 0 <= k < |table| && d in descs && Reveals(d, table[k]) ==> table[k].name in r
  {
    if |descs| == 0 then {}
    else
      var init := descs[..|descs| - 1];
      var last := descs[|descs| - 1];
      assert descs == init + [last];
      var before := CoveredAreas(init, table);
      CoveredStep(descs, init, last, table, before);
      CoveredStepComplete(descs, init, last, table, before);
      before + AreasOf(last, table)
  }

  /** `real_world_projects` after the loop: the number of descriptions
      containing one of `terms`. */
  function RealWorldCount(descs: seq<string>, terms: seq<string>): (r: nat)
    ensures r <= |descs|
    ensures r == 0 <==> forall d :: d in descs ==> !IsRealWorld(d, terms)
  {
    if |descs| == 0 then 0
    else
      var init := descs[..|descs| - 1];
      assert descs == init + [descs[|descs| - 1]];
      RealWorldCount(init, terms) + (if IsRealWorld(descs[|descs| - 1], terms) then 1 else 0)
  }

  /** `min(areas * 15, 60) + min(real_world * 20, 40)`; `round(_, 2)` leaves
      an integer unchanged. */
  function ProjectScore(areas: nat, realWorld: nat): (score: nat)
    ensures score <= 100
    ensures score % 5 == 0
    ensures areas >= 4 && realWorld >= 2 <==> score == 100
  {
    var core := Min(areas * 15, 60);
    var practical := Min(realWorld * 20, 40);
    assert core % 5 == 0 && practical % 5 == 0 by {
      assert areas * 15 == 5 * (areas * 3);
      assert realWorld * 20 == 5 * (realWorld * 4);
    }
    core + practical
  }

  function ProjectSummary(projects: nat, areas: nat, realWorld: nat): string {
    "Analyzed " + NatToString(projects) + " projects. "
    + "Core knowledge areas covered: " + NatToString(areas) + ". "
    + "Real-world projects detected: " + NatToString(realWorld) + "."
  }

  /** The findings of a non-empty list of descriptions: exactly one per
      dimension, the area dimension first. A covered area gives the strength
      carrying the covered set, and a positive count gives the strength
      carrying the count; otherwise the dimension's weakness appears. Nothing
      else appears. */
  predicate FindingsFor(strengths: seq<Strength>, weaknesses: seq<Weakness>, areas: set<string>, realWorld: nat) {
    && |strengths| + |weaknesses| == 2
    && (forall s :: s in strengths ==> s == CoversAreas(areas) || s == RealWorldProjects(realWorld))
    && (forall w :: w in weaknesses ==> w == NoCoreConcepts || w == NoRealWorldFocus)
    && (CoversAreas(areas) in strengths <==> areas != {})
    && (NoCoreConcepts in weaknesses <==> areas == {})
    && (RealWorldProjects(realWorld) in strengths <==> realWorld > 0)
    && (NoRealWorldFocus in weaknesses <==> realWorld == 0)
    && (|strengths| == 2 ==> strengths[0] == CoversAreas(areas))
    && (|weaknesses| == 2 ==> weaknesses[0] == NoCoreConcepts)
  }

  /** `FindingsFor` leaves no freedom: the covered areas and the count fix
      the strengths and the weaknesses, order included. */
  lemma FindingsDetermined(s1: seq<Strength>, w1: seq<Weakness>, s2: seq<Strength>, w2: seq<Weakness>,
                           areas: set<string>, realWorld: nat)
    requires FindingsFor(s1, w1, areas, realWorld) && FindingsFor(s2, w2, areas, realWorld)
    ensures s1 == s2 && w1 == w2
  {
    FindingsExact(s1, w1, areas, realWorld);
    FindingsExact(s2, w2, areas, realWorld);
  }

  /** The lists `FindingsFor` allows, written out. */
  lemma FindingsExact(strengths: seq<Strength>, weaknesses: seq<Weakness>, areas: set<string>, realWorld: nat)
    requires FindingsFor(strengths, weaknesses, areas, realWorld)
    ensures strengths ==
              (if areas != {} then [CoversAreas(areas)] else [])
              + (if realWorld > 0 then [RealWorldProjects(realWorld)] else [])
    ensures weaknesses ==
              (if areas == {} then [NoCoreConcepts] else [])
              + (if realWorld == 0 then [NoRealWorldFocus] else [])
  {
    var a, c := CoversAreas(areas), RealWorldProjects(realWorld);
    assert a != c;
    assert NoCoreConcepts != NoRealWorldFocus;
    if areas != {} && realWorld > 0 {
      assert a in strengths && c in strengths && |weaknesses| == 0;
      assert |strengths| == 2;
      assert strengths[1] in strengths;
    } else if areas != {} {
      assert a in strengths && NoRealWorldFocus in weaknesses;
      assert |strengths| == 1 && |weaknesses| == 1;
      assert strengths[0] in strengths && weaknesses[0] in weaknesses;
    } else if realWorld > 0 {
      assert c in strengths && NoCoreConcepts in weaknesses;
      assert |strengths| == 1 && |weaknesses| == 1;
      assert strengths[0] in strengths && weaknesses[0] in weaknesses;
    } else {
      assert NoCoreConcepts in weaknesses && NoRealWorldFocus in weaknesses && |strengths| == 0;
      assert |weaknesses| == 2;
      assert weaknesses[1] in weaknesses;
    }
  }

  /** The strength or weakness that the covered areas contribute. */
  function AreaFinding(areas: set<string>): (p: (seq<Strength>, seq<Weakness>))
    ensures |p.0| + |p.1| == 1
    ensures forall s :: s in p.0 ==> s == CoversAreas(areas)
    ensures forall w :: w in p.1 ==> w == NoCoreConcepts
    ensures CoversAreas(areas) in p.0 <==> areas != {}
    ensures NoCoreConcepts in p.1 <==> areas == {}
    ensures NoRealWorldFocus !in p.1
  {
    if areas != {} then ([CoversAreas(areas)], []) else ([], [NoCoreConcepts])
  }

  /** The strength or weakness that the real-world count contributes. */
  function PracticalFinding(realWorld: nat): (p: (seq<Strength>, seq<Weakness>))
    ensures |p.0| + |p.1| == 1
    ensures forall s :: s in p.0 ==> s == RealWorldProjects(realWorld)
    ensures forall w :: w in p.1 ==> w == NoRealWorldFocus
    ensures RealWorldProjects(realWorld) in p.0 <==> realWorld > 0
    ensures NoRealWorldFocus in p.1 <==> realWorld == 0
    ensures NoCoreConcepts !in p.1
  {
    if realWorld > 0 then ([RealWorldProjects(realWorld)], []) else ([], [NoRealWorldFocus])
  }

  /** The loop and the report of `analyze_projects` for a given taxonomy and
      list of real-world terms. */
  function Analyze(descs: seq<string>, table: seq<Area>, terms: seq<string>): (r: ProjectReport)
    ensures descs == [] ==> r == ProjectReport(0, [], [NoProjectsProvided], NoProjectsSummary)
    ensures descs != [] ==> r.score == ProjectScore(|CoveredAreas(descs, table)|, RealWorldCount(descs, terms))
    ensures descs != [] ==> |r.strengths| + |r.weaknesses| == 2
    ensures descs != [] ==> NoProjectsProvided !in r.weaknesses
    ensures descs != [] ==>
              FindingsFor(r.strengths, r.weaknesses, CoveredAreas(descs, table), RealWorldCount(descs, terms))
    ensures descs != [] ==>
              (NoCoreConcepts in r.weaknesses <==> forall k, d :: 0 <= k < |table| && d in descs ==> !Reveals(d, table[k]))
    ensures descs != [] ==>
              (NoRealWorldFocus in r.weaknesses <==> forall d :: d in descs ==> !IsRealWorld(d, terms))
  {
    if descs == [] then ProjectReport(0, [], [NoProjectsProvided], NoProjectsSummary)
    else
      var areas := CoveredAreas(descs, table);
      var realWorld := RealWorldCount(descs, terms);
      NoAreaCovered(descs, table);
      var a := AreaFinding(areas);
      var p := PracticalFinding(realWorld);
      ProjectReport(ProjectScore(|areas|, realWorld), a.0 + p.0, a.1 + p.1, ProjectSummary(|descs|, |areas|, realWorld))
  }

  /** `analyze_projects(project_descriptions)`, with the module's taxonomy
      and real-world terms. */
  function AnalyzeProjects(descs: seq<string>): (r: ProjectReport)
    ensures descs == [] ==> r == ProjectReport(0, [], [NoProjectsProvided], NoProjectsSummary)
    ensures r.score <= 100 && r.score % 5 == 0
    ensures descs != [] ==> |r.strengths| + |r.weaknesses| == 2
    ensures descs != [] ==> NoProjectsProvided !in r.weaknesses
    ensures descs != [] ==>
              FindingsFor(r.strengths, r.weaknesses,
                          CoveredAreas(descs, CoreKnowledge), RealWorldCount(descs, RealWorldTerms))
    ensures descs != [] ==>
              (NoCoreConcepts in r.weaknesses <==>
                 forall k, d :: 0 <= k < |CoreKnowledge| && d in descs ==> !Reveals(d, CoreKnowledge[k]))
    ensures descs != [] ==>
              (NoRealWorldFocus in r.weaknesses <==> forall d :: d in descs ==> !IsRealWorld(d, RealWorldTerms))
  {
    Analyze(descs, CoreKnowledge, RealWorldTerms)
  }

  // ---------------------------------------------------------------------
  // Properties
  // ---------------------------------------------------------------------

  /** No descriptions: score 0, no strengths, one weakness. */
  lemma EmptyProjects()
    ensures AnalyzeProjects([]) == ProjectReport(0, [], [NoProjectsProvided], NoProjectsSummary)
  {
  }

  /** With names that are pairwise different, an area is covered exactly
      when some description reveals it. */
  lemma CoveredIff(descs: seq<string>, table: seq<Area>, k: nat)
    requires forall i, j :: 0 <= i < j < |table| ==> table[i].name != table[j].name
    requires k < |table|
    ensures table[k].name in CoveredAreas(descs, table) <==> exists d :: d in descs && Reveals(d, table[k])
  {
    if table[k].name in CoveredAreas(descs, table) {
      var k', d :| 0 <= k' < |table| && table[k'].name == table[k].name && d in descs && Reveals(d, table[k']);
      assert k' == k;
    }
  }

  /** Each core knowledge area is covered exactly when some description
      contains one of its keywords. */
  lemma CoreAreaCovered(descs: seq<string>, k: nat)
    requires k < |CoreKnowledge|
    ensures CoreKnowledge[k].name in CoveredAreas(descs, CoreKnowledge) <==>
              exists d :: d in descs && Reveals(d, CoreKnowledge[k])
  {
    AreaNamesDistinct();
    CoveredIff(descs, CoreKnowledge, k);
  }

  /** No more areas can be covered than the table has entries. */
  lemma CoveredAreasBound(descs: seq<string>, table: seq<Area>)
    ensures |CoveredAreas(descs, table)| <= |table|
  {
    var names := seq(|table|, k requires 0 <= k < |table| => table[k].name);
    var r := CoveredAreas(descs, table);
    forall a | a in r ensures a in Elems(names) {
      var k, d :| 0 <= k < |table| && table[k].name == a && d in descs && Reveals(d, table[k]);
      assert names[k] == a;
    }
    ElemsCardinality(names);
    SubsetCardinality(r, Elems(names));
  }

  /** The count of real-world projects is additive over concatenation. */
  lemma {:induction false} RealWorldCountAppend(a: seq<string>, b: seq<string>, terms: seq<string>)
    ensures RealWorldCount(a + b, terms) == RealWorldCount(a, terms) + RealWorldCount(b, terms)
    decreases |b|
  {
    if |b| == 0 {
      assert a + b == a;
    } else {
      var binit := b[..|b| - 1];
      RealWorldCountAppend(a, binit, terms);
      assert (a + b)[..|a + b| - 1] == a + binit;
      assert (a + b)[|a + b| - 1] == b[|b| - 1];
    }
  }

  /** Reordering the descriptions does not change the real-world count. */
  lemma {:induction false} RealWorldCountPermutation(a: seq<string>, b: seq<string>, terms: seq<string>)
    requires multiset(a) == multiset(b)
    ensures RealWorldCount(a, terms) == RealWorldCount(b, terms)
    decreases |a|
  {
    if |a| > 0 {
      var init := a[..|a| - 1];
      var last := a[|a| - 1];
      assert a == init + [last];
      assert last in multiset(b);
      var j :| 0 <= j < |b| && b[j] == last;
      var front, back := b[..j], b[j + 1..];
      assert b == front + ([last] + back);
      var rest := front + back;
      assert multiset(rest) == multiset(init) by {
        assert multiset(b) == multiset(rest) + multiset{last} by {
          assert multiset(b) == multiset(front) + multiset([last] + back);
          assert multiset([last] + back) == multiset{last} + multiset(back);
        }
        assert multiset(a) == multiset(init) + multiset{last};
        MultisetCancel(multiset(rest), multiset(init), multiset{last});
      }
      RealWorldCountPermutation(init, rest, terms);
      RealWorldCountAppend(front, [last] + back, terms);
      RealWorldCountAppend([last], back, terms);
      RealWorldCountAppend(front, back, terms);
      RealWorldCountAppend(init, [last], terms);
    }
  }

  /** Reordering the descriptions does not change the covered areas. */
  lemma CoveredAreasPermutation(a: seq<string>, b: seq<string>, table: seq<Area>)
    requires multiset(a) == multiset(b)
    ensures CoveredAreas(a, table) == CoveredAreas(b, table)
  {
    assert forall d :: d in a <==> d in b by {
      assert forall d :: d in a <==> d in multiset(a);
      assert forall d :: d in b <==> d in multiset(b);
    }
    CoveredAreasSameElements(a, b, table);
    CoveredAreasSameElements(b, a, table);
  }

  lemma AnalyzePermutation(a: seq<string>, b: seq<string>, table: seq<Area>, terms: seq<string>)
    requires multiset(a) == multiset(b)
    ensures Analyze(a, table, terms) == Analyze(b, table, terms)
  {
    assert |a| == |multiset(a)| == |multiset(b)| == |b|;
    CoveredAreasPermutation(a, b, table);
    RealWorldCountPermutation(a, b, terms);
  }

  /** The whole report depends only on the multiset of descriptions, not on
      their order. */
  lemma ProjectsPermutationInvariant(a: seq<string>, b: seq<string>)
    requires multiset(a) == multiset(b)
    ensures AnalyzeProjects(a) == AnalyzeProjects(b)
  {
    AnalyzePermutation(a, b, CoreKnowledge, RealWorldTerms);
  }

  /** Areas covered before remain covered after more descriptions are
      appended. */
  lemma CoveredAreasGrow(a: seq<string>, b: seq<string>, table: seq<Area>)
    ensures CoveredAreas(a, table) <= CoveredAreas(a + b, table)
  {
    assert forall d :: d in a ==> d in a + b;
    CoveredAreasSameElements(a, a + b, table);
  }

  /** The score can only grow with both of its arguments. */
  lemma ProjectScoreMonotone(a1: nat, r1: nat, a2: nat, r2: nat)
    requires a1 <= a2 && r1 <= r2
    ensures ProjectScore(a1, r1) <= ProjectScore(a2, r2)
  {
  }

  /** Appending descriptions never lowers the score. */
  lemma AppendNeverLowersScore(a: seq<string>, b: seq<string>)
    ensures AnalyzeProjects(a).score <= AnalyzeProjects(a + b).score
  {
    if a != [] {
      var t, w := CoreKnowledge, RealWorldTerms;
      CoveredAreasGrow(a, b, t);
      SubsetCardinality(CoveredAreas(a, t), CoveredAreas(a + b, t));
      RealWorldCountAppend(a, b, w);
      ProjectScoreMonotone(|CoveredAreas(a, t)|, RealWorldCount(a, w),
                           |CoveredAreas(a + b, t)|, RealWorldCount(a + b, w));
    }
  }

  // ---------------------------------------------------------------------
  // Lemmas behind the contracts
  // ---------------------------------------------------------------------

  /** No two areas share a name. */
  lemma AreaNamesDistinct()
    ensures forall i, j :: 0 <= i < j < |CoreKnowledge| ==> CoreKnowledge[i].name != CoreKnowledge[j].name
  {
  }

  /** Every description of `a` also in `b` makes the areas of `a` a subset of
      those of `b`. */
  lemma CoveredAreasSameElements(a: seq<string>, b: seq<string>, table: seq<Area>)
    requires forall d :: d in a ==> d in b
    ensures CoveredAreas(a, table) <= CoveredAreas(b, table)
  {
    forall x | x in CoveredAreas(a, table) ensures x in CoveredAreas(b, table) {
      var k, d :| 0 <= k < |table| && table[k].name == x && d in a && Reveals(d, table[k]);
    }
  }

  /** Every area revealed by the last description, or covered by the ones
      before it, is revealed by some description of the whole list. */
  lemma CoveredStep(descs: seq<string>, init: seq<string>, last: string, table: seq<Area>, before: set<string>)
    requires descs == init + [last]
    requires forall a :: a in before ==>
               exists k, d :: 0 <= k < |table| && table[k].name == a && d in init && Reveals(d, table[k])
    ensures forall a :: a in before + AreasOf(last, table) ==>
              exists k, d :: 0 <= k < |table| && table[k].name == a && d in descs && Reveals(d, table[k])
  {
    forall a | a in before + AreasOf(last, table)
      ensures exists k, d :: 0 <= k < |table| && table[k].name == a && d in descs && Reveals(d, table[k])
    {
      if a in AreasOf(last, table) {
        var k :| 0 <= k < |table| && table[k].name == a && Reveals(last, table[k]);
        assert last in descs;
      } else {
        var k, d :| 0 <= k < |table| && table[k].name == a && d in init && Reveals(d, table[k]);
        assert d in descs;
      }
    }
  }

  /** One more description: an area it reveals is added by its own
      `AreasOf`, and one an earlier description reveals was covered before. */
  lemma CoveredStepComplete(descs: seq<string>, init: seq<string>, last: string, table: seq<Area>, before: set<string>)
    requires descs == init + [last]
    requires forall k, d :: 0 <= k < |table| && d in init && Reveals(d, table[k]) ==> table[k].name in before
    ensures forall k, d :: 0 <= k < |table| && d in descs && Reveals(d, table[k]) ==> table[k].name in before + AreasOf(last, table)
  {
    forall k, d | 0 <= k < |table| && d in descs && Reveals(d, table[k])
      ensures table[k].name in before + AreasOf(last, table)
    {
      if d != last {
        assert d in init;
      }
    }
  }

  /** The covered set is empty exactly when no description reveals any area. */
  lemma NoAreaCovered(descs: seq<string>, table: seq<Area>)
    ensures CoveredAreas(descs, table) == {} <==>
              forall k, d :: 0 <= k < |table| && d in descs ==> !Reveals(d, table[k])
  {
    var r := CoveredAreas(descs, table);
    if r != {} {
      var x :| x in r;
      var k, d :| 0 <= k < |table| && table[k].name == x && d in descs && Reveals(d, table[k]);
    }
  }

  /** The three weakness messages are different texts, so the datatype
      loses nothing against the strings the report holds. */
  lemma WeaknessMessagesDistinct(w1: Weakness, w2: Weakness)
    ensures w1.Message() == w2.Message() <==> w1 == w2
  {
    if w1 != w2 {
      assert |w1.Message()| != |w2.Message()|;
    }
  }

  lemma MultisetCancel<T>(x: multiset<T>, y: multiset<T>, z: multiset<T>)
    requires x + z == y + z
    ensures x == y
  {
    forall e ensures x[e] == y[e] {
      assert (x + z)[e] == (y + z)[e];
    }
  }

  lemma SubsetCardinality<T>(a: set<T>, b: set<T>)
    requires a <= b
    ensures |a| <= |b|
  {
    assert b == a + (b - a);
  }
}
