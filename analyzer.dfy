/** Stage 2 (analyzer.py): tag each job title with the skills of a fixed
    vocabulary it mentions, and keep only the jobs that mention at least one.

    The tags of one title are a set: the source collects them in a Python set
    and the order of `list(set)` is not defined. */
module Analyzer {
  import opened Text
  import opened Extractor

  /** `SKILLS_LIST`: the vocabulary, in the order the tagger tries it. */
  const SKILLS_LIST: seq<string> := [
    "python", "r", "sql", "sas", "matlab", "java", "c++", "scala", "julia",
    "excel", "tableau", "power bi", "powerbi", "qlik", "d3.js", "looker",
    "hadoop", "spark", "hive", "pig", "aws", "azure", "gcp",
    "tensorflow", "pytorch", "keras", "scikit-learn", "pandas", "numpy",
    "git", "docker", "agile", "scrum"
  ]

  /** The token "r" counts only as a word of its own, by three literal tests
      on the lowered title: " r " inside it, " r" at its end, "r " at its start. */
  predicate StandaloneR(lowered: string)
  {
    Contains(lowered, " r ") || EndsWith(lowered, " r") || StartsWith(lowered, "r ")
  }

  /** The test the loop applies to one vocabulary token. */
  predicate Matches(skill: string, lowered: string)
  {
    Contains(lowered, skill) && (skill == "r" ==> StandaloneR(lowered))
  }

  /** `skill.replace('powerbi', 'power bi')` on a vocabulary token: only the
      token "powerbi" contains "powerbi", and it becomes "power bi". */
  function Canonical(skill: string): string
  {
    if skill == "powerbi" then "power bi" else skill
  }

  /** The tags found by trying the tokens of `vocabulary` in turn. */
  function FoundIn(vocabulary: seq<string>, lowered: string): set<string>
  {
    if vocabulary == [] then {}
    else
      var skill := vocabulary[|vocabulary| - 1];
      FoundIn(vocabulary[..|vocabulary| - 1], lowered) + if Matches(skill, lowered) then {Canonical(skill)} else {}
  }

  /** The skills of one title. */
  function SkillsOf(title: string): set<string>
  {
    FoundIn(SKILLS_LIST, Lower(title))
  }

  /** `extract_skills_from_title`: lower the title once, then try every
      vocabulary token, skipping "r" when it is not a word of its own. */
  method ExtractSkillsFromTitle(title: string) returns (foundSkills: set<string>)
    ensures foundSkills == SkillsOf(title)
    ensures forall s :: s in foundSkills ==> s in SKILLS_LIST && s != "powerbi"
  {
    foundSkills := {};
    var titleLower := Lower(title);
    for i := 0 to |SKILLS_LIST|
      invariant foundSkills == FoundIn(SKILLS_LIST[..i], titleLower)
    {
      assert SKILLS_LIST[..i + 1][..i] == SKILLS_LIST[..i];
      var skill := SKILLS_LIST[i];
      if Contains(titleLower, skill) {
        if skill == "r" && !(Contains(titleLower, " r ") || EndsWith(titleLower, " r") || StartsWith(titleLower, "r ")) {
          continue;
        }
        foundSkills := foundSkills + {Canonical(skill)};
      }
    }
    assert SKILLS_LIST[..|SKILLS_LIST|] == SKILLS_LIST;
    SkillsInVocabulary(title);
  }

  /** A tag is found exactly when some token of the vocabulary matches and
      canonicalizes to it. */
  lemma {:induction false} FoundInMember(vocabulary: seq<string>, lowered: string, x: string)
    ensures x in FoundIn(vocabulary, lowered) <==>
      exists s :: s in vocabulary && Matches(s, lowered) && Canonical(s) == x
    decreases |vocabulary|
  {
    if vocabulary != [] {
      var init := vocabulary[..|vocabulary| - 1];
      var last := vocabulary[|vocabulary| - 1];
      assert vocabulary == init + [last];
      FoundInMember(init, lowered, x);
    }
  }

  /** A tag other than "power bi" comes from its own token only ("powerbi"
      is never a tag). */
  lemma {:induction false} FoundInToken(vocabulary: seq<string>, lowered: string, t: string)
    requires t != "power bi" && t != "powerbi"
    ensures t in FoundIn(vocabulary, lowered) <==> t in vocabulary && Matches(t, lowered)
    decreases |vocabulary|
  {
    if vocabulary != [] {
      var init := vocabulary[..|vocabulary| - 1];
      var last := vocabulary[|vocabulary| - 1];
      assert vocabulary == init + [last];
      FoundInToken(init, lowered, t);
      assert Canonical(last) == t <==> last == t;
    }
  }

  /** Membership in the skills of a title, token by token: a vocabulary
      token other than "powerbi" is a tag when it matches, and "power bi" is
      also a tag when "powerbi" matches. */
  lemma SkillsOfMember(title: string, x: string)
    ensures var lowered := Lower(title);
      x in SkillsOf(title) <==>
        (x in SKILLS_LIST && x != "powerbi" && Matches(x, lowered)) || (x == "power bi" && Matches("powerbi", lowered))
  {
    var lowered := Lower(title);
    FoundInMember(SKILLS_LIST, lowered, x);
    assert SKILLS_LIST[12] == "powerbi";
    if x in SKILLS_LIST && x != "powerbi" && Matches(x, lowered) {
      assert Canonical(x) == x;
    }
    if x == "power bi" && Matches("powerbi", lowered) {
      assert Canonical("powerbi") == x;
    }
  }

  /** Every tag is a vocabulary token, and "powerbi" is never reported. */
  lemma SkillsInVocabulary(title: string)
    ensures forall x :: x in SkillsOf(title) ==> x in SKILLS_LIST && x != "powerbi"
  {
    forall x | x in SkillsOf(title)
      ensures x in SKILLS_LIST && x != "powerbi"
    {
      SkillsOfMember(title, x);
      assert SKILLS_LIST[11] == "power bi";
    }
  }

  /** Every token other than "r", "powerbi" and "power bi" is a tag exactly
      when it is a substring of the lowered title (so "java" is found in
      "javascript"). */
  lemma PlainTokenMatch(title: string, t: string)
    requires t in SKILLS_LIST && t != "r" && t != "powerbi" && t != "power bi"
    ensures t in SkillsOf(title) <==> Contains(Lower(title), t)
  {
    FoundInToken(SKILLS_LIST, Lower(title), t);
  }

  /** "power bi" is a tag exactly when the lowered title contains "power bi"
      or "powerbi". */
  lemma PowerBiMatch(title: string)
    ensures "power bi" in SkillsOf(title) <==>
      Contains(Lower(title), "power bi") || Contains(Lower(title), "powerbi")
  {
    SkillsOfMember(title, "power bi");
    assert SKILLS_LIST[11] == "power bi";
  }

  /** Each of the three tests for a standalone "r" finds an "r". */
  lemma StandaloneRContainsR(lowered: string)
    requires StandaloneR(lowered)
    ensures Contains(lowered, "r")
  {
    if Contains(lowered, " r ") {
      ContainsIff(lowered, " r ");
      var i :| OccursAt(lowered, " r ", i);
      OccursChar(lowered, " r ", i, 1);
      assert lowered[i + 1..i + 2] == "r";
      OccursContains(lowered, "r", i + 1);
    } else if EndsWith(lowered, " r") {
      assert lowered[|lowered| - 1..] == "r";
      OccursContains(lowered, "r", |lowered| - 1);
    } else {
      assert lowered[0..1] == "r";
      OccursContains(lowered, "r", 0);
    }
  }

  /** "r" is a tag exactly when it stands alone by one of the three literal
      tests. */
  lemma RMatch(title: string)
    ensures "r" in SkillsOf(title) <==> StandaloneR(Lower(title))
  {
    var lowered := Lower(title);
    assert |"r"| != |"power bi"| && |"r"| != |"powerbi"|;
    FoundInToken(SKILLS_LIST, lowered, "r");
    assert SKILLS_LIST[1] == "r";
    RTestIsStandalone(lowered);
  }

  /** The loop's test for "r" comes down to the three standalone tests. */
  lemma RTestIsStandalone(lowered: string)
    ensures Matches("r", lowered) <==> StandaloneR(lowered)
  {
    if StandaloneR(lowered) {
      StandaloneRContainsR(lowered);
    }
  }

  /** No token of a vocabulary of non-empty tokens is found in the empty text. */
  lemma {:induction false} NothingInEmpty(vocabulary: seq<string>)
    requires forall i :: 0 <= i < |vocabulary| ==> vocabulary[i] != []
    ensures FoundIn(vocabulary, "") == {}
    decreases |vocabulary|
  {
    if vocabulary != [] {
      NothingInEmpty(vocabulary[..|vocabulary| - 1]);
      ContainsEmpty(vocabulary[|vocabulary| - 1]);
    }
  }

  /** The empty title has no skills. */
  lemma EmptyTitle(title: string)
    requires title == ""
    ensures SkillsOf(title) == {}
  {
    NothingInEmpty(SKILLS_LIST);
  }

  /** Matching ignores case: a title and its lowered form have the same skills. */
  lemma CaseInsensitive(title: string)
    ensures SkillsOf(Lower(title)) == SkillsOf(title)
  {
    LowerIdempotent(title);
  }

  /** A job with its tags. */
  datatype TaggedJob = TaggedJob(job: JobRecord, skills: set<string>)

  /** Tag one job; keep it only when it has at least one skill. */
  function TagOne(job: JobRecord): (tagged: seq<TaggedJob>)
    ensures |tagged| <= 1
  {
    var skills := SkillsOf(job.title);
    if skills != {} then [TaggedJob(job, skills)] else []
  }

  /** The `__main__` block: tag every row, then keep the rows whose skill list
      is not empty, in their original order. */
  function TagJobs(jobs: seq<JobRecord>): (tagged: seq<TaggedJob>)
    ensures |tagged| <= |jobs|
    ensures forall t :: t in tagged ==> t.skills != {} && t.skills == SkillsOf(t.job.title) && t.job in jobs
  {
    if jobs == [] then []
    else
      var init := jobs[..|jobs| - 1];
      var rest := TagJobs(init);
      assert forall t :: t in rest ==> t.job in jobs by {
        assert forall j :: j in init ==> j in jobs;
      }
      rest + TagOne(jobs[|jobs| - 1])
  }

  /** Tagging a table in two parts tags each part in turn: rows keep their order. */
  lemma {:induction false} TagJobsAppend(a: seq<JobRecord>, b: seq<JobRecord>)
    ensures TagJobs(a + b) == TagJobs(a) + TagJobs(b)
    decreases |b|
  {
    if b == [] {
      assert a + b == a;
    } else {
      var b' := b[..|b| - 1];
      assert (a + b)[..|a + b| - 1] == a + b';
      TagJobsAppend(a, b');
    }
  }

  /** A row survives exactly when its title has a skill. */
  lemma TagJobsSingle(job: JobRecord)
    ensures TagJobs([job]) == if SkillsOf(job.title) == {} then [] else [TaggedJob(job, SkillsOf(job.title))]
  {
    assert [job][..0] == [];
  }

  /** Every input row with a skill reaches the output. */
  lemma {:induction false} TagJobsComplete(jobs: seq<JobRecord>, i: int)
    requires 0 <= i < |jobs| && SkillsOf(jobs[i].title) != {}
    ensures TaggedJob(jobs[i], SkillsOf(jobs[i].title)) in TagJobs(jobs)
  {
    assert jobs == jobs[..i] + [jobs[i]] + jobs[i + 1..];
    TagJobsAppend(jobs[..i] + [jobs[i]], jobs[i + 1..]);
    TagJobsAppend(jobs[..i], [jobs[i]]);
    TagJobsSingle(jobs[i]);
  }

  /** "R Developer" is tagged "r". */
  lemma RDeveloper(title: string)
    requires title == "R Developer"
    ensures "r" in SkillsOf(title)
  {
    var lowered := Lower(title);
    assert lowered[..2] == "r ";
    RMatch(title);
  }

  /** A title without a space never gets "r"; so "Director" and "R&D" do not. */
  lemma {:induction false} NoSpaceNoR(title: string)
    requires forall k :: 0 <= k < |title| ==> title[k] != ' '
    ensures "r" !in SkillsOf(title)
  {
    var lowered := Lower(title);
    RMatch(title);
    assert forall k :: 0 <= k < |lowered| ==> lowered[k] != ' ';
    if Contains(lowered, " r ") {
      ContainsIff(lowered, " r ");
      var i :| OccursAt(lowered, " r ", i);
      OccursChar(lowered, " r ", i, 0);
      assert false;
    }
    if EndsWith(lowered, " r") {
      EndsWithOccurs(lowered, " r");
      OccursChar(lowered, " r", |lowered| - 2, 0);
      assert false;
    }
    if StartsWith(lowered, "r ") {
      StartsWithOccurs(lowered, "r ");
      OccursChar(lowered, "r ", 0, 1);
      assert false;
    }
  }

  /** "Director", "R&D" and the bare title "r" are not tagged "r". */
  lemma DirectorHasNoR(title: string)
    requires title == "Director" || title == "R&D" || title == "r"
    ensures "r" !in SkillsOf(title)
  {
    NoSpaceNoR(title);
  }

  /** A title that starts with "Power BI", in any case, is tagged "power bi"
      and never "powerbi". */
  lemma PowerBiPrefix(title: string)
    requires StartsWith(Lower(title), "power bi")
    ensures "power bi" in SkillsOf(title) && "powerbi" !in SkillsOf(title)
  {
    PowerBiMatch(title);
    SkillsInVocabulary(title);
  }

  /** "Power BI Analyst" is tagged "power bi", never "powerbi". */
  lemma PowerBiAnalyst(title: string)
    requires title == "Power BI Analyst"
    ensures "power bi" in SkillsOf(title) && "powerbi" !in SkillsOf(title)
  {
    var lowered := Lower(title);
    assert lowered[..8] == "power bi";
    PowerBiPrefix(title);
  }
}
