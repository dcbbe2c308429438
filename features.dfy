/**
 * backend/ml/features.py: the feature vector the match classifier consumes,
 * `[skill match, branch match, year eligible, resume score]`.
 */
module Features {
  import opened Wrappers
  import opened Text

  /** The student dict `build_features` reads: `skills`, `branch`, `year`, `resume_score` (each may be missing). */
  datatype StudentSignals = StudentSignals(
    skills: seq<string>,
    branch: Option<string>,
    year: Option<int>,
    resumeScore: Option<real>)

  /** The opportunity dict `build_features` reads: `id`, `required_skills`, `branch`, `min_year`. */
  datatype OpportunitySignals = OpportunitySignals(
    id: string,
    requiredSkills: seq<string>,
    branch: Option<string>,
    minYear: Option<int>)

  /** `s.lower().strip()`: one skill as `clean_skills` normalises it. */
  function NormalizeSkill(s: string): string {
    Strip(Lower(s))
  }

  /** Normalising a skill twice changes nothing. */
  lemma NormalizeSkillIdempotent(s: string)
    ensures NormalizeSkill(NormalizeSkill(s)) == NormalizeSkill(s)
  {
    var t := Strip(Lower(s));
    StripLowerCommute(t);
    LowerIdempotent(s);
    StripLowerCommute(s);
    LowerIdempotent(Strip(s));
    StripIdempotent(Lower(s));
  }

  /**
   * `clean_skills`: the set of normalised skills (an empty input gives the empty set;
   * the order of the list Python builds from that set is unspecified).
   */
  function CleanSkills(skills: seq<string>): (r: set<string>)
    ensures skills == [] ==> r == {}
    ensures forall x :: x in r ==> NormalizeSkill(x) == x
    ensures forall i :: 0 <= i < |skills| ==> NormalizeSkill(skills[i]) in r
    ensures forall x :: x in r <==> exists i :: 0 <= i < |skills| && x == NormalizeSkill(skills[i])
  {
    var r := set i | 0 <= i < |skills| :: NormalizeSkill(skills[i]);
    forall x | x in r ensures NormalizeSkill(x) == x {
      var i :| 0 <= i < |skills| && NormalizeSkill(skills[i]) == x;
      NormalizeSkillIdempotent(skills[i]);
    }
    r
  }

  lemma {:induction false} SubsetCard(a: set<string>, b: set<string>)
    requires a <= b
    ensures |a| <= |b|
    decreases b
  {
    if a != {} {
      var x :| x in a;
      SubsetCard(a - {x}, b - {x});
    }
  }

  lemma RatioAtMostOne(a: nat, b: nat)
    requires a <= b && b > 0
    ensures 0.0 <= (a as real) / (b as real) <= 1.0
  {
  }

  /** `len(S & O) / len(O)`: the share of `O` that `S` covers; 0 for an empty `O`. */
  function Coverage(s: set<string>, o: set<string>): (r: real)
    ensures 0.0 <= r <= 1.0
    ensures o != {} && o <= s ==> r == 1.0
    ensures s !! o ==> r == 0.0
  {
    if o == {} then 0.0
    else
      SubsetCard(s * o, o);
      RatioAtMostOne(|s * o|, |o|);
      if o <= s then assert s * o == o; SelfRatio(|o|); (|s * o| as real) / (|o| as real)
      else (|s * o| as real) / (|o| as real)
  }

  lemma SelfRatio(n: nat)
    requires n > 0
    ensures (n as real) / (n as real) == 1.0
  {
  }

  /**
   * `skill_match`: the share of the opportunity's cleaned skills that the student's
   * cleaned skills cover; 0 when either list is empty.
   */
  function SkillMatch(studentSkills: seq<string>, oppSkills: seq<string>): (r: real)
    ensures 0.0 <= r <= 1.0
    ensures studentSkills == [] || oppSkills == [] ==> r == 0.0
  {
    if studentSkills == [] || oppSkills == [] then 0.0
    else Coverage(CleanSkills(studentSkills), CleanSkills(oppSkills))
  }

  /** Full coverage: when every required skill is among the student's, the match is exactly 1. */
  lemma SkillMatchFullCoverage(studentSkills: seq<string>, oppSkills: seq<string>)
    requires studentSkills != [] && oppSkills != []
    requires CleanSkills(oppSkills) <= CleanSkills(studentSkills)
    ensures SkillMatch(studentSkills, oppSkills) == 1.0
  {
    assert NormalizeSkill(oppSkills[0]) in CleanSkills(oppSkills);
  }

  /** No overlap: when no required skill is among the student's, the match is 0. */
  lemma SkillMatchNoOverlap(studentSkills: seq<string>, oppSkills: seq<string>)
    requires CleanSkills(studentSkills) !! CleanSkills(oppSkills)
    ensures SkillMatch(studentSkills, oppSkills) == 0.0
  {
  }

  /**
   * Case and surrounding whitespace never matter: replacing every skill on either side
   * by its normalised form leaves the match unchanged.
   */
  lemma SkillMatchIgnoresCaseAndSpace(studentSkills: seq<string>, oppSkills: seq<string>)
    ensures SkillMatch(NormalizedSkills(studentSkills), NormalizedSkills(oppSkills)) == SkillMatch(studentSkills, oppSkills)
  {
    CleanSkillsOfNormalized(studentSkills);
    CleanSkillsOfNormalized(oppSkills);
  }

  /** Every skill replaced by its normalised form. */
  function NormalizedSkills(skills: seq<string>): (r: seq<string>)
    ensures |r| == |skills|
  {
    seq(|skills|, i requires 0 <= i < |skills| => NormalizeSkill(skills[i]))
  }

  lemma CleanSkillsOfNormalized(skills: seq<string>)
    ensures CleanSkills(NormalizedSkills(skills)) == CleanSkills(skills)
  {
    forall i | 0 <= i < |skills| ensures NormalizeSkill(NormalizedSkills(skills)[i]) == NormalizeSkill(skills[i]) {
      NormalizeSkillIdempotent(skills[i]);
    }
    var a, b := CleanSkills(NormalizedSkills(skills)), CleanSkills(skills);
    forall x | x in a ensures x in b {
      var i :| 0 <= i < |skills| && NormalizeSkill(NormalizedSkills(skills)[i]) == x;
    }
    forall x | x in b ensures x in a {
      var i :| 0 <= i < |skills| && NormalizeSkill(skills[i]) == x;
    }
  }

  /** `int(cond)` as a feature value. */
  function Indicator(b: bool): (r: real)
    ensures r == 1.0 <==> b
    ensures r == 0.0 || r == 1.0
  {
    if b then 1.0 else 0.0
  }

  /** `student.get("branch", "").lower() == opp.get("branch", "").lower()`. */
  predicate SameBranch(student: StudentSignals, opp: OpportunitySignals) {
    Lower(student.branch.GetOr("")) == Lower(opp.branch.GetOr(""))
  }

  /** `student.get("year", 0) >= opp.get("min_year", 0)`. */
  predicate YearEligible(student: StudentSignals, opp: OpportunitySignals) {
    student.year.GetOr(0) >= opp.minYear.GetOr(0)
  }

  /**
   * `build_features`: exactly four entries in the order the classifier was trained on.
   * Missing branches read as "", missing years as 0 and a missing resume score as 0.5.
   */
  function BuildFeatures(student: StudentSignals, opp: OpportunitySignals): (f: seq<real>)
    ensures |f| == 4
    ensures f[0] == SkillMatch(student.skills, opp.requiredSkills) && 0.0 <= f[0] <= 1.0
    ensures (f[1] == 1.0 <==> SameBranch(student, opp)) && (f[1] == 0.0 || f[1] == 1.0)
    ensures (f[2] == 1.0 <==> YearEligible(student, opp)) && (f[2] == 0.0 || f[2] == 1.0)
    ensures f[3] == student.resumeScore.GetOr(0.5)
  {
    var skill := SkillMatch(student.skills, opp.requiredSkills);
    var branch := Indicator(SameBranch(student, opp));
    var year := Indicator(YearEligible(student, opp));
    var f := [skill, branch, year, student.resumeScore.GetOr(0.5)];
    assert f[0] == skill && f[1] == branch && f[2] == year;
    f
  }
}
