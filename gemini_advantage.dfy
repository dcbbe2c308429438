/**
 * The string post-processing of backend/app/gemini_advantage.py: the fenced-block
 * extraction of `strategic_preparation`, the fence removal of `generate_cover_letter`
 * (the rule of `AiCoach.Unfence`), and the truncated prompt inputs. The HTTP call and
 * `json.loads` are parameters, as in `AiCoach`.
 */
module GeminiAdvantage {
  import opened Wrappers
  import opened Text
  import opened Resume
  import opened AiCoach

  // ----- fenced-block extraction of strategic_preparation -----------------------------------

  /**
   * The extraction as the source writes it: from just after the first "```json" (or,
   * failing that, the first "```") up to the next "```", trimmed. When no closing fence
   * follows, `find` answers -1 and the slice stops one character before the end.
   */
  function ExtractAsWritten(c: string): string {
    if Contains(c, "```json") then
      var start := Find(c, "```json", 0) + 7;
      Strip(PySlice(c, start, Find(c, "```", start)))
    else if Contains(c, "```") then
      var start := Find(c, "```", 0) + 3;
      Strip(PySlice(c, start, Find(c, "```", start)))
    else c
  }

  /** Where the block opened at `start` ends: at the next "```", or at the end of the text. */
  function BlockEnd(c: string, start: nat): (e: nat)
    requires start <= |c|
    ensures start <= e <= |c|
    ensures e < |c| ==> OccursAt(c, "```", e)
    ensures forall m :: start <= m < e ==> !OccursAt(c, "```", m)
  {
    var f := Find(c, "```", start);
    if f == -1 then |c| else f
  }

  /**
   * The extraction with the missing closing fence read as the end of the text. Text
   * without any fence is left as it is.
   */
  function ExtractBlock(c: string): (r: string)
    ensures !Contains(c, "```") ==> r == c
  {
    JsonFenceHasFence(c);
    if Contains(c, "```json") then
      var start := Find(c, "```json", 0) + 7;
      Strip(c[start..BlockEnd(c, start)])
    else if Contains(c, "```") then
      var start := Find(c, "```", 0) + 3;
      Strip(c[start..BlockEnd(c, start)])
    else c
  }

  /** The reassignments of `content_text` in `strategic_preparation`, with the closing fence optional. */
  method StrategicContent(content: string) returns (c: string)
    ensures c == ExtractBlock(content)
  {
    c := content;
    if Contains(c, "```json") {
      var start := Find(c, "```json", 0) + 7;
      var end := Find(c, "```", start);
      if end == -1 {
        end := |c|;
      }
      c := Strip(c[start..end]);
    } else if Contains(c, "```") {
      var start := Find(c, "```", 0) + 3;
      var end := Find(c, "```", start);
      if end == -1 {
        end := |c|;
      }
      c := Strip(c[start..end]);
    }
  }

  /** A "```json" marker contains a "```" marker. */
  lemma JsonFenceHasFence(c: string)
    ensures Contains(c, "```json") ==> Contains(c, "```")
  {
    if Contains(c, "```json") {
      var k := Find(c, "```json", 0);
      assert c[k..k + 3] == c[k..k + 7][..3];
      assert OccursAt(c, "```", k);
    }
  }

  /** An occurrence of `p` starts with `p`'s first character. */
  lemma OccursAtHead(s: string, p: string, m: int)
    ensures OccursAt(s, p, m) && p != [] ==> s[m] == p[0]
  {
    if OccursAt(s, p, m) && p != [] {
      assert s[m..m + |p|][0] == s[m];
    }
  }

  /** No backtick in `s` between `lo` and `hi`. */
  predicate CleanBetween(s: string, lo: int, hi: int) {
    forall m :: lo <= m < hi && 0 <= m < |s| ==> s[m] != '`'
  }

  /** A piece of `s` free of backticks makes that stretch of `s` clean. */
  lemma CleanPiece(s: string, lo: nat, t: string)
    requires lo + |t| <= |s| && s[lo..lo + |t|] == t && '`' !in t
    ensures CleanBetween(s, lo, lo + |t|)
  {
    forall m | lo <= m < lo + |t|
      ensures s[m] != '`'
    {
      assert s[m] == t[m - lo];
    }
  }

  /** A marker starting with a backtick is found at `k` when the text from `lo` up to `k` is clean. */
  lemma FindAfterClean(s: string, p: string, lo: nat, k: nat)
    requires p != [] && p[0] == '`' && lo <= k && CleanBetween(s, lo, k) && OccursAt(s, p, k)
    ensures Find(s, p, lo) == k
  {
    forall m | lo <= m < k
      ensures !OccursAt(s, p, m)
    {
      OccursAtHead(s, p, m);
    }
    FindAt(s, p, lo, k);
  }

  /** No marker starting with a backtick is found in a backtick-free tail. */
  lemma FindNoneInClean(s: string, p: string, lo: nat)
    requires p != [] && p[0] == '`' && lo <= |s| && '`' !in s[lo..]
    ensures Find(s, p, lo) == -1
  {
    forall m | lo <= m
      ensures !OccursAt(s, p, m)
    {
      OccursAtHead(s, p, m);
      if m < |s| {
        assert s[m] == s[lo..][m - lo];
      }
    }
    FindNone(s, p, lo);
  }

  /** Where the pieces of `prefix + opener + body + closer + rest` sit. */
  lemma Layout(prefix: string, opener: string, body: string, closer: string, rest: string)
    ensures var s := prefix + opener + body + closer + rest;
      && |prefix| + |opener| + |body| + |closer| <= |s|
      && s[0..|prefix|] == prefix
      && s[|prefix|..|prefix| + |opener|] == opener
      && s[|prefix| + |opener|..|prefix| + |opener| + |body|] == body
      && s[|prefix| + |opener| + |body|..|prefix| + |opener| + |body| + |closer|] == closer
  {
    var s := prefix + opener + body + closer + rest;
    var a := |prefix| + |opener|;
    forall k | 0 <= k < |opener|
      ensures s[|prefix| + k] == opener[k]
    {
    }
    forall k | 0 <= k < |body|
      ensures s[a + k] == body[k]
    {
    }
    forall k | 0 <= k < |closer|
      ensures s[a + |body| + k] == closer[k]
    {
    }
  }

  /** A marker after a backtick-free `prefix` is found just after it. */
  lemma FoundAfter(s: string, lo: nat, prefix: string, marker: string)
    requires marker != [] && marker[0] == '`' && '`' !in prefix
    requires lo + |prefix| + |marker| <= |s|
    requires s[lo..lo + |prefix|] == prefix
    requires s[lo + |prefix|..lo + |prefix| + |marker|] == marker
    ensures Find(s, marker, lo) == lo + |prefix|
  {
    CleanPiece(s, lo, prefix);
    FindAfterClean(s, marker, lo, lo + |prefix|);
  }

  /** The positions in a "```json" block with a closing fence, when neither text before it nor its body has a backtick. */
  lemma JsonBlockFinds(prefix: string, body: string, rest: string)
    requires '`' !in prefix && '`' !in body
    ensures Find(prefix + "```json" + body + "```" + rest, "```json", 0) == |prefix|
    ensures Find(prefix + "```json" + body + "```" + rest, "```", |prefix| + 7) == |prefix| + 7 + |body|
    ensures (prefix + "```json" + body + "```" + rest)[|prefix| + 7..|prefix| + 7 + |body|] == body
  {
    var s := prefix + "```json" + body + "```" + rest;
    Layout(prefix, "```json", body, "```", rest);
    FoundAfter(s, 0, prefix, "```json");
    FoundAfter(s, |prefix| + 7, body, "```");
  }

  /** The positions in a "```json" block that is never closed. */
  lemma JsonUnclosedFinds(prefix: string, body: string)
    requires '`' !in prefix && '`' !in body
    ensures Find(prefix + "```json" + body, "```json", 0) == |prefix|
    ensures Find(prefix + "```json" + body, "```", |prefix| + 7) == -1
    ensures (prefix + "```json" + body)[|prefix| + 7..] == body
  {
    var s := prefix + "```json" + body;
    Layout(prefix, "```json", body, "", "");
    assert s + "" + "" == s;
    FoundAfter(s, 0, prefix, "```json");
    FindNoneInClean(s, "```", |prefix| + 7);
  }

  /** A "```json" block, after any backtick-free preamble, gives back its trimmed body. */
  lemma ExtractJsonBlock(prefix: string, body: string, rest: string)
    requires '`' !in prefix && '`' !in body
    ensures ExtractBlock(prefix + "```json" + body + "```" + rest) == Strip(body)
    ensures ExtractAsWritten(prefix + "```json" + body + "```" + rest) == Strip(body)
  {
    var s := prefix + "```json" + body + "```" + rest;
    var a := |prefix| + 7;
    JsonBlockFinds(prefix, body, rest);
    assert Contains(s, "```json");
    assert BlockEnd(s, a) == a + |body|;
    assert s[a..BlockEnd(s, a)] == body;
    assert PySlice(s, a, Find(s, "```", a)) == body;
  }

  /** A "```json" block that is never closed runs to the end of the text. */
  lemma ExtractJsonUnclosed(prefix: string, body: string)
    requires '`' !in prefix && '`' !in body
    ensures ExtractBlock(prefix + "```json" + body) == Strip(body)
  {
    var s := prefix + "```json" + body;
    var a := |prefix| + 7;
    JsonUnclosedFinds(prefix, body);
    assert Contains(s, "```json");
    assert BlockEnd(s, a) == |s|;
    assert s[a..BlockEnd(s, a)] == body;
  }

  /** As written, a "```json" block that is never closed loses its last character. */
  lemma AsWrittenUnclosedDropsLast(prefix: string, body: string)
    requires '`' !in prefix && '`' !in body && body != []
    ensures ExtractAsWritten(prefix + "```json" + body) == Strip(body[..|body| - 1])
  {
    var s := prefix + "```json" + body;
    var a := |prefix| + 7;
    JsonUnclosedFinds(prefix, body);
    assert Contains(s, "```json");
    assert s[a..|s| - 1] == body[..|body| - 1];
    assert PySlice(s, a, -1) == body[..|body| - 1];
  }

  /** The smallest such answer: `{}` comes out as `{` as written, and whole when corrected. */
  lemma AsWrittenUnclosedExample()
    ensures ExtractAsWritten("```json{}") == "{"
    ensures ExtractBlock("```json{}") == "{}"
  {
    AsWrittenUnclosedDropsLast("", "{}");
    ExtractJsonUnclosed("", "{}");
    assert "" + "```json" + "{}" == "```json{}";
    assert "{}"[..1] == "{";
    StripOfTrimmed("{");
    StripOfTrimmed("{}");
  }

  /** A plain "```" block gives back its trimmed body when the answer has no "```json". */
  lemma ExtractPlainBlock(prefix: string, body: string, rest: string)
    requires '`' !in prefix && '`' !in body
    requires !Contains(prefix + "```" + body + "```" + rest, "```json")
    ensures ExtractBlock(prefix + "```" + body + "```" + rest) == Strip(body)
  {
    var s := prefix + "```" + body + "```" + rest;
    var a := |prefix| + 3;
    PlainBlockFinds(prefix, body, rest);
    assert Contains(s, "```");
    assert BlockEnd(s, a) == a + |body|;
    assert s[a..BlockEnd(s, a)] == body;
  }

  /** The positions in a plain "```" block with a closing fence. */
  lemma PlainBlockFinds(prefix: string, body: string, rest: string)
    requires '`' !in prefix && '`' !in body
    ensures Find(prefix + "```" + body + "```" + rest, "```", 0) == |prefix|
    ensures Find(prefix + "```" + body + "```" + rest, "```", |prefix| + 3) == |prefix| + 3 + |body|
    ensures (prefix + "```" + body + "```" + rest)[|prefix| + 3..|prefix| + 3 + |body|] == body
  {
    var s := prefix + "```" + body + "```" + rest;
    Layout(prefix, "```", body, "```", rest);
    FoundAfter(s, 0, prefix, "```");
    FoundAfter(s, |prefix| + 3, body, "```");
  }

  // ----- replies -----------------------------------------------------------------------------

  datatype StrategicReply = Plan(value: Json) | RawResponse(text: string) | PlanError(error: string)

  /**
   * The answer handling of `strategic_preparation`: no choice and an empty answer are
   * errors; otherwise the extracted block is parsed, and kept as raw text when it does not
   * parse. `choices` holds each choice's message content, a missing one as "".
   */
  method StrategicPreparationReply(choices: seq<string>, parse: string -> Option<Json>) returns (r: StrategicReply)
    ensures choices == [] ==> r == PlanError("No response from Groq")
    ensures choices != [] && choices[0] == [] ==> r == PlanError("Empty response")
    ensures choices != [] && choices[0] != [] ==>
      var c := ExtractBlock(choices[0]);
      && (parse(c).Some? ==> r == Plan(parse(c).value))
      && (parse(c).None? ==> r == RawResponse(c))
  {
    if choices == [] {
      return PlanError("No response from Groq");
    }
    if choices[0] == [] {
      return PlanError("Empty response");
    }
    var c := StrategicContent(choices[0]);
    var result := parse(c);
    if result.Some? {
      return Plan(result.value);
    }
    return RawResponse(c);
  }

  datatype CoverReply =
    | Letter(value: Json)
    | LetterDraft(coverLetter: string, keyHighlights: seq<string>, customizationTips: seq<string>)
    | LetterError(error: string)

  /**
   * The answer handling of `generate_cover_letter`: the fence rule of the interview
   * coach, then the parsed answer, or the unfenced text as the letter itself.
   */
  method CoverLetterReply(choices: seq<string>, parse: string -> Option<Json>) returns (r: CoverReply)
    ensures choices == [] ==> r == LetterError("No response from Groq")
    ensures choices != [] && choices[0] == [] ==> r == LetterError("Empty response")
    ensures choices != [] && choices[0] != [] ==>
      var c := Unfence(choices[0]);
      && (parse(c).Some? ==> r == Letter(parse(c).value))
      && (parse(c).None? ==> r == LetterDraft(c, [], []))
  {
    if choices == [] {
      return LetterError("No response from Groq");
    }
    if choices[0] == [] {
      return LetterError("Empty response");
    }
    var rawText := StripFences(choices[0]);
    var result := parse(rawText);
    if result.Some? {
      return Letter(result.value);
    }
    return LetterDraft(rawText, [], []);
  }

  // ----- prompt inputs -----------------------------------------------------------------------

  /** `company_info` of `strategic_preparation`. */
  function CompanyInfo(company: Option<string>): string {
    OptionalPhrase(company, " at ", "")
  }

  /** The skills of `strategic_preparation`: at most 10. */
  function StrategicSkills(skills: seq<string>): string {
    SkillsPhrase(skills, 10, "general programming")
  }

  /** The skills of `generate_cover_letter`: at most 8. */
  function CoverSkills(skills: seq<string>): string {
    SkillsPhrase(skills, 8, "various technical skills")
  }

  datatype Project = Project(title: string, description: string)

  /** One project line: its title and at most 100 characters of its description. */
  function ProjectLine(p: Project): string {
    "- " + p.title + ": " + Take(p.description, 100)
  }

  function ProjectLines(ps: seq<Project>): seq<string> {
    seq(|ps|, i requires 0 <= i < |ps| => ProjectLine(ps[i]))
  }

  /** The projects block: the lines of at most the first three projects, or a fixed note. */
  function ProjectsBlock(projects: seq<Project>): (r: string)
    ensures projects == [] ==> r == "No projects listed"
  {
    if projects == [] then "No projects listed" else Join(ProjectLines(Take(projects, 3)), "\n")
  }

  function AchievementLines(achievements: seq<string>): seq<string> {
    seq(|achievements|, i requires 0 <= i < |achievements| => "- " + achievements[i])
  }

  /** The achievements block: the first three achievements as bullets, or a fixed note. */
  function AchievementsBlock(achievements: seq<string>): (r: string)
    ensures achievements == [] ==> r == "No achievements listed"
  {
    if achievements == [] then "No achievements listed" else Join(AchievementLines(Take(achievements, 3)), "\n")
  }

  /** The job description as the cover-letter prompt quotes it: its first 1500 characters. */
  function JobExcerpt(jobDescription: string): (r: string)
    ensures |r| <= 1500 && |r| <= |jobDescription| && r == jobDescription[..|r|]
    ensures |jobDescription| >= 1500 ==> |r| == 1500
  {
    Take(jobDescription, 1500)
  }

  lemma NotInPrefix(s: string, x: char, n: nat)
    requires x !in s && n <= |s|
    ensures x !in s[..n]
  {
    assert forall y :: y in s[..n] ==> y in s;
  }

  /**
   * When no title or description holds a line break, the projects block splits back
   * into one line per project for at most three projects, none quoting more than 100
   * characters of its description.
   */
  lemma ProjectsBlockLines(projects: seq<Project>)
    requires projects != []
    requires forall p :: p in projects ==> '\n' !in p.title && '\n' !in p.description
    ensures var lines := Split(ProjectsBlock(projects), '\n');
      && |lines| == (if |projects| < 3 then |projects| else 3)
      && (forall i :: 0 <= i < |lines| ==> lines[i] == ProjectLine(projects[i]))
      && (forall i :: 0 <= i < |lines| ==> |lines[i]| <= |projects[i].title| + 104)
  {
    var ps := Take(projects, 3);
    var lines := ProjectLines(ps);
    forall i | 0 <= i < |lines|
      ensures '\n' !in lines[i]
    {
      var p := ps[i];
      assert p == projects[i] && p in projects;
      NotInPrefix(p.description, '\n', |Take(p.description, 100)|);
      assert lines[i] == "- " + p.title + ": " + Take(p.description, 100);
    }
    JoinSplit(lines, '\n');
  }

  /** Likewise the achievements block splits back into at most three bullets. */
  lemma AchievementsBlockLines(achievements: seq<string>)
    requires achievements != []
    requires forall a :: a in achievements ==> '\n' !in a
    ensures var lines := Split(AchievementsBlock(achievements), '\n');
      && |lines| == (if |achievements| < 3 then |achievements| else 3)
      && forall i :: 0 <= i < |lines| ==> lines[i] == "- " + achievements[i]
  {
    var xs := Take(achievements, 3);
    var lines := AchievementLines(xs);
    forall i | 0 <= i < |lines|
      ensures '\n' !in lines[i]
    {
      assert xs[i] == achievements[i] && xs[i] in achievements;
    }
    JoinSplit(lines, '\n');
  }
}
