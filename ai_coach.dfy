/**
 * The string post-processing of backend/app/ai_coach.py: the prompt phrases built from
 * the student's skills and target role, the removal of a Markdown code fence around
 * the model's answer, and the replies built from that answer. The HTTP call and
 * `json.loads` are parameters: `parse` stands for `json.loads`, `None` for a decode error.
 */
module AiCoach {
  import opened Wrappers
  import opened Text
  import opened Resume

  // ----- prompt phrases ----------------------------------------------------------------------

  /** `", ".join(skills[:limit]) if skills else fallback`. */
  function SkillsPhrase(skills: seq<string>, limit: nat, fallback: string): (r: string)
    ensures skills == [] ==> r == fallback
  {
    if skills == [] then fallback else Join(Take(skills, limit), ", ")
  }

  /** Skills past the first `limit` never reach the prompt. */
  lemma SkillsPhraseIgnoresRest(skills: seq<string>, extra: seq<string>, limit: nat, fallback: string)
    requires |skills| >= limit
    requires skills != []
    ensures SkillsPhrase(skills + extra, limit, fallback) == SkillsPhrase(skills, limit, fallback)
  {
    assert Take(skills + extra, limit) == Take(skills, limit);
  }

  /**
   * `f"{before}{x}{after}" if x else ""`: empty exactly when `x` is missing or empty,
   * and otherwise `x` sits between the two fixed words.
   */
  function OptionalPhrase(x: Option<string>, before: string, after: string): (r: string)
    requires before != []
    ensures r == [] <==> x.None? || x.value == []
    ensures r != [] ==> x.Some? && |r| == |before| + |x.value| + |after| && r[|before|..|before| + |x.value|] == x.value
  {
    if x.None? || x.value == [] then []
    else
      var r := before + x.value + after;
      assert r[|before|..|before| + |x.value|] == x.value;
      r
  }

  /** `target_info` of `start_interview_prep`. */
  function TargetInfo(targetRole: Option<string>): string {
    OptionalPhrase(targetRole, " for ", " role")
  }

  // ----- fence removal -----------------------------------------------------------------------

  /** `s[len(p):] if s.startswith(p) else s`. */
  function DropPrefix(s: string, p: string): (r: string)
    ensures StartsWith(s, p) ==> p + r == s
    ensures !StartsWith(s, p) ==> r == s
  {
    if StartsWith(s, p) then
      assert s == s[..|p|] + s[|p|..];
      s[|p|..]
    else s
  }

  /** `s[:-len(p)] if s.endswith(p) else s`. */
  function DropSuffix(s: string, p: string): (r: string)
    ensures EndsWith(s, p) ==> r + p == s
    ensures !EndsWith(s, p) ==> r == s
  {
    if EndsWith(s, p) then
      assert s == s[..|s| - |p|] + s[|s| - |p|..];
      s[..|s| - |p|]
    else s
  }

  /**
   * The fence rule: trim; drop a leading "```json"; then, independently, a leading
   * "```"; then a trailing "```"; trim again.
   */
  function Unfence(s: string): string {
    Strip(DropSuffix(DropPrefix(DropPrefix(Strip(s), "```json"), "```"), "```"))
  }

  /**
   * The reassignments of `content` in `start_interview_prep` (the same lines recur in
   * `get_interview_tips` and in `generate_cover_letter`).
   */
  method StripFences(content: string) returns (c: string)
    ensures c == Unfence(content)
  {
    c := Strip(content);
    if StartsWith(c, "```json") {
      c := c[7..];
    }
    if StartsWith(c, "```") {
      c := c[3..];
    }
    if EndsWith(c, "```") {
      c := c[..|c| - 3];
    }
    c := Strip(c);
  }

  /** `r` is a contiguous piece of `s`. */
  predicate IsPiece(r: string, s: string) {
    exists i, j :: 0 <= i <= j <= |s| && r == s[i..j]
  }

  lemma PieceTrans(r: string, m: string, s: string)
    requires IsPiece(r, m) && IsPiece(m, s)
    ensures IsPiece(r, s)
  {
    var i, j :| 0 <= i <= j <= |m| && r == m[i..j];
    var i2, j2 :| 0 <= i2 <= j2 <= |s| && m == s[i2..j2];
    assert i2 + j <= j2;
    forall k | 0 <= k < j - i
      ensures r[k] == s[i2 + i..i2 + j][k]
    {
      assert r[k] == m[i + k] == s[i2 + i + k];
    }
    assert r == s[i2 + i..i2 + j];
  }

  lemma StripPiece(s: string)
    ensures IsPiece(Strip(s), s)
  {
    StripIsSlice(s);
    var lo := SpaceRun(s, 0);
    assert Strip(s) == s[lo..SpaceRunBack(s, lo, |s|)];
  }

  lemma DropPrefixPiece(s: string, p: string)
    ensures IsPiece(DropPrefix(s, p), s)
  {
    if StartsWith(s, p) {
      assert DropPrefix(s, p) == s[|p|..|s|];
    } else {
      assert DropPrefix(s, p) == s[0..|s|];
    }
  }

  lemma DropSuffixPiece(s: string, p: string)
    ensures IsPiece(DropSuffix(s, p), s)
  {
    if EndsWith(s, p) {
      assert DropSuffix(s, p) == s[0..|s| - |p|];
    } else {
      assert DropSuffix(s, p) == s[0..|s|];
    }
  }

  /** What is left after removing the fences is a contiguous piece of the answer. */
  lemma UnfenceIsPiece(s: string)
    ensures IsPiece(Unfence(s), s)
  {
    var t0 := Strip(s);
    var t1 := DropPrefix(t0, "```json");
    var t2 := DropPrefix(t1, "```");
    var t3 := DropSuffix(t2, "```");
    StripPiece(s);
    DropPrefixPiece(t0, "```json");
    DropPrefixPiece(t1, "```");
    DropSuffixPiece(t2, "```");
    StripPiece(t3);
    PieceTrans(t1, t0, s);
    PieceTrans(t2, t1, s);
    PieceTrans(t3, t2, s);
    PieceTrans(Strip(t3), t3, s);
  }

  /** A string that starts with `p + q` starts with `p`. */
  lemma StartsWithLonger(s: string, p: string, q: string)
    ensures StartsWith(s, p + q) ==> StartsWith(s, p)
  {
    if StartsWith(s, p + q) {
      assert s[..|p|] == s[..|p + q|][..|p|];
    }
  }

  /** An answer that neither starts nor ends with a fence is only trimmed. */
  lemma UnfenceNoFence(s: string)
    requires !StartsWith(Strip(s), "```") && !EndsWith(Strip(s), "```")
    ensures Unfence(s) == Strip(s)
  {
    var t0 := Strip(s);
    StartsWithLonger(t0, "```", "json");
    assert "```" + "json" == "```json";
    assert DropPrefix(t0, "```json") == t0;
    assert DropPrefix(t0, "```") == t0;
    assert DropSuffix(t0, "```") == t0;
    StripIdempotent(s);
  }

  /** The fence rule takes the body back out of a "```json" block. */
  lemma UnfenceJsonBlock(body: string)
    requires body != [] && body[0] != '`'
    ensures Unfence("```json" + body + "```") == Strip(body)
  {
    var s := "```json" + body + "```";
    StripOfTrimmed(s);
    assert s[..7] == "```json";
    var t1 := s[7..];
    assert t1 == body + "```";
    assert !StartsWith(t1, "```") by {
      assert t1[0] == body[0];
    }
    assert t1[|t1| - 3..] == "```";
    assert t1[..|t1| - 3] == body;
  }

  /** The fence rule takes the body back out of a plain "```" block. */
  lemma UnfencePlainBlock(body: string)
    requires body != [] && body[0] != '`' && !StartsWith(body, "json")
    ensures Unfence("```" + body + "```") == Strip(body)
  {
    var s := "```" + body + "```";
    StripOfTrimmed(s);
    assert !StartsWith(s, "```json") by {
      if |body| >= 4 {
        assert s[3..7] == body[..4];
      } else {
        assert s[3 + |body|] == '`';
      }
    }
    assert s[..3] == "```";
    var t1 := s[3..];
    assert t1 == body + "```";
    assert !StartsWith(t1, "```") by {
      assert t1[0] == body[0];
    }
    assert t1[|t1| - 3..] == "```";
    assert t1[..|t1| - 3] == body;
  }

  // ----- replies -----------------------------------------------------------------------------

  /** The replies of `start_interview_prep`; every error reply also carries `session_title` "Error". */
  datatype PrepReply = PrepParsed(value: Json) | PrepError(error: string, raw: Option<string>)

  /**
   * The answer handling of `start_interview_prep`. `choices` holds each choice's message
   * content, a missing one as "". No choice at all fails the extraction; an empty answer
   * is reported without parsing; otherwise the unfenced answer is parsed, and when that
   * fails the reply carries at most its first 500 characters.
   */
  method InterviewPrepReply(choices: seq<string>, parse: string -> Option<Json>) returns (r: PrepReply)
    ensures choices == [] ==> r == PrepError("Failed to parse response", None)
    ensures choices != [] && choices[0] == [] ==> r == PrepError("Empty response from AI", None)
    ensures choices != [] && choices[0] != [] ==>
      var c := Unfence(choices[0]);
      && (parse(c).Some? ==> r == PrepParsed(parse(c).value))
      && (parse(c).None? ==> r == PrepError("Invalid JSON response", Some(Take(c, 500))))
  {
    if choices == [] {
      return PrepError("Failed to parse response", None);
    }
    var content := choices[0];
    if content == [] {
      return PrepError("Empty response from AI", None);
    }
    content := StripFences(content);
    var result := parse(content);
    if result.Some? {
      return PrepParsed(result.value);
    }
    return PrepError("Invalid JSON response", Some(Take(content, 500)));
  }

  datatype TipsReply =
    | TipsParsed(value: Json)
    | TipsError(error: string)
    | TipsFallback(tips: seq<string>, keyPoints: seq<string>, error: string)

  /**
   * The answer handling of `get_interview_tips`. A missing "choices" key stands for one
   * empty choice; a present but empty list raises `IndexError`, whose message becomes the
   * error. The fence rule is the one `start_interview_prep` uses; an answer that does not
   * parse becomes a single tip of at most 500 characters.
   */
  method InterviewTipsReply(choices: Option<seq<string>>, parse: string -> Option<Json>) returns (r: TipsReply)
    ensures choices == Some([]) ==> r == TipsError("list index out of range")
    ensures choices.None? || (choices.value != [] && choices.value[0] == []) ==> r == TipsError("Empty response")
    ensures choices.Some? && choices.value != [] && choices.value[0] != [] ==>
      var c := Unfence(choices.value[0]);
      && (parse(c).Some? ==> r == TipsParsed(parse(c).value))
      && (parse(c).None? ==> r == TipsFallback([Take(c, 500)], ["See full response above"], "Response was not valid JSON"))
  {
    var all := if choices.Some? then choices.value else [[]];
    if all == [] {
      return TipsError("list index out of range");
    }
    var content := all[0];
    if content == [] {
      return TipsError("Empty response");
    }
    content := StripFences(content);
    var result := parse(content);
    if result.Some? {
      return TipsParsed(result.value);
    }
    return TipsFallback([Take(content, 500)], ["See full response above"], "Response was not valid JSON");
  }
}
