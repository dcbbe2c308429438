/**
 * The sanitiser that turns the resume analyser's decoded JSON into the response
 * record: `_safe_str_list` and `_to_resume_analysis_result`, which
 * backend/app/routers/student.py and backend/app/main.py define identically.
 */
module Resume {
  import opened Wrappers
  import opened Text

  /** A decoded JSON value as `json.loads` returns it. */
  datatype Json =
    | JNull
    | JBool(b: bool)
    | JInt(i: int)
    | JNum(r: real)
    | JStr(s: string)
    | JList(items: seq<Json>)
    | JObject(fields: map<string, Json>)

  /** `d.get(key)`: a missing key reads as `None`. */
  function Get(fields: map<string, Json>, key: string): Json {
    if key in fields then fields[key] else JNull
  }

  /** Python truthiness of a JSON value. */
  predicate Truthy(j: Json) {
    match j
    case JNull => false
    case JBool(b) => b
    case JInt(i) => i != 0
    case JNum(r) => r != 0.0
    case JStr(s) => s != []
    case JList(items) => items != []
    case JObject(fields) => fields != map[]
  }

  // ----- _safe_str_list ---------------------------------------------------------------------

  /** The items `_safe_str_list` keeps from a list: the non-blank strings, trimmed, in order. */
  function CleanStrings(items: seq<Json>): (r: seq<string>)
    ensures |r| <= |items|
    ensures forall k :: 0 <= k < |r| ==> r[k] != [] && IsTrimmed(r[k])
  {
    if items == [] then []
    else
      var init := CleanStrings(items[..|items| - 1]);
      var last := items[|items| - 1];
      if last.JStr? && !IsBlank(last.s) then init + [Strip(last.s)] else init
  }

  /** What `_safe_str_list` returns: nothing for a value that is not a list. */
  function StrList(v: Json): seq<string> {
    if v.JList? then CleanStrings(v.items) else []
  }

  /** `_safe_str_list`: one pass over the list, appending each trimmed non-blank string. */
  method SafeStrList(v: Json) returns (out: seq<string>)
    ensures out == StrList(v)
    ensures !v.JList? ==> out == []
  {
    if !v.JList? {
      return [];
    }
    var items := v.items;
    out := [];
    for i := 0 to |items|
      invariant out == CleanStrings(items[..i])
    {
      var item := items[i];
      if item.JStr? && !IsBlank(item.s) {
        out := out + [Strip(item.s)];
      }
      assert items[..i + 1][..i] == items[..i];
    }
    assert items[..|items|] == items;
  }

  /** A string is kept exactly when some item is a non-blank string that trims to it. */
  lemma {:induction false} CleanStringsMembers(items: seq<Json>, x: string)
    ensures x in CleanStrings(items) <==>
      exists i :: 0 <= i < |items| && items[i].JStr? && !IsBlank(items[i].s) && x == Strip(items[i].s)
  {
    if items != [] {
      var init := items[..|items| - 1];
      CleanStringsMembers(init, x);
      assert forall i :: 0 <= i < |init| ==> init[i] == items[i];
    }
  }

  /** The list is processed item by item: sanitising a concatenation concatenates the results, so input order is kept. */
  lemma {:induction false} CleanStringsConcat(a: seq<Json>, b: seq<Json>)
    ensures CleanStrings(a + b) == CleanStrings(a) + CleanStrings(b)
    decreases |b|
  {
    if b == [] {
      assert a + b == a;
    } else {
      var init, last := b[..|b| - 1], b[|b| - 1];
      CleanStringsConcat(a, init);
      assert (a + b)[..|a + b| - 1] == a + init;
      assert (a + b)[|a + b| - 1] == last;
      var r := if last.JStr? && !IsBlank(last.s) then [Strip(last.s)] else [];
      assert CleanStrings(a + b) == CleanStrings(a + init) + r;
      assert CleanStrings(b) == CleanStrings(init) + r;
    }
  }

  /** The strings of a list, as JSON values. */
  function AsJson(xs: seq<string>): (r: seq<Json>)
    ensures |r| == |xs| && forall k :: 0 <= k < |xs| ==> r[k] == JStr(xs[k])
  {
    seq(|xs|, k requires 0 <= k < |xs| => JStr(xs[k]))
  }

  /** Sanitising an already sanitised list gives it back unchanged. */
  lemma {:induction false} CleanStringsIdempotent(items: seq<Json>)
    ensures CleanStrings(AsJson(CleanStrings(items))) == CleanStrings(items)
  {
    CleanStringsOfClean(CleanStrings(items));
  }

  lemma {:induction false} CleanStringsOfClean(xs: seq<string>)
    requires forall k :: 0 <= k < |xs| ==> xs[k] != [] && IsTrimmed(xs[k])
    ensures CleanStrings(AsJson(xs)) == xs
  {
    if xs != [] {
      var init := xs[..|xs| - 1];
      CleanStringsOfClean(init);
      assert AsJson(xs)[..|xs| - 1] == AsJson(init);
      StripOfTrimmed(xs[|xs| - 1]);
    }
  }

  // ----- improvements -----------------------------------------------------------------------

  datatype Improvement = Improvement(area: string, recommendation: string, example: Option<string>)

  /**
   * `(x or "").strip()`: a falsy value reads as ""; a truthy value that is not a string
   * has no `strip` and raises (`None` here).
   */
  function StripOrEmpty(j: Json): (r: Option<string>)
    ensures r.None? <==> Truthy(j) && !j.JStr?
    ensures j.JStr? ==> r == Some(Strip(j.s))
    ensures r.Some? ==> IsTrimmed(r.value)
  {
    if !Truthy(j) then Some("") else if j.JStr? then Some(Strip(j.s)) else None
  }

  /**
   * A string field that is kept only when it has text: the trimmed string, or `None` when
   * the value is not a string or is blank. `example`, `suggestedSummary` and
   * `finalFeedback` all follow this rule.
   */
  function OptionalText(j: Json): (r: Option<string>)
    ensures r.Some? <==> j.JStr? && !IsBlank(j.s)
    ensures r.Some? ==> r.value == Strip(j.s) && r.value != [] && IsTrimmed(r.value)
  {
    if j.JStr? && !IsBlank(j.s) then Some(Strip(j.s)) else None
  }

  /** The fate of one item of the improvements list. */
  datatype Verdict = Skipped | Kept(imp: Improvement) | Raises

  /**
   * The loop body over `improvements`: a non-object is skipped; otherwise the trimmed
   * `area` and `recommendation` (either may raise) must both be non-empty to be kept.
   */
  function ImprovementOf(it: Json): (v: Verdict)
    ensures v.Kept? ==> v.imp.area != [] && IsTrimmed(v.imp.area)
    ensures v.Kept? ==> v.imp.recommendation != [] && IsTrimmed(v.imp.recommendation)
    ensures v.Kept? ==> it.JObject? && v.imp.example == OptionalText(Get(it.fields, "example"))
    ensures v.Kept? ==>
      (Some(v.imp.area) == StripOrEmpty(Get(it.fields, "area"))
       && Some(v.imp.recommendation) == StripOrEmpty(Get(it.fields, "recommendation")))
    ensures v.Raises? <==>
      (it.JObject? &&
       (StripOrEmpty(Get(it.fields, "area")).None? || StripOrEmpty(Get(it.fields, "recommendation")).None?))
    ensures v.Kept? <==>
      (it.JObject?
       && StripOrEmpty(Get(it.fields, "area")) !in {None, Some("")}
       && StripOrEmpty(Get(it.fields, "recommendation")) !in {None, Some("")})
  {
    if !it.JObject? then Skipped
    else
      var area := StripOrEmpty(Get(it.fields, "area"));
      var rec := StripOrEmpty(Get(it.fields, "recommendation"));
      if area.None? || rec.None? then Raises
      else if area.value != [] && rec.value != [] then
        Kept(Improvement(area.value, rec.value, OptionalText(Get(it.fields, "example"))))
      else Skipped
  }

  /** An object whose `area` and `recommendation` are strings is kept exactly when both have text. */
  lemma ImprovementKeptIff(fields: map<string, Json>)
    requires Get(fields, "area").JStr? && Get(fields, "recommendation").JStr?
    ensures ImprovementOf(JObject(fields)).Kept? <==>
      !IsBlank(Get(fields, "area").s) && !IsBlank(Get(fields, "recommendation").s)
    ensures !ImprovementOf(JObject(fields)).Raises?
  {
  }

  /** The improvements kept, in order, or `None` when some item raises. */
  function Improvements(items: seq<Json>): (r: Option<seq<Improvement>>)
    ensures r.Some? ==> |r.value| <= |items|
  {
    if items == [] then Some([])
    else
      var init := Improvements(items[..|items| - 1]);
      var v := ImprovementOf(items[|items| - 1]);
      if init.None? || v.Raises? then None
      else if v.Kept? then Some(init.value + [v.imp])
      else init
  }

  /** The sanitiser raises exactly when some item raises. */
  lemma {:induction false} ImprovementsRaiseIff(items: seq<Json>)
    ensures Improvements(items).None? <==> exists i :: 0 <= i < |items| && ImprovementOf(items[i]).Raises?
  {
    if items != [] {
      var init := items[..|items| - 1];
      ImprovementsRaiseIff(init);
      assert forall i :: 0 <= i < |init| ==> init[i] == items[i];
    }
  }

  /** When nothing raises, every improvement returned is one that an item keeps... */
  lemma {:induction false} ImprovementsKeptSound(items: seq<Json>, imp: Improvement)
    requires Improvements(items).Some? && imp in Improvements(items).value
    ensures exists i :: 0 <= i < |items| && ImprovementOf(items[i]) == Kept(imp)
  {
    var init := items[..|items| - 1];
    var v := ImprovementOf(items[|items| - 1]);
    var kept := Improvements(init).value;
    assert Improvements(items).value == kept + (if v.Kept? then [v.imp] else []);
    if imp in kept {
      ImprovementsKeptSound(init, imp);
      var i :| 0 <= i < |init| && ImprovementOf(init[i]) == Kept(imp);
      assert items[i] == init[i];
    } else {
      assert ImprovementOf(items[|items| - 1]) == Kept(imp);
    }
  }

  /** ...and every improvement an item keeps is returned. */
  lemma {:induction false} ImprovementsKeptComplete(items: seq<Json>, i: nat)
    requires Improvements(items).Some? && i < |items| && ImprovementOf(items[i]).Kept?
    ensures ImprovementOf(items[i]).imp in Improvements(items).value
  {
    var init := items[..|items| - 1];
    var v := ImprovementOf(items[|items| - 1]);
    var kept := Improvements(init).value;
    var imp := ImprovementOf(items[i]).imp;
    assert Improvements(items).value == kept + (if v.Kept? then [v.imp] else []);
    if i < |init| {
      assert items[i] == init[i];
      ImprovementsKeptComplete(init, i);
      assert imp in kept;
    } else {
      assert i == |items| - 1;
      assert ImprovementOf(items[i]) == v;
    }
  }

  /**
   * The improvements loop: returns `None` as soon as an item raises, otherwise the kept
   * improvements in order; a value that is not a list gives none.
   */
  method SanitizeImprovements(raw: Json) returns (r: Option<seq<Improvement>>)
    ensures raw.JList? ==> r == Improvements(raw.items)
    ensures !raw.JList? ==> r == Some([])
  {
    if !raw.JList? {
      return Some([]);
    }
    var items := raw.items;
    var out: seq<Improvement> := [];
    for i := 0 to |items|
      invariant Improvements(items[..i]) == Some(out)
    {
      assert items[..i + 1][..i] == items[..i];
      var v := ImprovementOf(items[i]);
      if v.Raises? {
        ImprovementsRaiseIff(items);
        return None;
      }
      if v.Kept? {
        out := out + [v.imp];
      }
    }
    assert items[..|items|] == items;
    return Some(out);
  }

  // ----- overallFitScore --------------------------------------------------------------------

  predicate IsDigit(c: char) {
    '0' <= c <= '9'
  }

  predicate AllDigits(s: string) {
    forall i :: 0 <= i < |s| ==> IsDigit(s[i])
  }

  /** The value of a string of decimal digits. */
  function DigitsValue(ds: string): nat
    requires AllDigits(ds)
  {
    if ds == [] then 0 else DigitsValue(ds[..|ds| - 1]) * 10 + (ds[|ds| - 1] as int - '0' as int)
  }

  /** `int(s)` on a string: surrounding whitespace, an optional sign, then decimal digits. */
  function ParseInt(s: string): (r: Option<int>)
    ensures r.Some? ==> !IsBlank(s)
  {
    var t := Strip(s);
    var signed := |t| > 0 && (t[0] == '-' || t[0] == '+');
    var body := if signed then t[1..] else t;
    if body != [] && AllDigits(body) then
      var n: int := DigitsValue(body);
      Some(if signed && t[0] == '-' then -n else n)
    else None
  }

  /** `int(x)` toward zero on a float. */
  function Trunc(r: real): (n: int)
    ensures r >= 0.0 ==> n as real <= r < n as real + 1.0
    ensures r < 0.0 ==> n as real - 1.0 < r <= n as real
  {
    if r >= 0.0 then r.Floor else -((-r).Floor)
  }

  /** `int(x)` on a JSON value, or `None` when it raises. */
  function IntOf(j: Json): Option<int> {
    match j
    case JBool(b) => Some(if b then 1 else 0)
    case JInt(i) => Some(i)
    case JNum(r) => Some(Trunc(r))
    case JStr(s) => ParseInt(s)
    case _ => None
  }

  /** The fit score: `int()` of the raw value, 0 when that raises, clamped to [0, 100]. */
  function FitScore(j: Json): (r: int)
    ensures 0 <= r <= 100
    ensures IntOf(j).None? ==> r == 0
    ensures IntOf(j).Some? && 0 <= IntOf(j).value <= 100 ==> r == IntOf(j).value
    ensures IntOf(j).Some? && IntOf(j).value > 100 ==> r == 100
    ensures IntOf(j).Some? && IntOf(j).value < 0 ==> r == 0
  {
    var n := IntOf(j).GetOr(0);
    if n < 0 then 0 else if n > 100 then 100 else n
  }

  /** The decimal digits of `n`, as `str(n)` writes them. */
  function Decimal(n: nat): (s: string)
    ensures s != [] && AllDigits(s)
  {
    if n < 10 then [('0' as int + n) as char]
    else Decimal(n / 10) + [('0' as int + n % 10) as char]
  }

  lemma {:induction false} DigitsOfDecimal(n: nat)
    ensures DigitsValue(Decimal(n)) == n
  {
    if n >= 10 {
      DigitsOfDecimal(n / 10);
      var s := Decimal(n);
      assert s[..|s| - 1] == Decimal(n / 10);
    }
  }

  /** `str(n)` for any integer, with a leading '-' when negative. */
  function IntLiteral(n: int): string {
    if n < 0 then "-" + Decimal(-n) else Decimal(n)
  }

  lemma DigitNotSpace(c: char)
    requires IsDigit(c)
    ensures !IsSpace(c) && c != '-' && c != '+'
  {
  }

  /** A non-empty run of digits reads as its value. */
  lemma ParseDigits(ds: string)
    requires ds != [] && AllDigits(ds)
    ensures ParseInt(ds) == Some(DigitsValue(ds))
  {
    DigitNotSpace(ds[0]);
    DigitNotSpace(ds[|ds| - 1]);
    StripOfTrimmed(ds);
  }

  /** A '-' followed by a non-empty run of digits reads as the negated value. */
  lemma ParseNegDigits(ds: string)
    requires ds != [] && AllDigits(ds)
    ensures ParseInt("-" + ds) == Some(-(DigitsValue(ds) as int))
  {
    var s := "-" + ds;
    assert s[0] == '-' && s[|s| - 1] == ds[|ds| - 1];
    DigitNotSpace(ds[|ds| - 1]);
    StripOfTrimmed(s);
    assert s[1..] == ds;
  }

  lemma ParseNegLiteral(n: int)
    requires n < 0
    ensures ParseInt(IntLiteral(n)) == Some(n)
  {
    var ds := Decimal(-n);
    assert IntLiteral(n) == "-" + ds;
    DigitsOfDecimal(-n);
    var v := DigitsValue(ds);
    assert v == -n;
    ParseNegDigits(ds);
    assert ParseInt("-" + ds) == Some(-(v as int));
  }

  lemma ParseNonNegLiteral(n: int)
    requires n >= 0
    ensures ParseInt(IntLiteral(n)) == Some(n)
  {
    var ds := Decimal(n);
    assert IntLiteral(n) == ds;
    DigitsOfDecimal(n);
    var v := DigitsValue(ds);
    assert v == n;
    ParseDigits(ds);
    assert ParseInt(ds) == Some(v as int);
  }

  /** Reading back a written integer gives the integer: `int(str(n)) == n`. */
  lemma ParseIntLiteral(n: int)
    ensures ParseInt(IntLiteral(n)) == Some(n)
  {
    if n < 0 {
      ParseNegLiteral(n);
    } else {
      ParseNonNegLiteral(n);
    }
  }

  /** A score written as a number or as its decimal string within [0, 100] comes through unchanged. */
  lemma FitScoreInRange(n: int)
    requires 0 <= n <= 100
    ensures FitScore(JInt(n)) == n && FitScore(JStr(IntLiteral(n))) == n
  {
    ParseIntLiteral(n);
  }

  // ----- _to_resume_analysis_result ---------------------------------------------------------

  datatype AnalysisResult = AnalysisResult(
    overallFitScore: int,
    strengths: seq<string>,
    gaps: seq<string>,
    improvements: seq<Improvement>,
    missingKeywords: seq<string>,
    suggestedSummary: Option<string>,
    suggestedBullets: seq<string>,
    atsWarnings: seq<string>,
    finalFeedback: Option<string>)

  /**
   * `_to_resume_analysis_result`: `None` when the improvements loop raises; otherwise
   * the score in [0, 100], the improvements kept, the two optional texts and each string
   * list sanitised.
   */
  method ToResumeAnalysisResult(obj: map<string, Json>) returns (r: Option<AnalysisResult>)
    ensures r.None? <==> Get(obj, "improvements").JList? && Improvements(Get(obj, "improvements").items).None?
    ensures r.Some? ==>
      && 0 <= r.value.overallFitScore <= 100
      && r.value.overallFitScore == FitScore(Get(obj, "overallFitScore"))
    ensures r.Some? ==>
      && r.value.suggestedSummary == OptionalText(Get(obj, "suggestedSummary"))
      && r.value.finalFeedback == OptionalText(Get(obj, "finalFeedback"))
    ensures r.Some? ==>
      && r.value.strengths == StrList(Get(obj, "strengths"))
      && r.value.gaps == StrList(Get(obj, "gaps"))
      && r.value.missingKeywords == StrList(Get(obj, "missingKeywords"))
      && r.value.suggestedBullets == StrList(Get(obj, "suggestedBullets"))
      && r.value.atsWarnings == StrList(Get(obj, "atsWarnings"))
    ensures r.Some? && Get(obj, "improvements").JList? ==>
      Some(r.value.improvements) == Improvements(Get(obj, "improvements").items)
    ensures r.Some? && !Get(obj, "improvements").JList? ==> r.value.improvements == []
  {
    var improvements := SanitizeImprovements(Get(obj, "improvements"));
    if improvements.None? {
      return None;
    }
    var score := FitScore(Get(obj, "overallFitScore"));
    var summary := OptionalText(Get(obj, "suggestedSummary"));
    var feedback := OptionalText(Get(obj, "finalFeedback"));
    var strengths := SafeStrList(Get(obj, "strengths"));
    var gaps := SafeStrList(Get(obj, "gaps"));
    var keywords := SafeStrList(Get(obj, "missingKeywords"));
    var bullets := SafeStrList(Get(obj, "suggestedBullets"));
    var warnings := SafeStrList(Get(obj, "atsWarnings"));
    return Some(AnalysisResult(score, strengths, gaps, improvements.value, keywords, summary, bullets, warnings, feedback));
  }
}
