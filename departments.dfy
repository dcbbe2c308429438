/**
 * The department allow-list helpers: `_normalize_allowed_departments` and
 * `_parse_departments_csv` (backend/app/routers/management.py, with identical copies in
 * backend/app/main.py), and the inline normalisation in `create_event`
 * (backend/app/routers/events.py). An empty allow-list means "open to every department".
 */
module Departments {
  import opened Wrappers
  import opened Text

  /** `d.lower() in {"all", "*"}`. */
  predicate IsWildcard(d: string) {
    Lower(d) == "all" || Lower(d) == "*"
  }

  predicate HasWildcard(ds: seq<string>) {
    exists i :: 0 <= i < |ds| && IsWildcard(ds[i])
  }

  /** Every entry is non-empty and has no surrounding whitespace. */
  predicate AllClean(ds: seq<string>) {
    forall i :: 0 <= i < |ds| ==> ds[i] != [] && IsTrimmed(ds[i])
  }

  /** `[d.strip() for d in xs if d.strip()]`: the non-blank entries, trimmed, in order. */
  function StrippedNonBlank(xs: seq<string>): (r: seq<string>)
    ensures AllClean(r)
    ensures |r| <= |xs|
  {
    if xs == [] then []
    else
      var init := StrippedNonBlank(xs[..|xs| - 1]);
      var last := xs[|xs| - 1];
      if IsBlank(last) then init
      else
        AllCleanSnoc(init, Strip(last));
        init + [Strip(last)]
  }

  lemma AllCleanSnoc(ds: seq<string>, d: string)
    requires AllClean(ds) && d != [] && IsTrimmed(d)
    ensures AllClean(ds + [d])
  {
    var r := ds + [d];
    assert forall i :: 0 <= i < |ds| ==> r[i] == ds[i];
    assert r[|ds|] == d;
  }

  /** Every non-blank input is kept (trimmed), and everything kept comes from an input. */
  lemma StrippedNonBlankMembers(xs: seq<string>)
    ensures forall i :: 0 <= i < |xs| && !IsBlank(xs[i]) ==> Strip(xs[i]) in StrippedNonBlank(xs)
    ensures forall d :: d in StrippedNonBlank(xs) ==> exists i :: 0 <= i < |xs| && d == Strip(xs[i])
  {
    StrippedNonBlankKeeps(xs);
    StrippedNonBlankFrom(xs);
  }

  lemma {:induction false} StrippedNonBlankKeeps(xs: seq<string>)
    ensures forall i :: 0 <= i < |xs| && !IsBlank(xs[i]) ==> Strip(xs[i]) in StrippedNonBlank(xs)
  {
    if xs != [] {
      var init := xs[..|xs| - 1];
      StrippedNonBlankKeeps(init);
      var kept, last := StrippedNonBlank(init), xs[|xs| - 1];
      assert StrippedNonBlank(xs) == kept + (if IsBlank(last) then [] else [Strip(last)]);
      forall i | 0 <= i < |xs| && !IsBlank(xs[i]) ensures Strip(xs[i]) in StrippedNonBlank(xs) {
        if i < |xs| - 1 {
          assert init[i] == xs[i];
          assert Strip(init[i]) in kept;
        }
      }
    }
  }

  lemma {:induction false} StrippedNonBlankFrom(xs: seq<string>)
    ensures forall d :: d in StrippedNonBlank(xs) ==> exists i :: 0 <= i < |xs| && d == Strip(xs[i])
  {
    if xs != [] {
      var init, last := xs[..|xs| - 1], xs[|xs| - 1];
      StrippedNonBlankFrom(init);
      assert xs == init + [last];
      forall d | d in StrippedNonBlank(xs) ensures exists i :: 0 <= i < |xs| && d == Strip(xs[i]) {
        var i := StrippedNonBlankFromStep(init, last, d);
        assert xs[i] == (init + [last])[i];
      }
    }
  }

  /** One step of the induction: an entry kept from `init + [last]` is the trimmed input at index `i`. */
  lemma StrippedNonBlankFromStep(init: seq<string>, last: string, d: string) returns (i: nat)
    requires d in StrippedNonBlank(init + [last])
    requires forall e :: e in StrippedNonBlank(init) ==> exists j :: 0 <= j < |init| && e == Strip(init[j])
    ensures i <= |init| && d == Strip((init + [last])[i])
  {
    var xs := init + [last];
    assert xs[..|xs| - 1] == init;
    var kept := StrippedNonBlank(init);
    var tail := if IsBlank(last) then [] else [Strip(last)];
    assert StrippedNonBlank(xs) == kept + tail;
    if d in kept {
      i :| 0 <= i < |init| && d == Strip(init[i]);
      assert xs[i] == init[i];
    } else {
      i := |init|;
      assert d in tail;
      assert xs[i] == last;
    }
  }

  /** Entries that are already clean pass through unchanged. */
  lemma {:induction false} StrippedNonBlankOfClean(xs: seq<string>)
    requires AllClean(xs)
    ensures StrippedNonBlank(xs) == xs
  {
    if xs != [] {
      var init := xs[..|xs| - 1];
      var last := xs[|xs| - 1];
      assert AllClean(init) by {
        forall i | 0 <= i < |init| ensures init[i] != [] && IsTrimmed(init[i]) {
          assert init[i] == xs[i];
        }
      }
      StrippedNonBlankOfClean(init);
      StripOfTrimmed(last);
      assert !IsBlank(last);
      assert StrippedNonBlank(xs) == StrippedNonBlank(init) + [Strip(last)];
      assert xs == init + [last];
    }
  }

  /** Lower-cases every entry. */
  function LowerAll(ds: seq<string>): (r: seq<string>)
    ensures |r| == |ds|
    ensures forall i :: 0 <= i < |ds| ==> r[i] == Lower(ds[i])
  {
    seq(|ds|, i requires 0 <= i < |ds| => Lower(ds[i]))
  }

  /**
   * `_normalize_allowed_departments(raw)`: the non-blank entries, trimmed, unless one of
   * them is "all" or "*" (in any case), which opens the list to everyone; paired with
   * its element-wise lower-case copy.
   */
  function NormalizeAllowedDepartments(raw: Option<seq<string>>): (r: (seq<string>, seq<string>))
    ensures AllClean(r.0) && !HasWildcard(r.0)
    ensures |r.1| == |r.0| && forall i :: 0 <= i < |r.0| ==> r.1[i] == Lower(r.0[i])
    ensures HasWildcard(StrippedNonBlank(raw.GetOr([]))) ==> r.0 == []
    ensures !HasWildcard(StrippedNonBlank(raw.GetOr([]))) ==> r.0 == StrippedNonBlank(raw.GetOr([]))
  {
    var allowed := StrippedNonBlank(raw.GetOr([]));
    var kept := if HasWildcard(allowed) then [] else allowed;
    (kept, LowerAll(kept))
  }

  /** Normalising an already normalised allow-list changes nothing. */
  lemma NormalizeIdempotent(raw: Option<seq<string>>)
    ensures var r := NormalizeAllowedDepartments(raw);
      NormalizeAllowedDepartments(Some(r.0)) == r
  {
    var r := NormalizeAllowedDepartments(raw);
    StrippedNonBlankOfClean(r.0);
  }

  /** A wildcard entry anywhere in the input, even among others, empties the allow-list. */
  lemma WildcardOpensList(raw: seq<string>, i: nat)
    requires i < |raw| && IsWildcard(Strip(raw[i]))
    ensures NormalizeAllowedDepartments(Some(raw)).0 == []
  {
    var allowed := StrippedNonBlank(raw);
    StrippedNonBlankMembers(raw);
    assert Strip(raw[i]) != [];
    assert Strip(raw[i]) in allowed;
  }

  /**
   * `_parse_departments_csv(raw)`: nothing for a missing or blank input, `["all"]` for a
   * wildcard, and otherwise the comma-separated parts, trimmed, without blanks.
   */
  function ParseDepartmentsCsv(raw: Option<string>): (r: seq<string>)
    ensures raw.None? || IsBlank(raw.value) ==> r == []
    ensures raw.Some? && IsWildcard(Strip(raw.value)) ==> r == ["all"]
    ensures raw.Some? && !IsBlank(raw.value) && !IsWildcard(Strip(raw.value)) ==>
      r == StrippedNonBlank(Split(Strip(raw.value), ','))
    ensures AllClean(r)
  {
    if raw.None? then []
    else
      var s := Strip(raw.value);
      if s == [] then []
      else if IsWildcard(s) then
        assert IsTrimmed("all");
        ["all"]
      else StrippedNonBlank(Split(s, ','))
  }

  /** Every parsed department is free of commas. */
  lemma ParsedHaveNoCommas(raw: Option<string>)
    ensures forall d :: d in ParseDepartmentsCsv(raw) ==> ',' !in d
  {
    if raw.Some? && !IsBlank(raw.value) && !IsWildcard(Strip(raw.value)) {
      var parts := Split(Strip(raw.value), ',');
      StrippedNonBlankMembers(parts);
      SplitPiecesFree(Strip(raw.value), ',');
      forall d | d in StrippedNonBlank(parts) ensures ',' !in d {
        var i :| 0 <= i < |parts| && d == Strip(parts[i]);
        assert parts[i] in parts;
      }
    }
  }

  /**
   * Parsing and then normalising (`upload_management_note`): the allow-list is empty
   * when some parsed part is a wildcard, and otherwise it is the parsed list itself.
   */
  lemma ParseThenNormalize(raw: Option<string>)
    ensures var parsed := ParseDepartmentsCsv(raw);
      NormalizeAllowedDepartments(Some(parsed)).0 == (if HasWildcard(parsed) then [] else parsed)
  {
    var parsed := ParseDepartmentsCsv(raw);
    StrippedNonBlankOfClean(parsed);
    assert Some(parsed).GetOr([]) == parsed;
  }

  /** The default form value "all" (in any case, with any padding) opens the note to everyone. */
  lemma WildcardCsvOpensList(raw: string)
    requires IsWildcard(Strip(raw))
    ensures NormalizeAllowedDepartments(Some(ParseDepartmentsCsv(Some(raw)))).0 == []
  {
    var parsed := ParseDepartmentsCsv(Some(raw));
    ParseThenNormalize(Some(raw));
    assert parsed == ["all"];
    AllIsWildcard();
    assert IsWildcard(parsed[0]);
  }

  lemma AllIsWildcard()
    ensures IsWildcard("all")
  {
    var l := Lower("all");
    assert l[0] == 'a' && l[1] == 'l' && l[2] == 'l';
  }
}
