/**
 * backend/app/routers/events.py: event creation (date parsing, allow-list and
 * form-schema checks), registration (department gate, answer validation, one
 * registration per student and event), the attendance toggle and the attendance report.
 */
module Events {
  import opened Wrappers
  import opened Text
  import opened Access
  import opened Departments

  // ----- _parse_dt ----------------------------------------------------------------

  /** `datetime.fromisoformat`: the instant a string denotes, or `None` where it raises `ValueError`. */
  type IsoParser = string -> Option<Instant>

  /** A trailing "Z" rewritten to "+00:00"; the result never ends in "Z". */
  function ZuluToOffset(raw: string): (r: string)
    ensures !EndsWith(r, "Z")
    ensures !EndsWith(raw, "Z") ==> r == raw
    ensures EndsWith(raw, "Z") ==> r == raw[..|raw| - 1] + "+00:00"
  {
    if EndsWith(raw, "Z") then
      var r := raw[..|raw| - 1] + "+00:00";
      assert r[|r| - 1..] == "0";
      r
    else raw
  }

  /**
   * `_parse_dt(s)`: `None` (a `ValueError`) for a missing or blank string; otherwise the
   * trimmed string, with a trailing "Z" read as UTC, handed to `fromIso`.
   */
  function ParseDt(s: Option<string>, fromIso: IsoParser): (r: Option<Instant>)
    ensures IsBlank(s.GetOr("")) ==> r.None?
    ensures !IsBlank(s.GetOr("")) ==> r == fromIso(ZuluToOffset(Strip(s.GetOr(""))))
  {
    var raw := Strip(s.GetOr(""));
    if raw == [] then None else fromIso(ZuluToOffset(raw))
  }

  /** "…Z" and "…+00:00" denote the same instant, whatever the parser. */
  lemma ZuluSameInstant(raw: string, fromIso: IsoParser)
    ensures ParseDt(Some(raw + "Z"), fromIso) == ParseDt(Some(raw + "+00:00"), fromIso)
  {
    var t := raw[SpaceRun(raw, 0)..];
    StripBeforeSuffix(raw, "Z");
    StripBeforeSuffix(raw, "+00:00");
    StripBeforeSuffix(t, "Z");
    StripBeforeSuffix(t, "+00:00");
    assert t == [] || !IsSpace(t[0]);
    ZuluParsed(t, fromIso);
    OffsetParsed(t, fromIso);
  }

  /**
   * For text with no leading whitespace, "…Z" is parsed as "…+00:00". Leading whitespace
   * is stripped before the parser sees the text, so without this condition the parser's
   * argument is not `raw + "+00:00"` itself.
   */
  lemma ZuluParsed(raw: string, fromIso: IsoParser)
    requires raw == [] || !IsSpace(raw[0])
    ensures ParseDt(Some(raw + "Z"), fromIso) == fromIso(raw + "+00:00")
  {
    var z := raw + "Z";
    assert z[|z| - 1] == 'Z';
    assert z[0] == (if raw == [] then 'Z' else raw[0]);
    StripOfTrimmed(z);
    assert z[|z| - 1..] == "Z";
    assert z[..|z| - 1] == raw;
  }

  lemma OffsetParsed(raw: string, fromIso: IsoParser)
    requires raw == [] || !IsSpace(raw[0])
    ensures ParseDt(Some(raw + "+00:00"), fromIso) == fromIso(raw + "+00:00")
  {
    var o := raw + "+00:00";
    assert o[|o| - 1] == '0';
    EndsWithChar(o, 'Z');
    assert !EndsWith(o, "Z");
    assert ZuluToOffset(o) == o;
    assert o[0] == (if raw == [] then '+' else raw[0]);
    StripOfTrimmed(o);
    assert Strip(Some(o).GetOr("")) == o;
  }

  // ----- create_event -------------------------------------------------------------

  const InvalidDates: string := "Invalid startAt/endAt datetime. Use ISO format."
  const EndBeforeStart: string := "endAt must be after startAt."

  /**
   * The date block of `create_event`: `startAt` must parse; `endAt`, when non-empty,
   * must parse and must not be earlier than `startAt`.
   */
  function EventDates(startAt: Option<string>, endAt: Option<string>, fromIso: IsoParser)
    : (r: Result<(Instant, Option<Instant>), string>)
    ensures r.Ok? <==>
      ParseDt(startAt, fromIso).Some?
      && (endAt.None? || endAt.value == []
          || (ParseDt(endAt, fromIso).Some? && ParseDt(endAt, fromIso).value >= ParseDt(startAt, fromIso).value))
    ensures r.Ok? ==> r.value.0 == ParseDt(startAt, fromIso).value
    ensures r.Ok? ==> (r.value.1.Some? <==> endAt.Some? && endAt.value != [])
    ensures r.Ok? && r.value.1.Some? ==> r.value.0 <= r.value.1.value
    ensures r.Err? ==> r.error == InvalidDates || r.error == EndBeforeStart
  {
    match ParseDt(startAt, fromIso)
    case None => Err(InvalidDates)
    case Some(start) =>
      if endAt.None? || endAt.value == [] then Ok((start, None))
      else
        match ParseDt(endAt, fromIso)
        case None => Err(InvalidDates)
        case Some(end) => if end < start then Err(EndBeforeStart) else Ok((start, Some(end)))
  }

  /** A form field as the creation request declares it. */
  datatype FieldDraft = FieldDraft(key: string, kind: string, options: seq<string>)

  /** The first schema error the validation loop reports, given the keys already seen. */
  function SchemaErrorFrom(fields: seq<FieldDraft>, seen: set<string>): Option<string>
    decreases |fields|
  {
    if fields == [] then None
    else
      var f := fields[0];
      if f.key in seen then Some("Duplicate form field key: " + f.key)
      else if f.kind == "select" && f.options == [] then Some("Field '" + f.key + "' is select but has no options.")
      else SchemaErrorFrom(fields[1..], seen + {f.key})
  }

  function SchemaError(fields: seq<FieldDraft>): Option<string> {
    SchemaErrorFrom(fields, {})
  }

  predicate DistinctKeys(fields: seq<FieldDraft>) {
    forall i, j :: 0 <= i < j < |fields| ==> fields[i].key != fields[j].key
  }

  predicate SelectsHaveOptions(fields: seq<FieldDraft>) {
    forall i :: 0 <= i < |fields| && fields[i].kind == "select" ==> fields[i].options != []
  }

  lemma {:induction false} SchemaErrorFromIff(fields: seq<FieldDraft>, seen: set<string>)
    ensures SchemaErrorFrom(fields, seen).None? <==>
      DistinctKeys(fields) && SelectsHaveOptions(fields) && forall i :: 0 <= i < |fields| ==> fields[i].key !in seen
    decreases |fields|
  {
    if fields != [] {
      var f, rest := fields[0], fields[1..];
      SchemaErrorFromIff(rest, seen + {f.key});
      assert forall i :: 0 < i < |fields| ==> fields[i] == rest[i - 1];
      if DistinctKeys(fields) && SelectsHaveOptions(fields) && forall i :: 0 <= i < |fields| ==> fields[i].key !in seen {
        assert DistinctKeys(rest) by {
          forall i, j | 0 <= i < j < |rest| ensures rest[i].key != rest[j].key {
            assert rest[i] == fields[i + 1] && rest[j] == fields[j + 1];
          }
        }
        assert forall i :: 0 <= i < |rest| ==> rest[i].key !in seen + {f.key} by {
          forall i | 0 <= i < |rest| ensures rest[i].key !in seen + {f.key} {
            assert rest[i] == fields[i + 1];
          }
        }
      }
    }
  }

  /** The schema is accepted exactly when keys are distinct and every select field has options. */
  lemma SchemaErrorIff(fields: seq<FieldDraft>)
    ensures SchemaError(fields).None? <==> DistinctKeys(fields) && SelectsHaveOptions(fields)
  {
    SchemaErrorFromIff(fields, {});
  }

  /** The form-field loop of `create_event`, growing the set of seen keys. */
  method ValidateFormFields(fields: seq<FieldDraft>) returns (err: Option<string>)
    ensures err == SchemaError(fields)
  {
    var seen: set<string> := {};
    for i := 0 to |fields|
      invariant SchemaError(fields) == SchemaErrorFrom(fields[i..], seen)
    {
      assert fields[i..][0] == fields[i] && fields[i..][1..] == fields[i + 1..];
      var key := fields[i].key;
      if key in seen {
        return Some("Duplicate form field key: " + key);
      }
      seen := seen + {key};
      if fields[i].kind == "select" && fields[i].options == [] {
        return Some("Field '" + key + "' is select but has no options.");
      }
    }
    return None;
  }

  /** What `create_event` stores, apart from the free-text fields. */
  datatype NewEvent = NewEvent(
    startAt: Instant,
    endAt: Option<Instant>,
    allowedDepartments: seq<string>,
    allowedDepartmentsLower: seq<string>,
    formFields: seq<FieldDraft>)

  /**
   * `create_event` up to the insert: domain, role and manager checks, then dates,
   * allow-list normalisation and schema validation.
   */
  method CreateEvent(managerEmail: string, dbOk: bool, role: string, managerFound: bool,
                     startAt: Option<string>, endAt: Option<string>,
                     allowedDepartments: Option<seq<string>>, formFields: seq<FieldDraft>, fromIso: IsoParser)
    returns (r: Result<NewEvent, string>)
    ensures r.Ok? <==>
      IsAllowedDomain(managerEmail) && dbOk && role == "event_manager" && managerFound
      && EventDates(startAt, endAt, fromIso).Ok? && DistinctKeys(formFields) && SelectsHaveOptions(formFields)
    ensures r.Ok? ==> r.value.endAt.None? || r.value.startAt <= r.value.endAt.value
    ensures r.Ok? ==>
      var (dates, allowed) := (EventDates(startAt, endAt, fromIso).value, NormalizeAllowedDepartments(allowedDepartments));
      r.value == NewEvent(dates.0, dates.1, allowed.0, allowed.1, formFields)
  {
    SchemaErrorIff(formFields);
    if !IsAllowedDomain(managerEmail) {
      return Err("Only @kongu.edu or @kongu.ac.in emails are permitted.");
    }
    if !dbOk {
      return Err("MongoDB is not connected.");
    }
    if role != "event_manager" {
      return Err("Role must be event_manager.");
    }
    if !managerFound {
      return Err("Event manager user not found.");
    }
    var dates := EventDates(startAt, endAt, fromIso);
    if dates.Err? {
      return Err(dates.error);
    }
    var allowed := NormalizeAllowedDepartments(allowedDepartments);
    var schemaError := ValidateFormFields(formFields);
    if schemaError.Some? {
      return Err(schemaError.value);
    }
    return Ok(NewEvent(dates.value.0, dates.value.1, allowed.0, allowed.1, formFields));
  }
}
