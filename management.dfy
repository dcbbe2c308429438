/**
 * backend/app/routers/management.py: the CSV export of eligible students (with its
 * file-name sanitiser) and the student's view of placement notices, re-ranked by the
 * recommender.
 */
module Management {
  import opened Wrappers
  import opened Text
  import opened Ranking
  import opened Access
  import opened Features
  import opened Predict
  import opened Listings

  // ----- safe_company -------------------------------------------------------------

  /** The ASCII letters and digits. */
  predicate IsAsciiAlnum(c: char) {
    ('a' <= c <= 'z') || ('A' <= c <= 'Z') || ('0' <= c <= '9')
  }

  /**
   * What a stand-in for `c.isalnum()` must satisfy: on ASCII characters it accepts
   * exactly the letters and digits. Which other characters count (accented letters,
   * other scripts' digits) is Unicode data, so it is left to the parameter.
   */
  predicate IsAlnumClass(alnum: char -> bool) {
    forall c :: c <= '\U{7F}' ==> (alnum(c) <==> IsAsciiAlnum(c))
  }

  /** `"".join([c if c.isalnum() else "_" for c in s])`. */
  function Underscored(s: string, alnum: char -> bool): (r: string)
    ensures |r| == |s|
    ensures forall i :: 0 <= i < |s| ==> r[i] == (if alnum(s[i]) then s[i] else '_')
  {
    seq(|s|, i requires 0 <= i < |s| => if alnum(s[i]) then s[i] else '_')
  }

  /** A name made only of alphanumerics and '_' has nothing to replace. */
  lemma UnderscoredFixed(s: string, alnum: char -> bool)
    requires IsAlnumClass(alnum)
    requires forall i :: 0 <= i < |s| ==> alnum(s[i]) || s[i] == '_'
    ensures Underscored(s, alnum) == s
  {
    assert !alnum('_');
  }

  /** Non-alphanumeric characters replaced by '_', then `strip("_")`. */
  function Sanitize(name: string, alnum: char -> bool): (r: string)
    ensures forall c :: c in r ==> alnum(c) || c == '_'
    ensures r == [] || (r[0] != '_' && r[|r| - 1] != '_')
  {
    var u := Underscored(name, alnum);
    SafeCompanyChars(u, StripChar(u, '_'), alnum);
    StripChar(u, '_')
  }

  lemma SanitizeDefault(alnum: char -> bool)
    requires IsAlnumClass(alnum)
    ensures Sanitize("company", alnum) == "company"
  {
    var s := "company";
    assert forall i :: 0 <= i < |s| ==> 'a' <= s[i] <= 'z';
    UnderscoredFixed(s, alnum);
    assert s[0] == 'c' && s[|s| - 1] == 'y';
  }

  /**
   * `safe_company`: the company name (or "company" when it is missing or empty) with
   * every non-alphanumeric character replaced by '_' and the '_' at both ends removed.
   */
  function SafeCompany(companyName: Option<string>, alnum: char -> bool): (r: string)
    requires IsAlnumClass(alnum)
    ensures forall c :: c in r ==> alnum(c) || c == '_'
    ensures r == [] || (r[0] != '_' && r[|r| - 1] != '_')
    ensures companyName.None? || companyName.value == [] ==> r == "company"
    ensures companyName.Some? && companyName.value != [] ==>
      r == StripChar(Underscored(companyName.value, alnum), '_')
  {
    if companyName.None? || companyName.value == [] then
      SanitizeDefault(alnum);
      Sanitize("company", alnum)
    else Sanitize(companyName.value, alnum)
  }

  lemma SafeCompanyChars(u: string, r: string, alnum: char -> bool)
    requires forall i :: 0 <= i < |u| ==> alnum(u[i]) || u[i] == '_'
    requires r == StripChar(u, '_')
    ensures forall c :: c in r ==> alnum(c) || c == '_'
  {
    forall c | c in r ensures alnum(c) || c == '_' {
      var k :| 0 <= k < |u| && u[k] == c;
    }
  }

  /**
   * The file-name part is the name with its non-alphanumerics turned into '_' and with
   * only '_' cut from either end: a non-empty name keeps everything from its first to
   * its last alphanumeric character.
   */
  lemma SafeCompanyKeepsMiddle(name: string, alnum: char -> bool, i: nat, j: nat)
    returns (lo: nat, hi: nat)
    requires IsAlnumClass(alnum)
    requires i <= j < |name| && alnum(name[i]) && alnum(name[j])
    ensures lo <= i && j < hi <= |name|
    ensures SafeCompany(Some(name), alnum) == Underscored(name, alnum)[lo..hi]
  {
    var u := Underscored(name, alnum);
    assert !alnum('_');
    assert u[i] != '_' && u[j] != '_';
    lo, hi :| 0 <= lo <= hi <= |u| && StripChar(u, '_') == u[lo..hi]
      && (forall k :: 0 <= k < lo ==> u[k] == '_') && (forall k :: hi <= k < |u| ==> u[k] == '_');
  }

  /** Sanitising a sanitised, non-empty name changes nothing. */
  lemma SafeCompanyIdempotent(companyName: Option<string>, alnum: char -> bool)
    requires IsAlnumClass(alnum)
    ensures var r := SafeCompany(companyName, alnum);
      r != [] ==> SafeCompany(Some(r), alnum) == r
  {
    var r := SafeCompany(companyName, alnum);
    if r != [] {
      forall i | 0 <= i < |r| ensures alnum(r[i]) || r[i] == '_' {
        assert r[i] in r;
      }
      UnderscoredFixed(r, alnum);
      assert Sanitize(r, alnum) == StripChar(r, '_');
    }
  }

  /** A non-empty name made only of alphanumerics is used as it is. */
  lemma AlnumNameKept(name: string, alnum: char -> bool)
    requires IsAlnumClass(alnum)
    requires name != [] && forall i :: 0 <= i < |name| ==> alnum(name[i])
    ensures SafeCompany(Some(name), alnum) == name
  {
    UnderscoredFixed(name, alnum);
    assert !alnum('_');
  }

  /** The file name built from it cannot break out of the quoted header value or into a path. */
  lemma SafeCompanyHeaderSafe(companyName: Option<string>, alnum: char -> bool)
    requires IsAlnumClass(alnum)
    ensures '"' !in SafeCompany(companyName, alnum) && '/' !in SafeCompany(companyName, alnum)
  {
    assert '"' <= '\U{7F}' && '/' <= '\U{7F}' && '_' <= '\U{7F}';
    assert !alnum('"') && !alnum('/') && !alnum('_');
  }

  // ----- export_eligible_students_csv ---------------------------------------------

  /**
   * A profile value that the export converts with `float(...)` or `int(...)`:
   * missing (absent or None), converted, or one whose conversion raises.
   */
  datatype Parsed<T> = Missing | Value(v: T) | Unparsable

  /** The student document fields the export reads. */
  datatype StudentDoc = StudentDoc(
    name: Option<string>,
    email: Option<string>,
    department: Option<string>,
    cgpa: Parsed<real>,
    arrears: Parsed<int>)

  /** The notice fields the export reads. */
  datatype ExportNotice = ExportNotice(
    staffEmail: Option<string>,
    allowedDepartmentsLower: seq<string>,
    minCgpa: Option<real>,
    maxArrears: Option<int>)

  /** The identifying columns of one CSV row; the remaining profile columns are copied through. */
  datatype ExportRow = ExportRow(name: string, email: string, department: string)

  /** `str(s.get("department") or "").strip()`. */
  function StudentDepartment(s: StudentDoc): string {
    Strip(s.department.GetOr(""))
  }

  /**
   * The three gates, failing closed: the department is on a non-empty allow-list (or the
   * list is empty), the CGPA reaches a set minimum, the arrears stay within a set
   * maximum; a missing or unconvertible value fails its gate whenever the gate is set.
   */
  predicate Eligible(s: StudentDoc, n: ExportNotice) {
    && (n.allowedDepartmentsLower == [] || Lower(StudentDepartment(s)) in n.allowedDepartmentsLower)
    && (n.minCgpa.None? || (s.cgpa.Value? && s.cgpa.v >= n.minCgpa.value))
    && (n.maxArrears.None? || (s.arrears.Value? && s.arrears.v <= n.maxArrears.value))
  }

  function RowOf(s: StudentDoc): ExportRow {
    ExportRow(s.name.GetOr(""), s.email.GetOr(""), StudentDepartment(s))
  }

  /** The rows of the eligible students, in the order the students were read. */
  function EligibleRows(students: seq<StudentDoc>, n: ExportNotice): (rows: seq<ExportRow>)
    ensures |rows| <= |students|
  {
    if students == [] then []
    else
      var last := students[|students| - 1];
      EligibleRows(students[..|students| - 1], n) + (if Eligible(last, n) then [RowOf(last)] else [])
  }

  /** A row is exported for every eligible student, and only for eligible students. */
  lemma {:induction false} EligibleRowsExact(students: seq<StudentDoc>, n: ExportNotice)
    ensures forall s :: s in students && Eligible(s, n) ==> RowOf(s) in EligibleRows(students, n)
    ensures forall row :: row in EligibleRows(students, n) ==>
      exists s :: s in students && Eligible(s, n) && RowOf(s) == row
  {
    if students != [] {
      var init := students[..|students| - 1];
      var last := students[|students| - 1];
      EligibleRowsExact(init, n);
      assert students == init + [last];
      forall row | row in EligibleRows(students, n)
        ensures exists s :: s in students && Eligible(s, n) && RowOf(s) == row
      {
        if row in EligibleRows(init, n) {
          var s :| s in init && Eligible(s, n) && RowOf(s) == row;
          assert s in students;
        }
      }
    }
  }

  /** A student without a usable CGPA is never exported for a notice that sets a minimum. */
  lemma MissingCgpaExcluded(students: seq<StudentDoc>, n: ExportNotice, s: StudentDoc)
    requires n.minCgpa.Some? && !s.cgpa.Value?
    requires forall t :: t in students && RowOf(t) == RowOf(s) ==> t == s
    ensures RowOf(s) !in EligibleRows(students, n)
  {
    EligibleRowsExact(students, n);
  }

  lemma EligibleRowsSnoc(students: seq<StudentDoc>, i: nat, n: ExportNotice)
    requires i < |students|
    ensures EligibleRows(students[..i + 1], n)
      == EligibleRows(students[..i], n) + (if Eligible(students[i], n) then [RowOf(students[i])] else [])
  {
    assert students[..i + 1][..i] == students[..i];
  }

  /** The export loop: each student must pass the department, CGPA and arrears gates in turn, or is skipped. */
  method FilterEligible(students: seq<StudentDoc>, n: ExportNotice) returns (rows: seq<ExportRow>)
    ensures rows == EligibleRows(students, n)
  {
    rows := [];
    for i := 0 to |students|
      invariant rows == EligibleRows(students[..i], n)
    {
      EligibleRowsSnoc(students, i, n);
      var s := students[i];
      var dept := Strip(s.department.GetOr(""));
      var deptLower := Lower(dept);
      var keep := n.allowedDepartmentsLower == [] || deptLower in n.allowedDepartmentsLower;
      if keep && n.minCgpa.Some? {
        keep := s.cgpa.Value? && s.cgpa.v >= n.minCgpa.value;
      }
      if keep && n.maxArrears.Some? {
        keep := s.arrears.Value? && s.arrears.v <= n.maxArrears.value;
      }
      assert keep == Eligible(s, n);
      if keep {
        assert RowOf(s) == ExportRow(s.name.GetOr(""), s.email.GetOr(""), dept);
        rows := rows + [ExportRow(s.name.GetOr(""), s.email.GetOr(""), dept)];
      }
    }
    assert students[..|students|] == students;
  }

  /**
   * `export_eligible_students_csv` up to the CSV writer: the requester's domain, role
   * and ownership of the notice are checked, then the students are filtered gate by gate.
   */
  method ExportEligibleStudents(email: string, role: string, dbOk: bool, notice: Option<ExportNotice>, students: seq<StudentDoc>)
    returns (r: Result<seq<ExportRow>, string>)
    ensures r.Ok? <==>
      IsAllowedDomain(email) && dbOk && role == "management" && notice.Some? && SameUser(notice.value.staffEmail, email)
    ensures r.Ok? ==> r.value == EligibleRows(students, notice.value)
    ensures !IsAllowedDomain(email) ==> r == Err("Only @kongu.edu or @kongu.ac.in emails are permitted.")
  {
    if !IsAllowedDomain(email) {
      return Err("Only @kongu.edu or @kongu.ac.in emails are permitted.");
    }
    if !dbOk {
      return Err("MongoDB is not connected.");
    }
    if role != "management" {
      return Err("Role must be management.");
    }
    if notice.None? {
      return Err("Placement notice not found.");
    }
    var n := notice.value;
    if Lower(Strip(n.staffEmail.GetOr(""))) != Lower(Strip(email)) {
      return Err("Not allowed.");
    }
    var rows := FilterEligible(students, n);
    return Ok(rows);
  }

  // ----- list_visible_placement_notices -------------------------------------------

  /**
   * The `label` of a placement resource as `r.get("label", "").lower()` sees it: absent
   * (read as ""), a string, or something `.lower()` raises on (null, a non-string, or a
   * resource that is not an object at all).
   */
  datatype LabelValue = NoLabel | LabelText(text: string) | LabelUnreadable

  /** A placement resource; only its label matters here. */
  datatype Resource = Resource(labelValue: LabelValue)

  /** No resource label makes `.lower()` raise. */
  predicate Readable(resources: seq<Resource>) {
    forall j :: 0 <= j < |resources| ==> !resources[j].labelValue.LabelUnreadable?
  }

  /** The lower-cased label of a resource whose label can be read ("" when it is absent). */
  function LabelOf(r: Resource): string {
    if r.labelValue.LabelText? then Lower(r.labelValue.text) else ""
  }

  function Labels(resources: seq<Resource>): (r: seq<string>)
    ensures |r| == |resources|
    ensures forall i :: 0 <= i < |resources| ==> r[i] == LabelOf(resources[i])
  {
    seq(|resources|, i requires 0 <= i < |resources| => LabelOf(resources[i]))
  }

  /**
   * The labels `_extract_skills` produces: one per resource, in order, lower-cased, ""
   * for a missing label; `None` when some label raises.
   */
  function ResourceLabels(resources: seq<Resource>): (r: Option<seq<string>>)
    ensures r.Some? <==> forall j :: 0 <= j < |resources| ==> !resources[j].labelValue.LabelUnreadable?
    ensures r.Some? ==> |r.value| == |resources|
    ensures r.Some? ==> forall i :: 0 <= i < |resources| ==>
      r.value[i] == (if resources[i].labelValue.LabelText? then Lower(resources[i].labelValue.text) else "")
  {
    if Readable(resources) then Some(Labels(resources)) else None
  }

  /** `_extract_skills`: the append loop, stopped by the first label that raises. */
  method ExtractSkills(resources: seq<Resource>) returns (skills: Option<seq<string>>)
    ensures skills == ResourceLabels(resources)
  {
    var acc: seq<string> := [];
    for i := 0 to |resources|
      invariant Readable(resources[..i])
      invariant acc == Labels(resources[..i])
    {
      if resources[i].labelValue.LabelUnreadable? {
        assert !Readable(resources);
        return None;
      }
      var labelText := if resources[i].labelValue.LabelText? then Lower(resources[i].labelValue.text) else "";
      assert resources[..i + 1] == resources[..i] + [resources[i]];
      acc := acc + [labelText];
    }
    assert resources[..|resources|] == resources;
    return Some(acc);
  }

  /** The displayed fields of a notice, carried through the ranking untouched. */
  datatype NoticeInfo = NoticeInfo(companyName: string, title: string, description: string)

  /** The notice document fields this endpoint reads. */
  datatype PlacementDoc = PlacementDoc(
    id: string,
    resources: seq<Resource>,
    minYear: Option<int>,
    score: Option<real>,
    reasons: seq<string>,
    info: NoticeInfo)

  function DocId(d: PlacementDoc): string {
    d.id
  }

  /** The profile fields the recommender is fed from. */
  /**
   * The profile fields the route reads. `cgpa` and `arrears` are what `float(...)` and
   * `int(...)` make of the stored values: `Missing` when absent or null, `Unparsable`
   * when the conversion raises.
   */
  datatype Profile = Profile(skills: seq<string>, year: Option<int>, resumeScore: Option<real>,
                             cgpa: Parsed<real>, arrears: Parsed<int>)

  datatype StudentUser = StudentUser(department: Option<string>, profile: Profile)

  function Dept(u: StudentUser): string {
    Strip(u.department.GetOr(""))
  }

  /** `student_data`: the student's own department as branch, year 3 and resume score 0.7 by default. */
  function StudentData(u: StudentUser): StudentSignals {
    StudentSignals(u.profile.skills, Some(Dept(u)), Some(u.profile.year.GetOr(3)), Some(u.profile.resumeScore.GetOr(0.7)))
  }

  /** One entry of `opp_data`: the notice's labels as skills, the STUDENT's department as branch, minimum year 1 by default. */
  function OpportunityData(d: PlacementDoc, dept: string): OpportunitySignals {
    OpportunitySignals(d.id, Labels(d.resources), Some(dept), Some(d.minYear.GetOr(1)))
  }

  /** Every notice's labels can be read, so building `opp_data` does not raise. */
  /** Neither the CGPA nor the arrears count raises when converted. */
  predicate ProfileConvertible(u: StudentUser) {
    !u.profile.cgpa.Unparsable? && !u.profile.arrears.Unparsable?
  }

  predicate AllReadable(docs: seq<PlacementDoc>) {
    forall i :: 0 <= i < |docs| ==> Readable(docs[i].resources)
  }

  function OpportunitiesData(docs: seq<PlacementDoc>, dept: string): (r: seq<OpportunitySignals>)
    ensures |r| == |docs|
    ensures forall i :: 0 <= i < |docs| ==> r[i] == OpportunityData(docs[i], dept)
  {
    seq(|docs|, i requires 0 <= i < |docs| => OpportunityData(docs[i], dept))
  }

  /** `_to_placement_item`: the stored score (0.0 when absent) and reasons. */
  function PlacementItem(d: PlacementDoc): Listing<NoticeInfo> {
    Listing(d.id, d.score.GetOr(0.0), d.reasons, d.info)
  }

  function PlacementItems(docs: seq<PlacementDoc>): (r: seq<Listing<NoticeInfo>>)
    ensures |r| == |docs|
    ensures forall i :: 0 <= i < |docs| ==> r[i] == PlacementItem(docs[i])
  {
    seq(|docs|, i requires 0 <= i < |docs| => PlacementItem(docs[i]))
  }

  /**
   * Since the branch passed for the opportunity is the student's own department, the
   * branch feature is always 1; the year feature is 1 exactly when the student's year
   * (3 by default) reaches the notice's minimum year (1 by default).
   */
  lemma PlacementFeatures(u: StudentUser, d: PlacementDoc)
    ensures BuildFeatures(StudentData(u), OpportunityData(d, Dept(u)))[1] == 1.0
    ensures BuildFeatures(StudentData(u), OpportunityData(d, Dept(u)))[2] == 1.0
      <==> u.profile.year.GetOr(3) >= d.minYear.GetOr(1)
  {
  }

  /**
   * What `list_visible_placement_notices` answers once the checks pass: the notices,
   * each merged with the recommender's entry under its id, sorted by score.
   */
  function VisibleNotices(u: StudentUser, docs: seq<PlacementDoc>, classify: Classifier): seq<Listing<NoticeInfo>> {
    MergedRanking(PlacementItems(docs), StudentData(u), OpportunitiesData(docs, Dept(u)), classify)
  }

  /**
   * `list_visible_placement_notices` from the fetched notices on: the domain, database,
   * role and student checks; a stored CGPA or arrears count that `float`/`int` cannot
   * convert, or a resource label that `.lower()` raises on, ends the request with the
   * framework's 500 answer; otherwise every notice appears exactly once, sorted by
   * score, merged with the recommender's entry for its id.
   */
  method ListVisiblePlacementNotices(email: string, role: string, dbOk: bool, student: Option<StudentUser>,
                                     docs: seq<PlacementDoc>, classify: Classifier)
    returns (r: Result<seq<Listing<NoticeInfo>>, string>)
    ensures r.Ok? <==>
      (IsAllowedDomain(email) && dbOk && role == "student" && student.Some?
       && ProfileConvertible(student.value) && AllReadable(docs))
    ensures (IsAllowedDomain(email) && dbOk && role == "student" && student.Some?
             && !(ProfileConvertible(student.value) && AllReadable(docs))) ==>
      r == Err("Internal Server Error")
    ensures r.Ok? ==> r.value == VisibleNotices(student.value, docs, classify)
    ensures r.Ok? ==> multiset(Project(r.value, ListingId)) == multiset(Project(docs, DocId))
    ensures r.Ok? ==> SortedDesc(r.value, ListingScore)
    ensures r.Ok? ==> forall l :: l in r.value ==>
      && NoDuplicates(l.reasons)
      && exists d :: d in docs && d.id == l.id
           && l.score == Entry(StudentData(student.value), OpportunityData(d, Dept(student.value)), classify).score
  {
    if !IsAllowedDomain(email) {
      return Err("Only @kongu.edu or @kongu.ac.in emails are permitted.");
    }
    if !dbOk {
      return Err("MongoDB is not connected. Start MongoDB and retry.");
    }
    if role != "student" {
      return Err("Role must be student.");
    }
    if student.None? {
      return Err("Student not found.");
    }
    var u := student.value;
    if u.profile.cgpa.Unparsable? || u.profile.arrears.Unparsable? {
      return Err("Internal Server Error");
    }
    var dept := Strip(u.department.GetOr(""));
    var studentData := StudentSignals(u.profile.skills, Some(dept), Some(u.profile.year.GetOr(3)), Some(u.profile.resumeScore.GetOr(0.7)));
    var oppData: seq<OpportunitySignals> := [];
    for i := 0 to |docs|
      invariant AllReadable(docs[..i])
      invariant oppData == OpportunitiesData(docs[..i], dept)
    {
      var skills := ExtractSkills(docs[i].resources);
      if skills.None? {
        assert !AllReadable(docs);
        return Err("Internal Server Error");
      }
      OpportunitiesSnoc(docs, i, dept);
      assert AllReadable(docs[..i + 1]) by {
        assert forall j :: 0 <= j < i ==> docs[..i + 1][j] == docs[..i][j];
      }
      oppData := oppData + [OpportunitySignals(docs[i].id, skills.value, Some(dept), Some(docs[i].minYear.GetOr(1)))];
    }
    assert docs[..|docs|] == docs;
    var recommendations := Recommend(studentData, oppData, classify);
    var ranked := MergeAndRank(PlacementItems(docs), recommendations);
    VisibleOutcome(u, docs, classify, recommendations, ranked);
    return Ok(ranked);
  }

  /**
   * With distinct notice ids, every notice is listed with its own id and displayed
   * fields, the score the recommender gave it, and as reasons exactly the union of its
   * stored reasons and the recommender's, each once.
   */
  lemma VisibleNoticeOfDoc(u: StudentUser, docs: seq<PlacementDoc>, classify: Classifier, i: nat)
    returns (l: Listing<NoticeInfo>)
    requires NoDuplicates(Project(docs, DocId))
    requires i < |docs|
    ensures l in VisibleNotices(u, docs, classify)
    ensures l.id == docs[i].id && l.info == docs[i].info
    ensures l.score == Entry(StudentData(u), OpportunityData(docs[i], Dept(u)), classify).score
    ensures NoDuplicates(l.reasons)
    ensures forall x :: x in l.reasons <==>
      x in docs[i].reasons || x in Entry(StudentData(u), OpportunityData(docs[i], Dept(u)), classify).whyRecommended
  {
    var items := PlacementItems(docs);
    var opps := OpportunitiesData(docs, Dept(u));
    assert Project(items, ListingId) == Project(docs, DocId);
    assert Project(opps, OppId) == Project(docs, DocId);
    l := MergedListing(items, StudentData(u), opps, classify, i);
  }

  lemma OpportunitiesSnoc(docs: seq<PlacementDoc>, i: nat, dept: string)
    requires i < |docs|
    ensures OpportunitiesData(docs[..i + 1], dept) == OpportunitiesData(docs[..i], dept) + [OpportunityData(docs[i], dept)]
  {
  }

  lemma VisibleOutcome(u: StudentUser, docs: seq<PlacementDoc>, classify: Classifier,
                       recs: seq<Recommendation>, ranked: seq<Listing<NoticeInfo>>)
    requires multiset(recs) == multiset(Entries(StudentData(u), OpportunitiesData(docs, Dept(u)), classify))
    requires multiset(ranked) == multiset(EnhanceAll(PlacementItems(docs), RecMap(recs)))
    requires multiset(Project(ranked, ListingId)) == multiset(Project(PlacementItems(docs), ListingId))
    ensures multiset(Project(ranked, ListingId)) == multiset(Project(docs, DocId))
    ensures forall l :: l in ranked ==>
      && NoDuplicates(l.reasons)
      && exists d :: d in docs && d.id == l.id
           && l.score == Entry(StudentData(u), OpportunityData(d, Dept(u)), classify).score
  {
    assert Project(PlacementItems(docs), ListingId) == Project(docs, DocId);
    VisibleScores(u, docs, classify, recs, ranked);
  }

  lemma VisibleScores(u: StudentUser, docs: seq<PlacementDoc>, classify: Classifier,
                      recs: seq<Recommendation>, ranked: seq<Listing<NoticeInfo>>)
    requires multiset(recs) == multiset(Entries(StudentData(u), OpportunitiesData(docs, Dept(u)), classify))
    requires multiset(ranked) == multiset(EnhanceAll(PlacementItems(docs), RecMap(recs)))
    ensures forall l :: l in ranked ==>
      && NoDuplicates(l.reasons)
      && exists d :: d in docs && d.id == l.id
           && l.score == Entry(StudentData(u), OpportunityData(d, Dept(u)), classify).score
  {
    ItemsHaveRecs(u, docs, classify, recs);
    MergeCoversAll(PlacementItems(docs), recs, ranked);
    forall l | l in ranked
      ensures exists d :: d in docs && d.id == l.id && l.score == Entry(StudentData(u), OpportunityData(d, Dept(u)), classify).score
    {
      var r :| r in recs && r.opportunityId == l.id && l.score == r.score
        && forall x :: x in r.whyRecommended ==> x in l.reasons;
      RecFromDoc(u, docs, classify, recs, r);
    }
  }

  /** Every notice has a recommendation with its id. */
  lemma ItemsHaveRecs(u: StudentUser, docs: seq<PlacementDoc>, classify: Classifier, recs: seq<Recommendation>)
    requires multiset(recs) == multiset(Entries(StudentData(u), OpportunitiesData(docs, Dept(u)), classify))
    ensures forall l :: l in PlacementItems(docs) ==> exists r :: r in recs && r.opportunityId == l.id
  {
    var items := PlacementItems(docs);
    var entries := Entries(StudentData(u), OpportunitiesData(docs, Dept(u)), classify);
    forall l | l in items ensures exists r :: r in recs && r.opportunityId == l.id {
      var i :| 0 <= i < |items| && items[i] == l;
      assert entries[i] in multiset(recs);
    }
  }

  /** Every recommendation is the entry of some notice. */
  lemma RecFromDoc(u: StudentUser, docs: seq<PlacementDoc>, classify: Classifier, recs: seq<Recommendation>, r: Recommendation)
    requires multiset(recs) == multiset(Entries(StudentData(u), OpportunitiesData(docs, Dept(u)), classify))
    requires r in recs
    ensures exists d :: d in docs && d.id == r.opportunityId && r == Entry(StudentData(u), OpportunityData(d, Dept(u)), classify)
  {
    var entries := Entries(StudentData(u), OpportunitiesData(docs, Dept(u)), classify);
    assert r in multiset(entries);
    var j :| 0 <= j < |entries| && entries[j] == r;
    assert docs[j] in docs;
  }
}
