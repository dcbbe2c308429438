/**
 * The student routes of backend/app/routers/student.py that compute something:
 * `get_student_placement_status`, which collects one record per (notice, round) that
 * selected the student, and `realtime_opportunities`, which scores the extracted
 * opportunities with the recommender and ranks them.
 */
module StudentRoutes {
  import opened Wrappers
  import opened Text
  import opened Ranking
  import opened Access
  import opened Features
  import opened Predict
  import opened Listings
  import Management

  // ----- get_student_placement_status ---------------------------------------------------------

  /**
   * A round of a placement notice. A missing or null `selectedStudents` reads as the empty
   * list; `uploadedAt` is the `str()` rendering of the stored value.
   */
  datatype Round = Round(
    roundNumber: Option<int>,
    name: Option<string>,
    selectedStudents: seq<string>,
    uploadedAt: Option<string>)

  /** A placement notice; missing `rounds` read as none, `createdAt` is its `str()` rendering. */
  datatype Notice = Notice(
    id: string,
    companyName: Option<string>,
    title: Option<string>,
    rounds: seq<Round>,
    createdAt: Option<string>)

  datatype RoundStatus = RoundStatus(
    placementId: string,
    companyName: string,
    title: string,
    roundNumber: int,
    roundName: string,
    notifiedAt: string)

  /**
   * `str(round.uploadedAt or notice.createdAt)`: the round's upload time when it has one,
   * else the notice's creation time, and the text "None" when neither is stored.
   */
  function NotifiedAt(n: Notice, r: Round): (s: string)
    ensures r.uploadedAt.Some? && r.uploadedAt.value != [] ==> s == r.uploadedAt.value
    ensures (r.uploadedAt.None? || r.uploadedAt.value == []) && n.createdAt.Some? ==> s == n.createdAt.value
    ensures (r.uploadedAt.None? || r.uploadedAt.value == []) && n.createdAt.None? ==> s == "None"
  {
    if r.uploadedAt.Some? && r.uploadedAt.value != [] then r.uploadedAt.value
    else if n.createdAt.Some? then n.createdAt.value
    else "None"
  }

  /** The record appended for a round that selected the student, with its defaults. */
  function StatusOf(n: Notice, r: Round): RoundStatus {
    RoundStatus(n.id, n.companyName.GetOr("Unknown"), n.title.GetOr("Position"),
                r.roundNumber.GetOr(0), r.name.GetOr("Round"), NotifiedAt(n, r))
  }

  /** The records of one notice's rounds that list `email`, in round order. */
  function RoundSelections(n: Notice, rounds: seq<Round>, email: string): (r: seq<RoundStatus>)
    ensures |r| <= |rounds|
  {
    if rounds == [] then []
    else
      var init := RoundSelections(n, rounds[..|rounds| - 1], email);
      var last := rounds[|rounds| - 1];
      if email in last.selectedStudents then init + [StatusOf(n, last)] else init
  }

  /** All records, notice by notice. */
  function Selections(notices: seq<Notice>, email: string): seq<RoundStatus> {
    if notices == [] then []
    else
      var last := notices[|notices| - 1];
      Selections(notices[..|notices| - 1], email) + RoundSelections(last, last.rounds, email)
  }

  /** The nested loops of `get_student_placement_status` over the notices the query returns. */
  method CollectSelections(notices: seq<Notice>, email: string) returns (all: seq<RoundStatus>)
    ensures all == Selections(notices, email)
  {
    all := [];
    for i := 0 to |notices|
      invariant all == Selections(notices[..i], email)
    {
      var n := notices[i];
      assert notices[..i + 1][..i] == notices[..i];
      ghost var before := all;
      for j := 0 to |n.rounds|
        invariant all == before + RoundSelections(n, n.rounds[..j], email)
      {
        var r := n.rounds[j];
        if email in r.selectedStudents {
          all := all + [StatusOf(n, r)];
        }
        assert n.rounds[..j + 1][..j] == n.rounds[..j];
      }
      assert n.rounds[..|n.rounds|] == n.rounds;
    }
    assert notices[..|notices|] == notices;
  }

  /**
   * `get_student_placement_status`: only the signed-in student and only the student role;
   * then the records of every round that selected them.
   */
  method GetStudentPlacementStatus(email: string, role: string, currentEmail: Option<string>, notices: seq<Notice>)
    returns (r: Result<seq<RoundStatus>, string>)
    ensures currentEmail != Some(email) ==> r == Err("Unauthorized")
    ensures r.Ok? <==> currentEmail == Some(email) && role == "student"
    ensures r.Ok? ==> r.value == Selections(notices, email)
  {
    if currentEmail != Some(email) {
      return Err("Unauthorized");
    }
    if role != "student" {
      return Err("Only students have placement status.");
    }
    var all := CollectSelections(notices, email);
    return Ok(all);
  }

  /** A round's record is present exactly when that round lists the student. */
  lemma {:induction false} RoundSelectionsMembers(n: Notice, rounds: seq<Round>, email: string, s: RoundStatus)
    ensures s in RoundSelections(n, rounds, email) <==>
      exists j :: 0 <= j < |rounds| && email in rounds[j].selectedStudents && s == StatusOf(n, rounds[j])
  {
    if rounds != [] {
      var init := rounds[..|rounds| - 1];
      RoundSelectionsMembers(n, init, email, s);
      assert forall j :: 0 <= j < |init| ==> init[j] == rounds[j];
    }
  }

  /** When every round of a notice lists the student, there is one record per round, in round order. */
  lemma {:induction false} EveryRoundSelected(n: Notice, rounds: seq<Round>, email: string)
    requires forall j :: 0 <= j < |rounds| ==> email in rounds[j].selectedStudents
    ensures |RoundSelections(n, rounds, email)| == |rounds|
    ensures forall j :: 0 <= j < |rounds| ==> RoundSelections(n, rounds, email)[j] == StatusOf(n, rounds[j])
  {
    if rounds != [] {
      var init := rounds[..|rounds| - 1];
      EveryRoundSelected(n, init, email);
    }
  }

  /** Records follow notice order: the records of two runs of notices are concatenated. */
  /** One more notice adds its own records at the end. */
  lemma SelectionsSnoc(ns: seq<Notice>, n: Notice, email: string)
    ensures Selections(ns + [n], email) == Selections(ns, email) + RoundSelections(n, n.rounds, email)
  {
    assert (ns + [n])[..|ns + [n]| - 1] == ns;
  }

  lemma {:induction false} SelectionsConcat(a: seq<Notice>, b: seq<Notice>, email: string)
    ensures Selections(a + b, email) == Selections(a, email) + Selections(b, email)
    decreases |b|
  {
    if b == [] {
      assert a + b == a;
    } else {
      var init, last := b[..|b| - 1], b[|b| - 1];
      var r := RoundSelections(last, last.rounds, email);
      calc {
        Selections(a + b, email);
        { assert a + b == (a + init) + [last]; SelectionsSnoc(a + init, last, email); }
        Selections(a + init, email) + r;
        { SelectionsConcat(a, init, email); }
        (Selections(a, email) + Selections(init, email)) + r;
        Selections(a, email) + (Selections(init, email) + r);
        { assert b == init + [last]; SelectionsSnoc(init, last, email); }
        Selections(a, email) + Selections(b, email);
      }
    }
  }

  /** A notice none of whose rounds lists the student. */
  predicate Unrelated(n: Notice, email: string) {
    forall j :: 0 <= j < |n.rounds| ==> email !in n.rounds[j].selectedStudents
  }

  lemma {:induction false} UnrelatedNoRecords(n: Notice, rounds: seq<Round>, email: string)
    requires forall j :: 0 <= j < |rounds| ==> email !in rounds[j].selectedStudents
    ensures RoundSelections(n, rounds, email) == []
  {
    if rounds != [] {
      UnrelatedNoRecords(n, rounds[..|rounds| - 1], email);
    }
  }

  /**
   * The query's filter (some round lists the email) changes nothing: adding a notice none
   * of whose rounds lists the student, anywhere, leaves the records as they were.
   */
  lemma UnrelatedNoticeIgnored(a: seq<Notice>, n: Notice, b: seq<Notice>, email: string)
    requires Unrelated(n, email)
    ensures Selections(a + [n] + b, email) == Selections(a + b, email)
  {
    SelectionsConcat(a + [n], b, email);
    SelectionsConcat(a, [n], email);
    SelectionsConcat(a, b, email);
    UnrelatedNoRecords(n, n.rounds, email);
    assert Selections([n], email) == Selections([], email) + RoundSelections(n, n.rounds, email);
  }

  // ----- realtime_opportunities ---------------------------------------------------------------

  /** An opportunity as the extractor returns it (only the fields these routes read). */
  datatype ExtractedOpportunity = ExtractedOpportunity(
    id: string,
    title: string,
    company: Option<string>,
    excerpt: Option<string>,
    tags: seq<string>,
    location: Option<string>,
    score: real,
    reasons: seq<string>)

  /** The displayed fields of an opportunity item, carried through the ranking untouched. */
  datatype OpportunityInfo = OpportunityInfo(title: string, company: string, description: string,
                                             tags: seq<string>, location: string)

  /** The item id: the extractor's id behind an "rt-" prefix. */
  function RtId(id: string): (r: string)
    ensures |r| == |id| + 3 && r[3..] == id
  {
    "rt-" + id
  }

  /** Two extracted opportunities get the same item id exactly when they have the same id. */
  lemma RtIdInjective(a: string, b: string)
    ensures RtId(a) == RtId(b) <==> a == b
  {
    if RtId(a) == RtId(b) {
      assert a == RtId(a)[3..] == RtId(b)[3..] == b;
    }
  }

  /** `_to_opportunity_item`: its own score and reasons, missing texts as "". */
  function ToItem(op: ExtractedOpportunity): Listing<OpportunityInfo> {
    Listing(RtId(op.id), op.score, op.reasons,
            OpportunityInfo(op.title, op.company.GetOr(""), op.excerpt.GetOr(""), op.tags, op.location.GetOr("")))
  }

  function ToItems(ops: seq<ExtractedOpportunity>): (r: seq<Listing<OpportunityInfo>>)
    ensures |r| == |ops| && forall i :: 0 <= i < |ops| ==> r[i] == ToItem(ops[i])
  {
    seq(|ops|, i requires 0 <= i < |ops| => ToItem(ops[i]))
  }

  /** The department in the recommender's input: the stored one, "Computer Science" when missing. */
  function SignalsDepartment(u: Management.StudentUser): string {
    u.department.GetOr("Computer Science")
  }

  /** `student_data`: the profile skills, the department, year 3 and resume score 0.7 by default. */
  function RealtimeStudentData(u: Management.StudentUser): StudentSignals {
    StudentSignals(u.profile.skills, Some(SignalsDepartment(u)),
                   Some(u.profile.year.GetOr(3)), Some(u.profile.resumeScore.GetOr(0.7)))
  }

  /** One entry of `opp_data`: the "rt-" id, the tags as skills, the STUDENT's department and minimum year 1. */
  function RealtimeOpportunity(op: ExtractedOpportunity, dept: string): OpportunitySignals {
    OpportunitySignals(RtId(op.id), op.tags, Some(dept), Some(1))
  }

  function RealtimeOpportunities(ops: seq<ExtractedOpportunity>, dept: string): (r: seq<OpportunitySignals>)
    ensures |r| == |ops| && forall i :: 0 <= i < |ops| ==> r[i] == RealtimeOpportunity(ops[i], dept)
  {
    seq(|ops|, i requires 0 <= i < |ops| => RealtimeOpportunity(ops[i], dept))
  }

  function OpRtId(op: ExtractedOpportunity): string {
    RtId(op.id)
  }

  /**
   * With the student's own department as every opportunity's branch and minimum year 1,
   * the branch feature is always 1 and the year feature is 1 exactly when the student's
   * year (3 by default) is at least 1.
   */
  lemma RealtimeFeatures(u: Management.StudentUser, op: ExtractedOpportunity)
    ensures BuildFeatures(RealtimeStudentData(u), RealtimeOpportunity(op, SignalsDepartment(u)))[1] == 1.0
    ensures BuildFeatures(RealtimeStudentData(u), RealtimeOpportunity(op, SignalsDepartment(u)))[2] == 1.0
      <==> u.profile.year.GetOr(3) >= 1
  {
  }

  /** Items and recommender inputs carry the same ids, position by position. */
  lemma SameIds(ops: seq<ExtractedOpportunity>, dept: string)
    ensures Project(ToItems(ops), ListingId) == Project(RealtimeOpportunities(ops, dept), OppId)
    ensures Project(ToItems(ops), ListingId) == Project(ops, OpRtId)
  {
  }

  /**
   * What `realtime_opportunities` answers once the checks pass: the extracted items, each
   * merged with the recommender's entry under its id, sorted by score.
   */
  function RealtimeRanking(u: Management.StudentUser, ops: seq<ExtractedOpportunity>, classify: Classifier)
    : seq<Listing<OpportunityInfo>>
  {
    MergedRanking(ToItems(ops), RealtimeStudentData(u), RealtimeOpportunities(ops, SignalsDepartment(u)), classify)
  }

  /**
   * With distinct extractor ids, every extracted opportunity is listed under its "rt-" id
   * with its displayed fields, the score the recommender gave it, and as reasons exactly
   * the union of its own reasons and the recommender's, each once.
   */
  lemma RealtimeItemOf(u: Management.StudentUser, ops: seq<ExtractedOpportunity>, classify: Classifier, i: nat)
    returns (l: Listing<OpportunityInfo>)
    requires NoDuplicates(Project(ops, OpRtId))
    requires i < |ops|
    ensures l in RealtimeRanking(u, ops, classify)
    ensures l.id == RtId(ops[i].id) && l.info == ToItem(ops[i]).info
    ensures l.score == Entry(RealtimeStudentData(u), RealtimeOpportunity(ops[i], SignalsDepartment(u)), classify).score
    ensures NoDuplicates(l.reasons)
    ensures forall x :: x in l.reasons <==>
      x in ops[i].reasons
      || x in Entry(RealtimeStudentData(u), RealtimeOpportunity(ops[i], SignalsDepartment(u)), classify).whyRecommended
  {
    SameIds(ops, SignalsDepartment(u));
    l := MergedListing(ToItems(ops), RealtimeStudentData(u), RealtimeOpportunities(ops, SignalsDepartment(u)), classify, i);
  }

  /**
   * `realtime_opportunities`: the caller check, the domain, the database and the user,
   * then the extractor's result (an error becomes the extraction message); on success one
   * item per extracted opportunity, merged with the recommender's entry for its id and
   * ranked by score.
   */
  method GetRealtimeOpportunities(email: string, currentEmail: Option<string>, dbOk: bool,
                                  user: Option<Management.StudentUser>,
                                  extracted: Result<seq<ExtractedOpportunity>, string>, classify: Classifier)
    returns (r: Result<seq<Listing<OpportunityInfo>>, string>)
    ensures r.Ok? <==> currentEmail == Some(email) && IsAllowedDomain(email) && dbOk && user.Some? && extracted.Ok?
    ensures currentEmail == Some(email) && IsAllowedDomain(email) && dbOk && user.Some? && extracted.Err? ==>
      r == Err("Extraction error: " + extracted.error)
    ensures r.Ok? ==> r.value == RealtimeRanking(user.value, extracted.value, classify)
    ensures r.Ok? ==> multiset(Project(r.value, ListingId)) == multiset(Project(extracted.value, OpRtId))
    ensures r.Ok? ==> SortedDesc(r.value, ListingScore)
    ensures r.Ok? ==> forall l :: l in r.value ==>
      && NoDuplicates(l.reasons)
      && exists i :: 0 <= i < |extracted.value| && RtId(extracted.value[i].id) == l.id
           && l.score == Entry(RealtimeStudentData(user.value),
                               RealtimeOpportunity(extracted.value[i], SignalsDepartment(user.value)), classify).score
  {
    if currentEmail != Some(email) {
      return Err("Not authorized to access these opportunities.");
    }
    if !IsAllowedDomain(email) {
      return Err("Only @kongu.edu or @kongu.ac.in emails are permitted.");
    }
    if !dbOk {
      return Err("MongoDB is not connected. Start MongoDB and retry.");
    }
    if user.None? {
      return Err("User not found.");
    }
    if extracted.Err? {
      return Err("Extraction error: " + extracted.error);
    }
    var ops := extracted.value;
    var u := user.value;
    var dept := SignalsDepartment(u);
    var studentData := RealtimeStudentData(u);
    var oppData := RealtimeOpportunities(ops, dept);
    var recommendations := Recommend(studentData, oppData, classify);
    var items := ToItems(ops);
    var ranked := MergeAndRank(items, recommendations);
    SameIds(ops, dept);
    MergeScoresFromEntries(items, studentData, oppData, classify, recommendations, ranked);
    return Ok(ranked);
  }
}
