/**
 * backend/ml/predict.py: `recommend` scores every opportunity for one student,
 * attaches two reasons and returns the list ranked by score.
 */
module Predict {
  import opened Wrappers
  import opened Features
  import opened Ranking

  /** A positive-class probability. */
  type Probability = r: real | 0.0 <= r <= 1.0

  /**
   * The trained classifier: `predict_proba([features])[0][1]`, or `None` when that call raises.
   * Its internals (the learned model) are not part of this model.
   */
  type Classifier = seq<real> -> Option<Probability>

  const HighSkillMatch: string := "High skill match"
  const ProfileRelevance: string := "Profile relevance"
  const EligibleYear: string := "Eligible year"
  const GrowthPotential: string := "Growth potential"

  /** One element of the returned list. */
  datatype Recommendation = Recommendation(opportunityId: string, score: real, whyRecommended: seq<string>)

  /** The score of one opportunity: the classifier's probability, or 0.5 when it raised. */
  function Score(outcome: Option<Probability>): (r: real)
    ensures 0.0 <= r <= 1.0
    ensures outcome.None? ==> r == 0.5
    ensures outcome.Some? ==> r == outcome.value
  {
    match outcome
    case None => 0.5
    case Some(p) => p
  }

  /**
   * The two reasons, chosen from the features alone: the first from the skill match,
   * the second from the year feature.
   */
  function Reasons(features: seq<real>): (r: seq<string>)
    requires |features| == 4
    ensures |r| == 2
    ensures r[0] == HighSkillMatch <==> features[0] > 0.6
    ensures r[0] == ProfileRelevance <==> !(features[0] > 0.6)
    ensures r[1] == EligibleYear <==> features[2] == 1.0
    ensures r[1] == GrowthPotential <==> features[2] != 1.0
    ensures r[0] != r[1]
  {
    [ if features[0] > 0.6 then HighSkillMatch else ProfileRelevance,
      if features[2] == 1.0 then EligibleYear else GrowthPotential ]
  }

  /** The entry the loop body of `recommend` appends for one opportunity. */
  function Entry(student: StudentSignals, opp: OpportunitySignals, classify: Classifier): (r: Recommendation)
    ensures r.opportunityId == opp.id
    ensures 0.0 <= r.score <= 1.0
    ensures |r.whyRecommended| == 2 && r.whyRecommended[0] != r.whyRecommended[1]
  {
    var features := BuildFeatures(student, opp);
    Recommendation(opp.id, Score(classify(features)), Reasons(features))
  }

  /** The entries in input order, before ranking. */
  function Entries(student: StudentSignals, opps: seq<OpportunitySignals>, classify: Classifier): (r: seq<Recommendation>)
    ensures |r| == |opps|
    ensures forall i :: 0 <= i < |opps| ==> r[i] == Entry(student, opps[i], classify)
  {
    Project(opps, o => Entry(student, o, classify))
  }

  function RecScore(r: Recommendation): real {
    r.score
  }

  function RecId(r: Recommendation): string {
    r.opportunityId
  }

  function OppId(o: OpportunitySignals): string {
    o.id
  }

  /**
   * `recommend`: builds one entry per opportunity in a loop, then sorts them by score,
   * highest first, keeping input order among equal scores.
   */
  method Recommend(student: StudentSignals, opportunities: seq<OpportunitySignals>, classify: Classifier)
    returns (ranked: seq<Recommendation>)
    ensures ranked == SortDesc(Entries(student, opportunities, classify), RecScore)
    ensures multiset(ranked) == multiset(Entries(student, opportunities, classify))
    ensures SortedDesc(ranked, RecScore)
    ensures forall k :: WithKey(ranked, RecScore, k) == WithKey(Entries(student, opportunities, classify), RecScore, k)
    ensures multiset(Project(ranked, RecId)) == multiset(Project(opportunities, OppId))
    ensures forall r :: r in ranked ==>
      0.0 <= r.score <= 1.0 && |r.whyRecommended| == 2 && r.whyRecommended[0] != r.whyRecommended[1]
  {
    var unranked: seq<Recommendation> := [];
    for i := 0 to |opportunities|
      invariant unranked == Entries(student, opportunities[..i], classify)
    {
      var features := BuildFeatures(student, opportunities[i]);
      var score := Score(classify(features));
      var entry := Recommendation(opportunities[i].id, score, Reasons(features));
      assert entry == Entry(student, opportunities[i], classify);
      EntriesSnoc(student, opportunities, i, classify);
      unranked := unranked + [entry];
    }
    assert opportunities[..|opportunities|] == opportunities;
    ranked := SortDesc(unranked, RecScore);
    RankedEntries(student, opportunities, classify);
  }

  lemma EntriesSnoc(student: StudentSignals, opps: seq<OpportunitySignals>, i: nat, classify: Classifier)
    requires i < |opps|
    ensures Entries(student, opps[..i + 1], classify) == Entries(student, opps[..i], classify) + [Entry(student, opps[i], classify)]
  {
    ProjectSnoc(opps, i, o => Entry(student, o, classify));
  }

  /** The sorted entries: a stable, score-ordered permutation carrying every input id. */
  lemma RankedEntries(student: StudentSignals, opportunities: seq<OpportunitySignals>, classify: Classifier)
    ensures var entries := Entries(student, opportunities, classify);
      var ranked := SortDesc(entries, RecScore);
      && (forall k :: WithKey(ranked, RecScore, k) == WithKey(entries, RecScore, k))
      && multiset(Project(ranked, RecId)) == multiset(Project(opportunities, OppId))
      && (forall r :: r in ranked ==>
            0.0 <= r.score <= 1.0 && |r.whyRecommended| == 2 && r.whyRecommended[0] != r.whyRecommended[1])
  {
    var entries := Entries(student, opportunities, classify);
    var ranked := SortDesc(entries, RecScore);
    forall k ensures WithKey(ranked, RecScore, k) == WithKey(entries, RecScore, k) {
      SortDescStable(entries, RecScore, k);
    }
    ProjectPermutation(ranked, entries, RecId);
    assert Project(entries, RecId) == Project(opportunities, OppId);
    forall r | r in ranked
      ensures 0.0 <= r.score <= 1.0 && |r.whyRecommended| == 2 && r.whyRecommended[0] != r.whyRecommended[1]
    {
      assert r in multiset(entries);
    }
  }

  /** Ids of the ranked list: every input id exactly as often as it occurs in the input. */
  lemma RecommendKeepsIds(student: StudentSignals, opportunities: seq<OpportunitySignals>, classify: Classifier, ranked: seq<Recommendation>)
    requires multiset(ranked) == multiset(Entries(student, opportunities, classify))
    ensures |ranked| == |opportunities|
    ensures forall o :: o in opportunities ==> exists r :: r in ranked && r.opportunityId == o.id
  {
    assert |ranked| == |multiset(ranked)| == |Entries(student, opportunities, classify)|;
    forall o | o in opportunities ensures exists r :: r in ranked && r.opportunityId == o.id {
      var i :| 0 <= i < |opportunities| && opportunities[i] == o;
      var e := Entries(student, opportunities, classify)[i];
      assert e in multiset(ranked);
    }
  }

  /**
   * What the two reasons say about the student and the opportunity: the first is
   * "High skill match" exactly when the skill match exceeds 0.6, the second is
   * "Eligible year" exactly when the student's year reaches the minimum year.
   */
  lemma EntryReasonsMeaning(student: StudentSignals, opp: OpportunitySignals, classify: Classifier)
    ensures var why := Entry(student, opp, classify).whyRecommended;
      && (why[0] == HighSkillMatch <==> SkillMatch(student.skills, opp.requiredSkills) > 0.6)
      && (why[1] == EligibleYear <==> student.year.GetOr(0) >= opp.minYear.GetOr(0))
  {
    var f := BuildFeatures(student, opp);
    assert Entry(student, opp, classify).whyRecommended == Reasons(f);
  }

  /** The reasons never depend on the classifier, only on the features. */
  lemma ReasonsIgnoreClassifier(student: StudentSignals, opp: OpportunitySignals, c1: Classifier, c2: Classifier)
    ensures Entry(student, opp, c1).whyRecommended == Entry(student, opp, c2).whyRecommended
  {
  }
}
