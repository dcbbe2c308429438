/**
 * The merge-and-rank step that both `list_visible_placement_notices`
 * (backend/app/routers/management.py) and `realtime_opportunities`
 * (backend/app/routers/student.py) run after calling the recommender: index the
 * recommendations by opportunity id, copy each one's score onto the listing with
 * that id, merge the reasons as a set, and sort the listings by score, highest first.
 */
module Listings {
  import opened Ranking
  import opened Features
  import opened Predict

  /**
   * A listing as these routers handle it: its id, score and reasons, plus every
   * other field (`info`), which the merge never touches.
   */
  datatype Listing<P> = Listing(id: string, score: real, reasons: seq<string>, info: P)

  function ListingScore<P>(l: Listing<P>): real {
    l.score
  }

  function ListingId<P>(l: Listing<P>): string {
    l.id
  }

  predicate NoDuplicates<T(==)>(xs: seq<T>) {
    forall i, j :: 0 <= i < j < |xs| ==> xs[i] != xs[j]
  }

  /**
   * `list(set(xs))`: the same elements, each once. Python leaves the order of the
   * result unspecified; this model keeps first occurrences, which is one of the orders
   * it may produce.
   */
  function Dedup(xs: seq<string>): (r: seq<string>)
    ensures forall x :: x in r <==> x in xs
    ensures NoDuplicates(r)
    ensures |r| <= |xs|
  {
    if xs == [] then []
    else
      var d := Dedup(xs[..|xs| - 1]);
      assert forall x :: x in xs <==> x in xs[..|xs| - 1] || x == xs[|xs| - 1] by {
        assert xs == xs[..|xs| - 1] + [xs[|xs| - 1]];
      }
      if xs[|xs| - 1] in d then d else d + [xs[|xs| - 1]]
  }

  /** Deduplicating a list that has no duplicates changes nothing. */
  lemma {:induction false} DedupOfDistinct(xs: seq<string>)
    requires NoDuplicates(xs)
    ensures Dedup(xs) == xs
  {
    if xs != [] {
      var init := xs[..|xs| - 1];
      assert NoDuplicates(init);
      DedupOfDistinct(init);
      assert xs[|xs| - 1] !in init;
      assert xs == init + [xs[|xs| - 1]];
    }
  }

  /**
   * `{r["opportunity_id"]: r for r in recommendations}`: every id that occurs is a key,
   * and each key maps to the LAST recommendation carrying it.
   */
  function RecMap(recs: seq<Recommendation>): (m: map<string, Recommendation>)
    ensures forall r :: r in recs ==> r.opportunityId in m
    ensures forall id :: id in m ==> m[id] in recs && m[id].opportunityId == id
    ensures recs != [] ==> m[recs[|recs| - 1].opportunityId] == recs[|recs| - 1]
  {
    if recs == [] then map[]
    else
      var last := recs[|recs| - 1];
      assert recs == recs[..|recs| - 1] + [last];
      RecMap(recs[..|recs| - 1])[last.opportunityId := last]
  }

  /** When no two recommendations share an id, each one is found under its own id. */
  lemma {:induction false} RecMapDistinct(recs: seq<Recommendation>)
    requires NoDuplicates(Project(recs, RecId))
    ensures forall r :: r in recs ==> RecMap(recs)[r.opportunityId] == r
  {
    if recs != [] {
      var init := recs[..|recs| - 1];
      var last := recs[|recs| - 1];
      assert Project(init, RecId) == Project(recs, RecId)[..|recs| - 1];
      RecMapDistinct(init);
      forall r | r in recs ensures RecMap(recs)[r.opportunityId] == r {
        if r != last {
          var i :| 0 <= i < |recs| && recs[i] == r;
          assert i < |recs| - 1;
          assert Project(recs, RecId)[i] != Project(recs, RecId)[|recs| - 1];
          assert r in init;
        }
      }
    }
  }

  /**
   * `_enhance_with_ml` and the loop body of `list_visible_placement_notices`: a listing
   * with a recommendation takes its score and the union of both reason lists; any
   * other listing is left alone.
   */
  function Enhance<P>(item: Listing<P>, m: map<string, Recommendation>): (r: Listing<P>)
    ensures r.id == item.id && r.info == item.info
    ensures item.id in m ==>
      && r.score == m[item.id].score
      && NoDuplicates(r.reasons)
      && (forall x :: x in r.reasons <==> x in item.reasons || x in m[item.id].whyRecommended)
    ensures item.id !in m ==> r == item
  {
    if item.id in m then
      var rec := m[item.id];
      item.(score := rec.score, reasons := Dedup(item.reasons + rec.whyRecommended))
    else item
  }

  /** Every listing enhanced, in input order. */
  function EnhanceAll<P>(items: seq<Listing<P>>, m: map<string, Recommendation>): (r: seq<Listing<P>>)
    ensures |r| == |items|
    ensures forall i :: 0 <= i < |items| ==> r[i] == Enhance(items[i], m)
  {
    if items == [] then []
    else EnhanceAll(items[..|items| - 1], m) + [Enhance(items[|items| - 1], m)]
  }

  lemma EnhanceAllSnoc<P>(items: seq<Listing<P>>, i: nat, m: map<string, Recommendation>)
    requires i < |items|
    ensures EnhanceAll(items[..i + 1], m) == EnhanceAll(items[..i], m) + [Enhance(items[i], m)]
  {
    assert items[..i + 1][..i] == items[..i];
  }

  /**
   * The merge loop followed by `sort(key=score, reverse=True)`: every listing appears
   * exactly once (enhanced), the list is ordered by score with ties in input order,
   * and the ids are those of the input.
   */
  method MergeAndRank<P(==)>(items: seq<Listing<P>>, recs: seq<Recommendation>) returns (ranked: seq<Listing<P>>)
    ensures ranked == SortDesc(EnhanceAll(items, RecMap(recs)), ListingScore)
    ensures SortedDesc(ranked, ListingScore)
    ensures forall k :: WithKey(ranked, ListingScore, k) == WithKey(EnhanceAll(items, RecMap(recs)), ListingScore, k)
    ensures multiset(Project(ranked, ListingId)) == multiset(Project(items, ListingId))
  {
    var m := RecMap(recs);
    var enhanced: seq<Listing<P>> := [];
    for i := 0 to |items|
      invariant enhanced == EnhanceAll(items[..i], m)
    {
      var item := items[i];
      if item.id in m {
        var rec := m[item.id];
        item := item.(score := rec.score, reasons := Dedup(item.reasons + rec.whyRecommended));
      }
      EnhanceAllSnoc(items, i, m);
      enhanced := enhanced + [item];
    }
    assert items[..|items|] == items;
    ranked := SortDesc(enhanced, ListingScore);
    RankedListings(items, m);
  }

  lemma RankedListings<P>(items: seq<Listing<P>>, m: map<string, Recommendation>)
    ensures var enhanced := EnhanceAll(items, m);
      var ranked := SortDesc(enhanced, ListingScore);
      && (forall k :: WithKey(ranked, ListingScore, k) == WithKey(enhanced, ListingScore, k))
      && multiset(Project(ranked, ListingId)) == multiset(Project(items, ListingId))
  {
    var enhanced := EnhanceAll(items, m);
    var ranked := SortDesc(enhanced, ListingScore);
    forall k ensures WithKey(ranked, ListingScore, k) == WithKey(enhanced, ListingScore, k) {
      SortDescStable(enhanced, ListingScore, k);
    }
    ProjectPermutation(ranked, enhanced, ListingId);
    assert Project(enhanced, ListingId) == Project(items, ListingId);
  }

  /**
   * When every listing's id is among the recommendations, every ranked listing carries
   * a recommender score and a duplicate-free reason list that contains the
   * recommender's reasons.
   */
  lemma MergeCoversAll<P>(items: seq<Listing<P>>, recs: seq<Recommendation>, ranked: seq<Listing<P>>)
    requires forall l :: l in items ==> exists r :: r in recs && r.opportunityId == l.id
    requires multiset(ranked) == multiset(EnhanceAll(items, RecMap(recs)))
    ensures forall l :: l in ranked ==>
      && (exists r :: r in recs && r.opportunityId == l.id && l.score == r.score
            && forall x :: x in r.whyRecommended ==> x in l.reasons)
      && NoDuplicates(l.reasons)
  {
    var enhanced := EnhanceAll(items, RecMap(recs));
    forall l | l in ranked
      ensures && (exists r :: r in recs && r.opportunityId == l.id && l.score == r.score
                    && forall x :: x in r.whyRecommended ==> x in l.reasons)
              && NoDuplicates(l.reasons)
    {
      assert l in multiset(enhanced);
      var r := CoveredListing(items, recs, l);
    }
  }

  /** An enhanced listing whose id has a recommendation: that recommendation, which it now reflects. */
  lemma CoveredListing<P>(items: seq<Listing<P>>, recs: seq<Recommendation>, l: Listing<P>) returns (r: Recommendation)
    requires forall l :: l in items ==> exists r :: r in recs && r.opportunityId == l.id
    requires l in EnhanceAll(items, RecMap(recs))
    ensures r in recs && r.opportunityId == l.id && l.score == r.score
    ensures forall x :: x in r.whyRecommended ==> x in l.reasons
    ensures NoDuplicates(l.reasons)
  {
    var m := RecMap(recs);
    var enhanced := EnhanceAll(items, m);
    var i :| 0 <= i < |enhanced| && enhanced[i] == l;
    assert items[i] in items;
    var r0 :| r0 in recs && r0.opportunityId == items[i].id;
    assert items[i].id in m;
    r := m[l.id];
  }

  /**
   * When the listings and the recommender's input line up id for id, every ranked listing
   * carries the score the recommender gave an input with its id, and duplicate-free reasons.
   */
  lemma MergeScoresFromEntries<P>(items: seq<Listing<P>>, student: StudentSignals, opps: seq<OpportunitySignals>,
                                  classify: Classifier, recs: seq<Recommendation>, ranked: seq<Listing<P>>)
    requires Project(items, ListingId) == Project(opps, OppId)
    requires multiset(recs) == multiset(Entries(student, opps, classify))
    requires multiset(ranked) == multiset(EnhanceAll(items, RecMap(recs)))
    ensures forall l :: l in ranked ==>
      && NoDuplicates(l.reasons)
      && exists i :: 0 <= i < |opps| && opps[i].id == l.id && l.score == Entry(student, opps[i], classify).score
  {
    var entries := Entries(student, opps, classify);
    EntriesCoverItems(items, student, opps, classify, recs);
    MergeCoversAll(items, recs, ranked);
    forall l | l in ranked
      ensures exists i :: 0 <= i < |opps| && opps[i].id == l.id && l.score == Entry(student, opps[i], classify).score
    {
      var r :| r in recs && r.opportunityId == l.id && l.score == r.score
        && forall x :: x in r.whyRecommended ==> x in l.reasons;
      var j := EntryIndex(student, opps, classify, recs, r);
    }
  }

  /** A recommendation is the entry made for the input at some position. */
  lemma EntryIndex(student: StudentSignals, opps: seq<OpportunitySignals>, classify: Classifier,
                   recs: seq<Recommendation>, r: Recommendation) returns (j: nat)
    requires multiset(recs) == multiset(Entries(student, opps, classify))
    requires r in recs
    ensures j < |opps| && r == Entry(student, opps[j], classify) && r.opportunityId == opps[j].id
  {
    var entries := Entries(student, opps, classify);
    assert r in multiset(entries);
    j :| 0 <= j < |entries| && entries[j] == r;
  }

  /** Each listing finds the recommender entry made for the input at its own position. */
  lemma EntriesCoverItems<P>(items: seq<Listing<P>>, student: StudentSignals, opps: seq<OpportunitySignals>,
                             classify: Classifier, recs: seq<Recommendation>)
    requires Project(items, ListingId) == Project(opps, OppId)
    requires multiset(recs) == multiset(Entries(student, opps, classify))
    ensures forall l :: l in items ==> exists r :: r in recs && r.opportunityId == l.id
  {
    var entries := Entries(student, opps, classify);
    forall i | 0 <= i < |items| ensures entries[i] in recs && entries[i].opportunityId == items[i].id {
      assert Project(items, ListingId)[i] == Project(opps, OppId)[i];
      assert entries[i] in multiset(recs);
    }
  }

  /**
   * The whole merge as the routers run it: the recommender's entries sorted by score,
   * indexed by id, merged into the listings, and the listings sorted by score.
   */
  function MergedRanking<P>(items: seq<Listing<P>>, student: StudentSignals, opps: seq<OpportunitySignals>,
                            classify: Classifier): seq<Listing<P>> {
    SortDesc(EnhanceAll(items, RecMap(SortDesc(Entries(student, opps, classify), RecScore))), ListingScore)
  }

  /**
   * When the listings and the recommender's inputs line up id for id and no id repeats,
   * listing `i` appears in the merged ranking with its own id and untouched fields, the
   * score the recommender gave input `i`, and as reasons exactly the union of its stored
   * reasons and the recommender's, each once.
   */
  lemma MergedListing<P>(items: seq<Listing<P>>, student: StudentSignals, opps: seq<OpportunitySignals>,
                         classify: Classifier, i: nat) returns (l: Listing<P>)
    requires Project(items, ListingId) == Project(opps, OppId)
    requires NoDuplicates(Project(opps, OppId))
    requires i < |items|
    ensures l in MergedRanking(items, student, opps, classify)
    ensures l.id == items[i].id && l.info == items[i].info
    ensures l.score == Entry(student, opps[i], classify).score
    ensures NoDuplicates(l.reasons)
    ensures forall x :: x in l.reasons <==> x in items[i].reasons || x in Entry(student, opps[i], classify).whyRecommended
  {
    var recs := SortDesc(Entries(student, opps, classify), RecScore);
    var m := RecMap(recs);
    assert Project(items, ListingId)[i] == Project(opps, OppId)[i];
    RecMapAt(student, opps, classify, recs, i);
    var e := Entry(student, opps[i], classify);
    assert items[i].id in m && m[items[i].id] == e;
    var enhanced := EnhanceAll(items, m);
    l := enhanced[i];
    assert l == Enhance(items[i], m);
    assert l.id == items[i].id && l.info == items[i].info;
    assert l.score == e.score && NoDuplicates(l.reasons);
    assert forall x :: x in l.reasons <==> x in items[i].reasons || x in e.whyRecommended;
    assert l in SortDesc(enhanced, ListingScore) by {
      assert l in multiset(SortDesc(enhanced, ListingScore));
    }
    assert l in MergedRanking(items, student, opps, classify);
  }

  /** With distinct input ids, the map built from the entries finds, under input `i`'s id, its own entry. */
  lemma RecMapAt(student: StudentSignals, opps: seq<OpportunitySignals>, classify: Classifier,
                 recs: seq<Recommendation>, i: nat)
    requires multiset(recs) == multiset(Entries(student, opps, classify))
    requires NoDuplicates(Project(opps, OppId))
    requires i < |opps|
    ensures opps[i].id in RecMap(recs) && RecMap(recs)[opps[i].id] == Entry(student, opps[i], classify)
  {
    var m := RecMap(recs);
    var e := Entry(student, opps[i], classify);
    assert e in recs && e.opportunityId == opps[i].id by {
      assert Entries(student, opps, classify)[i] == e;
      assert e in multiset(recs);
    }
    assert opps[i].id in m;
    var r := m[opps[i].id];
    assert r in recs && r.opportunityId == opps[i].id;
    var j := EntryIndex(student, opps, classify, recs, r);
    assert j == i by {
      assert Project(opps, OppId)[j] == opps[j].id == opps[i].id == Project(opps, OppId)[i];
    }
  }
}
