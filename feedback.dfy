/**
 * backend/ml/feedback.py: `store_feedback` turns an interaction into a 0/1 label and
 * appends one record to the `ml_feedback` collection, which is only ever inserted into.
 */
module Feedback {
  import opened Wrappers

  /** The actions that count as positive feedback; the test is exact (case-sensitive). */
  const PositiveActions: seq<string> := ["applied", "liked", "clicked"]

  /** `1 if action in ["applied", "liked", "clicked"] else 0`. */
  function FeedbackValue(action: string): (v: int)
    ensures v == 0 || v == 1
    ensures v == 1 <==> action == "applied" || action == "liked" || action == "clicked"
  {
    if action in PositiveActions then 1 else 0
  }

  /** One stored feedback document. */
  datatype FeedbackRecord = FeedbackRecord(
    email: string,
    opportunityId: string,
    action: string,
    value: int,
    timestamp: Instant)

  /** The document `store_feedback` builds from its arguments. */
  function MakeRecord(email: string, opportunityId: string, action: string, now: Instant): (r: FeedbackRecord)
    ensures r.email == email && r.opportunityId == opportunityId && r.action == action
    ensures r.value == FeedbackValue(action) && r.timestamp == now
  {
    FeedbackRecord(email, opportunityId, action, FeedbackValue(action), now)
  }

  /** The `ml_feedback` collection, as the sequence of documents inserted so far. */
  class FeedbackLog {
    var records: seq<FeedbackRecord>

    /** Every stored label agrees with its action. */
    predicate Valid()
      reads this
    {
      forall i :: 0 <= i < |records| ==> records[i].value == FeedbackValue(records[i].action)
    }

    constructor()
      ensures records == [] && Valid()
    {
      records := [];
    }

    /**
     * `store_feedback`: inserts exactly one document built from the arguments, leaves
     * every earlier document as it was, and reports success.
     */
    method StoreFeedback(email: string, opportunityId: string, action: string, now: Instant) returns (ok: bool)
      requires Valid()
      modifies this
      ensures Valid()
      ensures ok
      ensures records == old(records) + [MakeRecord(email, opportunityId, action, now)]
    {
      var value := if action in PositiveActions then 1 else 0;
      var doc := FeedbackRecord(email, opportunityId, action, value, now);
      records := records + [doc];
      ok := true;
    }

  }

  /** The number of positive labels among `rs`. */
  function CountPositive(rs: seq<FeedbackRecord>): (n: nat)
    ensures n <= |rs|
  {
    if rs == [] then 0
    else CountPositive(rs[..|rs| - 1]) + (if rs[|rs| - 1].value == 1 then 1 else 0)
  }

  /** Storing a record raises the positive count by exactly its label. */
  lemma {:induction false} StoreCountsLabel(rs: seq<FeedbackRecord>, r: FeedbackRecord)
    requires r.value == 0 || r.value == 1
    ensures CountPositive(rs + [r]) == CountPositive(rs) + r.value
  {
    assert (rs + [r])[..|rs|] == rs;
  }
}
