/**
 * backend/app/routers/chat.py: `chat_send` stores a thread's participants as the sorted
 * pair of lowercased "role:email" keys, and `chat_threads` finds, for the caller, the other
 * participant of each thread and splits its key back into role and email.
 */
module Chat {
  import opened Wrappers
  import opened Text
  import opened Access

  /** `f"{role}:{email}".lower()`. */
  function ParticipantKey(role: string, email: string): string {
    Lower(role + ":" + email)
  }

  /** `sorted([a, b])` on two strings. */
  function SortedPair(a: string, b: string): (r: seq<string>)
    ensures |r| == 2 && multiset(r) == multiset{a, b}
    ensures !StrLess(r[1], r[0])
  {
    StrLessAsymmetric(a, b);
    if StrLess(b, a) then [b, a] else [a, b]
  }

  /** The participants list `chat_send` stores: both keys, in sorted order. */
  function Participants(senderRole: string, senderEmail: string, recipientRole: string, recipientEmail: string): seq<string> {
    SortedPair(ParticipantKey(senderRole, senderEmail), ParticipantKey(recipientRole, recipientEmail))
  }

  /** A reply stores the same participants list as the message it answers. */
  lemma ParticipantsSymmetric(senderRole: string, senderEmail: string, recipientRole: string, recipientEmail: string)
    ensures Participants(senderRole, senderEmail, recipientRole, recipientEmail)
         == Participants(recipientRole, recipientEmail, senderRole, senderEmail)
  {
    var a, b := ParticipantKey(senderRole, senderEmail), ParticipantKey(recipientRole, recipientEmail);
    StrLessTotal(a, b);
    StrLessAsymmetric(a, b);
  }

  /**
   * `chat_send` up to the two repository writes: both addresses must be on a college
   * domain and the database up; the thread gets the participants list and, as its
   * last-message preview, the first 500 characters of the text.
   */
  method ChatSend(senderEmail: string, senderRole: string, recipientEmail: string, recipientRole: string,
                  text: string, dbOk: bool)
    returns (r: Result<(seq<string>, string), string>)
    ensures r.Ok? <==> IsAllowedDomain(senderEmail) && IsAllowedDomain(recipientEmail) && dbOk
    ensures r.Ok? ==> r.value.0 == Participants(senderRole, senderEmail, recipientRole, recipientEmail)
    ensures r.Ok? ==> |r.value.1| == (if |text| < 500 then |text| else 500) && r.value.1 == text[..|r.value.1|]
  {
    if !IsAllowedDomain(senderEmail) || !IsAllowedDomain(recipientEmail) {
      return Err("Only @kongu.edu or @kongu.ac.in emails are permitted.");
    }
    if !dbOk {
      return Err("MongoDB is not connected.");
    }
    var participants := SortedPair(Lower(senderRole + ":" + senderEmail), Lower(recipientRole + ":" + recipientEmail));
    return Ok((participants, Take(text, 500)));
  }

  // ----- chat_threads -----------------------------------------------------------------------

  /** A thread document: its id, participants, last message and last update time. */
  datatype ThreadDoc = ThreadDoc(id: string, participants: seq<string>, lastMessage: Option<string>, updatedAt: Option<Instant>)

  datatype ThreadEntry = ThreadEntry(id: string, otherEmail: string, otherRole: string,
                                     lastMessage: Option<string>, lastAt: Option<string>)

  /** `next(p for p in parts[i:] if p.lower() != me)`, as an index. */
  function FirstOtherFrom(parts: seq<string>, me: string, i: nat): (k: Option<nat>)
    requires i <= |parts|
    ensures k.Some? ==> i <= k.value < |parts| && Lower(parts[k.value]) != me
    ensures k.Some? ==> forall j :: i <= j < k.value ==> Lower(parts[j]) == me
    ensures k.None? ==> forall j :: i <= j < |parts| ==> Lower(parts[j]) == me
    decreases |parts| - i
  {
    if i == |parts| then None
    else if Lower(parts[i]) != me then Some(i)
    else FirstOtherFrom(parts, me, i + 1)
  }

  /**
   * The loop body of `chat_threads`: the first participant whose lowercase differs from
   * the caller's key; the thread is skipped when there is none or it has no ':' (an empty
   * key has none either). Otherwise the key is split at its first ':' into role and email,
   * which put back together give the key again.
   */
  function ThreadOf(d: ThreadDoc, me: string, iso: Instant -> string): (t: Option<ThreadEntry>)
    ensures t.Some? <==> FirstOtherFrom(d.participants, me, 0).Some?
                         && ':' in d.participants[FirstOtherFrom(d.participants, me, 0).value]
    ensures t.Some? ==>
      var other := d.participants[FirstOtherFrom(d.participants, me, 0).value];
      && t.value.otherRole + ":" + t.value.otherEmail == other
      && ':' !in t.value.otherRole
      && Lower(other) != me
      && t.value.id == d.id && t.value.lastMessage == d.lastMessage
  {
    var k := FirstOtherFrom(d.participants, me, 0);
    if k.None? then None
    else
      var other := d.participants[k.value];
      if ':' !in other then None
      else
        var (otherRole, otherEmail) := SplitFirst(other, ':');
        Some(ThreadEntry(d.id, otherEmail, otherRole, d.lastMessage,
                         if d.updatedAt.Some? then Some(iso(d.updatedAt.value)) else None))
  }

  /** The entries of the threads not skipped, in document order. */
  function Threads(docs: seq<ThreadDoc>, me: string, iso: Instant -> string): (r: seq<ThreadEntry>)
    ensures |r| <= |docs|
  {
    if docs == [] then []
    else
      var t := ThreadOf(docs[|docs| - 1], me, iso);
      Threads(docs[..|docs| - 1], me, iso) + (if t.Some? then [t.value] else [])
  }

  /** `chat_threads`: the domain and database checks, then the loop with its skips. */
  method ChatThreads(email: string, role: string, dbOk: bool, docs: seq<ThreadDoc>, iso: Instant -> string)
    returns (r: Result<seq<ThreadEntry>, string>)
    ensures r.Ok? <==> IsAllowedDomain(email) && dbOk
    ensures r.Ok? ==> r.value == Threads(docs, ParticipantKey(role, email), iso)
  {
    if !IsAllowedDomain(email) {
      return Err("Only @kongu.edu or @kongu.ac.in emails are permitted.");
    }
    if !dbOk {
      return Err("MongoDB is not connected.");
    }
    var threads: seq<ThreadEntry> := [];
    for i := 0 to |docs|
      invariant threads == Threads(docs[..i], ParticipantKey(role, email), iso)
    {
      assert docs[..i + 1][..i] == docs[..i];
      var me := Lower(role + ":" + email);
      var t := ThreadOf(docs[i], me, iso);
      if t.Some? {
        threads := threads + [t.value];
      }
    }
    assert docs[..|docs|] == docs;
    return Ok(threads);
  }

  /** The list is built thread by thread: the entries of two runs of documents are concatenated. */
  lemma {:induction false} ThreadsConcat(a: seq<ThreadDoc>, b: seq<ThreadDoc>, me: string, iso: Instant -> string)
    ensures Threads(a + b, me, iso) == Threads(a, me, iso) + Threads(b, me, iso)
    decreases |b|
  {
    if b == [] {
      assert a + b == a;
    } else {
      var init, last := b[..|b| - 1], b[|b| - 1];
      ThreadsConcat(a, init, me, iso);
      assert (a + b)[..|a + b| - 1] == a + init;
      assert (a + b)[|a + b| - 1] == last;
      var t := ThreadOf(last, me, iso);
      var r := if t.Some? then [t.value] else [];
      assert Threads(a + b, me, iso) == Threads(a + init, me, iso) + r;
      assert Threads(b, me, iso) == Threads(init, me, iso) + r;
    }
  }

  /** Splitting at the first ':' undoes joining at a ':' whenever the left part has none. */
  lemma SplitFirstOfJoin(a: string, b: string, c: char)
    requires c !in a
    ensures SplitFirst(a + [c] + b, c) == (a, b)
  {
    var s := a + [c] + b;
    var (x, y) := SplitFirst(s, c);
    assert s[|x|] == c && s[|a|] == c;
    assert forall i :: 0 <= i < |a| ==> s[i] == a[i];
    assert forall i :: 0 <= i < |x| ==> s[i] == x[i];
    assert x == s[..|x|] == a;
    assert y == s[|x| + 1..] == b;
  }

  /** Lowercasing keeps ':' and adds none. */
  lemma LowerColon(s: string)
    ensures ':' in Lower(s) <==> ':' in s
  {
    if ':' in s {
      var i :| 0 <= i < |s| && s[i] == ':';
      assert Lower(s)[i] == ':';
    }
    if ':' in Lower(s) {
      var i :| 0 <= i < |s| && Lower(s)[i] == ':';
      assert s[i] == ':';
    }
  }

  /**
   * Sending and then listing: in the thread `chat_send` stores, the sender sees the
   * recipient, with role and address lowercased, provided the two keys differ and the
   * roles contain no ':'.
   */
  lemma SendThenList(senderRole: string, senderEmail: string, recipientRole: string, recipientEmail: string,
                     id: string, lastMessage: Option<string>, updatedAt: Option<Instant>, iso: Instant -> string)
    requires ':' !in senderRole && ':' !in recipientRole
    requires ParticipantKey(senderRole, senderEmail) != ParticipantKey(recipientRole, recipientEmail)
    ensures var d := ThreadDoc(id, Participants(senderRole, senderEmail, recipientRole, recipientEmail), lastMessage, updatedAt);
      var t := ThreadOf(d, ParticipantKey(senderRole, senderEmail), iso);
      && t.Some?
      && t.value.otherRole == Lower(recipientRole)
      && t.value.otherEmail == Lower(recipientEmail)
  {
    var me := ParticipantKey(senderRole, senderEmail);
    var you := ParticipantKey(recipientRole, recipientEmail);
    LowerIdempotent(senderRole + ":" + senderEmail);
    LowerIdempotent(recipientRole + ":" + recipientEmail);
    var parts := Participants(senderRole, senderEmail, recipientRole, recipientEmail);
    assert parts == [me, you] || parts == [you, me] by {
      assert multiset(parts) == multiset{me, you};
      assert parts[0] in multiset{me, you} && parts[1] in multiset{me, you};
    }
    var k := FirstOtherFrom(parts, me, 0);
    assert k.Some? && parts[k.value] == you;
    LowerConcat(recipientRole, ":" + recipientEmail);
    LowerConcat(":", recipientEmail);
    assert you == Lower(recipientRole) + [':'] + Lower(recipientEmail);
    LowerColon(recipientRole);
    SplitFirstOfJoin(Lower(recipientRole), Lower(recipientEmail), ':');
  }
}
