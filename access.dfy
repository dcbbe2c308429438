/**
 * The access checks every router repeats: `_is_allowed_domain`
 * (backend/app/routers/management.py and its copies in the other routers), the owner
 * check `stored.strip().lower() != email.strip().lower()`, and `_require_role`
 * (backend/app/main.py).
 */
module Access {
  import opened Wrappers
  import opened Text

  const AllowedDomains: set<string> := {"kongu.edu", "kongu.ac.in"}

  /** `email.split("@")[-1].lower() in {"kongu.edu", "kongu.ac.in"}`. */
  predicate IsAllowedDomain(email: string) {
    Lower(AfterLast(email, '@')) in AllowedDomains
  }

  /** `AfterLast` finds `d` behind the last separator when `d` itself has none. */
  lemma AfterLastAppend(s: string, c: char, d: string)
    requires c !in d
    ensures AfterLast(s + [c] + d, c) == d
  {
    AfterLastAfterSep(s, c, d);
    AfterLastWithout(d, c);
  }

  /**
   * Only the part after the last '@' decides, whatever the local part holds: an
   * address is accepted exactly when its domain, lower-cased, is one of the two
   * campus domains.
   */
  lemma AllowedDomainIff(local: string, domain: string)
    requires '@' !in domain
    ensures IsAllowedDomain(local + "@" + domain) <==> Lower(domain) == "kongu.edu" || Lower(domain) == "kongu.ac.in"
  {
    AfterLastAppend(local, '@', domain);
  }

  /** Without an '@' the whole string is tested as the domain. */
  lemma AllowedDomainWithoutAt(email: string)
    requires '@' !in email
    ensures IsAllowedDomain(email) <==> Lower(email) in AllowedDomains
  {
    AfterLastWithout(email, '@');
  }

  /** `str(stored or "").strip().lower() == email.strip().lower()`: the requester owns the record. */
  predicate SameUser(stored: Option<string>, email: string) {
    Lower(Strip(stored.GetOr(""))) == Lower(Strip(email))
  }

  /**
   * `_require_role(actual, expected)`: an error exactly when the trimmed, lower-cased
   * `actual` differs from `expected`; `expected` itself is compared as given.
   */
  function RequireRole(actual: Option<string>, expected: string): (r: Result<(), string>)
    ensures r.Ok? <==> Lower(Strip(actual.GetOr(""))) == expected
    ensures r.Err? ==> r.error == "Role must be " + expected + "."
  {
    if Lower(Strip(actual.GetOr(""))) != expected then Err("Role must be " + expected + ".") else Ok(())
  }

  /** An `expected` with an upper-case letter can never be met. */
  lemma RequireRoleUpperNeverMet(actual: Option<string>, expected: string, i: nat)
    requires i < |expected| && 'A' <= expected[i] <= 'Z'
    ensures RequireRole(actual, expected).Err?
  {
    var got := Lower(Strip(actual.GetOr("")));
    assert |got| == |expected| ==> got[i] == LowerChar(Strip(actual.GetOr(""))[i]);
  }
}
