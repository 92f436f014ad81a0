/** Deciding whether a contributor is new, against the contributors who had
    contributed before the reporting period. The test is Python's `str`
    containment (`in`), a substring test, not equality. */
module NewContributor {
  import opened Records

  /** `u` occurs in `s` starting at index `k`. */
  predicate OccursAt(s: string, u: string, k: int)
  {
    0 <= k && k + |u| <= |s| && s[k..k + |u|] == u
  }

  /** The substring test `u in s`: `u` is a prefix of `s` or of some suffix of it. */
  function Contains(s: string, u: string): bool
    decreases |s|
  {
    u <= s || (s != [] && Contains(s[1..], u))
  }

  /** The recursive test agrees with the positional definition of a substring. */
  lemma {:induction false} ContainsIff(s: string, u: string)
    ensures Contains(s, u) <==> exists k :: OccursAt(s, u, k)
    decreases |s|
  {
    if u <= s {
      assert OccursAt(s, u, 0);
    } else if s == [] {
      assert forall k :: !OccursAt(s, u, k);
    } else {
      ContainsIff(s[1..], u);
      if Contains(s[1..], u) {
        var k :| OccursAt(s[1..], u, k);
        SliceOfTail(s, k + 1, |u|);
        assert OccursAt(s, u, k + 1);
      } else {
        assert !OccursAt(s, u, 0);
        forall k | 1 <= k
          ensures OccursAt(s, u, k) ==> OccursAt(s[1..], u, k - 1)
        {
          if k + |u| <= |s| {
            SliceOfTail(s, k, |u|);
          }
        }
      }
    }
  }

  /** A slice of the tail is the slice of the whole one position further on. */
  lemma SliceOfTail(s: string, k: nat, n: nat)
    requires 1 <= k && k + n <= |s|
    ensures s[1..][k - 1..k - 1 + n] == s[k..k + n]
  {
  }

  /** Any string surrounded by arbitrary text is contained in the result, so a
      user name that is only part of a returning user's name also counts as
      returning. */
  lemma {:induction false} ContainsInfix(p: string, u: string, q: string)
    ensures Contains(p + u + q, u)
    decreases |p|
  {
    if p == [] {
      assert p + u + q == u + q;
      assert u <= u + q;
    } else {
      assert (p + u + q)[1..] == p[1..] + u + q;
      ContainsInfix(p[1..], u, q);
    }
  }

  /** `is_new_contributor`: a contributor is new unless its user name occurs
      inside the user name of some returning contributor. The search stops at
      the first hit. */
  method IsNewContributor(username: string, returning: seq<ContributorStats>) returns (isNew: bool)
    ensures isNew <==> forall i :: 0 <= i < |returning| ==> !Contains(returning[i].username, username)
  {
    for i := 0 to |returning|
      invariant forall k :: 0 <= k < i ==> !Contains(returning[k].username, username)
    {
      if Contains(returning[i].username, username) {
        return false;
      }
    }
    return true;
  }
}
