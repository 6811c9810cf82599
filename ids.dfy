/** Document ids as the store issues them, and sequences without repeats. The
    store hands out the decimal rendering of a counter; an ObjectId's 12-byte
    layout is not modelled, only that every new id differs from every stored one. */
module Ids {
  import opened Wrappers
  import opened Text

  type Id = string

  /** The id the store issues when its counter stands at `n`. */
  function IssueId(n: nat): Id {
    NatToString(n)
  }

  /** The ids issued while the counter went from 0 to `n`. */
  function IssuedIds(n: nat): (ids: set<Id>)
    ensures n > 0 ==> IssueId(n - 1) in ids
  {
    if n == 0 then {} else IssuedIds(n - 1) + {IssueId(n - 1)}
  }

  /** `id` is one the store issued before its counter reached `n`. */
  predicate Issued(id: Id, n: nat) {
    id in IssuedIds(n)
  }

  /** No id issued before `m` is the one issued at `n >= m`. */
  lemma {:induction false} NotYetIssued(n: nat, m: nat)
    requires m <= n
    ensures IssueId(n) !in IssuedIds(m)
  {
    if m > 0 {
      NotYetIssued(n, m - 1);
      if IssueId(m - 1) == IssueId(n) {
        NatToStringInjective(m - 1, n);
      }
    }
  }

  /** An id issued at `n` is issued before `n + 1` and not before `n`; what
      was issued before `n` stays issued. */
  lemma IssueIdFresh(n: nat)
    ensures Issued(IssueId(n), n + 1) && !Issued(IssueId(n), n)
    ensures forall id :: Issued(id, n) ==> Issued(id, n + 1)
  {
    NotYetIssued(n, n);
  }

  predicate Distinct<T(==)>(s: seq<T>) {
    forall i, j :: 0 <= i < j < |s| ==> s[i] != s[j]
  }

  /** `s` without `x`. */
  function Without(s: seq<Id>, x: Id): (r: seq<Id>)
    ensures forall y :: y in r <==> y in s && y != x
    ensures Distinct(s) ==> Distinct(r)
    ensures x !in s ==> r == s
  {
    if s == [] then []
    else if s[0] == x then Without(s[1..], x)
    else
      var t := Without(s[1..], x);
      assert Distinct(s) ==> s[0] !in s[1..];
      [s[0]] + t
  }
}
