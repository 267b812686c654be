// The roster: one Family record per household, identified by its email.

module Roster {

  datatype Option<T> = None | Some(value: T)

  /** One row of the input roster.
      size      people who attend (seats used when the family is a guest or a host)
      space     seats the family offers when it hosts, itself included
      hostLimit soft cap on the number of nights it hosts (None = unlimited)
      allergies tags this family must not be exposed to
      allergens tags present in this family's home
      knows     acquaintance tags (used only by the score)
      repel     tags that must never meet at one dinner
      attendNights / hostNights  per-night availability */
  datatype Family = Family(
    email: string,
    size: nat,
    space: int,
    hostLimit: Option<int>,
    allergies: set<string>,
    allergens: set<string>,
    knows: set<string>,
    repel: set<string>,
    attendNights: seq<bool>,
    hostNights: seq<bool>)

  /** Family.__eq__ and __hash__: two records are the same family iff their emails agree. */
  predicate SameFamily(a: Family, b: Family)
  {
    a.email == b.email
  }

  predicate UniqueEmails(fs: seq<Family>)
  {
    forall i, j :: 0 <= i < j < |fs| ==> fs[i].email != fs[j].email
  }

  predicate Distinct<T(==)>(s: seq<T>)
  {
    forall i, j :: 0 <= i < j < |s| ==> s[i] != s[j]
  }

  /** In a roster whose emails are unique, identity by email is plain equality of records,
      so sets and maps of records behave like the source's email-keyed sets and dicts. */
  lemma SameFamilyIsEquality(fs: seq<Family>, a: Family, b: Family)
    requires UniqueEmails(fs) && a in fs && b in fs
    ensures SameFamily(a, b) <==> a == b
  {
    var i :| 0 <= i < |fs| && fs[i] == a;
    var j :| 0 <= j < |fs| && fs[j] == b;
    if i < j {
      assert fs[i].email != fs[j].email;
    } else if j < i {
      assert fs[j].email != fs[i].email;
    }
  }

  lemma UniqueEmailsDistinct(fs: seq<Family>)
    requires UniqueEmails(fs)
    ensures Distinct(fs)
  {
  }

  /** A sequence with two equal positions holds that value at least twice. */
  lemma RepeatedTwice<T>(s: seq<T>, i: nat, j: nat)
    requires i < j < |s| && s[i] == s[j]
    ensures multiset(s)[s[i]] >= 2
  {
    assert s == s[..j] + [s[j]] + s[j + 1..];
    assert s[i] in s[..j];
  }

  /** No value occurs twice: the multiset view of Distinct. */
  lemma DistinctCounts<T>(s: seq<T>, x: T)
    requires Distinct(s)
    ensures multiset(s)[x] <= 1
    decreases |s|
  {
    if s != [] {
      assert s == [s[0]] + s[1..];
      DistinctCounts(s[1..], x);
      if x == s[0] {
        assert x !in s[1..];
      }
    }
  }

  /** Distinctness survives any permutation. */
  lemma {:induction false} DistinctPermutation<T>(s: seq<T>, t: seq<T>)
    requires multiset(s) == multiset(t) && Distinct(s)
    ensures Distinct(t)
  {
    forall i, j | 0 <= i < j < |t|
      ensures t[i] != t[j]
    {
      if t[i] == t[j] {
        RepeatedTwice(t, i, j);
        DistinctCounts(s, t[i]);
      }
    }
  }

  /** Unique emails survive any permutation of the roster. */
  lemma {:induction false} UniqueEmailsPermutation(s: seq<Family>, t: seq<Family>)
    requires multiset(s) == multiset(t) && UniqueEmails(s)
    ensures UniqueEmails(t)
  {
    UniqueEmailsDistinct(s);
    DistinctPermutation(s, t);
    forall i, j | 0 <= i < j < |t|
      ensures t[i].email != t[j].email
    {
      assert t[i] in multiset(s) && t[j] in multiset(s);
      SameFamilyIsEquality(s, t[i], t[j]);
    }
  }

  /** `del d[x]` on a dict viewed through its key order: every other key keeps its place. */
  function Without<T(==,!new)>(s: seq<T>, x: T): (r: seq<T>)
    ensures forall y :: y in r <==> y in s && y != x
    ensures Distinct(s) ==> Distinct(r)
    ensures x !in s ==> r == s
    ensures Distinct(s) && x in s ==> |r| == |s| - 1
  {
    if s == [] then []
    else
      var rest := Without(s[1..], x);
      assert Distinct(s) ==> s[0] !in s[1..] && Distinct(s[1..]);
      if s[0] == x then rest else [s[0]] + rest
  }

  /** The roster shape every builder relies on: at least one family (the night count is read
      from the first one), unique emails, and every availability vector as long as the first. */
  predicate WellFormed(fs: seq<Family>)
  {
    && |fs| > 0
    && UniqueEmails(fs)
    && forall f :: f in fs ==>
         |f.attendNights| == |fs[0].attendNights| && |f.hostNights| == |fs[0].attendNights|
  }

  function NightCount(fs: seq<Family>): nat
    requires |fs| > 0
  {
    |fs[0].attendNights|
  }

  /** WellFormed depends only on the families present, not on their order. */
  lemma {:induction false} WellFormedPermutation(s: seq<Family>, t: seq<Family>)
    requires WellFormed(s) && multiset(s) == multiset(t)
    ensures WellFormed(t) && NightCount(t) == NightCount(s)
  {
    UniqueEmailsPermutation(s, t);
    assert |t| == |multiset(t)| == |s|;
    assert t[0] in multiset(s);
    forall f | f in t
      ensures |f.attendNights| == |t[0].attendNights| && |f.hostNights| == |t[0].attendNights|
    {
      assert f in multiset(s);
    }
  }

  /** The family comes to dinner on night `n`. */
  predicate Attends(f: Family, n: nat)
  {
    n < |f.attendNights| && f.attendNights[n]
  }

  /** The family comes and offers to host on night `n`. */
  predicate Hosting(f: Family, n: nat)
  {
    Attends(f, n) && n < |f.hostNights| && f.hostNights[n]
  }

  /** The guest's allergies meet the host's allergens. */
  predicate Allergic(guest: Family, host: Family)
  {
    guest.allergies * host.allergens != {}
  }

  /** Two families share a repel tag and must not dine together. */
  predicate Repels(a: Family, b: Family)
  {
    a.repel * b.repel != {}
  }

  lemma RepelsSymmetric(a: Family, b: Family)
    ensures Repels(a, b) <==> Repels(b, a)
  {
    assert a.repel * b.repel == b.repel * a.repel;
  }

  /** Two families share an acquaintance tag. */
  predicate Acquainted(a: Family, b: Family)
  {
    a.knows * b.knows != {}
  }

  /** `None == host_limit or count < host_limit`. */
  predicate BelowLimit(f: Family, count: int)
  {
    f.hostLimit.None? || count < f.hostLimit.value
  }
}
