// count_meals and the counting part of find_starved_family, the same in schedule2.py and
// schedule.py: the family-nights requested, and the requested family-nights at which the
// family sits at no table.

module Diagnostics {
  import opened Roster
  import opened Dinners
  import opened Schedules

  /** `attend_nights.count(True)`: the nights a family asks to be fed. */
  function Wanted(b: seq<bool>): nat
  {
    |set n | 0 <= n < |b| && b[n]|
  }

  /** Some table of the night holds the family. */
  ghost predicate Fed(night: Night, f: Family)
  {
    exists h :: h in night && f in night[h]
  }

  /** The nights the family asks for and sits at no table. */
  ghost function Missed(f: Family, s: Schedule): nat
  {
    |set n | 0 <= n < |f.attendNights| && f.attendNights[n] && !(n < |s| && Fed(s[n], f))|
  }

  /** count_meals: the requested nights of every entry of the family list. */
  function Requested(fs: seq<Family>): nat
  {
    if fs == [] then 0 else Requested(fs[..|fs| - 1]) + Wanted(fs[|fs| - 1].attendNights)
  }

  /** The starved count: the requested nights of every entry that go unfed. */
  ghost function Starved(fs: seq<Family>, s: Schedule): nat
  {
    if fs == [] then 0 else Starved(fs[..|fs| - 1], s) + Missed(fs[|fs| - 1], s)
  }

  /** The family sits at some table on every night it asks for. */
  ghost predicate AllFed(f: Family, s: Schedule)
  {
    forall n :: 0 <= n < |f.attendNights| && f.attendNights[n] ==> n < |s| && Fed(s[n], f)
  }

  /** find_starved_family reads `schedule[night]` for every requested night. */
  predicate Covers(fs: seq<Family>, s: Schedule)
  {
    forall f, n :: f in fs && 0 <= n < |f.attendNights| && f.attendNights[n] ==> n < |s|
  }

  // ---- properties ------------------------------------------------------------------------

  lemma MissedFew(f: Family, s: Schedule)
    ensures Missed(f, s) <= Wanted(f.attendNights)
  {
    var b := f.attendNights;
    var missed := set n | 0 <= n < |b| && b[n] && !(n < |s| && Fed(s[n], f));
    var wanted := set n | 0 <= n < |b| && b[n];
    assert wanted == missed + (wanted - missed);
  }

  /** No more family-nights starve than were requested. */
  lemma {:induction false} StarvedFew(fs: seq<Family>, s: Schedule)
    ensures Starved(fs, s) <= Requested(fs)
    decreases |fs|
  {
    if fs != [] {
      StarvedFew(fs[..|fs| - 1], s);
      MissedFew(fs[|fs| - 1], s);
    }
  }

  /** When every family is fed on every night it asks for, nobody starves. */
  lemma {:induction false} NoneStarved(fs: seq<Family>, s: Schedule)
    requires forall f :: f in fs ==> AllFed(f, s)
    ensures Starved(fs, s) == 0
    decreases |fs|
  {
    if fs != [] {
      var p, f := fs[..|fs| - 1], fs[|fs| - 1];
      assert fs == p + [f];
      var missed := set n | 0 <= n < |f.attendNights| && f.attendNights[n] && !(n < |s| && Fed(s[n], f));
      assert AllFed(f, s);
      assert forall n :: n !in missed;
      assert missed == {};
      forall g | g in p ensures AllFed(g, s) {
        assert g in fs;
      }
      NoneStarved(p, s);
    }
  }

  /** With no tables at all, every requested family-night starves. */
  lemma {:induction false} AllStarved(fs: seq<Family>, s: Schedule)
    requires forall n :: 0 <= n < |s| ==> s[n] == map[]
    ensures Starved(fs, s) == Requested(fs)
    decreases |fs|
  {
    if fs != [] {
      var f := fs[|fs| - 1];
      assert (set n | 0 <= n < |f.attendNights| && f.attendNights[n] && !(n < |s| && Fed(s[n], f)))
          == (set n | 0 <= n < |f.attendNights| && f.attendNights[n]);
      AllStarved(fs[..|fs| - 1], s);
    }
  }

  // ---- the counting loops ----------------------------------------------------------------

  /** `list.count(True)`. */
  method CountTrue(b: seq<bool>) returns (c: nat)
    ensures c == Wanted(b)
  {
    c := 0;
    for i := 0 to |b|
      invariant c == |set n | 0 <= n < i && b[n]|
    {
      if b[i] {
        assert (set n | 0 <= n < i + 1 && b[n]) == (set n | 0 <= n < i && b[n]) + {i};
        c := c + 1;
      } else {
        assert (set n | 0 <= n < i + 1 && b[n]) == (set n | 0 <= n < i && b[n]);
      }
    }
    assert (set n | 0 <= n < |b| && b[n]) == (set n | 0 <= n < |b| && b[n]);
  }

  /** count_meals. */
  method CountMeals(fs: seq<Family>) returns (meals: nat)
    ensures meals == Requested(fs)
  {
    meals := 0;
    for i := 0 to |fs|
      invariant meals == Requested(fs[..i])
    {
      var c := CountTrue(fs[i].attendNights);
      assert fs[..i + 1][..i] == fs[..i];
      meals := meals + c;
    }
    assert fs[..|fs|] == fs;
  }

  /** `for host in schedule[night]: if family in schedule[night][host]: served = True`; the loop
      does not stop at the first table that holds the family. */
  method IsServed(night: Night, f: Family) returns (served: bool)
    ensures served <==> Fed(night, f)
  {
    served := false;
    var todo := night.Keys;
    while todo != {}
      invariant todo <= night.Keys
      invariant served <==> exists h :: h in night && h !in todo && f in night[h]
      decreases todo
    {
      var host :| host in todo;
      if f in night[host] {
        served := true;
      }
      todo := todo - {host};
    }
  }

  /** The nights of one family that find_starved_family reports. */
  method CountMissed(f: Family, s: Schedule) returns (c: nat)
    requires forall n :: 0 <= n < |f.attendNights| && f.attendNights[n] ==> n < |s|
    ensures c == Missed(f, s)
  {
    c := 0;
    ghost var b := f.attendNights;
    for night := 0 to |f.attendNights|
      invariant c == |set n | 0 <= n < night && b[n] && !(n < |s| && Fed(s[n], f))|
    {
      ghost var before := set n | 0 <= n < night && b[n] && !(n < |s| && Fed(s[n], f));
      ghost var after := set n | 0 <= n < night + 1 && b[n] && !(n < |s| && Fed(s[n], f));
      if !f.attendNights[night] {
        assert after == before;
        continue;
      }
      var served := IsServed(s[night], f);
      if !served {
        assert after == before + {night};
        c := c + 1;
      } else {
        assert after == before;
      }
    }
  }

  /** The starved count of find_starved_family (its log lines are left out). */
  method StarvedCount(fs: seq<Family>, s: Schedule) returns (starved: nat)
    requires Covers(fs, s)
    ensures starved == Starved(fs, s)
    ensures starved <= Requested(fs)
  {
    starved := 0;
    for i := 0 to |fs|
      invariant starved == Starved(fs[..i], s)
    {
      assert fs[i] in fs;
      var c := CountMissed(fs[i], s);
      assert fs[..i + 1][..i] == fs[..i];
      starved := starved + c;
    }
    assert fs[..|fs|] == fs;
    StarvedFew(fs, s);
  }
}
