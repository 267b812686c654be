// A schedule: one Night per configured night, indexed by night number.

module Schedules {
  import opened Roster
  import opened Dinners
  import opened Shuffle

  type Schedule = seq<Night>

  /** The nights on which f hosts a dinner, i.e. the value `host_counts[f]` reaches. */
  function HostNights(s: Schedule, f: Family): nat
  {
    |set i | 0 <= i < |s| && f in s[i]|
  }

  /** Filling a night that was still empty adds one hosting for each of its hosts. */
  lemma HostNightsFill(s: Schedule, n: nat, night: Night, f: Family)
    requires n < |s| && s[n] == map[]
    ensures HostNights(s[n := night], f) == HostNights(s, f) + (if f in night then 1 else 0)
  {
    var before := set i | 0 <= i < |s| && f in s[i];
    var s' := s[n := night];
    var after := set i | 0 <= i < |s'| && f in s'[i];
    if f in night {
      assert after == before + {n};
    } else {
      assert after == before;
    }
  }

  /** `host_counts` after one more hosting for each of the given hosts. */
  function Bumped(counts: map<Family, nat>, hosts: set<Family>): (r: map<Family, nat>)
    ensures r.Keys == counts.Keys
    ensures forall f :: f in counts ==> r[f] == counts[f] + (if f in hosts then 1 else 0)
  {
    map f | f in counts :: counts[f] + (if f in hosts then 1 else 0)
  }

  /** A map that agrees with Bumped at every key is Bumped. */
  lemma BumpedPointwise(counts: map<Family, nat>, hosts: set<Family>, counts': map<Family, nat>)
    requires counts'.Keys == counts.Keys
    requires forall f :: f in counts ==> counts'[f] == counts[f] + (if f in hosts then 1 else 0)
    ensures counts' == Bumped(counts, hosts)
  {
  }

  /** Filling an empty night keeps `host_counts` equal to the nights each family hosts. */
  lemma CountsFill(schedule: Schedule, counts: map<Family, nat>, night: nat, dinners: Night, counts': map<Family, nat>)
    requires night < |schedule| && schedule[night] == map[]
    requires forall f :: f in counts ==> counts[f] == HostNights(schedule, f)
    requires counts' == Bumped(counts, dinners.Keys)
    ensures forall f :: f in counts' ==> counts'[f] == HostNights(schedule[night := dinners], f)
  {
    forall f | f in counts' ensures counts'[f] == HostNights(schedule[night := dinners], f) {
      HostNightsFill(schedule, night, dinners, f);
    }
  }

  /** Host counts depend only on which families hold tables on each night. */
  lemma HostNightsKeys(s: Schedule, t: Schedule, f: Family)
    requires |s| == |t| && forall n :: 0 <= n < |s| ==> s[n].Keys == t[n].Keys
    ensures HostNights(s, f) == HostNights(t, f)
  {
    assert (set i | 0 <= i < |s| && f in s[i]) == (set i | 0 <= i < |t| && f in t[i]);
  }

  /** The schedule with no dinner on any of its nights. */
  function EmptySchedule(nights: nat): (s: Schedule)
    ensures |s| == nights && forall i :: 0 <= i < nights ==> s[i] == map[]
  {
    seq(nights, _ => map[])
  }

  /** `list(range(n))`. */
  function Range(n: nat): (r: seq<nat>)
    ensures |r| == n && forall i :: 0 <= i < n ==> r[i] == i
    ensures forall x :: x in r ==> x < n
  {
    if n == 0 then [] else Range(n - 1) + [n - 1]
  }

  /** `nights = list(range(n)); random.shuffle(nights)` visits every night once. */
  lemma ShuffledRange(n: nat, rand: nat -> nat, k: nat, nights: seq<nat>)
    requires nights == Shuffled(Range(n), rand, k)
    ensures |nights| == n && Distinct(nights) && forall t :: 0 <= t < n ==> nights[t] < n
  {
    DistinctPermutation(Range(n), nights);
    forall t | 0 <= t < n ensures nights[t] < n {
      assert nights[t] in nights;
      ShuffledMembers(Range(n), rand, k, nights[t]);
    }
  }
}
