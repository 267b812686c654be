// score in schedule2.py and in schedule.py. Both walk every table of every night, keeping the
// dicts `host_counts` (hostings per family) and `meets` (everyone each family sits with, itself
// included) and the running `meals`; then they combine the tallies. The dict walks visit keys
// in whatever order; every tally is a sum or a union, so the order does not matter, and the
// walks below pick keys with `:|`. The specification functions read a schedule night by
// night from the end (Meals, Hosts, Met, ...).

module Scoring {
  import opened Roster
  import opened Sums
  import opened Dinners
  import opened Schedules

  /** `len(attendees)` for each table of the night; nothing for a family hosting none. */
  function Seated(night: Night): Family -> int
  {
    h => if h in night then |night[h]| else 0
  }

  /** One for each table of fewer than three families. */
  function Scant(night: Night): Family -> int
  {
    h => if h in night && |night[h]| < 3 then 1 else 0
  }

  /** `meals`: the families at all tables, counted by `len` table by table. */
  ghost function Meals(s: Schedule): int
  {
    if s == [] then 0 else Meals(s[..|s| - 1]) + Sum(s[|s| - 1].Keys, Seated(s[|s| - 1]))
  }

  /** The number of tables over all nights. */
  ghost function Tables(s: Schedule): int
  {
    if s == [] then 0 else Tables(s[..|s| - 1]) + |s[|s| - 1].Keys|
  }

  /** The tables of fewer than three families. */
  ghost function SmallTables(s: Schedule): int
  {
    if s == [] then 0 else SmallTables(s[..|s| - 1]) + Sum(s[|s| - 1].Keys, Scant(s[|s| - 1]))
  }

  /** The keys of `host_counts`: every family that hosts somewhere. */
  ghost function Hosts(s: Schedule): set<Family>
  {
    if s == [] then {} else Hosts(s[..|s| - 1]) + s[|s| - 1].Keys
  }

  /** Everyone f sits with at the tables of `night` held by `hosts`. */
  ghost function MetAt(night: Night, hosts: set<Family>, f: Family): set<Family>
  {
    set h, g | h in hosts && h in night && f in night[h] && g in night[h] :: g
  }

  /** Everyone at the tables of `night` held by `hosts`. */
  ghost function DinersAt(night: Night, hosts: set<Family>): set<Family>
  {
    set h, g | h in hosts && h in night && g in night[h] :: g
  }

  /** `meets[f]`: everyone f sits with over the schedule. */
  ghost function Met(s: Schedule, f: Family): set<Family>
  {
    if s == [] then {} else Met(s[..|s| - 1], f) + MetAt(s[|s| - 1], s[|s| - 1].Keys, f)
  }

  /** The keys of `meets`: everyone seated somewhere. */
  ghost function Diners(s: Schedule): set<Family>
  {
    if s == [] then {} else Diners(s[..|s| - 1]) + DinersAt(s[|s| - 1], s[|s| - 1].Keys)
  }

  /** The members of the group that share an acquaintance tag with f. */
  function Acquaintances(f: Family, group: set<Family>): set<Family>
  {
    set m | m in group && Acquainted(f, m)
  }

  /** A family's meeting term: one for each family it meets, less one for each it knows. */
  ghost function Mixing(s: Schedule): Family -> int
  {
    f => |Met(s, f)| - |Acquaintances(f, Met(s, f))|
  }

  /** The number of nights on which each family hosts, as a function. */
  ghost function Hostings(s: Schedule): Family -> int
  {
    h => HostNights(s, h)
  }

  /** schedule2.py's score: 128 per seated family, less 8 per table, plus the meeting terms. */
  ghost function Value2(s: Schedule): int
  {
    128 * Meals(s) - 8 * Tables(s) + Sum(Diners(s), Mixing(s))
  }

  /** schedule.py's score: schedule2.py's, less 512 per table of fewer than three families and
      32 times the most hostings of any family (which needs a host somewhere). */
  ghost function Value1(s: Schedule): int
    requires Hosts(s) != {}
  {
    Value2(s) - 512 * SmallTables(s) - 32 * Max(Hosts(s), Hostings(s))
  }

  // ---- facts about the specification -------------------------------------------------

  lemma Snoc(p: Schedule, night: Night)
    ensures (p + [night])[..|p|] == p && (p + [night])[|p|] == night && |p + [night]| == |p| + 1
  {
  }

  lemma HostNightsSnoc(p: Schedule, night: Night, h: Family)
    ensures HostNights(p + [night], h) == HostNights(p, h) + (if h in night then 1 else 0)
  {
    var s := p + [night];
    var before := set i | 0 <= i < |p| && h in p[i];
    var after := set i | 0 <= i < |s| && h in s[i];
    if h in night {
      assert after == before + {|p|};
    } else {
      assert after == before;
    }
  }

  /** `host_counts` has a key exactly for the families that host at least once. */
  lemma {:induction false} HostsCounted(s: Schedule, h: Family)
    ensures h in Hosts(s) <==> HostNights(s, h) > 0
    decreases |s|
  {
    if s != [] {
      var p, night := s[..|s| - 1], s[|s| - 1];
      assert s == p + [night];
      HostsCounted(p, h);
      HostNightsSnoc(p, night, h);
    }
  }

  /** The hostings of all hosts add up to the number of tables: `sum(host_counts.values())`
      is the number of dinners. */
  lemma {:induction false} HostingsTotal(s: Schedule)
    ensures Sum(Hosts(s), Hostings(s)) == Tables(s)
    decreases |s|
  {
    if s != [] {
      var p, night := s[..|s| - 1], s[|s| - 1];
      assert s == p + [night];
      var all := Hosts(s);
      var one: Family -> int := h => if h in night then 1 else 0;
      forall h | h in all ensures Hostings(s)(h) == Hostings(p)(h) + one(h) {
        HostNightsSnoc(p, night, h);
      }
      SumPlus(all, Hostings(p), one, Hostings(s));
      forall h | h in all && h !in Hosts(p) ensures Hostings(p)(h) == 0 {
        HostsCounted(p, h);
      }
      SumZeroBeyond(Hosts(p), all, Hostings(p));
      SumIndicator(all, night.Keys, one);
      HostingsTotal(p);
    }
  }

  lemma MetAtDiners(night: Night, hosts: set<Family>, f: Family)
    ensures f in DinersAt(night, hosts) <==> f in MetAt(night, hosts, f)
    ensures f !in DinersAt(night, hosts) ==> MetAt(night, hosts, f) == {}
  {
    if f in DinersAt(night, hosts) {
      var h :| h in hosts && h in night && f in night[h];
      assert f in MetAt(night, hosts, f);
    }
  }

  /** Every seated family meets itself (`meets[f]` starts as the table f sits at), and only
      seated families have meetings. */
  lemma {:induction false} MetDiners(s: Schedule, f: Family)
    ensures f in Diners(s) <==> f in Met(s, f)
    ensures f !in Diners(s) ==> Met(s, f) == {}
    decreases |s|
  {
    if s != [] {
      MetDiners(s[..|s| - 1], f);
      MetAtDiners(s[|s| - 1], s[|s| - 1].Keys, f);
    }
  }

  /** A schedule without a single table scores 0. */
  lemma {:induction false} ValueNoTables(s: Schedule)
    requires forall n :: 0 <= n < |s| ==> s[n] == map[]
    ensures Meals(s) == 0 && Tables(s) == 0 && Diners(s) == {} && Hosts(s) == {}
    ensures Value2(s) == 0
    decreases |s|
  {
    if s != [] {
      var p := s[..|s| - 1];
      ValueNoTables(p);
      assert s[|s| - 1].Keys == {};
      assert DinersAt(s[|s| - 1], {}) == {};
    }
  }

  lemma AcquaintancesFew(f: Family, group: set<Family>)
    ensures |Acquaintances(f, group)| <= |group|
  {
    var a := Acquaintances(f, group);
    assert group == a + (group - a);
  }

  /** The meeting terms never go negative: a family knows no one it does not meet. */
  lemma MixingNonNegative(s: Schedule)
    ensures Sum(Diners(s), Mixing(s)) >= 0
    ensures Value2(s) >= 128 * Meals(s) - 8 * Tables(s)
  {
    forall f | f in Diners(s) ensures Mixing(s)(f) >= 0 {
      AcquaintancesFew(f, Met(s, f));
    }
    SumNonNegative(Diners(s), Mixing(s));
  }

  lemma {:induction false} SmallTablesNonNegative(s: Schedule)
    ensures SmallTables(s) >= 0
    decreases |s|
  {
    if s != [] {
      SmallTablesNonNegative(s[..|s| - 1]);
      SumNonNegative(s[|s| - 1].Keys, Scant(s[|s| - 1]));
    }
  }

  /** schedule.py scores a schedule at least 32 below schedule2.py: somebody hosts at least
      once. */
  lemma Value1Below(s: Schedule)
    requires Hosts(s) != {}
    ensures Value1(s) <= Value2(s) - 32
  {
    var h :| h in Hosts(s);
    HostsCounted(s, h);
    MaxIsMax(Hosts(s), Hostings(s));
    SmallTablesNonNegative(s);
  }

  // ---- the tallying loops ----------------------------------------------------------------

  /** `host_counts` after the nights `p` and the tables of `night` held by `done`. */
  ghost predicate CountsTallied(p: Schedule, done: set<Family>, counts: map<Family, int>)
  {
    && counts.Keys == Hosts(p) + done
    && forall h :: h in counts ==> counts[h] == HostNights(p, h) + (if h in done then 1 else 0)
  }

  /** `meets` after the nights `p` and the tables of `night` held by `done`. */
  ghost predicate MeetsTallied(p: Schedule, night: Night, done: set<Family>, meets: map<Family, set<Family>>)
  {
    && meets.Keys == Diners(p) + DinersAt(night, done)
    && forall f :: f in meets ==> meets[f] == Met(p, f) + MetAt(night, done, f)
  }

  /** The tallies after the nights `p` and the tables of `night` held by `done`. */
  ghost predicate Tallied(p: Schedule, night: Night, done: set<Family>, small: int,
                          counts: map<Family, int>, meals: int, meets: map<Family, set<Family>>)
  {
    && small == SmallTables(p) + Sum(done, Scant(night))
    && meals == Meals(p) + Sum(done, Seated(night))
    && CountsTallied(p, done, counts)
    && MeetsTallied(p, night, done, meets)
  }

  /** `for family in attendees`: each member's `meets` entry gains the whole table. */
  method Mingle(meets: map<Family, set<Family>>, attendees: set<Family>) returns (meets': map<Family, set<Family>>)
    ensures meets'.Keys == meets.Keys + attendees
    ensures forall f :: f in meets' ==>
              meets'[f] == (if f in meets then meets[f] else {}) + (if f in attendees then attendees else {})
  {
    meets' := meets;
    var todo := attendees;
    while todo != {}
      invariant todo <= attendees
      invariant meets'.Keys == meets.Keys + (attendees - todo)
      invariant forall f :: f in meets' ==>
                  meets'[f] == (if f in meets then meets[f] else {}) + (if f in attendees && f !in todo then attendees else {})
      decreases todo
    {
      var family :| family in todo;
      if family !in meets' {
        meets' := meets'[family := attendees];
      } else {
        meets' := meets'[family := meets'[family] + attendees];
      }
      todo := todo - {family};
    }
  }

  lemma MetAtAdd(night: Night, done: set<Family>, host: Family, f: Family)
    requires host in night
    ensures MetAt(night, done + {host}, f) == MetAt(night, done, f) + (if f in night[host] then night[host] else {})
    ensures DinersAt(night, done + {host}) == DinersAt(night, done) + night[host]
  {
  }

  lemma CountsStep(p: Schedule, done: set<Family>, host: Family, counts: map<Family, int>)
    requires host !in done && CountsTallied(p, done, counts)
    ensures CountsTallied(p, done + {host}, counts[host := (if host in counts then counts[host] else 0) + 1])
  {
    HostsCounted(p, host);
  }

  lemma MeetsStep(p: Schedule, night: Night, done: set<Family>, host: Family,
                  meets: map<Family, set<Family>>, meets': map<Family, set<Family>>)
    requires host in night && MeetsTallied(p, night, done, meets)
    requires meets'.Keys == meets.Keys + night[host]
    requires forall f :: f in meets' ==>
               meets'[f] == (if f in meets then meets[f] else {}) + (if f in night[host] then night[host] else {})
    ensures MeetsTallied(p, night, done + {host}, meets')
  {
    forall f | f in meets' ensures meets'[f] == Met(p, f) + MetAt(night, done + {host}, f) {
      MetAtAdd(night, done, host, f);
      if f !in meets {
        MetDiners(p, f);
        MetAtDiners(night, done, f);
      }
    }
    MetAtAdd(night, done, host, host);
  }

  /** One table more keeps the tallies. */
  lemma TalliedStep(p: Schedule, night: Night, done: set<Family>, host: Family,
                    small: int, counts: map<Family, int>, meals: int, meets: map<Family, set<Family>>,
                    meets': map<Family, set<Family>>)
    requires host in night && host !in done
    requires Tallied(p, night, done, small, counts, meals, meets)
    requires meets'.Keys == meets.Keys + night[host]
    requires forall f :: f in meets' ==>
               meets'[f] == (if f in meets then meets[f] else {}) + (if f in night[host] then night[host] else {})
    ensures Tallied(p, night, done + {host},
                    small + (if |night[host]| < 3 then 1 else 0),
                    counts[host := (if host in counts then counts[host] else 0) + 1],
                    meals + |night[host]|, meets')
  {
    SumAdd(done, Scant(night), host);
    SumAdd(done, Seated(night), host);
    CountsStep(p, done, host, counts);
    MeetsStep(p, night, done, host, meets, meets');
  }

  lemma CountsNight(p: Schedule, night: Night, done: set<Family>, counts: map<Family, int>)
    requires done <= night.Keys && night.Keys - done == {} && CountsTallied(p, done, counts)
    ensures CountsTallied(p + [night], {}, counts)
  {
    KeysDone(night, done);
    Snoc(p, night);
    forall h | h in counts ensures counts[h] == HostNights(p + [night], h) {
      HostNightsSnoc(p, night, h);
    }
  }

  lemma MeetsNight(p: Schedule, night: Night, done: set<Family>, meets: map<Family, set<Family>>)
    requires done <= night.Keys && night.Keys - done == {} && MeetsTallied(p, night, done, meets)
    ensures MeetsTallied(p + [night], map[], {}, meets)
  {
    KeysDone(night, done);
    Snoc(p, night);
    assert DinersAt(map[], {}) == {};
    forall f | f in meets ensures meets[f] == Met(p + [night], f) + MetAt(map[], {}, f) {
      assert MetAt(map[], {}, f) == {};
    }
  }

  lemma KeysDone(night: Night, done: set<Family>)
    requires done <= night.Keys && night.Keys - done == {}
    ensures done == night.Keys
  {
    forall x | x in night.Keys ensures x in done {
      assert x !in night.Keys - done;
    }
  }

  lemma SumsNight(p: Schedule, night: Night, done: set<Family>, small: int, meals: int)
    requires done <= night.Keys && night.Keys - done == {}
    requires small == SmallTables(p) + Sum(done, Scant(night))
    requires meals == Meals(p) + Sum(done, Seated(night))
    ensures small == SmallTables(p + [night]) + Sum({}, Scant(map[]))
    ensures meals == Meals(p + [night]) + Sum({}, Seated(map[]))
  {
    KeysDone(night, done);
    Snoc(p, night);
  }

  /** A finished night joins the nights behind. */
  lemma TalliedNight(p: Schedule, night: Night, done: set<Family>, small: int, counts: map<Family, int>,
                     meals: int, meets: map<Family, set<Family>>)
    requires done <= night.Keys && night.Keys - done == {}
    requires Tallied(p, night, done, small, counts, meals, meets)
    ensures Tallied(p + [night], map[], {}, small, counts, meals, meets)
  {
    SumsNight(p, night, done, small, meals);
    CountsNight(p, night, done, counts);
    MeetsNight(p, night, done, meets);
  }

  /** A night not yet begun. */
  lemma TalliedStart(p: Schedule, night: Night, small: int, counts: map<Family, int>, meals: int,
                     meets: map<Family, set<Family>>)
    requires Tallied(p, map[], {}, small, counts, meals, meets)
    ensures Tallied(p, night, {}, small, counts, meals, meets)
  {
    assert DinersAt(night, {}) == {} == DinersAt(map[], {});
    forall f ensures MetAt(night, {}, f) == {} == MetAt(map[], {}, f) {
    }
  }

  /** The state of the walk over one night's tables: `todo` is what the iterator has left. */
  ghost predicate Walking(p: Schedule, night: Night, todo: set<Family>, done: set<Family>, small: int,
                          counts: map<Family, int>, meals: int, meets: map<Family, set<Family>>)
  {
    && todo == night.Keys - done && done <= night.Keys
    && Tallied(p, night, done, small, counts, meals, meets)
  }

  lemma WalkStep<T>(keys: set<T>, todo: set<T>, done: set<T>, x: T)
    requires todo == keys - done && done <= keys && x in todo
    ensures x in keys && x !in done && todo - {x} == keys - (done + {x}) && done + {x} <= keys
  {
  }

  /** The body of `for host, attendees in hosts.items()`: one table is tallied. */
  method TallyTable(ghost p: Schedule, night: Night, todo: set<Family>, ghost done: set<Family>, host: Family,
                    small: int, counts: map<Family, int>, meals: int, meets: map<Family, set<Family>>)
    returns (todo': set<Family>, ghost done': set<Family>,
             small': int, counts': map<Family, int>, meals': int, meets': map<Family, set<Family>>)
    requires host in todo && Walking(p, night, todo, done, small, counts, meals, meets)
    ensures todo' == todo - {host}
    ensures Walking(p, night, todo', done', small', counts', meals', meets')
  {
    var attendees := night[host];
    small' := small;
    if |attendees| < 3 {
      small' := small' + 1;
    }
    counts' := counts[host := (if host in counts then counts[host] else 0) + 1];
    meals' := meals + |attendees|;
    meets' := Mingle(meets, attendees);
    WalkStep(night.Keys, todo, done, host);
    TalliedStep(p, night, done, host, small, counts, meals, meets, meets');
    todo' := todo - {host};
    done' := done + {host};
  }

  /** `for host, attendees in hosts.items()` for one night. */
  method TallyNight(ghost p: Schedule, night: Night, small: int, counts: map<Family, int>, meals: int,
                    meets: map<Family, set<Family>>)
    returns (small': int, counts': map<Family, int>, meals': int, meets': map<Family, set<Family>>)
    requires Tallied(p, map[], {}, small, counts, meals, meets)
    ensures Tallied(p + [night], map[], {}, small', counts', meals', meets')
  {
    small', counts', meals', meets' := small, counts, meals, meets;
    TalliedStart(p, night, small, counts, meals, meets);
    var todo := night.Keys;
    ghost var done: set<Family> := {};
    while todo != {}
      invariant Walking(p, night, todo, done, small', counts', meals', meets')
      decreases todo
    {
      var host :| host in todo;
      todo, done, small', counts', meals', meets' := TallyTable(p, night, todo, done, host, small', counts', meals', meets');
    }
    TalliedNight(p, night, done, small', counts', meals', meets');
  }

  /** The loops of `score` over every table of every night. */
  method Tally(s: Schedule) returns (small: int, counts: map<Family, int>, meals: int, meets: map<Family, set<Family>>)
    ensures small == SmallTables(s) && meals == Meals(s)
    ensures counts.Keys == Hosts(s) && forall h :: h in counts ==> counts[h] == HostNights(s, h)
    ensures meets.Keys == Diners(s) && forall f :: f in meets ==> meets[f] == Met(s, f)
  {
    small, counts, meals, meets := 0, map[], 0, map[];
    assert DinersAt(map[], {}) == {};
    assert forall f :: MetAt(map[], {}, f) == {};
    for n := 0 to |s|
      invariant Tallied(s[..n], map[], {}, small, counts, meals, meets)
    {
      small, counts, meals, meets := TallyNight(s[..n], s[n], small, counts, meals, meets);
      assert s[..n + 1] == s[..n] + [s[n]];
    }
    assert s[..|s|] == s;
    assert forall f :: MetAt(map[], {}, f) == {};
  }

  /** A dict's values as a function. */
  function ValueOf(counts: map<Family, int>): Family -> int
  {
    h => if h in counts then counts[h] else 0
  }

  /** `sum(host_counts.values())`. */
  method SumValues(counts: map<Family, int>) returns (total: int)
    ensures total == Sum(counts.Keys, ValueOf(counts))
  {
    total := 0;
    var todo := counts.Keys;
    ghost var done: set<Family> := {};
    while todo != {}
      invariant todo == counts.Keys - done && done <= counts.Keys
      invariant total == Sum(done, ValueOf(counts))
      decreases todo
    {
      var h :| h in todo;
      SumAdd(done, ValueOf(counts), h);
      total := total + counts[h];
      todo := todo - {h};
      done := done + {h};
    }
    assert done == counts.Keys;
  }

  /** `max(host_counts.values())`, which raises on an empty dict. */
  method MaxValue(counts: map<Family, int>) returns (m: int)
    requires counts != map[]
    ensures forall h :: h in counts ==> counts[h] <= m
    ensures exists h :: h in counts && counts[h] == m
  {
    var first :| first in counts;
    m := counts[first];
    var todo := counts.Keys - {first};
    while todo != {}
      invariant todo <= counts.Keys && first !in todo
      invariant forall h :: h in counts && h !in todo ==> counts[h] <= m
      invariant exists h :: h in counts && counts[h] == m
      decreases todo
    {
      var h :| h in todo;
      if m < counts[h] {
        m := counts[h];
      }
      todo := todo - {h};
    }
  }

  /** `for match in meets[family]: if set(family.knows).intersection(match.knows)`. */
  method CountAcquainted(f: Family, group: set<Family>) returns (c: int)
    ensures c == |Acquaintances(f, group)|
  {
    c := 0;
    var todo := group;
    ghost var done: set<Family> := {};
    while todo != {}
      invariant todo == group - done && done <= group
      invariant c == |Acquaintances(f, done)|
      decreases todo
    {
      var m :| m in todo;
      if f.knows * m.knows != {} {
        assert Acquaintances(f, done + {m}) == Acquaintances(f, done) + {m};
        c := c + 1;
      } else {
        assert Acquaintances(f, done + {m}) == Acquaintances(f, done);
      }
      todo := todo - {m};
      done := done + {m};
    }
    assert done == group;
  }

  /** A family's meeting term read from the `meets` dict. */
  function MixOf(meets: map<Family, set<Family>>): Family -> int
  {
    f => if f in meets then |meets[f]| - |Acquaintances(f, meets[f])| else 0
  }

  /** The last loop of `score`: each family's meetings, less the ones it knows. */
  method AddMeetings(score: int, meets: map<Family, set<Family>>) returns (score': int)
    ensures score' == score + Sum(meets.Keys, MixOf(meets))
  {
    score' := score;
    var todo := meets.Keys;
    ghost var done: set<Family> := {};
    while todo != {}
      invariant todo == meets.Keys - done && done <= meets.Keys
      invariant score' == score + Sum(done, MixOf(meets))
      decreases todo
    {
      var family :| family in todo;
      SumAdd(done, MixOf(meets), family);
      score' := score' + |meets[family]|;
      var known := CountAcquainted(family, meets[family]);
      score' := score' - known;
      todo := todo - {family};
      done := done + {family};
    }
    assert done == meets.Keys;
  }

  /** The tallies, read back as the specification's terms. */
  lemma TallyTerms(s: Schedule, counts: map<Family, int>, meets: map<Family, set<Family>>)
    requires counts.Keys == Hosts(s) && forall h :: h in counts ==> counts[h] == HostNights(s, h)
    requires meets.Keys == Diners(s) && forall f :: f in meets ==> meets[f] == Met(s, f)
    ensures Sum(counts.Keys, ValueOf(counts)) == Tables(s)
    ensures Sum(meets.Keys, MixOf(meets)) == Sum(Diners(s), Mixing(s))
  {
    SumAgree(counts.Keys, ValueOf(counts), Hostings(s));
    HostingsTotal(s);
    SumAgree(meets.Keys, MixOf(meets), Mixing(s));
  }

  /** schedule2.py's score. */
  method Score2(s: Schedule) returns (score: int)
    ensures score == Value2(s)
  {
    var small, counts, meals, meets := Tally(s);
    TallyTerms(s, counts, meets);
    score := 0;
    score := score + 128 * meals;
    var hostings := SumValues(counts);
    score := score - 8 * hostings;
    score := AddMeetings(score, meets);
  }

  /** schedule.py's score; `max(host_counts.values())` needs at least one table. The -512
      terms, which the source subtracts table by table, are counted by Tally and subtracted
      together. */
  method Score1(s: Schedule) returns (score: int)
    requires Hosts(s) != {}
    ensures score == Value1(s)
  {
    var small, counts, meals, meets := Tally(s);
    TallyTerms(s, counts, meets);
    score := -512 * small;
    score := score + 128 * meals;
    var most := MaxValue(counts);
    MaxUnique(Hosts(s), Hostings(s), most);
    score := score - 32 * most;
    var hostings := SumValues(counts);
    score := score - 8 * hostings;
    score := AddMeetings(score, meets);
  }
}
