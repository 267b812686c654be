// One night's dinners: each host maps to the set of families seated at its table, the
// `schedule[night]` dict of sets that schedule.py and schedule2.py build.  Python sets and dict
// keys compare families by email; within a roster whose emails are unique that is value
// equality of the records (Roster.SameFamilyIsEquality), so plain Dafny sets and maps are used.

module Dinners {
  import opened Roster
  import opened Sums

  type Night = map<Family, set<Family>>

  function SizeOf(f: Family): int
  {
    f.size
  }

  /** `sum(g.size for g in dinner)`: the seats a dinner takes. */
  ghost function Load(d: set<Family>): int
  {
    Sum(d, SizeOf)
  }

  lemma LoadNonNegative(d: set<Family>)
    ensures Load(d) >= 0
  {
    SumNonNegative(d, SizeOf);
  }

  lemma LoadAdd(d: set<Family>, g: Family)
    requires g !in d
    ensures Load(d + {g}) == Load(d) + g.size
  {
    SumAdd(d, SizeOf, g);
  }

  lemma LoadRemove(d: set<Family>, g: Family)
    requires g in d
    ensures Load(d - {g}) == Load(d) - g.size
  {
    SumRemove(d, SizeOf, g);
  }

  lemma LoadSingle(g: Family)
    ensures Load({g}) == g.size
  {
    LoadAdd({}, g);
    assert {} + {g} == {g};
  }

  /** The generator expression `sum(g.size for g in dinner)`, walked in set order. */
  method DinnerSize(d: set<Family>) returns (n: int)
    ensures n == Load(d)
  {
    n := 0;
    var rest := d;
    while rest != {}
      invariant rest <= d
      invariant n + Load(rest) == Load(d)
      decreases rest
    {
      var g :| g in rest;
      LoadRemove(rest, g);
      n := n + g.size;
      rest := rest - {g};
    }
  }

  /** The guest shares a repel tag with somebody already at the table. */
  predicate Clashes(g: Family, d: set<Family>)
  {
    exists o :: o in d && Repels(g, o)
  }

  /** The `for other in dinner: if guest.repel.intersection(other.repel): repel = True; break`
      scan. */
  method FindClash(g: Family, d: set<Family>) returns (repel: bool)
    ensures repel <==> Clashes(g, d)
  {
    repel := false;
    var rest := d;
    while rest != {}
      invariant rest <= d
      invariant !repel ==> forall o :: o in d - rest ==> !Repels(g, o)
      invariant repel ==> Clashes(g, d)
      decreases rest
    {
      var o :| o in rest;
      if Repels(g, o) {
        repel := true;
        break;
      }
      rest := rest - {o};
    }
  }

  /** No two different families at the table share a repel tag. */
  predicate RepelFree(d: set<Family>)
  {
    forall a, b :: a in d && b in d && a != b ==> !Repels(a, b)
  }

  lemma RepelFreeAdd(d: set<Family>, g: Family)
    requires RepelFree(d) && !Clashes(g, d)
    ensures RepelFree(d + {g})
  {
    forall a, b | a in d + {g} && b in d + {g} && a != b
      ensures !Repels(a, b)
    {
      if a == g {
        assert !Repels(g, b);
      } else if b == g {
        assert !Repels(g, a);
        RepelsSymmetric(a, g);
      }
    }
  }

  /** Every family seated anywhere tonight: the union of the tables (MembersAt). */
  ghost function Members(night: Night): set<Family>
    decreases |night.Keys|
  {
    if night.Keys == {} then {} else var h :| h in night; night[h] + Members(night - {h})
  }

  /** A family is seated tonight exactly when some table holds it. */
  lemma {:induction false} MembersAt(night: Night, g: Family)
    ensures g in Members(night) <==> exists h :: h in night && g in night[h]
    decreases |night.Keys|
  {
    if night.Keys != {} {
      var h :| h in night && Members(night) == night[h] + Members(night - {h});
      var rest := night - {h};
      assert rest.Keys == night.Keys - {h};
      MembersAt(rest, g);
      if g in Members(night) && g !in night[h] {
        var h' :| h' in rest && g in rest[h'];
        assert h' in night && g in night[h'];
      }
      if exists h' :: h' in night && g in night[h'] {
        var h' :| h' in night && g in night[h'];
        if h' != h {
          assert h' in rest && g in rest[h'];
        }
      }
    }
  }

  /** No family sits at two tables. */
  predicate Disjoint(night: Night)
  {
    forall h1, h2 :: h1 in night && h2 in night && h1 != h2 ==> night[h1] !! night[h2]
  }

  predicate NightRepelFree(night: Night)
  {
    forall h :: h in night ==> RepelFree(night[h])
  }

  /** No seated family other than the host is allergic to the host's home. */
  predicate AllergyFree(night: Night)
  {
    forall h, g :: h in night && g in night[h] && g != h ==> !Allergic(g, h)
  }

  /** Every table whose host fits in its own home holds no more people than it seats. */
  ghost predicate WithinSpace(night: Night)
  {
    forall h :: h in night && h.size <= h.space ==> Load(night[h]) <= h.space
  }

  /** Every host sits at its own table. */
  predicate HostsSeated(night: Night)
  {
    forall h :: h in night ==> h in night[h]
  }

  /** The hard constraints both schedulers keep through every step of a night. */
  ghost predicate Sound(night: Night)
  {
    Disjoint(night) && NightRepelFree(night) && WithinSpace(night)
  }

  /** `schedule[night][host] = {host}`: a new table with only its host. */
  function Open(night: Night, h: Family): (r: Night)
    requires h !in night
    ensures r.Keys == night.Keys + {h} && r[h] == {h}
    ensures forall h' :: h' in night ==> r[h'] == night[h']
    ensures Members(r) == Members(night) + {h}
  {
    var r := night[h := {h}];
    assert Members(r) == Members(night) + {h} by {
      forall x ensures x in Members(r) <==> x in Members(night) + {h} {
        MembersAt(r, x);
        MembersAt(night, x);
        if x in Members(r) && x != h {
          var h' :| h' in r && x in r[h'];
          assert h' != h && x in night[h'];
        }
        if x in Members(night) {
          var h' :| h' in night && x in night[h'];
          assert x in r[h'];
        }
        assert h in r[h];
      }
    }
    r
  }

  /** Opening a table for a family that sits nowhere keeps the night sound; the new table holds
      the host's own seats. */
  lemma OpenSound(night: Night, h: Family)
    requires h !in night && h !in Members(night) && Sound(night)
    ensures Sound(Open(night, h)) && Load(Open(night, h)[h]) == h.size
  {
    var r := Open(night, h);
    LoadSingle(h);
    MembersAt(night, h);
    forall h1, h2 | h1 in r && h2 in r && h1 != h2 ensures r[h1] !! r[h2] {
      if h1 == h {
        assert h !in night[h2];
      } else if h2 == h {
        assert h !in night[h1];
      }
    }
    assert RepelFree(r[h]);
  }

  /** Seat a family that sits nowhere yet at the host's table. */
  function Seat(night: Night, h: Family, g: Family): (r: Night)
    requires h in night
    ensures r.Keys == night.Keys && Members(r) == Members(night) + {g}
    ensures r[h] == night[h] + {g} && forall h' :: h' in night && h' != h ==> r[h'] == night[h']
  {
    var r := night[h := night[h] + {g}];
    assert Members(r) == Members(night) + {g} by {
      forall x ensures x in Members(r) <==> x in Members(night) + {g} {
        MembersAt(r, x);
        MembersAt(night, x);
        if x in Members(r) && x != g {
          var h' :| h' in r && x in r[h'];
          assert x in night[h'];
        }
        if x in Members(night) {
          var h' :| h' in night && x in night[h'];
          assert x in r[h'];
        }
        assert g in r[h];
      }
    }
    r
  }

  /** `to_dinner.add(guest); from_dinner.remove(guest)`: one family changes tables. */
  function Move(night: Night, from: Family, to: Family, g: Family): (r: Night)
    requires from in night && to in night && from != to && g in night[from]
    requires Disjoint(night)
    ensures r.Keys == night.Keys && Members(r) == Members(night)
    ensures r[from] == night[from] - {g} && r[to] == night[to] + {g}
    ensures forall h :: h in night && h != from && h != to ==> r[h] == night[h]
  {
    var r := night[from := night[from] - {g}][to := night[to] + {g}];
    assert Members(r) == Members(night) by {
      forall x ensures x in Members(r) <==> x in Members(night) {
        MembersAt(r, x);
        MembersAt(night, x);
        if x in Members(r) {
          var h' :| h' in r && x in r[h'];
          assert x in night[h'] || x in night[from];
        }
        if x in Members(night) {
          var h' :| h' in night && x in night[h'];
          if x == g {
            assert x in r[to];
          } else {
            assert x in r[h'];
          }
        }
      }
    }
    r
  }

  /** Seating a family nobody has seated, with room at the table and no repel clash, keeps the
      night sound and changes only that table's load. */
  lemma {:induction false} SeatSound(night: Night, h: Family, g: Family)
    requires h in night && Sound(night) && g !in Members(night)
    requires !Clashes(g, night[h])
    requires h.size <= h.space ==> Load(night[h]) + g.size <= h.space
    ensures Sound(Seat(night, h, g))
    ensures Load(Seat(night, h, g)[h]) == Load(night[h]) + g.size
  {
    var r := Seat(night, h, g);
    MembersAt(night, g);
    assert g !in night[h];
    LoadAdd(night[h], g);
    RepelFreeAdd(night[h], g);
    forall h1, h2 | h1 in r && h2 in r && h1 != h2 ensures r[h1] !! r[h2] {
      if h1 == h {
        assert g !in night[h2];
      } else if h2 == h {
        assert g !in night[h1];
      }
    }
  }

  /** Moving a family to another table, with room there and no repel clash, keeps the night
      sound; the receiving table gains its seats and the giving table loses them. */
  lemma {:induction false} MoveSound(night: Night, from: Family, to: Family, g: Family)
    requires from in night && to in night && from != to && g in night[from]
    requires Sound(night)
    requires !Clashes(g, night[to])
    requires to.size <= to.space ==> Load(night[to]) + g.size <= to.space
    ensures Sound(Move(night, from, to, g))
    ensures Load(Move(night, from, to, g)[to]) == Load(night[to]) + g.size
    ensures Load(Move(night, from, to, g)[from]) == Load(night[from]) - g.size
  {
    var r := Move(night, from, to, g);
    assert g !in night[to];
    LoadAdd(night[to], g);
    LoadRemove(night[from], g);
    RepelFreeAdd(night[to], g);
    assert RepelFree(night[from] - {g});
    assert Load(night[from]) - g.size <= Load(night[from]) by {
      LoadNonNegative({g});
      LoadSingle(g);
    }
    forall h1, h2 | h1 in r && h2 in r && h1 != h2 ensures r[h1] !! r[h2] {
      if h1 == to {
        assert g !in night[h2] || h2 == from;
      } else if h2 == to {
        assert g !in night[h1] || h1 == from;
      }
    }
  }

  lemma SeatAllergyFree(night: Night, h: Family, g: Family)
    requires h in night && AllergyFree(night)
    requires g != h ==> !Allergic(g, h)
    ensures AllergyFree(Seat(night, h, g))
  {
  }

  lemma MoveAllergyFree(night: Night, from: Family, to: Family, g: Family)
    requires from in night && to in night && from != to && g in night[from]
    requires Disjoint(night) && AllergyFree(night)
    requires g != to ==> !Allergic(g, to)
    ensures AllergyFree(Move(night, from, to, g))
  {
  }

  /** Moving anybody but the giving table's host keeps every host at its own table. */
  lemma MoveHostsSeated(night: Night, from: Family, to: Family, g: Family)
    requires from in night && to in night && from != to && g in night[from]
    requires Disjoint(night) && HostsSeated(night) && g != from
    ensures HostsSeated(Move(night, from, to, g))
  {
  }
}
