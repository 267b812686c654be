// saltshaker.py, generate_schedule: the prototype scheduler. A night is a dict from a host's
// email to the list of emails at its table, the host's first. Nights are visited in index
// order; before each the caller's family list is shuffled in place, every host that offers
// the night and is not yet seated scans the list in order, and the first candidate that is
// allergic to the home or repels somebody at the table ends that host's scan.

module Prototype {
  import opened Roster
  import opened Shuffle

  /** One night: a host's email to the emails at its table. */
  type Table = map<string, seq<string>>

  /** The first family in the list with the email: what the repel check's inner loop finds. */
  function ByEmail(fs: seq<Family>, e: string): (r: Option<Family>)
    ensures r.Some? ==> r.value in fs && r.value.email == e
    ensures r.None? ==> forall f :: f in fs ==> f.email != e
  {
    if fs == [] then None
    else if fs[0].email == e then Some(fs[0])
    else ByEmail(fs[1..], e)
  }

  /** With unique emails the lookup finds the family itself. */
  lemma ByEmailUnique(fs: seq<Family>, f: Family)
    requires UniqueEmails(fs) && f in fs
    ensures ByEmail(fs, f.email) == Some(f)
  {
    var r := ByEmail(fs, f.email);
    SameFamilyIsEquality(fs, r.value, f);
  }

  /** The family behind an email at a table. */
  function Who(fs: seq<Family>, e: string): Family
    requires ByEmail(fs, e).Some?
  {
    ByEmail(fs, e).value
  }

  /** `sum(g.size for g in families if g.email in dinner)`: the people at a table, counted
      through the family list. */
  function Listed(fs: seq<Family>, dinner: seq<string>): nat
  {
    if fs == [] then 0
    else (if fs[0].email in dinner then fs[0].size else 0) + Listed(fs[1..], dinner)
  }

  lemma {:induction false} ListedNone(fs: seq<Family>)
    ensures Listed(fs, []) == 0
  {
    if fs != [] {
      ListedNone(fs[1..]);
    }
  }

  /** Listing an email nobody in the list has changes nothing. */
  lemma {:induction false} ListedOthers(fs: seq<Family>, dinner: seq<string>, x: string)
    requires forall f :: f in fs ==> f.email != x
    ensures Listed(fs, dinner + [x]) == Listed(fs, dinner)
  {
    if fs != [] {
      assert fs[0].email in dinner + [x] <==> fs[0].email in dinner;
      ListedOthers(fs[1..], dinner, x);
    }
  }

  /** With unique emails, listing a family's email adds exactly its size. */
  lemma {:induction false} ListedAppend(fs: seq<Family>, dinner: seq<string>, g: Family)
    requires UniqueEmails(fs) && g in fs && g.email !in dinner
    ensures Listed(fs, dinner + [g.email]) == Listed(fs, dinner) + g.size
  {
    assert UniqueEmails(fs[1..]);
    if fs[0] == g {
      assert g.email in dinner + [g.email];
      forall f | f in fs[1..] ensures f.email != g.email {
        var i :| 1 <= i < |fs| && fs[i] == f;
      }
      ListedOthers(fs[1..], dinner, g.email);
    } else {
      var i :| 1 <= i < |fs| && fs[i] == g;
      assert fs[0].email != g.email;
      assert fs[0].email in dinner + [g.email] <==> fs[0].email in dinner;
      assert g in fs[1..] by { assert fs[1..][i - 1] == g; }
      ListedAppend(fs[1..], dinner, g);
    }
  }

  /** A table that holds only its host counts the host's size. */
  lemma ListedHost(fs: seq<Family>, h: Family)
    requires UniqueEmails(fs) && h in fs
    ensures Listed(fs, [h.email]) == h.size
  {
    ListedNone(fs);
    ListedAppend(fs, [], h);
    assert [] + [h.email] == [h.email];
  }

  /** `host.host_nights[night]`. */
  predicate Offers(f: Family, night: nat)
  {
    night < |f.hostNights| && f.hostNights[night]
  }

  /** The repel loop's verdict: somebody at the table shares a repel tag with the family. */
  predicate Unwelcome(fs: seq<Family>, g: Family, dinner: seq<string>)
  {
    exists p :: 0 <= p < |dinner| && ByEmail(fs, dinner[p]).Some? && Repels(g, ByEmail(fs, dinner[p]).value)
  }

  /** One table as the prototype builds it, read through that night's family list: it starts
      with its host, who offers the night; no email is listed twice; the listed people fit the
      host's space; every guest attends, is not allergic to the home, and shares no repel tag
      with anybody listed before it, the host included. */
  ghost predicate Dinner(fs: seq<Family>, night: nat, e: string, dinner: seq<string>)
  {
    && |dinner| >= 1 && dinner[0] == e && Distinct(dinner)
    && (forall x :: x in dinner ==> ByEmail(fs, x).Some?)
    && Offers(Who(fs, e), night)
    && Listed(fs, dinner) <= Who(fs, e).space
    && (forall q :: 1 <= q < |dinner| ==>
          Attends(Who(fs, dinner[q]), night) && !Allergic(Who(fs, dinner[q]), Who(fs, e)))
    && (forall p, q :: 0 <= p < q < |dinner| ==> !Repels(Who(fs, dinner[q]), Who(fs, dinner[p])))
  }

  /** No email is a guest at two tables. */
  ghost predicate GuestsOnce(t: Table)
  {
    forall e1, e2, q1, q2 :: e1 in t && e2 in t && e1 != e2 && 1 <= q1 < |t[e1]| && 1 <= q2 < |t[e2]|
      ==> t[e1][q1] != t[e2][q2]
  }

  /** What the prototype promises about one night. */
  ghost predicate Served(fs: seq<Family>, night: nat, t: Table)
  {
    (forall e :: e in t ==> Dinner(fs, night, e, t[e])) && GuestsOnce(t)
  }

  /** A night under construction: every guest so far is in `taken`, the source's `assigned` set. */
  ghost predicate Serving(fs: seq<Family>, night: nat, t: Table, taken: set<string>)
  {
    && Served(fs, night, t)
    && forall e, q :: e in t && 1 <= q < |t[e]| ==> t[e][q] in taken
  }

  /** Opening a table that holds only its host. */
  lemma OpenKeeps(fs: seq<Family>, night: nat, t: Table, taken: set<string>, h: Family)
    requires UniqueEmails(fs) && h in fs && Offers(h, night) && h.size <= h.space && h.email !in t
    requires Serving(fs, night, t, taken)
    ensures Serving(fs, night, t[h.email := [h.email]], taken)
  {
    ByEmailUnique(fs, h);
    ListedHost(fs, h);
    var t' := t[h.email := [h.email]];
    assert Dinner(fs, night, h.email, [h.email]);
    forall e | e in t' ensures Dinner(fs, night, e, t'[e]) {
      if e != h.email {
        assert Dinner(fs, night, e, t[e]);
      }
    }
  }

  /** Appending a guest that passed every check of the scan keeps the table well built. */
  lemma DinnerAppend(fs: seq<Family>, night: nat, d: seq<string>, taken: set<string>, h: Family, g: Family)
    requires UniqueEmails(fs) && h in fs && g in fs && h.email != g.email
    requires Dinner(fs, night, h.email, d) && forall q :: 1 <= q < |d| ==> d[q] in taken
    requires Attends(g, night) && g.email !in taken && !Allergic(g, h)
    requires Listed(fs, d) + g.size <= h.space
    requires !Unwelcome(fs, g, d)
    ensures Dinner(fs, night, h.email, d + [g.email])
  {
    var d' := d + [g.email];
    ByEmailUnique(fs, h);
    ByEmailUnique(fs, g);
    assert g.email !in d by {
      forall q | 0 <= q < |d| ensures d[q] != g.email {
        if q >= 1 {
          assert d[q] in taken;
        }
      }
    }
    ListedAppend(fs, d, g);
    forall p, q | 0 <= p < q < |d'| ensures !Repels(Who(fs, d'[q]), Who(fs, d'[p])) {
      if q == |d| {
        assert d'[p] == d[p];
      }
    }
  }

  /** A guest nobody has taken yet can join any table without sitting twice. */
  lemma GuestsOnceAppend(t: Table, taken: set<string>, e: string, x: string)
    requires GuestsOnce(t) && e in t && x !in taken
    requires forall e, q :: e in t && 1 <= q < |t[e]| ==> t[e][q] in taken
    ensures GuestsOnce(t[e := t[e] + [x]])
  {
    var t' := t[e := t[e] + [x]];
    forall e1, e2, q1, q2 | e1 in t' && e2 in t' && e1 != e2 && 1 <= q1 < |t'[e1]| && 1 <= q2 < |t'[e2]|
      ensures t'[e1][q1] != t'[e2][q2]
    {
      if e1 == e && q1 == |t[e]| {
        assert t'[e2][q2] in taken;
      } else if e2 == e && q2 == |t[e]| {
        assert t'[e1][q1] in taken;
      }
    }
  }

  /** Replacing one table by a well-built one whose guests are all taken keeps the night. */
  lemma ServingPut(fs: seq<Family>, night: nat, t: Table, taken: set<string>, taken': set<string>, e: string, d: seq<string>)
    requires Serving(fs, night, t, taken) && taken <= taken'
    requires Dinner(fs, night, e, d) && GuestsOnce(t[e := d])
    requires forall q :: 1 <= q < |d| ==> d[q] in taken'
    ensures Serving(fs, night, t[e := d], taken')
  {
    var t' := t[e := d];
    forall e' | e' in t' ensures Dinner(fs, night, e', t'[e']) {
      if e' != e {
        assert Dinner(fs, night, e', t[e']);
      }
    }
  }

  /** Appending a guest that passed every check of the scan keeps the night. */
  lemma AppendKeeps(fs: seq<Family>, night: nat, t: Table, taken: set<string>, h: Family, g: Family)
    requires UniqueEmails(fs) && h in fs && g in fs && h.email != g.email && h.email in t
    requires Serving(fs, night, t, taken)
    requires Attends(g, night) && g.email !in taken && !Allergic(g, h)
    requires Listed(fs, t[h.email]) + g.size <= h.space
    requires !Unwelcome(fs, g, t[h.email])
    ensures Serving(fs, night, t[h.email := t[h.email] + [g.email]], taken + {g.email} + {h.email})
  {
    var d := t[h.email];
    assert Dinner(fs, night, h.email, d);
    DinnerAppend(fs, night, d, taken, h, g);
    GuestsOnceAppend(t, taken, h.email, g.email);
    ServingPut(fs, night, t, taken, taken + {g.email} + {h.email}, h.email, d + [g.email]);
  }

  /** Seating a guest keeps the night, takes exactly its size from the room left, grows the
      host's table, and holds both the guest and the host. */
  lemma SeatKeeps(fs: seq<Family>, night: nat, t: Table, taken: set<string>, h: Family, g: Family)
    requires UniqueEmails(fs) && h in fs && g in fs && h.email != g.email && h.email in t
    requires Serving(fs, night, t, taken)
    requires Attends(g, night) && g.email !in taken && !Allergic(g, h)
    requires Listed(fs, t[h.email]) + g.size <= h.space
    requires !Unwelcome(fs, g, t[h.email])
    ensures Serving(fs, night, t[h.email := t[h.email] + [g.email]], taken + {g.email} + {h.email})
    ensures Grown(t, t[h.email := t[h.email] + [g.email]])
    ensures RoomAt(fs, t[h.email := t[h.email] + [g.email]], h) == RoomAt(fs, t, h) - g.size
    ensures Held(t[h.email := t[h.email] + [g.email]], g.email)
    ensures Held(t[h.email := t[h.email] + [g.email]], h.email)
  {
    var d := t[h.email];
    var t' := t[h.email := d + [g.email]];
    assert g.email !in d by {
      assert Dinner(fs, night, h.email, d);
      forall q | 1 <= q < |d| ensures d[q] != g.email {
        assert d[q] in taken;
      }
    }
    ListedAppend(fs, d, g);
    AppendKeeps(fs, night, t, taken, h, g);
    assert t'[h.email][|d|] == g.email;
    assert t'[h.email][..|d|] == d;
  }

  /** The inner lookup loop, which stops at the first family with the email. */
  method Lookup(fs: seq<Family>, e: string) returns (guest: Family)
    requires ByEmail(fs, e).Some?
    ensures guest == ByEmail(fs, e).value
  {
    var i := 0;
    while fs[i].email != e
      invariant 0 <= i < |fs| && ByEmail(fs[i..], e) == ByEmail(fs, e)
      decreases |fs| - i
    {
      assert fs[i..][1..] == fs[i + 1..];
      i := i + 1;
    }
    guest := fs[i];
  }

  /** The repel loop: every email at the table is looked up and its repel tags compared with
      the candidate's; the loop does not stop at the first clash. */
  method RepelScan(fs: seq<Family>, family: Family, dinner: seq<string>) returns (repel: bool)
    requires forall x :: x in dinner ==> ByEmail(fs, x).Some?
    ensures repel <==> Unwelcome(fs, family, dinner)
  {
    repel := false;
    for p := 0 to |dinner|
      invariant repel <==> exists q :: 0 <= q < p && ByEmail(fs, dinner[q]).Some? && Repels(family, ByEmail(fs, dinner[q]).value)
    {
      var guest := Lookup(fs, dinner[p]);
      if family.repel * guest.repel != {} {
        repel := true;
      }
    }
  }

  /** What ends a host's scan at family j: a candidate with room at the (now open) table that
      is allergic to the home or shares a repel tag with somebody there. */
  ghost predicate Refusal(fs: seq<Family>, night: nat, i: nat, j: nat, t: Table, taken: set<string>)
    requires i < |fs| && j < |fs|
  {
    Blocked(fs, night, i, j, t) && fs[j].email !in taken
  }

  /** Family j attends, fits the room left at host i's open table, and is allergic to the
      home or repelled by somebody already listed there. */
  ghost predicate Blocked(fs: seq<Family>, night: nat, i: nat, j: nat, t: Table)
    requires i < |fs| && j < |fs|
  {
    && Attends(fs[j], night) && j != i
    && fs[i].email in t && fs[j].size <= fs[i].space - Listed(fs, t[fs[i].email])
    && (Allergic(fs[j], fs[i]) || Unwelcome(fs, fs[j], t[fs[i].email]))
  }

  /** At most the table under key `e` changed, or was added. */
  predicate Touched(t: Table, t': Table, e: string)
  {
    t' == t || (e in t' && t' == t[e := t'[e]])
  }

  lemma TouchedTwice(t: Table, t': Table, t'': Table, e: string)
    requires Touched(t, t', e) && Touched(t', t'', e)
    ensures Touched(t, t'', e)
  {
    if t' != t && t'' != t' {
      assert t'' == t[e := t''[e]];
    }
  }

  /** The host's table: the one listed, or the host alone when it is not open yet. */
  function TableOf(t: Table, h: Family): seq<string>
  {
    if h.email in t then t[h.email] else [h.email]
  }

  /** `host_capacity`: the host's space less its own size before its table opens, and less
      everybody listed at the table afterwards. */
  function RoomAt(fs: seq<Family>, t: Table, h: Family): int
  {
    if h.email !in t then h.space - h.size else h.space - Listed(fs, t[h.email])
  }

  /** The scan of host i may seat family j: it attends, is not the host, and sits nowhere yet. */
  predicate Candidate(fs: seq<Family>, night: nat, i: nat, j: nat, taken: set<string>)
    requires i < |fs| && j < |fs|
  {
    Attends(fs[j], night) && j != i && fs[j].email !in taken
  }

  /** Family j is allergic to host i's home, or shares a repel tag with somebody at its table. */
  predicate Rejects(fs: seq<Family>, i: nat, j: nat, t: Table)
    requires i < |fs| && j < |fs|
  {
    Allergic(fs[j], fs[i]) || Unwelcome(fs, fs[j], TableOf(t, fs[i]))
  }

  /** The email sits at a table of the night: as a guest, or as a host with a guest. */
  ghost predicate Held(t: Table, e: string)
  {
    exists k, q :: k in t && 1 <= q < |t[k]| && (t[k][q] == e || k == e)
  }

  /** Every table of `t` is still there in `t'`, possibly with more emails at its end. */
  ghost predicate Grown(t: Table, t': Table)
  {
    forall k :: k in t ==> k in t' && |t[k]| <= |t'[k]| && t'[k][..|t[k]|] == t[k]
  }

  lemma GrownTwice(t: Table, t': Table, t'': Table)
    requires Grown(t, t') && Grown(t', t'')
    ensures Grown(t, t'')
  {
    forall k | k in t ensures k in t'' && |t[k]| <= |t''[k]| && t''[k][..|t[k]|] == t[k] {
      assert t''[k][..|t'[k]|][..|t[k]|] == t''[k][..|t[k]|];
    }
  }

  lemma HeldGrown(t: Table, t': Table, e: string)
    requires Grown(t, t') && Held(t, e)
    ensures Held(t', e)
  {
    var k, q :| k in t && 1 <= q < |t[k]| && (t[k][q] == e || k == e);
    assert t'[k][..|t[k]|][q] == t'[k][q];
  }

  /** One turn of the host's scan, as the source decides it: family j is passed over unless it
      is a candidate that fits the room left; a fitting candidate that is allergic or repelled
      ends the scan, with the host's table open; any other is seated, and it and the host
      count as assigned. The result is the table map, the assigned emails, and whether the
      scan stops. */
  function OfferSpec(fs: seq<Family>, night: nat, i: nat, j: nat, t: Table, taken: set<string>)
    : (Table, set<string>, bool)
    requires i < |fs| && j < |fs|
  {
    if !(Candidate(fs, night, i, j, taken) && fs[j].size <= RoomAt(fs, t, fs[i])) then (t, taken, false)
    else if Rejects(fs, i, j, t) then (t[fs[i].email := TableOf(t, fs[i])], taken, true)
    else (t[fs[i].email := TableOf(t, fs[i]) + [fs[j].email]], taken + {fs[j].email} + {fs[i].email}, false)
  }

  /** What one offer keeps: the night stays well built, only the host's table changes and only
      grows, the room left never grows, every newly assigned email is at a table, and a stop
      is a refusal. */
  ghost predicate OfferKept(fs: seq<Family>, night: nat, i: nat, j: nat, t: Table, taken: set<string>,
                            t': Table, taken': set<string>, stopped: bool)
    requires i < |fs| && j < |fs|
  {
    && Serving(fs, night, t', taken') && taken <= taken'
    && Touched(t, t', fs[i].email) && Grown(t, t')
    && RoomAt(fs, t', fs[i]) <= RoomAt(fs, t, fs[i])
    && (forall e :: e in taken' && e !in taken ==> Held(t', e))
    && (stopped ==> taken' == taken && Refusal(fs, night, i, j, t', taken'))
  }

  /** Opening the host's table, as a fitting candidate is considered. */
  lemma OpenedKeeps(fs: seq<Family>, night: nat, i: nat, t: Table, taken: set<string>)
    requires UniqueEmails(fs) && i < |fs| && Offers(fs[i], night) && Serving(fs, night, t, taken)
    requires RoomAt(fs, t, fs[i]) >= 0
    ensures Serving(fs, night, t[fs[i].email := TableOf(t, fs[i])], taken)
    ensures Grown(t, t[fs[i].email := TableOf(t, fs[i])])
    ensures RoomAt(fs, t[fs[i].email := TableOf(t, fs[i])], fs[i]) == RoomAt(fs, t, fs[i])
  {
    var h := fs[i];
    assert h in fs;
    if h.email !in t {
      OpenKeeps(fs, night, t, taken, h);
      ListedHost(fs, h);
    } else {
      assert t[h.email := TableOf(t, h)] == t;
    }
  }

  /** A refusal opens the host's table and changes nothing else. */
  lemma RefuseKeeps(fs: seq<Family>, night: nat, i: nat, j: nat, t: Table, taken: set<string>)
    requires UniqueEmails(fs) && i < |fs| && j < |fs|
    requires Offers(fs[i], night) && Serving(fs, night, t, taken)
    requires Candidate(fs, night, i, j, taken) && fs[j].size <= RoomAt(fs, t, fs[i]) && Rejects(fs, i, j, t)
    ensures OfferKept(fs, night, i, j, t, taken, t[fs[i].email := TableOf(t, fs[i])], taken, true)
  {
    OpenedKeeps(fs, night, i, t, taken);
  }

  /** Seating a fitting candidate that nothing rejects. */
  lemma SeatCase(fs: seq<Family>, night: nat, i: nat, j: nat, t: Table, taken: set<string>)
    requires UniqueEmails(fs) && i < |fs| && j < |fs|
    requires Offers(fs[i], night) && Serving(fs, night, t, taken)
    requires Candidate(fs, night, i, j, taken) && fs[j].size <= RoomAt(fs, t, fs[i]) && !Rejects(fs, i, j, t)
    ensures OfferKept(fs, night, i, j, t, taken, t[fs[i].email := TableOf(t, fs[i]) + [fs[j].email]],
                      taken + {fs[j].email} + {fs[i].email}, false)
  {
    var h, g := fs[i], fs[j];
    assert h in fs && g in fs;
    OpenedKeeps(fs, night, i, t, taken);
    var t1 := t[h.email := TableOf(t, h)];
    assert t1[h.email] == TableOf(t, h);
    assert h.email != g.email;
    SeatKeeps(fs, night, t1, taken, h, g);
    GrownTwice(t, t1, t1[h.email := t1[h.email] + [g.email]]);
    UpdateTwice(t, h.email, TableOf(t, h), TableOf(t, h) + [g.email]);
    var t2 := t[h.email := TableOf(t, h) + [g.email]];
    assert t2[h.email][|TableOf(t, h)|] == g.email;
    assert Held(t2, g.email) && Held(t2, h.email);
    KeptOf(fs, night, i, j, t, taken, t2, taken + {g.email} + {h.email});
  }

  /** OfferKept for a turn that did not stop, from its parts. */
  lemma KeptOf(fs: seq<Family>, night: nat, i: nat, j: nat, t: Table, taken: set<string>, t': Table, taken': set<string>)
    requires i < |fs| && j < |fs|
    requires Serving(fs, night, t', taken') && taken <= taken'
    requires Touched(t, t', fs[i].email) && Grown(t, t') && RoomAt(fs, t', fs[i]) <= RoomAt(fs, t, fs[i])
    requires forall e :: e in taken' && e !in taken ==> Held(t', e)
    ensures OfferKept(fs, night, i, j, t, taken, t', taken', false)
  {
  }

  lemma UpdateTwice(t: Table, k: string, v: seq<string>, w: seq<string>)
    ensures t[k := v][k := w] == t[k := w]
  {
  }

  lemma OfferKeeps(fs: seq<Family>, night: nat, i: nat, j: nat, t: Table, taken: set<string>)
    requires UniqueEmails(fs) && i < |fs| && j < |fs|
    requires Offers(fs[i], night) && Serving(fs, night, t, taken)
    ensures var r := OfferSpec(fs, night, i, j, t, taken); OfferKept(fs, night, i, j, t, taken, r.0, r.1, r.2)
  {
    if Candidate(fs, night, i, j, taken) && fs[j].size <= RoomAt(fs, t, fs[i]) {
      if Rejects(fs, i, j, t) {
        RefuseKeeps(fs, night, i, j, t, taken);
      } else {
        SeatCase(fs, night, i, j, t, taken);
      }
    }
  }

  /** Every email at the host's table, open or about to be, names a family of the list. */
  lemma TableFound(fs: seq<Family>, night: nat, t: Table, taken: set<string>, h: Family)
    requires UniqueEmails(fs) && h in fs && Serving(fs, night, t, taken)
    ensures forall x :: x in TableOf(t, h) ==> ByEmail(fs, x).Some?
  {
    if h.email in t {
      assert Dinner(fs, night, h.email, t[h.email]);
    } else {
      ByEmailUnique(fs, h);
    }
  }

  /** One turn of the host's scan: family j is offered a seat at host i's table. */
  method Offer(fs: seq<Family>, night: nat, i: nat, j: nat, t: Table, taken: set<string>)
    returns (t': Table, taken': set<string>, stopped: bool)
    requires UniqueEmails(fs) && i < |fs| && j < |fs| && night < |fs[j].attendNights|
    requires Offers(fs[i], night) && Serving(fs, night, t, taken)
    ensures (t', taken', stopped) == OfferSpec(fs, night, i, j, t, taken)
    ensures OfferKept(fs, night, i, j, t, taken, t', taken', stopped)
  {
    OfferKeeps(fs, night, i, j, t, taken);
    t', taken', stopped := t, taken, false;
    var host, family := fs[i], fs[j];
    if family.attendNights[night] && j != i && family.email !in taken {
      var room := if host.email !in t then host.space - host.size else host.space - Listed(fs, t[host.email]);
      if room >= family.size {
        var dinner := if host.email in t then t[host.email] else [host.email];
        if family.allergies * host.allergens != {} {
          t', stopped := t[host.email := dinner], true;
        } else {
          assert host in fs;
          TableFound(fs, night, t, taken, host);
          var repel := RepelScan(fs, family, dinner);
          if repel {
            t', stopped := t[host.email := dinner], true;
          } else {
            t' := t[host.email := dinner + [family.email]];
            taken' := taken + {family.email} + {host.email};
          }
        }
      }
    }
  }

  /** Every candidate among the first n families that is still unassigned did not fit the
      room left at host i's table. */
  ghost predicate Skipped(fs: seq<Family>, night: nat, i: nat, n: nat, t: Table, taken: set<string>)
    requires i < |fs| && n <= |fs|
  {
    forall k :: 0 <= k < n && Candidate(fs, night, i, k, taken) ==> fs[k].size > RoomAt(fs, t, fs[i])
  }

  lemma SkippedMore(fs: seq<Family>, night: nat, i: nat, n: nat, t: Table, taken: set<string>,
                    t': Table, taken': set<string>)
    requires i < |fs| && n <= |fs| && Skipped(fs, night, i, n, t, taken)
    requires taken <= taken' && RoomAt(fs, t', fs[i]) <= RoomAt(fs, t, fs[i])
    ensures Skipped(fs, night, i, n, t', taken')
  {
    forall k | 0 <= k < n && Candidate(fs, night, i, k, taken') ensures fs[k].size > RoomAt(fs, t', fs[i]) {
      assert Candidate(fs, night, i, k, taken);
    }
  }

  /** An offer that does not stop the scan passes family j over only if it did not fit. */
  lemma SkippedStep(fs: seq<Family>, night: nat, i: nat, j: nat, t: Table, taken: set<string>)
    requires UniqueEmails(fs) && i < |fs| && j < |fs|
    requires Offers(fs[i], night) && Serving(fs, night, t, taken) && Skipped(fs, night, i, j, t, taken)
    ensures var r := OfferSpec(fs, night, i, j, t, taken);
              Skipped(fs, night, i, if r.2 then j else j + 1, r.0, r.1)
  {
    var r := OfferSpec(fs, night, i, j, t, taken);
    OfferKeeps(fs, night, i, j, t, taken);
    SkippedMore(fs, night, i, j, t, taken, r.0, r.1);
    if !r.2 {
      forall k | 0 <= k < j + 1 && Candidate(fs, night, i, k, r.1) ensures fs[k].size > RoomAt(fs, r.0, fs[i]) {
        if k == j {
          assert Candidate(fs, night, i, k, taken);
        }
      }
    }
  }

  /** `for family in families` for host i; a `break` ends the loop, which here is the
      `!stopped` conjunct of the guard. The scan stops at `stop`, the first refused candidate,
      or runs to the end of the list; every candidate before it that is still unassigned did
      not fit. */
  method HostScan(fs: seq<Family>, night: nat, i: nat, t: Table, taken: set<string>)
    returns (t': Table, taken': set<string>, ghost stop: nat)
    requires UniqueEmails(fs) && i < |fs| && forall f :: f in fs ==> night < |f.attendNights|
    requires Offers(fs[i], night) && Serving(fs, night, t, taken)
    ensures Serving(fs, night, t', taken') && taken <= taken'
    ensures Touched(t, t', fs[i].email) && Grown(t, t')
    ensures forall e :: e in taken' && e !in taken ==> Held(t', e)
    ensures stop <= |fs| && (stop < |fs| ==> Refusal(fs, night, i, stop, t', taken'))
    ensures Skipped(fs, night, i, stop, t', taken')
  {
    t', taken' := t, taken;
    stop := |fs|;
    var j, stopped := 0, false;
    while j < |fs| && !stopped
      invariant j <= |fs|
      invariant Serving(fs, night, t', taken') && taken <= taken'
      invariant Touched(t, t', fs[i].email) && Grown(t, t')
      invariant forall e :: e in taken' && e !in taken ==> Held(t', e)
      invariant stopped ==> stop < |fs| && Refusal(fs, night, i, stop, t', taken')
      invariant !stopped ==> stop == |fs|
      invariant Skipped(fs, night, i, if stopped then stop else j, t', taken')
    {
      assert fs[j] in fs;
      ghost var before, beforeTaken := t', taken';
      SkippedStep(fs, night, i, j, t', taken');
      t', taken', stopped := Offer(fs, night, i, j, t', taken');
      TouchedTwice(t, before, t', fs[i].email);
      GrownTwice(t, before, t');
      forall e | e in taken' && e !in taken ensures Held(t', e) {
        if e in beforeTaken {
          HeldGrown(before, t', e);
        }
      }
      if stopped {
        stop := j;
      }
      j := j + 1;
    }
  }

  /** Host k's scan, seen from later in the night: it offers the night, every candidate before
      its stop that is still unassigned did not fit, and the family it stopped at is blocked by
      the table as it stands. */
  ghost predicate Scanned(fs: seq<Family>, night: nat, k: nat, n: nat, t: Table, taken: set<string>)
    requires k < |fs| && n <= |fs|
  {
    Offers(fs[k], night) && Skipped(fs, night, k, n, t, taken) && (n < |fs| ==> Blocked(fs, night, k, n, t))
  }

  /** Another host's scan leaves host k's table, and so what was found about its scan, alone. */
  lemma ScannedElsewhere(fs: seq<Family>, night: nat, k: nat, n: nat, t: Table, taken: set<string>,
                         t': Table, taken': set<string>, e: string)
    requires k < |fs| && n <= |fs| && Scanned(fs, night, k, n, t, taken)
    requires Touched(t, t', e) && e != fs[k].email && taken <= taken'
    ensures Scanned(fs, night, k, n, t', taken')
  {
    var h := fs[k].email;
    assert (h in t' <==> h in t) && (h in t ==> t'[h] == t[h]);
    SkippedMore(fs, night, k, n, t, taken, t', taken');
  }

  /** The night after hosts 0 .. i-1 had their turn; `stops` maps each host that scanned to
      where its scan stopped. */
  ghost predicate NightSoFar(fs: seq<Family>, night: nat, i: nat, t: Table, taken: set<string>, stops: map<nat, nat>)
    requires i <= |fs|
  {
    && Serving(fs, night, t, taken)
    && (forall e :: e in taken ==> Held(t, e))
    && (forall j :: i <= j < |fs| ==> fs[j].email !in t)
    && (forall k :: 0 <= k < i && Offers(fs[k], night) && fs[k].email !in taken ==> k in stops)
    && (forall k :: k in stops ==> k < i && stops[k] <= |fs| && Scanned(fs, night, k, stops[k], t, taken))
  }

  /** Host i scanned the list. */
  lemma NightScan(fs: seq<Family>, night: nat, i: nat, t: Table, taken: set<string>, stops: map<nat, nat>,
                  t': Table, taken': set<string>, stop: nat)
    requires UniqueEmails(fs) && i < |fs| && NightSoFar(fs, night, i, t, taken, stops)
    requires Offers(fs[i], night) && fs[i].email !in taken
    requires Serving(fs, night, t', taken') && taken <= taken'
    requires Touched(t, t', fs[i].email) && Grown(t, t')
    requires forall e :: e in taken' && e !in taken ==> Held(t', e)
    requires stop <= |fs| && (stop < |fs| ==> Refusal(fs, night, i, stop, t', taken'))
    requires Skipped(fs, night, i, stop, t', taken')
    ensures NightSoFar(fs, night, i + 1, t', taken', stops[i := stop])
  {
    var e := fs[i].email;
    forall x | x in taken' ensures Held(t', x) {
      if x in taken {
        HeldGrown(t, t', x);
      }
    }
    forall j | i + 1 <= j < |fs| ensures fs[j].email !in t' {
      assert fs[j].email != e;
    }
    StopsKept(fs, night, i, t, taken, stops, t', taken', stop);
  }

  /** Host i's scan joins the record, and the earlier hosts' scans stay as they were found. */
  lemma StopsKept(fs: seq<Family>, night: nat, i: nat, t: Table, taken: set<string>, stops: map<nat, nat>,
                  t': Table, taken': set<string>, stop: nat)
    requires UniqueEmails(fs) && i < |fs| && Offers(fs[i], night)
    requires forall k :: k in stops ==> k < i && stops[k] <= |fs| && Scanned(fs, night, k, stops[k], t, taken)
    requires Touched(t, t', fs[i].email) && taken <= taken'
    requires stop <= |fs| && (stop < |fs| ==> Refusal(fs, night, i, stop, t', taken'))
    requires Skipped(fs, night, i, stop, t', taken')
    ensures var stops' := stops[i := stop];
              forall k :: k in stops' ==> k < i + 1 && stops'[k] <= |fs| && Scanned(fs, night, k, stops'[k], t', taken')
  {
    var stops' := stops[i := stop];
    forall k | k in stops' ensures k < i + 1 && stops'[k] <= |fs| && Scanned(fs, night, k, stops'[k], t', taken')
    {
      if k != i {
        assert fs[k].email != fs[i].email;
        ScannedElsewhere(fs, night, k, stops[k], t, taken, t', taken', fs[i].email);
      }
    }
  }

  /** One night: every family that offers the night and sits nowhere yet scans the list. The
      night is well built, and every host that offers the night and is not assigned in the end
      had its scan, which passed over only families that did not fit and stopped, if at all,
      at one that was refused. `seated` is the source's `assigned` set at the end of the night. */
  method ServeNight(fs: seq<Family>, night: nat) returns (t: Table, ghost seated: set<string>, ghost stops: map<nat, nat>)
    requires UniqueEmails(fs)
    requires forall f :: f in fs ==> night < |f.attendNights| && night < |f.hostNights|
    ensures Served(fs, night, t)
    ensures forall e :: e in seated ==> Held(t, e)
    ensures forall e, q :: e in t && 1 <= q < |t[e]| ==> t[e][q] in seated
    ensures forall k :: 0 <= k < |fs| && Offers(fs[k], night) && fs[k].email !in seated ==> k in stops
    ensures forall k :: k in stops ==> k < |fs| && stops[k] <= |fs| && Scanned(fs, night, k, stops[k], t, seated)
  {
    t := map[];
    var taken: set<string> := {};
    stops := map[];
    for i := 0 to |fs|
      invariant NightSoFar(fs, night, i, t, taken, stops)
    {
      var host := fs[i];
      assert host in fs;
      if host.hostNights[night] && host.email !in taken {
        ghost var stop, before, beforeTaken;
        before, beforeTaken := t, taken;
        t, taken, stop := HostScan(fs, night, i, t, taken);
        NightScan(fs, night, i, before, beforeTaken, stops, t, taken, stop);
        stops := stops[i := stop];
      }
    }
    seated := taken;
  }

  /** The prototype's generate_schedule: one table map per night, in night order, each built
      from the family list as shuffled for that night (`orders`). */
  method GenerateSchedule(a: array<Family>, rand: nat -> nat, k: nat)
    returns (nights: seq<Table>, ghost orders: seq<seq<Family>>, k': nat)
    modifies a
    requires WellFormed(a[..])
    ensures multiset(a[..]) == multiset(old(a[..]))
    ensures |nights| == |orders| == NightCount(old(a[..]))
    ensures forall n :: 0 <= n < |nights| ==>
              multiset(orders[n]) == multiset(old(a[..])) && Served(orders[n], n, nights[n])
    ensures k <= k'
  {
    var count := |a[0].attendNights|;
    nights := seq(count, _ => map[]);
    orders := seq(count, _ => []);
    k' := k;
    for night := 0 to count
      invariant multiset(a[..]) == multiset(old(a[..]))
      invariant |nights| == |orders| == count
      invariant forall n :: 0 <= n < night ==>
                  multiset(orders[n]) == multiset(old(a[..])) && Served(orders[n], n, nights[n])
      invariant k <= k'
    {
      k' := ShuffleInPlace(a, rand, k');
      WellFormedPermutation(old(a[..]), a[..]);
      var t, seated, stops := ServeNight(a[..], night);
      nights := nights[night := t];
      orders := orders[night := a[..]];
    }
  }
}
