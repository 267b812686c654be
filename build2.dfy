// schedule2.py, generate_schedule: the night-by-night builder with a repair phase.
//
// Each phase of one night is a method of its own; NightBuild runs them in the source's order
// and GenerateSchedule runs NightBuild over the nights in shuffled order.  The random module is
// the draw stream `rand` read from position k (see Shuffle).

module Build2 {
  import opened Roster
  import opened Dinners
  import opened Schedules
  import opened Shuffle

  /** The families that want a seat on night n, in roster order. */
  function Attending(fs: seq<Family>, n: nat): (r: seq<Family>)
    requires forall f :: f in fs ==> n < |f.attendNights|
    ensures forall f :: f in r <==> f in fs && f.attendNights[n]
    ensures Distinct(fs) ==> Distinct(r)
    decreases |fs|
  {
    if fs == [] then []
    else
      var init := Attending(fs[..|fs| - 1], n);
      var last := fs[|fs| - 1];
      assert fs == fs[..|fs| - 1] + [last];
      assert Distinct(fs) ==> last !in fs[..|fs| - 1] && Distinct(fs[..|fs| - 1]);
      if last.attendNights[n] then init + [last] else init
  }

  /** The seats a list of families takes. */
  function Seats(fs: seq<Family>): int
  {
    if fs == [] then 0 else Seats(fs[..|fs| - 1]) + fs[|fs| - 1].size
  }

  /** The first loop of a night: the families attending and the seats they need. */
  method FamiliesTonight(families: seq<Family>, night: nat) returns (tonight: seq<Family>, needed: int)
    requires forall f :: f in families ==> night < |f.attendNights|
    ensures tonight == Attending(families, night)
    ensures needed == Seats(tonight)
  {
    tonight, needed := [], 0;
    for i := 0 to |families|
      invariant tonight == Attending(families[..i], night)
      invariant needed == Seats(tonight)
    {
      var f := families[i];
      assert families[..i + 1][..i] == families[..i] && families[..i + 1][i] == f;
      assert Attending(families[..i + 1], night) ==
             if f.attendNights[night] then tonight + [f] else tonight;
      if f.attendNights[night] {
        assert (tonight + [f])[..|tonight|] == tonight;
        assert Seats(tonight + [f]) == Seats(tonight) + f.size;
        tonight := tonight + [f];
        needed := needed + f.size;
      }
    }
    assert families[..|families|] == families;
  }

  /** A family may open a dinner on the night: it can host then and is below its host limit. */
  predicate Eligible(f: Family, night: nat, counts: map<Family, nat>)
    requires f in counts && night < |f.hostNights|
  {
    f.hostNights[night] && BelowLimit(f, counts[f])
  }

  /** The eligible families among the first j of the night's list, in its order: the hosts the
      selection loop has opened once it has looked at j families. */
  function OpenedUpTo(tonight: seq<Family>, j: nat, night: nat, counts: map<Family, nat>): seq<Family>
    requires j <= |tonight|
    requires forall f :: f in tonight ==> f in counts && night < |f.hostNights|
  {
    if j == 0 then []
    else
      var last := tonight[j - 1];
      OpenedUpTo(tonight, j - 1, night, counts) + if Eligible(last, night, counts) then [last] else []
  }

  /** The seats those hosts offer, i.e. how far `needed_seats` has come down. */
  function OfferedUpTo(tonight: seq<Family>, j: nat, night: nat, counts: map<Family, nat>): int
    requires j <= |tonight|
    requires forall f :: f in tonight ==> f in counts && night < |f.hostNights|
  {
    if j == 0 then 0
    else
      var last := tonight[j - 1];
      OfferedUpTo(tonight, j - 1, night, counts) + if Eligible(last, night, counts) then last.space else 0
  }

  /** The hosts opened so far are the eligible families looked at, each once. */
  lemma {:induction false} OpenedMembers(tonight: seq<Family>, j: nat, night: nat, counts: map<Family, nat>)
    requires j <= |tonight| && Distinct(tonight)
    requires forall f :: f in tonight ==> f in counts && night < |f.hostNights|
    ensures forall f :: f in OpenedUpTo(tonight, j, night, counts)
                        <==> f in tonight[..j] && Eligible(f, night, counts)
    ensures Distinct(OpenedUpTo(tonight, j, night, counts))
  {
    if j > 0 {
      OpenedMembers(tonight, j - 1, night, counts);
      assert tonight[..j] == tonight[..j - 1] + [tonight[j - 1]];
      assert tonight[j - 1] !in tonight[..j - 1];
    }
  }

  /** A fresh dinner for each host, holding only the host. */
  function Singletons(hosts: set<Family>): (r: Night)
    ensures r.Keys == hosts && forall h :: h in r ==> r[h] == {h}
  {
    map h | h in hosts :: {h}
  }

  /** A family is looked at once, so it has not been opened before its turn. */
  lemma NotYetOpened(tonight: seq<Family>, i: nat, night: nat, counts: map<Family, nat>)
    requires i < |tonight| && Distinct(tonight)
    requires forall f :: f in tonight ==> f in counts && night < |f.hostNights|
    ensures tonight[i] !in OpenedUpTo(tonight, i, night, counts)
  {
    OpenedMembers(tonight, i, night, counts);
    assert tonight[i] !in tonight[..i];
  }

  /** The state of the host-selection loop after looking at i families: the hosts opened are
      the eligible ones among them, `left` is what `needed_seats` has come down to, it was still
      positive after every earlier family, and each host has a fresh dinner and a bumped count. */
  ghost predicate Opening(tonight: seq<Family>, night: nat, counts: map<Family, nat>, needed: int, i: nat,
                          hosts: seq<Family>, dinners: Night, seated: set<Family>, counts': map<Family, nat>, left: int)
    requires forall f :: f in tonight ==> f in counts && night < |f.hostNights|
  {
    && i <= |tonight|
    && hosts == OpenedUpTo(tonight, i, night, counts)
    && left == needed - OfferedUpTo(tonight, i, night, counts)
    && (forall j :: 0 < j < i ==> OfferedUpTo(tonight, j, night, counts) < needed)
    && (forall h :: h in seated <==> h in hosts)
    && dinners.Keys == seated && (forall h :: h in dinners ==> dinners[h] == {h})
    && counts'.Keys == counts.Keys
    && (forall f :: f in counts ==> counts'[f] == counts[f] + (if f in seated then 1 else 0))
  }

  /** A pass that opens the family's dinner keeps Opening: the family's test against the
      running counts is its eligibility as the night began, since it has not been opened before. */
  lemma OpenAdd(tonight: seq<Family>, night: nat, counts: map<Family, nat>, needed: int, i: nat,
                hosts: seq<Family>, dinners: Night, seated: set<Family>, counts': map<Family, nat>, left: int)
    requires Distinct(tonight) && forall f :: f in tonight ==> f in counts && night < |f.hostNights|
    requires i < |tonight| && (i == 0 || 0 < left)
    requires Opening(tonight, night, counts, needed, i, hosts, dinners, seated, counts', left)
    requires tonight[i].hostNights[night] && BelowLimit(tonight[i], counts'[tonight[i]])
    ensures Opening(tonight, night, counts, needed, i + 1, hosts + [tonight[i]], dinners[tonight[i] := {tonight[i]}],
                    seated + {tonight[i]}, counts'[tonight[i] := counts'[tonight[i]] + 1], left - tonight[i].space)
  {
    NotYetOpened(tonight, i, night, counts);
  }

  /** A pass that opens nothing keeps Opening: the family is not eligible. */
  lemma OpenSkip(tonight: seq<Family>, night: nat, counts: map<Family, nat>, needed: int, i: nat,
                 hosts: seq<Family>, dinners: Night, seated: set<Family>, counts': map<Family, nat>, left: int)
    requires Distinct(tonight) && forall f :: f in tonight ==> f in counts && night < |f.hostNights|
    requires i < |tonight| && (i == 0 || 0 < left)
    requires Opening(tonight, night, counts, needed, i, hosts, dinners, seated, counts', left)
    requires !(tonight[i].hostNights[night] && BelowLimit(tonight[i], counts'[tonight[i]]))
    ensures Opening(tonight, night, counts, needed, i + 1, hosts, dinners, seated, counts', left)
  {
    NotYetOpened(tonight, i, night, counts);
  }

  /** Once the loop is over, the dinners are the hosts' singletons and the counts are bumped. */
  lemma OpenedAll(tonight: seq<Family>, night: nat, counts: map<Family, nat>, needed: int, i: nat,
                  hosts: seq<Family>, dinners: Night, seated: set<Family>, counts': map<Family, nat>, left: int)
    requires forall f :: f in tonight ==> f in counts && night < |f.hostNights|
    requires Opening(tonight, night, counts, needed, i, hosts, dinners, seated, counts', left)
    ensures dinners == Singletons(seated) && counts' == Bumped(counts, seated)
  {
  }

  /** The host-selection loop: walk the shuffled families, open a dinner for each eligible one,
      and stop as soon as the hosts opened so far offer the seats needed. */
  method OpenHosts(tonight: seq<Family>, night: nat, counts: map<Family, nat>, needed: int)
    returns (hosts: seq<Family>, dinners: Night, seated: set<Family>, counts': map<Family, nat>,
             ghost scanned: nat)
    requires Distinct(tonight)
    requires forall f :: f in tonight ==> f in counts && night < |f.hostNights|
    ensures scanned <= |tonight| && hosts == OpenedUpTo(tonight, scanned, night, counts)
    ensures scanned == |tonight| || (0 < scanned && OfferedUpTo(tonight, scanned, night, counts) >= needed)
    ensures forall j :: 0 < j < scanned ==> OfferedUpTo(tonight, j, night, counts) < needed
    ensures Distinct(hosts) && forall h :: h in hosts ==> h in tonight && Eligible(h, night, counts)
    ensures forall h :: h in seated <==> h in hosts
    ensures dinners == Singletons(seated) && counts' == Bumped(counts, seated)
  {
    hosts, dinners, seated, counts' := [], map[], {}, counts;
    var left := needed;
    var i := 0;
    // `if 0 >= needed_seats: break` at the end of each pass is the second conjunct of the guard
    while i < |tonight| && (i == 0 || 0 < left)
      invariant Opening(tonight, night, counts, needed, i, hosts, dinners, seated, counts', left)
    {
      var host := tonight[i];
      if host.hostNights[night] && BelowLimit(host, counts'[host]) {
        OpenAdd(tonight, night, counts, needed, i, hosts, dinners, seated, counts', left);
        hosts := hosts + [host];
        dinners := dinners[host := {host}];
        seated := seated + {host};
        counts' := counts'[host := counts'[host] + 1];
        left := left - host.space;
      } else {
        OpenSkip(tonight, night, counts, needed, i, hosts, dinners, seated, counts', left);
      }
      i := i + 1;
    }
    OpenedAll(tonight, night, counts, needed, i, hosts, dinners, seated, counts', left);
    scanned := i;
    OpenedMembers(tonight, scanned, night, counts);
  }

  /** Why a family left unseated is not at h's table: allergic to the home, too big for the
      seats left, or repelled by somebody already there. */
  ghost predicate Turned(night: Night, h: Family, g: Family)
    requires h in night
  {
    Allergic(g, h) || h.space - Load(night[h]) < g.size || Clashes(g, night[h])
  }

  /** The state of SeatAt's loop after the first j families of the night: only the host's
      table has changed, the night stays sound and allergy-free, whoever was newly seated attends,
      `cap` is the room left, and every family passed over so far was turned away. */
  ghost predicate SeatingAt(tonight: seq<Family>, host: Family, dinners: Night, seated: set<Family>,
                            j: nat, cur: Night, seated': set<Family>, cap: int)
  {
    && j <= |tonight| && host in dinners && cur.Keys == dinners.Keys
    && (forall h :: h in dinners && h != host ==> cur[h] == dinners[h])
    && host in cur[host]
    && Sound(cur) && AllergyFree(cur) && Members(cur) == seated'
    && seated <= seated' && (forall g :: g in seated' - seated ==> g in tonight)
    && cap == host.space - Load(cur[host])
    && (forall g :: g in tonight[..j] && g !in seated' ==> Turned(cur, host, g))
  }

  /** Passing over a family that is seated already or that the table turns away keeps SeatingAt. */
  lemma SeatingSkip(tonight: seq<Family>, host: Family, dinners: Night, seated: set<Family>,
                    j: nat, cur: Night, seated': set<Family>, cap: int)
    requires j < |tonight| && SeatingAt(tonight, host, dinners, seated, j, cur, seated', cap)
    requires tonight[j] in seated' || Turned(cur, host, tonight[j])
    ensures SeatingAt(tonight, host, dinners, seated, j + 1, cur, seated', cap)
  {
    assert tonight[..j + 1] == tonight[..j] + [tonight[j]];
  }

  /** Seating a family that fits and clashes with nobody keeps SeatingAt. */
  lemma SeatingSeat(tonight: seq<Family>, host: Family, dinners: Night, seated: set<Family>,
                    j: nat, cur: Night, seated': set<Family>, cap: int)
    requires j < |tonight| && SeatingAt(tonight, host, dinners, seated, j, cur, seated', cap)
    requires tonight[j] !in seated' && !Allergic(tonight[j], host) && tonight[j].size <= cap
    requires !Clashes(tonight[j], cur[host])
    ensures SeatingAt(tonight, host, dinners, seated, j + 1, Seat(cur, host, tonight[j]),
                      seated' + {tonight[j]}, cap - tonight[j].size)
  {
    var guest := tonight[j];
    assert tonight[..j + 1] == tonight[..j] + [guest];
    SeatSound(cur, host, guest);
    SeatAllergyFree(cur, host, guest);
    var cur' := Seat(cur, host, guest);
    forall g | g in tonight[..j + 1] && g !in seated' + {guest} ensures Turned(cur', host, g) {
      assert Turned(cur, host, g);
      if Clashes(g, cur[host]) {
        var o :| o in cur[host] && Repels(g, o);
        assert o in cur'[host];
      }
    }
  }

  /** The guest loop for one freshly opened host: seat every family not yet seated that is not
      allergic to the home, fits the seats left and clashes with nobody already there. */
  method SeatAt(tonight: seq<Family>, host: Family, dinners: Night, seated: set<Family>)
    returns (dinners': Night, seated': set<Family>)
    requires host in dinners && dinners[host] == {host}
    requires Sound(dinners) && AllergyFree(dinners) && Members(dinners) == seated
    ensures dinners'.Keys == dinners.Keys
    ensures forall h :: h in dinners && h != host ==> dinners'[h] == dinners[h]
    ensures host in dinners'[host]
    ensures Sound(dinners') && AllergyFree(dinners') && Members(dinners') == seated'
    ensures seated <= seated' && forall g :: g in seated' - seated ==> g in tonight
    ensures forall g :: g in tonight && g !in seated' ==> Turned(dinners', host, g)
  {
    LoadSingle(host);
    var cap := host.space - host.size;
    dinners', seated' := dinners, seated;
    for j := 0 to |tonight|
      invariant SeatingAt(tonight, host, dinners, seated, j, dinners', seated', cap)
    {
      var guest := tonight[j];
      if guest in seated' || Allergic(guest, host) || cap < guest.size {
        SeatingSkip(tonight, host, dinners, seated, j, dinners', seated', cap);
        continue;
      }
      var repel := FindClash(guest, dinners'[host]);
      if repel {
        SeatingSkip(tonight, host, dinners, seated, j, dinners', seated', cap);
        continue;
      }
      SeatingSeat(tonight, host, dinners, seated, j, dinners', seated', cap);
      dinners' := Seat(dinners', host, guest);
      seated' := seated' + {guest};
      cap := cap - guest.size;
    }
    assert tonight[..|tonight|] == tonight;
  }

  /** The dinners right after the hosts are opened keep every hard constraint. */
  lemma SingletonsSound(seated: set<Family>)
    ensures Sound(Singletons(seated)) && AllergyFree(Singletons(seated))
    ensures HostsSeated(Singletons(seated)) && Members(Singletons(seated)) == seated
  {
    var d := Singletons(seated);
    assert forall h, g :: h in d && g in d[h] ==> g == h;
    assert WithinSpace(d) by {
      forall h | h in d ensures Load(d[h]) == h.size {
        LoadSingle(h);
      }
    }
    assert Disjoint(d) by {
      forall h1, h2 | h1 in d && h2 in d && h1 != h2 ensures d[h1] !! d[h2] {
        assert d[h1] == {h1} && d[h2] == {h2};
      }
    }
    assert NightRepelFree(d) by {
      forall h | h in d ensures RepelFree(d[h]) {
        assert d[h] == {h};
      }
    }
    assert Members(d) == seated by {
      forall x ensures x in Members(d) <==> x in seated {
        MembersAt(d, x);
        if x in seated {
          assert x in d[x];
        }
      }
    }
  }

  /** Seating guests at one table keeps every host at its own table. */
  lemma SeatAtKeepsHosts(before: Night, after: Night, host: Family)
    requires HostsSeated(before) && after.Keys == before.Keys && host in before && host in after[host]
    requires forall h :: h in before && h != host ==> after[h] == before[h]
    ensures HostsSeated(after)
  {
    forall h | h in after ensures h in after[h] {
      if h != host { assert h in before[h]; }
    }
  }

  /** The guest pass after the first `i` hosts: the later hosts still sit alone, and the
      night is as sound as the pass promises. */
  ghost predicate Seating(tonight: seq<Family>, hosts: seq<Family>, keys: set<Family>, i: nat,
                          dinners: Night, seated: set<Family>)
  {
    && i <= |hosts| && dinners.Keys == keys
    && (forall j :: i <= j < |hosts| ==> hosts[j] in dinners && dinners[hosts[j]] == {hosts[j]})
    && HostsSeated(dinners) && Sound(dinners) && AllergyFree(dinners) && Members(dinners) == seated
    && forall g :: g in seated ==> g in tonight || g in hosts
  }

  /** Every family of the night still unseated was turned away by each of the first `i` hosts,
      judged by their tables as they stand. */
  ghost predicate TurnedBy(tonight: seq<Family>, hosts: seq<Family>, i: nat, dinners: Night, seated: set<Family>)
    requires i <= |hosts|
  {
    forall j, g :: 0 <= j < i && g in tonight && g !in seated ==> hosts[j] in dinners && Turned(dinners, hosts[j], g)
  }

  /** The guest pass at the next host. */
  method SeatNext(tonight: seq<Family>, hosts: seq<Family>, keys: set<Family>, i: nat,
                  dinners: Night, seated: set<Family>)
    returns (dinners': Night, seated': set<Family>)
    requires Distinct(hosts) && i < |hosts| && Seating(tonight, hosts, keys, i, dinners, seated)
    requires TurnedBy(tonight, hosts, i, dinners, seated)
    ensures Seating(tonight, hosts, keys, i + 1, dinners', seated')
    ensures TurnedBy(tonight, hosts, i + 1, dinners', seated')
  {
    var host := hosts[i];
    dinners', seated' := SeatAt(tonight, host, dinners, seated);
    SeatAtKeepsHosts(dinners, dinners', host);
    forall j | i + 1 <= j < |hosts| ensures hosts[j] in dinners' && dinners'[hosts[j]] == {hosts[j]} {
      assert hosts[j] != host;
    }
    forall j, g | 0 <= j < i + 1 && g in tonight && g !in seated'
      ensures hosts[j] in dinners' && Turned(dinners', hosts[j], g)
    {
      if j < i {
        assert hosts[j] != host && g !in seated;
        assert Turned(dinners, hosts[j], g);
      }
    }
  }

  /** The guest pass over every host opened tonight, in the order they were opened. */
  method SeatGuests(tonight: seq<Family>, hosts: seq<Family>, dinners: Night, seated: set<Family>)
    returns (dinners': Night, seated': set<Family>)
    requires Distinct(hosts) && (forall h :: h in seated <==> h in hosts)
    requires dinners == Singletons(seated)
    ensures dinners'.Keys == dinners.Keys && HostsSeated(dinners')
    ensures Sound(dinners') && AllergyFree(dinners') && Members(dinners') == seated'
    ensures forall g :: g in seated' ==> g in tonight || g in hosts
    ensures forall h, g :: h in hosts && g in tonight && g !in seated' ==> h in dinners' && Turned(dinners', h, g)
  {
    SingletonsSound(seated);
    dinners', seated' := dinners, seated;
    for i := 0 to |hosts|
      invariant Seating(tonight, hosts, dinners.Keys, i, dinners', seated')
      invariant TurnedBy(tonight, hosts, i, dinners', seated')
    {
      dinners', seated' := SeatNext(tonight, hosts, dinners.Keys, i, dinners', seated');
    }
    forall h, g | h in hosts && g in tonight && g !in seated' ensures h in dinners' && Turned(dinners', h, g) {
      var j :| 0 <= j < |hosts| && hosts[j] == h;
    }
  }

  /** The families of the night that the guest pass left without a seat. */
  method Unassigned(tonight: seq<Family>, seated: set<Family>) returns (unassigned: set<Family>)
    ensures forall g :: g in unassigned <==> g in tonight && g !in seated
  {
    unassigned := {};
    for i := 0 to |tonight|
      invariant forall g :: g in unassigned <==> g in tonight[..i] && g !in seated
    {
      assert tonight[..i + 1] == tonight[..i] + [tonight[i]];
      if tonight[i] !in seated {
        unassigned := unassigned + {tonight[i]};
      }
    }
    assert tonight[..|tonight|] == tonight;
  }

  /** Split the dinners, in the order they were opened, into `full_dinners` (no seat left) and
      `fill_dinners` (any other number of seats left, negative included). */
  method Classify(hosts: seq<Family>, dinners: Night) returns (full: seq<Family>, fill: seq<Family>)
    requires Distinct(hosts) && forall h :: h in hosts ==> h in dinners
    ensures forall h :: h in full <==> h in hosts && Load(dinners[h]) == h.space
    ensures forall h :: h in fill <==> h in hosts && Load(dinners[h]) != h.space
    ensures Distinct(full) && Distinct(fill)
  {
    full, fill := [], [];
    for i := 0 to |hosts|
      invariant forall h :: h in full <==> h in hosts[..i] && Load(dinners[h]) == h.space
      invariant forall h :: h in fill <==> h in hosts[..i] && Load(dinners[h]) != h.space
      invariant Distinct(full) && Distinct(fill)
    {
      var host := hosts[i];
      assert hosts[..i + 1] == hosts[..i] + [host];
      assert host !in hosts[..i];
      var size := DinnerSize(dinners[host]);
      var extra := host.space - size;
      if 0 == extra {
        full := full + [host];
      } else {
        fill := fill + [host];
      }
    }
    assert hosts[..|hosts|] == hosts;
  }
  /** Why packing leaves family g where it is rather than moving it to `to_host`'s table: it is
      allergic to that home, too big for the `cap` seats left there, or repelled by somebody
      at that table. */
  predicate StaysPut(g: Family, toHost: Family, cap: int, to: set<Family>)
  {
    Allergic(g, toHost) || cap < g.size || Clashes(g, to)
  }

  /** A reason to stay put survives the receiving table shrinking its room and gaining people. */
  lemma StaysPutMore(g: Family, toHost: Family, cap: int, to: set<Family>, cap': int, to': set<Family>)
    requires StaysPut(g, toHost, cap, to) && cap' <= cap && to <= to'
    ensures StaysPut(g, toHost, cap', to')
  {
    if Clashes(g, to) {
      var o :| o in to && Repels(g, o);
      assert o in to';
    }
  }

  /** Every family at `f`'s table `after` was already there `before` and stays put against
      `to_host`'s table as it is after, with `cap` seats left. */
  ghost predicate PackedFrom(before: Night, after: Night, f: Family, toHost: Family, cap: int)
  {
    && f in before && f in after && toHost in after
    && forall g :: g in after[f] ==> g in before[f] && StaysPut(g, toHost, cap, after[toHost])
  }

  /** Packing, innermost pass: move every family of `from_host`'s table that fits, is not
      allergic and clashes with nobody to `to_host`'s table, until that table is exactly full. */
  method PackFrom(dinners: Night, fill: seq<Family>, toHost: Family, fromHost: Family, toCap: int)
    returns (dinners': Night, fill': seq<Family>, toCap': int)
    requires toHost in fill && fromHost in fill && toHost != fromHost && Distinct(fill)
    requires forall h :: h in fill ==> h in dinners
    requires Sound(dinners) && AllergyFree(dinners)
    requires toCap == toHost.space - Load(dinners[toHost])
    ensures dinners'.Keys == dinners.Keys && Members(dinners') == Members(dinners)
    ensures Sound(dinners') && AllergyFree(dinners')
    ensures forall h :: h in dinners && h != toHost && h != fromHost ==> dinners'[h] == dinners[h]
    ensures toCap' == toHost.space - Load(dinners'[toHost])
    ensures fill' == fill || (fill' == Without(fill, toHost) && toCap' == 0)
    ensures toCap' <= toCap && dinners[toHost] <= dinners'[toHost]
    ensures toHost in fill' ==> PackedFrom(dinners, dinners', fromHost, toHost, toCap')
  {
    dinners', fill', toCap' := dinners, fill, toCap;
    var pool := dinners[fromHost];
    // the `break` after `del fill_dinners[to_host]` is the second conjunct of the guard
    while pool != {} && toHost in fill'
      invariant dinners'.Keys == dinners.Keys && Members(dinners') == Members(dinners)
      invariant Sound(dinners') && AllergyFree(dinners')
      invariant forall h :: h in dinners && h != toHost && h != fromHost ==> dinners'[h] == dinners[h]
      invariant pool <= dinners'[fromHost] <= dinners[fromHost]
      invariant toCap' == toHost.space - Load(dinners'[toHost])
      invariant fill' == fill || (fill' == Without(fill, toHost) && toCap' == 0)
      invariant toCap' <= toCap && dinners[toHost] <= dinners'[toHost]
      invariant forall g :: g in dinners'[fromHost] - pool ==> StaysPut(g, toHost, toCap', dinners'[toHost])
      decreases pool
    {
      var g :| g in pool;
      pool := pool - {g};
      if Allergic(g, toHost) || toCap' < g.size {
        continue;
      }
      var repel := FindClash(g, dinners'[toHost]);
      if repel {
        continue;
      }
      MoveSound(dinners', fromHost, toHost, g);
      MoveAllergyFree(dinners', fromHost, toHost, g);
      ghost var before, capBefore := dinners', toCap';
      dinners' := Move(dinners', fromHost, toHost, g);
      toCap' := toCap' - g.size;
      forall x | x in dinners'[fromHost] - pool
        ensures StaysPut(x, toHost, toCap', dinners'[toHost])
      {
        StaysPutMore(x, toHost, capBefore, before[toHost], toCap', dinners'[toHost]);
      }
      if 0 == toCap' {
        fill' := Without(fill', toHost);
      }
    }
  }

  /** The receiving table's pass after the first `u` from tables of the snapshot `fill`: the
      night stays sound and allergy-free, only fill tables changed, the from tables not yet
      visited are untouched, and while `to_host` is still in `fill_dinners` every visited from
      table kept only families that stay put. */
  ghost predicate PackingInto(dinners: Night, fill: seq<Family>, toHost: Family, u: nat,
                              cur: Night, fill': seq<Family>, cap: int)
    requires toHost in dinners
  {
    && u <= |fill|
    && cur.Keys == dinners.Keys && Members(cur) == Members(dinners)
    && Sound(cur) && AllergyFree(cur)
    && (forall h :: h in dinners && h !in fill ==> cur[h] == dinners[h])
    && cap == toHost.space - Load(cur[toHost])
    && (fill' == fill || (fill' == Without(fill, toHost) && cap == 0))
    && dinners[toHost] <= cur[toHost]
    && (forall v :: u <= v < |fill| && fill[v] != toHost ==> fill[v] in dinners && cur[fill[v]] == dinners[fill[v]])
    && (toHost in fill' ==> forall v :: 0 <= v < u && fill[v] != toHost ==> PackedFrom(dinners, cur, fill[v], toHost, cap))
  }

  /** The receiving table's pass at the next from table. */
  method PackNext(dinners: Night, fill: seq<Family>, toHost: Family, u: nat, cur: Night, fill': seq<Family>, cap: int)
    returns (next: Night, fill'': seq<Family>, cap': int)
    requires toHost in fill && Distinct(fill) && forall h :: h in fill ==> h in dinners
    requires u < |fill| && toHost in fill' && PackingInto(dinners, fill, toHost, u, cur, fill', cap)
    ensures PackingInto(dinners, fill, toHost, u + 1, next, fill'', cap')
  {
    var fromHost := fill[u];
    if fromHost == toHost {
      return cur, fill', cap;
    }
    next, fill'', cap' := PackFrom(cur, fill', toHost, fromHost, cap);
    forall v | u + 1 <= v < |fill| && fill[v] != toHost ensures next[fill[v]] == dinners[fill[v]] {
      assert fill[v] != fromHost;
    }
    if toHost in fill'' {
      forall v | 0 <= v < u + 1 && fill[v] != toHost ensures PackedFrom(dinners, next, fill[v], toHost, cap') {
        if v < u {
          assert fill[v] != fromHost;
          PackedMore(dinners, cur, next, fill[v], toHost, cap, cap');
        }
      }
    }
  }

  /** Packing, one receiving table: draw from every other table still in `fill_dinners`. */
  method PackInto(dinners: Night, fill: seq<Family>, toHost: Family) returns (dinners': Night, fill': seq<Family>)
    requires toHost in fill && Distinct(fill) && forall h :: h in fill ==> h in dinners
    requires Sound(dinners) && AllergyFree(dinners)
    ensures dinners'.Keys == dinners.Keys && Members(dinners') == Members(dinners)
    ensures Sound(dinners') && AllergyFree(dinners')
    ensures forall h :: h in dinners && h !in fill ==> dinners'[h] == dinners[h]
    ensures fill' == fill || (fill' == Without(fill, toHost) && Load(dinners'[toHost]) == toHost.space)
    ensures toHost in fill' ==> forall f :: f in fill && f != toHost ==>
              PackedFrom(dinners, dinners', f, toHost, toHost.space - Load(dinners'[toHost]))
  {
    var toSize := DinnerSize(dinners[toHost]);
    var toCap := toHost.space - toSize;
    dinners', fill' := dinners, fill;
    var u := 0;
    // the `break` once `to_host` has left `fill_dinners` is the second conjunct of the guard
    while u < |fill| && toHost in fill'
      invariant PackingInto(dinners, fill, toHost, u, dinners', fill', toCap)
    {
      dinners', fill', toCap := PackNext(dinners, fill, toHost, u, dinners', fill', toCap);
      u := u + 1;
    }
    if toHost in fill' {
      forall f | f in fill && f != toHost ensures PackedFrom(dinners, dinners', f, toHost, toCap) {
        var v :| 0 <= v < |fill| && fill[v] == f;
      }
    }
  }

  /** What a from table kept stays kept while other from tables feed the receiving one. */
  lemma PackedMore(before: Night, mid: Night, after: Night, f: Family, toHost: Family, cap: int, cap': int)
    requires PackedFrom(before, mid, f, toHost, cap)
    requires f in after && toHost in after && after[f] == mid[f] && cap' <= cap && mid[toHost] <= after[toHost]
    ensures PackedFrom(before, after, f, toHost, cap')
  {
    forall g | g in after[f] ensures g in before[f] && StaysPut(g, toHost, cap', after[toHost]) {
      StaysPutMore(g, toHost, cap, mid[toHost], cap', after[toHost]);
    }
  }

  /** While `to_host`'s table is not full, every family at every other table still in
      `fill_dinners` stays put against it. */
  ghost predicate Settled(night: Night, fill: seq<Family>, toHost: Family)
  {
    toHost in night &&
    forall f, g :: f in fill && f != toHost && f in night && g in night[f] ==>
      StaysPut(g, toHost, toHost.space - Load(night[toHost]), night[toHost])
  }

  /** A receiving table's pass that leaves it short of full settles every other fill table. */
  lemma SettledBy(before: Night, after: Night, fill: seq<Family>, fill': seq<Family>, toHost: Family)
    requires toHost in fill' && (fill' == fill || fill' == Without(fill, toHost)) && toHost in after
    requires forall f :: f in fill && f != toHost ==>
               PackedFrom(before, after, f, toHost, toHost.space - Load(after[toHost]))
    ensures Settled(after, fill', toHost)
  {
    forall f, g | f in fill' && f != toHost && f in after && g in after[f]
      ensures StaysPut(g, toHost, toHost.space - Load(after[toHost]), after[toHost])
    {
      assert f in fill;
    }
  }

  /** Packing (run only when somebody is unassigned): gather the free seats of the part-filled
      tables into as few tables as possible. Tables outside `fill_dinners` are not touched, and a
      table leaves `fill_dinners` only once it is exactly full. */
  method Pack(dinners: Night, fill: seq<Family>) returns (dinners': Night, fill': seq<Family>)
    requires Distinct(fill) && forall h :: h in fill ==> h in dinners
    requires Sound(dinners) && AllergyFree(dinners)
    ensures dinners'.Keys == dinners.Keys && Members(dinners') == Members(dinners)
    ensures Sound(dinners') && AllergyFree(dinners')
    ensures Distinct(fill') && forall h :: h in fill' ==> h in fill
    ensures forall h :: h in fill && h !in fill' ==> Load(dinners'[h]) == h.space
    ensures forall h :: h in dinners && h !in fill ==> dinners'[h] == dinners[h]
    ensures 0 < |fill| && fill[|fill| - 1] in fill' ==> Settled(dinners', fill', fill[|fill| - 1])
  {
    dinners', fill' := dinners, fill;
    var snapshot := fill;
    for t := 0 to |snapshot|
      invariant dinners'.Keys == dinners.Keys && Members(dinners') == Members(dinners)
      invariant Sound(dinners') && AllergyFree(dinners')
      invariant Distinct(fill') && forall h :: h in fill' ==> h in fill
      invariant forall j :: t <= j < |snapshot| ==> snapshot[j] in fill'
      invariant forall h :: h in fill && h !in fill' ==> Load(dinners'[h]) == h.space
      invariant forall h :: h in dinners && h !in fill ==> dinners'[h] == dinners[h]
      invariant 0 < t && snapshot[t - 1] in fill' ==> Settled(dinners', fill', snapshot[t - 1])
    {
      var toHost := snapshot[t];
      ghost var before, fillBefore := dinners', fill';
      dinners', fill' := PackInto(dinners', fill', toHost);
      if toHost in fill' {
        SettledBy(before, dinners', fillBefore, fill', toHost);
      }
      forall j | t + 1 <= j < |snapshot| ensures snapshot[j] in fill' {
        assert snapshot[j] != toHost;
      }
      forall h | h in fill && h !in fill' ensures Load(dinners'[h]) == h.space {
        if h != toHost {
          assert h !in fillBefore && dinners'[h] == before[h];
        }
      }
    }
  }
  /** The state of PlaceAt's loop: `cur` is the night so far, `rest` the still-unassigned families
      and `pool` those not yet offered; only the fill host's table has changed, `cap` is the room
      left at it, and every family offered and still unassigned was turned away by it. */
  ghost predicate PlacingAt(dinners: Night, fill: seq<Family>, fillHost: Family, unassigned: set<Family>,
                            cur: Night, fill': seq<Family>, rest: set<Family>, pool: set<Family>, cap: int)
  {
    && fillHost in dinners && cur.Keys == dinners.Keys && Sound(cur) && AllergyFree(cur)
    && pool <= rest <= unassigned && Members(cur) !! rest
    && Members(cur) + rest == Members(dinners) + unassigned
    && (forall h :: h in dinners && h != fillHost ==> cur[h] == dinners[h])
    && cap == fillHost.space - Load(cur[fillHost])
    && (fill' == fill || (fill' == Without(fill, fillHost) && cap == 0))
    && (forall g :: g in rest && g !in pool ==> Turned(cur, fillHost, g))
  }

  /** Passing over a family the table turns away keeps PlacingAt. */
  lemma PlacingSkip(dinners: Night, fill: seq<Family>, fillHost: Family, unassigned: set<Family>,
                    cur: Night, fill': seq<Family>, rest: set<Family>, pool: set<Family>, cap: int, g: Family)
    requires PlacingAt(dinners, fill, fillHost, unassigned, cur, fill', rest, pool, cap) && g in pool
    requires Turned(cur, fillHost, g)
    ensures PlacingAt(dinners, fill, fillHost, unassigned, cur, fill', rest, pool - {g}, cap)
  {
  }

  /** Seating a family that fits and clashes with nobody keeps PlacingAt; the table leaves the
      fill list when that leaves it exactly full. */
  lemma PlacingSeat(dinners: Night, fill: seq<Family>, fillHost: Family, unassigned: set<Family>,
                    cur: Night, fill': seq<Family>, rest: set<Family>, pool: set<Family>, cap: int, g: Family)
    requires PlacingAt(dinners, fill, fillHost, unassigned, cur, fill', rest, pool, cap) && g in pool
    requires g.size >= 1 && !Allergic(g, fillHost) && g.size <= cap && !Clashes(g, cur[fillHost])
    ensures var cur' := Seat(cur, fillHost, g);
            var cap' := cap - g.size;
            PlacingAt(dinners, fill, fillHost, unassigned, cur', if cap' == 0 then Without(fill, fillHost) else fill,
                      rest - {g}, pool - {g}, cap')
  {
    SeatSound(cur, fillHost, g);
    SeatAllergyFree(cur, fillHost, g);
    var cur' := Seat(cur, fillHost, g);
    forall x | x in rest - {g} && x !in pool - {g} ensures Turned(cur', fillHost, x) {
      assert Turned(cur, fillHost, x);
      assert cur[fillHost] <= cur'[fillHost];
    }
  }

  /** Placement at one part-filled table: seat every still-unassigned family that fits, is not
      allergic and clashes with nobody; the table leaves `fill_dinners` when exactly full. */
  method PlaceAt(dinners: Night, fill: seq<Family>, fillHost: Family, unassigned: set<Family>)
    returns (dinners': Night, fill': seq<Family>, unassigned': set<Family>)
    requires fillHost in fill && Distinct(fill) && forall h :: h in fill ==> h in dinners
    requires Sound(dinners) && AllergyFree(dinners)
    requires unassigned !! Members(dinners)
    requires forall g :: g in unassigned ==> g.size >= 1
    ensures dinners'.Keys == dinners.Keys && Sound(dinners') && AllergyFree(dinners')
    ensures unassigned' <= unassigned && Members(dinners') !! unassigned'
    ensures Members(dinners') + unassigned' == Members(dinners) + unassigned
    ensures forall h :: h in dinners && h != fillHost ==> dinners'[h] == dinners[h]
    ensures fill' == fill || (fill' == Without(fill, fillHost) && Load(dinners'[fillHost]) == fillHost.space)
    ensures forall g :: g in unassigned' ==> Turned(dinners', fillHost, g)
  {
    var fillSize := DinnerSize(dinners[fillHost]);
    var cap := fillHost.space - fillSize;
    dinners', fill', unassigned' := dinners, fill, unassigned;
    var pool := unassigned;
    while pool != {}
      invariant PlacingAt(dinners, fill, fillHost, unassigned, dinners', fill', unassigned', pool, cap)
      decreases pool
    {
      var g :| g in pool;
      if Allergic(g, fillHost) || cap < g.size {
        PlacingSkip(dinners, fill, fillHost, unassigned, dinners', fill', unassigned', pool, cap, g);
        pool := pool - {g};
        continue;
      }
      var repel := FindClash(g, dinners'[fillHost]);
      if repel {
        PlacingSkip(dinners, fill, fillHost, unassigned, dinners', fill', unassigned', pool, cap, g);
        pool := pool - {g};
        continue;
      }
      PlacingSeat(dinners, fill, fillHost, unassigned, dinners', fill', unassigned', pool, cap, g);
      dinners' := Seat(dinners', fillHost, g);
      unassigned', pool := unassigned' - {g}, pool - {g};
      cap := cap - g.size;
      // `del fill_dinners[fill_host]` happens at most once: the table had room for `g`
      fill' := if cap == 0 then Without(fill, fillHost) else fill;
    }
  }

  /** Placement: offer the unassigned families to every table still in `fill_dinners`, in
      order. Whoever is left was turned away by every one of those tables. */
  method PlaceUnassigned(dinners: Night, fill: seq<Family>, unassigned: set<Family>)
    returns (dinners': Night, fill': seq<Family>, unassigned': set<Family>)
    requires Distinct(fill) && forall h :: h in fill ==> h in dinners
    requires Sound(dinners) && AllergyFree(dinners)
    requires unassigned !! Members(dinners)
    requires forall g :: g in unassigned ==> g.size >= 1
    ensures dinners'.Keys == dinners.Keys && Sound(dinners') && AllergyFree(dinners')
    ensures unassigned' <= unassigned && Members(dinners') !! unassigned'
    ensures Members(dinners') + unassigned' == Members(dinners) + unassigned
    ensures forall h :: h in dinners && h !in fill ==> dinners'[h] == dinners[h]
    ensures Distinct(fill') && forall h :: h in fill' ==> h in fill
    ensures forall h :: h in fill && h !in fill' ==> Load(dinners'[h]) == h.space
    ensures forall h, g :: h in fill && g in unassigned' ==> Turned(dinners', h, g)
  {
    dinners', fill', unassigned' := dinners, fill, unassigned;
    var snapshot := fill;
    for t := 0 to |snapshot|
      invariant dinners'.Keys == dinners.Keys && Sound(dinners') && AllergyFree(dinners')
      invariant unassigned' <= unassigned && Members(dinners') !! unassigned'
      invariant Members(dinners') + unassigned' == Members(dinners) + unassigned
      invariant forall h :: h in dinners && h !in fill ==> dinners'[h] == dinners[h]
      invariant Distinct(fill') && forall h :: h in fill' ==> h in fill
      invariant forall j :: t <= j < |snapshot| ==> snapshot[j] in fill'
      invariant forall h :: h in fill && h !in fill' ==> Load(dinners'[h]) == h.space
      invariant forall h, g :: h in snapshot[..t] && g in unassigned' ==> Turned(dinners', h, g)
    {
      var fillHost := snapshot[t];
      ghost var before, fillBefore, leftBefore := dinners', fill', unassigned';
      dinners', fill', unassigned' := PlaceAt(dinners', fill', fillHost, unassigned');
      forall j | t + 1 <= j < |snapshot| ensures snapshot[j] in fill' {
        assert snapshot[j] != fillHost;
      }
      forall h | h in fill && h !in fill' ensures Load(dinners'[h]) == h.space {
        if h != fillHost {
          assert h !in fillBefore && dinners'[h] == before[h];
        }
      }
      forall h, g | h in snapshot[..t + 1] && g in unassigned' ensures Turned(dinners', h, g) {
        if h != fillHost {
          assert h in snapshot[..t] && g in leftBefore;
          assert Turned(before, h, g) && dinners'[h] == before[h];
        }
      }
    }
    assert snapshot[..|snapshot|] == snapshot;
  }
  /** A family of `full_host`'s table that rebalancing may hand to `fill_host`'s table: not that
      table's host, exactly one seat smaller than the free room, and clashing with nobody there. */
  predicate Donatable(dinners: Night, fillHost: Family, fullHost: Family, fillCap: int, g: Family)
    requires fillHost in dinners && fullHost in dinners
  {
    g in dinners[fullHost] && g != fullHost && fillCap - 1 == g.size && !Clashes(g, dinners[fillHost])
  }

  /** Rebalancing, one donor table: hand over the first donatable family met, if any. */
  method Borrow(dinners: Night, fillHost: Family, fullHost: Family, fillCap: int)
    returns (dinners': Night, moved: Option<Family>)
    requires fillHost in dinners && fullHost in dinners && fillHost != fullHost
    requires Sound(dinners) && fillCap == fillHost.space - Load(dinners[fillHost])
    ensures moved.None? ==> dinners' == dinners
    ensures moved.None? ==> forall g :: g in dinners[fullHost] ==> !Donatable(dinners, fillHost, fullHost, fillCap, g)
    ensures moved.Some? ==> Donatable(dinners, fillHost, fullHost, fillCap, moved.value)
    ensures moved.Some? ==> dinners' == Move(dinners, fullHost, fillHost, moved.value)
    ensures moved.Some? ==> Load(dinners'[fillHost]) == fillHost.space - 1
    ensures Sound(dinners')
  {
    dinners', moved := dinners, None;
    var pool := dinners[fullHost];
    // the `break` after the hand-over is the second conjunct of the guard
    while pool != {} && moved.None?
      invariant pool <= dinners[fullHost]
      invariant moved.None? ==> dinners' == dinners
      invariant moved.None? ==> forall g :: g in dinners[fullHost] - pool ==> !Donatable(dinners, fillHost, fullHost, fillCap, g)
      invariant moved.Some? ==> Donatable(dinners, fillHost, fullHost, fillCap, moved.value)
      invariant moved.Some? ==> dinners' == Move(dinners, fullHost, fillHost, moved.value)
      invariant moved.Some? ==> Load(dinners'[fillHost]) == fillHost.space - 1
      invariant Sound(dinners')
      decreases pool
    {
      var g :| g in pool;
      pool := pool - {g};
      if fillCap - 1 == g.size && g != fullHost {
        var repel := FindClash(g, dinners[fillHost]);
        if repel {
          continue;
        }
        MoveSound(dinners, fullHost, fillHost, g);
        dinners' := Move(dinners, fullHost, fillHost, g);
        moved := Some(g);
      }
    }
  }

  /** Whether rebalancing would take a family from `full_host` for `fill_host`'s table. */
  ghost predicate Gives(dinners: Night, fillHost: Family, fillSize: int, fillCap: int, fullHost: Family)
    requires fillHost in dinners && fullHost in dinners
  {
    && fillSize < Load(dinners[fullHost])
    && exists g :: g in dinners[fullHost] && Donatable(dinners, fillHost, fullHost, fillCap, g)
  }

  /** None of the first `n` full tables of the walk hands a family over. */
  ghost predicate NoneGive(dinners: Night, fillHost: Family, fillSize: int, fillCap: int,
                           fullHosts: seq<Family>, n: nat)
    requires fillHost in dinners && n <= |fullHosts| && forall h :: h in fullHosts ==> h in dinners
  {
    forall j :: 0 <= j < n ==> !Gives(dinners, fillHost, fillSize, fillCap, fullHosts[j])
  }

  lemma NoneGiveNext(dinners: Night, fillHost: Family, fillSize: int, fillCap: int,
                     fullHosts: seq<Family>, n: nat)
    requires fillHost in dinners && n < |fullHosts| && forall h :: h in fullHosts ==> h in dinners
    requires NoneGive(dinners, fillHost, fillSize, fillCap, fullHosts, n)
    requires !Gives(dinners, fillHost, fillSize, fillCap, fullHosts[n])
    ensures NoneGive(dinners, fillHost, fillSize, fillCap, fullHosts, n + 1)
  {
  }

  /** Rebalancing, one receiving table: try the full tables in the (shuffled) given order and
      stop at the first that hands over a family. */
  method FindDonor(dinners: Night, fillHost: Family, fillCap: int, fullHosts: seq<Family>)
    returns (dinners': Night, donor: Option<(Family, Family)>, ghost at: nat)
    requires fillHost in dinners && fillHost !in fullHosts && forall h :: h in fullHosts ==> h in dinners
    requires Sound(dinners) && fillCap == fillHost.space - Load(dinners[fillHost])
    ensures Sound(dinners')
    ensures donor.None? ==> dinners' == dinners
    ensures donor.None? ==> forall h :: h in fullHosts ==> !Gives(dinners, fillHost, Load(dinners[fillHost]), fillCap, h)
    ensures donor.Some? ==> at < |fullHosts| && donor.value.0 == fullHosts[at]
    ensures donor.Some? ==> forall j :: 0 <= j < at ==> !Gives(dinners, fillHost, Load(dinners[fillHost]), fillCap, fullHosts[j])
    ensures donor.Some? ==> Donatable(dinners, fillHost, donor.value.0, fillCap, donor.value.1)
    ensures donor.Some? ==> dinners' == Move(dinners, donor.value.0, fillHost, donor.value.1)
    ensures donor.Some? ==> Load(dinners'[fillHost]) == fillHost.space - 1
  {
    var fillSize := DinnerSize(dinners[fillHost]);
    dinners', donor, at := dinners, None, 0;
    var i := 0;
    // `if dinner_filled: break` is the second conjunct of the guard
    while i < |fullHosts| && donor.None?
      invariant i <= |fullHosts| && Sound(dinners')
      invariant donor.None? ==> dinners' == dinners
      invariant donor.None? ==> NoneGive(dinners, fillHost, fillSize, fillCap, fullHosts, i)
      invariant donor.Some? ==> at < i && donor.value.0 == fullHosts[at]
      invariant donor.Some? ==> NoneGive(dinners, fillHost, fillSize, fillCap, fullHosts, at)
      invariant donor.Some? ==> Donatable(dinners, fillHost, donor.value.0, fillCap, donor.value.1)
      invariant donor.Some? ==> dinners' == Move(dinners, donor.value.0, fillHost, donor.value.1)
      invariant donor.Some? ==> Load(dinners'[fillHost]) == fillHost.space - 1
    {
      var fullHost := fullHosts[i];
      var fullSize := DinnerSize(dinners[fullHost]);
      if fillSize < fullSize {
        var moved;
        dinners', moved := Borrow(dinners, fillHost, fullHost, fillCap);
        if moved.Some? {
          donor, at := Some((fullHost, moved.value)), i;
        }
      }
      if donor.None? {
        NoneGiveNext(dinners, fillHost, fillSize, fillCap, fullHosts, i);
      }
      i := i + 1;
    }
    if donor.None? {
      forall h | h in fullHosts ensures !Gives(dinners, fillHost, fillSize, fillCap, h) {
        var j :| 0 <= j < |fullHosts| && fullHosts[j] == h;
      }
    }
  }
  /** Rebalancing: take the part-filled tables one at a time, oldest first, and let the first
      larger full table (in shuffled order) hand one family over so that the receiving table ends
      with exactly one free seat. The donor leaves `full_dinners`, and goes back into
      `fill_dinners` when the family handed over took more than one seat. Only the hard
      constraints are kept: no allergy test is made here. */
  method Rebalance(dinners: Night, fill: seq<Family>, full: seq<Family>, rand: nat -> nat, k: nat)
    returns (dinners': Night, k': nat)
    requires Distinct(fill) && Distinct(full) && forall h :: h in fill ==> h !in full
    requires forall h :: h in fill || h in full ==> h in dinners
    requires Sound(dinners)
    ensures dinners'.Keys == dinners.Keys && Members(dinners') == Members(dinners) && Sound(dinners')
    ensures forall h :: h in dinners && h !in fill && h !in full ==> dinners'[h] == dinners[h]
    ensures k <= k'
  {
    dinners', k' := dinners, k;
    var fill', full' := fill, full;
    while fill' != []
      invariant Distinct(fill') && Distinct(full') && forall h :: h in fill' ==> h !in full'
      invariant forall h :: h in fill' || h in full' ==> h in fill || h in full
      invariant forall h :: h in fill' || h in full' ==> h in dinners'
      invariant dinners'.Keys == dinners.Keys && Members(dinners') == Members(dinners) && Sound(dinners')
      invariant forall h :: h in dinners && h !in fill && h !in full ==> dinners'[h] == dinners[h]
      invariant k <= k'
      decreases |full'|, |fill'|
    {
      var fillHost := fill'[0];
      assert fill' == [fillHost] + fill'[1..];
      fill' := fill'[1..];
      var donor;
      ghost var order, at;
      dinners', donor, k', order, at := Refill(dinners', fillHost, full', rand, k');
      if donor.Some? {
        var fullHost := donor.value.0;
        full' := Without(full', fullHost);
        if 1 < donor.value.1.size {
          fill' := fill' + [fullHost];
        }
      }
    }
  }

  /** What one receiving table's turn of the rebalance loop did: the full tables were walked in
      the shuffled order `fullHosts`; with no donor none of them could give and the night is
      unchanged; with a donor it sits at position `at`, no earlier table could give, the family
      handed over was donatable, and the receiver is left one seat short. */
  ghost predicate Refilled(dinners: Night, fillHost: Family, full: seq<Family>, rand: nat -> nat, k: nat,
                           dinners': Night, donor: Option<(Family, Family)>, fullHosts: seq<Family>, at: nat)
    requires fillHost in dinners && fillHost !in full && (forall h :: h in full ==> h in dinners) && Sound(dinners)
  {
    && fullHosts == Shuffled(full, rand, k)
    && (forall h :: h in fullHosts ==> h in dinners)
    && (donor.None? ==> dinners' == dinners)
    && (donor.None? ==> forall h :: h in full ==>
          !Gives(dinners, fillHost, Load(dinners[fillHost]), fillHost.space - Load(dinners[fillHost]), h))
    && (donor.Some? ==> donor.value.0 in full && at < |fullHosts| && donor.value.0 == fullHosts[at])
    && (donor.Some? ==> forall j :: 0 <= j < at ==>
          !Gives(dinners, fillHost, Load(dinners[fillHost]), fillHost.space - Load(dinners[fillHost]), fullHosts[j]))
    && (donor.Some? ==>
          Donatable(dinners, fillHost, donor.value.0, fillHost.space - Load(dinners[fillHost]), donor.value.1) &&
          dinners' == Move(dinners, donor.value.0, fillHost, donor.value.1))
    && (donor.Some? ==> fillHost in dinners' && Load(dinners'[fillHost]) == fillHost.space - 1)
  }

  /** Rebalancing, the body of the loop for one receiving table: shuffle the full tables still
      on offer and let the first that can hand a family over do so. `fullHosts` is the shuffled
      order and `at` the position of the donor in it. */
  method Refill(dinners: Night, fillHost: Family, full: seq<Family>, rand: nat -> nat, k: nat)
    returns (dinners': Night, donor: Option<(Family, Family)>, k': nat, ghost fullHosts: seq<Family>, ghost at: nat)
    requires fillHost in dinners && fillHost !in full && forall h :: h in full ==> h in dinners
    requires Sound(dinners)
    ensures dinners'.Keys == dinners.Keys && Members(dinners') == Members(dinners) && Sound(dinners')
    ensures forall h :: h in dinners && h != fillHost && h !in full ==> dinners'[h] == dinners[h]
    ensures k' == k + Draws(|full|) && (donor.Some? ==> donor.value.0 in full)
    ensures Refilled(dinners, fillHost, full, rand, k, dinners', donor, fullHosts, at)
  {
    var fillSize := DinnerSize(dinners[fillHost]);
    var fillCap := fillHost.space - fillSize;
    var order := Shuffled(full, rand, k);
    k' := k + Draws(|full|);
    forall h ensures h in order <==> h in full {
      ShuffledMembers(full, rand, k, h);
    }
    dinners', donor, at := FindDonor(dinners, fillHost, fillCap, order);
    fullHosts := order;
  }

  /** What the builder promises about night n's dinners: every key is a family attending and
      able to host that night, every seated family attends, and the hard constraints hold. */
  ghost predicate NightValid(families: seq<Family>, n: nat, night: Night)
  {
    && (forall h :: h in night ==> h in families && Hosting(h, n))
    && (forall h, g :: h in night && g in night[h] ==> g in families && Attends(g, n))
    && Sound(night)
  }

  /** A night up to the end of the guest pass: hosts opened in shuffled order, then seated. */
  method OpenAndSeat(families: seq<Family>, night: nat, counts: map<Family, nat>, rand: nat -> nat, k: nat)
    returns (tonight: seq<Family>, hosts: seq<Family>, dinners: Night, seated: set<Family>,
             counts': map<Family, nat>, k': nat)
    requires Distinct(families) && forall f :: f in families ==> f in counts
    requires forall f :: f in families ==> night < |f.attendNights| && night < |f.hostNights|
    ensures forall f :: f in tonight ==> f in families && Attends(f, night)
    ensures Distinct(hosts) && forall h :: h in dinners <==> h in hosts
    ensures forall h :: h in dinners ==> h in families && Hosting(h, night) && BelowLimit(h, counts[h])
    ensures Sound(dinners) && AllergyFree(dinners) && Members(dinners) == seated
    ensures forall g :: g in seated ==> g in tonight
    ensures counts' == Bumped(counts, dinners.Keys)
    ensures k <= k'
  {
    var needed;
    tonight, needed := FamiliesTonight(families, night);
    var order := Shuffled(tonight, rand, k);
    k' := k + Draws(|tonight|);
    DistinctPermutation(tonight, order);
    forall f ensures f in order <==> f in tonight {
      ShuffledMembers(tonight, rand, k, f);
    }
    var singles;
    ghost var scanned;
    hosts, singles, seated, counts', scanned := OpenHosts(order, night, counts, needed);
    dinners, seated := SeatGuests(order, hosts, singles, seated);
    tonight := order;
  }

  /** A night after the guest pass: collect the unassigned, split the tables, pack and place when
      somebody is unassigned, then rebalance. The tables stay those of the opened hosts, and
      nobody outside the night's families is seated. */
  method Repair(tonight: seq<Family>, hosts: seq<Family>, dinners: Night, seated: set<Family>,
                rand: nat -> nat, k: nat)
    returns (dinners': Night, k': nat)
    requires Distinct(hosts) && forall h :: h in dinners <==> h in hosts
    requires Sound(dinners) && AllergyFree(dinners) && Members(dinners) == seated
    requires forall g :: g in tonight ==> g.size >= 1
    ensures dinners'.Keys == dinners.Keys && Sound(dinners')
    ensures forall h, g :: h in dinners' && g in dinners'[h] ==> g in seated || g in tonight
    ensures k <= k'
  {
    var unassigned := Unassigned(tonight, seated);
    var full, fill := Classify(hosts, dinners);
    dinners' := dinners;
    if unassigned != {} {
      dinners', fill := Pack(dinners', fill);
      dinners', fill, unassigned := PlaceUnassigned(dinners', fill, unassigned);
    }
    dinners', k' := Rebalance(dinners', fill, full, rand, k);
    forall h, g | h in dinners' && g in dinners'[h] ensures g in seated || g in tonight {
      MembersAt(dinners', g);
    }
  }

  /** One night of `generate_schedule`. */
  method NightBuild(families: seq<Family>, night: nat, counts: map<Family, nat>, rand: nat -> nat, k: nat)
    returns (dinners: Night, counts': map<Family, nat>, k': nat)
    requires Distinct(families) && forall f :: f in families ==> f in counts && f.size >= 1
    requires forall f :: f in families ==> night < |f.attendNights| && night < |f.hostNights|
    ensures NightValid(families, night, dinners)
    ensures forall h :: h in dinners ==> BelowLimit(h, counts[h])
    ensures counts' == Bumped(counts, dinners.Keys)
    ensures k <= k'
  {
    var tonight, hosts, seated;
    tonight, hosts, dinners, seated, counts', k' := OpenAndSeat(families, night, counts, rand, k);
    dinners, k' := Repair(tonight, hosts, dinners, seated, rand, k');
  }

  /** What holds of the schedule between two nights: every night is valid, `host_counts` counts
      the nights each family hosts, and nobody has gone past a host limit. */
  ghost predicate Progress(families: seq<Family>, schedule: Schedule, counts: map<Family, nat>)
  {
    && (forall n :: 0 <= n < |schedule| ==> NightValid(families, n, schedule[n]))
    && (forall f :: f in counts <==> f in families)
    && (forall f :: f in counts ==> counts[f] == HostNights(schedule, f))
    && (forall f :: f in counts && f.hostLimit.Some? ==> counts[f] == 0 || counts[f] <= f.hostLimit.value)
  }

  /** Filling an empty night with a valid night whose hosts were below their limits keeps
      Progress, with the counts bumped for those hosts. */
  lemma ProgressFill(families: seq<Family>, schedule: Schedule, counts: map<Family, nat>,
                     night: nat, dinners: Night, counts': map<Family, nat>)
    requires Progress(families, schedule, counts)
    requires night < |schedule| && schedule[night] == map[]
    requires NightValid(families, night, dinners)
    requires forall h :: h in dinners ==> h in counts && BelowLimit(h, counts[h])
    requires counts' == Bumped(counts, dinners.Keys)
    ensures Progress(families, schedule[night := dinners], counts')
  {
    ValidFill(families, schedule, night, dinners, schedule[night := dinners]);
    CountsFill(schedule, counts, night, dinners, counts');
    LimitsFill(counts, dinners, counts');
  }

  lemma ValidFill(families: seq<Family>, schedule: Schedule, night: nat, dinners: Night, s': Schedule)
    requires night < |schedule| && forall n :: 0 <= n < |schedule| ==> NightValid(families, n, schedule[n])
    requires NightValid(families, night, dinners) && s' == schedule[night := dinners]
    ensures forall n :: 0 <= n < |s'| ==> NightValid(families, n, s'[n])
  {
    forall n | 0 <= n < |s'| ensures NightValid(families, n, s'[n]) {
      if n != night {
        assert s'[n] == schedule[n];
      }
    }
  }

  lemma LimitsFill(counts: map<Family, nat>, dinners: Night, counts': map<Family, nat>)
    requires forall f :: f in counts && f.hostLimit.Some? ==> counts[f] == 0 || counts[f] <= f.hostLimit.value
    requires forall h :: h in dinners ==> h in counts && BelowLimit(h, counts[h])
    requires counts' == Bumped(counts, dinners.Keys)
    ensures forall f :: f in counts' && f.hostLimit.Some? ==> counts'[f] == 0 || counts'[f] <= f.hostLimit.value
  {
  }

  /** `generate_schedule`: one night at a time, in shuffled night order. Every night is valid,
      and no family hosts more nights than its host limit allows. */
  method GenerateSchedule(families: seq<Family>, rand: nat -> nat, k: nat) returns (schedule: Schedule, k': nat)
    requires WellFormed(families) && forall f :: f in families ==> f.size >= 1
    ensures |schedule| == NightCount(families)
    ensures forall n :: 0 <= n < |schedule| ==> NightValid(families, n, schedule[n])
    ensures forall f :: f in families && f.hostLimit.Some? ==>
              HostNights(schedule, f) == 0 || HostNights(schedule, f) <= f.hostLimit.value
    ensures k <= k'
  {
    UniqueEmailsDistinct(families);
    var count := NightCount(families);
    var counts: map<Family, nat> := map f | f in families :: 0;
    schedule := EmptySchedule(count);
    var nights := Shuffled(Range(count), rand, k);
    k' := k + Draws(count);
    ShuffledRange(count, rand, k, nights);
    assert Progress(families, schedule, counts) by {
      forall f | f in counts ensures counts[f] == HostNights(schedule, f) {
        assert (set i | 0 <= i < |schedule| && f in schedule[i]) == {};
      }
    }
    for t := 0 to |nights|
      invariant |schedule| == count && k <= k'
      invariant forall n :: 0 <= n < count && n !in nights[..t] ==> schedule[n] == map[]
      invariant Progress(families, schedule, counts)
    {
      var night := nights[t];
      assert night < count && night !in nights[..t];
      var dinners, counts';
      dinners, counts', k' := NightBuild(families, night, counts, rand, k');
      ProgressFill(families, schedule, counts, night, dinners, counts');
      schedule := schedule[night := dinners];
      counts := counts';
    }
    forall f | f in families ensures f in counts {
    }
  }
}
