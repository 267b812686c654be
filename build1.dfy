// schedule.py, generate_schedule: the first scheduler. Hosts are tried in the order of the
// caller's family list, which is shuffled in place before every night; a host's table opens
// with its first guest; afterwards part-filled tables borrow a family from full ones.

module Build1 {
  import opened Roster
  import opened Dinners
  import opened Schedules
  import opened Shuffle

  /** Seats left at the host's table; before the table opens, the host's space less its own size. */
  ghost function Room(dinners: Night, host: Family): int
  {
    if host in dinners then host.space - Load(dinners[host]) else host.space - host.size
  }

  /** A family the host's scan may seat: it attends, is not the host, and sits nowhere yet. */
  predicate Candidate(f: Family, host: Family, night: nat, seated: set<Family>)
  {
    Attends(f, night) && f != host && f !in seated
  }

  /** What ends the host's scan: the family is allergic to the home, or shares a repel tag with
      the host or with somebody already at the table. */
  predicate Refused(dinners: Night, host: Family, f: Family)
  {
    Allergic(f, host) || Repels(host, f) || (host in dinners && Clashes(f, dinners[host]))
  }

  /** No table holds more people than its host has room for. */
  ghost predicate Fits(night: Night)
  {
    forall h :: h in night ==> Load(night[h]) <= h.space
  }

  /** Every table holds its host and at least one guest. */
  predicate Pairs(night: Night)
  {
    forall h :: h in night ==> |night[h]| >= 2
  }

  /** What the placement pass keeps for a night. */
  ghost predicate Placed(night: Night)
  {
    Sound(night) && AllergyFree(night) && HostsSeated(night) && Fits(night) && Pairs(night)
  }

  lemma SeatFits(night: Night, h: Family, g: Family)
    requires h in night && Fits(night) && g !in night[h]
    requires Load(night[h]) + g.size <= h.space
    ensures Fits(Seat(night, h, g)) && Load(Seat(night, h, g)[h]) == Load(night[h]) + g.size
  {
    LoadAdd(night[h], g);
  }

  lemma SeatPairs(night: Night, h: Family, g: Family)
    requires h in night && Pairs(night)
    ensures Pairs(Seat(night, h, g))
  {
    if g in night[h] {
      assert night[h] + {g} == night[h];
    } else {
      assert night[h] !! {g};
    }
  }

  lemma SeatHostsSeated(night: Night, h: Family, g: Family)
    requires h in night && HostsSeated(night)
    ensures HostsSeated(Seat(night, h, g))
  {
  }

  /** `schedule[night][host].add(family)` at an open table, kept Placed. */
  lemma SeatPlaced(night: Night, h: Family, g: Family)
    requires h in night && Placed(night) && g !in Members(night)
    requires !Clashes(g, night[h]) && !Allergic(g, h)
    requires Load(night[h]) + g.size <= h.space
    ensures Placed(Seat(night, h, g))
    ensures Room(Seat(night, h, g), h) == Room(night, h) - g.size
  {
    MembersAt(night, g);
    SeatSound(night, h, g);
    SeatAllergyFree(night, h, g);
    SeatFits(night, h, g);
    SeatPairs(night, h, g);
    SeatHostsSeated(night, h, g);
  }

  lemma OpenSeatFits(night: Night, h: Family, g: Family)
    requires h !in night && h != g && Fits(night)
    requires h.size + g.size <= h.space
    ensures Fits(Seat(Open(night, h), h, g))
    ensures Load(Seat(Open(night, h), h, g)[h]) == h.size + g.size
  {
    var o := Open(night, h);
    LoadSingle(h);
    LoadAdd(o[h], g);
  }

  lemma OpenSeatPairs(night: Night, h: Family, g: Family)
    requires h !in night && h != g && Pairs(night)
    ensures Pairs(Seat(Open(night, h), h, g))
  {
    assert Seat(Open(night, h), h, g)[h] == {h, g};
  }

  lemma OpenSeatHostsSeated(night: Night, h: Family, g: Family)
    requires h !in night && HostsSeated(night)
    ensures HostsSeated(Seat(Open(night, h), h, g))
  {
  }

  lemma OpenSeatAllergyFree(night: Night, h: Family, g: Family)
    requires h !in night && AllergyFree(night) && !Allergic(g, h)
    ensures AllergyFree(Seat(Open(night, h), h, g))
  {
    SeatAllergyFree(Open(night, h), h, g);
  }

  lemma OpenSeatSound(night: Night, h: Family, g: Family)
    requires h !in night && h !in Members(night) && g !in Members(night) && h != g
    requires Sound(night) && !Repels(h, g) && h.size + g.size <= h.space
    ensures Sound(Seat(Open(night, h), h, g))
  {
    var o := Open(night, h);
    OpenSound(night, h);
    RepelsSymmetric(h, g);
    assert o[h] == {h};
    assert !Clashes(g, o[h]);
    SeatSound(o, h, g);
  }

  /** Opening the host's table together with its first guest, kept Placed. */
  lemma OpenPlaced(night: Night, h: Family, g: Family)
    requires h !in night && h !in Members(night) && g !in Members(night) && h != g
    requires Placed(night)
    requires !Repels(h, g) && !Allergic(g, h) && g.size <= h.space - h.size
    ensures Placed(Seat(Open(night, h), h, g))
    ensures Room(Seat(Open(night, h), h, g), h) == Room(night, h) - g.size
    ensures Members(Seat(Open(night, h), h, g)) == Members(night) + {h} + {g}
  {
    OpenSeatSound(night, h, g);
    OpenSeatAllergyFree(night, h, g);
    OpenSeatFits(night, h, g);
    OpenSeatPairs(night, h, g);
    OpenSeatHostsSeated(night, h, g);
  }

  /** The first guest of a host: the table opens with both. */
  method OpenWith(dinners: Night, seated: set<Family>, host: Family, f: Family)
    returns (dinners': Night, seated': set<Family>)
    requires host !in dinners && host !in seated && f !in seated && host != f
    requires Placed(dinners) && Members(dinners) == seated
    requires !Repels(host, f) && !Allergic(f, host) && f.size <= host.space - host.size
    ensures dinners'.Keys == dinners.Keys + {host} && forall h :: h in dinners ==> dinners'[h] == dinners[h]
    ensures Placed(dinners') && Members(dinners') == seated' && seated' == seated + {host} + {f}
    ensures Room(dinners', host) == Room(dinners, host) - f.size
  {
    OpenPlaced(dinners, host, f);
    dinners' := Seat(Open(dinners, host), host, f);
    seated' := seated + {host} + {f};
  }

  /** A further guest at an open table. */
  method Join(dinners: Night, seated: set<Family>, host: Family, f: Family)
    returns (dinners': Night, seated': set<Family>)
    requires host in dinners && f !in seated
    requires Placed(dinners) && Members(dinners) == seated
    requires !Clashes(f, dinners[host]) && !Allergic(f, host) && f.size <= Room(dinners, host)
    ensures dinners'.Keys == dinners.Keys && forall h :: h in dinners && h != host ==> dinners'[h] == dinners[h]
    ensures Placed(dinners') && Members(dinners') == seated' && seated' == seated + {f}
    ensures Room(dinners', host) == Room(dinners, host) - f.size
  {
    SeatPlaced(dinners, host, f);
    dinners' := Seat(dinners, host, f);
    seated' := seated + {f};
  }

  /** One family of the host's scan: seat it if it is a candidate that fits and is not refused
      (opening the table when it is the first), or report the refusal that ends the scan. */
  method ScanStep(f: Family, night: nat, host: Family, dinners: Night, seated: set<Family>)
    returns (dinners': Night, seated': set<Family>, stopped: bool)
    requires night < |f.attendNights|
    requires host !in seated || host in dinners
    requires Placed(dinners) && Members(dinners) == seated
    ensures dinners'.Keys == dinners.Keys || dinners'.Keys == dinners.Keys + {host}
    ensures forall h :: h in dinners && h != host ==> dinners'[h] == dinners[h]
    ensures Placed(dinners') && Members(dinners') == seated'
    ensures seated <= seated' && (host in seated' ==> host in dinners')
    ensures seated' == seated || (Attends(f, night) && (seated' == seated + {f} || seated' == seated + {host} + {f}))
    ensures Room(dinners', host) <= Room(dinners, host)
    ensures stopped ==>
              dinners' == dinners && seated' == seated &&
              Candidate(f, host, night, seated) && f.size <= Room(dinners, host) && Refused(dinners, host, f)
    ensures !stopped ==> !Candidate(f, host, night, seated') || Room(dinners', host) < f.size
  {
    dinners', seated', stopped := dinners, seated, false;
    if f.attendNights[night] && f != host && f !in seated {
      var room;
      if host !in dinners {
        room := host.space - host.size;
      } else {
        var size := DinnerSize(dinners[host]);
        room := host.space - size;
      }
      if room >= f.size {
        if Allergic(f, host) || Repels(host, f) {
          stopped := true;
        } else if host !in dinners {
          dinners', seated' := OpenWith(dinners, seated, host, f);
        } else {
          var repel := FindClash(f, dinners[host]);
          if repel {
            stopped := true;
          } else {
            dinners', seated' := Join(dinners, seated, host, f);
          }
        }
      }
    }
  }

  /** A scan step keeps "every candidate passed over did not fit": nobody becomes a candidate
      again, the room only shrinks, and the family just looked at was seated or did not fit. */
  lemma ScanPrefix(families: seq<Family>, j: nat, night: nat, host: Family,
                   seated: set<Family>, seated': set<Family>, room: int, room': int)
    requires j < |families| && forall f :: f in families ==> night < |f.attendNights|
    requires forall i :: 0 <= i < j && Candidate(families[i], host, night, seated) ==> room < families[i].size
    requires seated <= seated' && room' <= room
    requires !Candidate(families[j], host, night, seated') || room' < families[j].size
    ensures forall i :: 0 <= i <= j && Candidate(families[i], host, night, seated') ==> room' < families[i].size
  {
    forall i | 0 <= i <= j && Candidate(families[i], host, night, seated') ensures room' < families[i].size {
      if i < j {
        assert Candidate(families[i], host, night, seated);
      }
    }
  }

  /** Families seated by a scan step are the host and the family looked at, which attends. */
  lemma NewlySeated(families: seq<Family>, night: nat, host: Family, f: Family,
                    seated: set<Family>, before: set<Family>, after: set<Family>)
    requires f in families
    requires forall g :: g in before && g !in seated && g != host ==> g in families && Attends(g, night)
    requires after == before || (Attends(f, night) && (after == before + {f} || after == before + {host} + {f}))
    ensures forall g :: g in after && g !in seated && g != host ==> g in families && Attends(g, night)
  {
  }

  /** The inner loop of `generate_schedule` for one host: walk the family list, seat every
      candidate that fits, opening the table with the first one, and stop at the first candidate
      that fits but is refused. Candidates passed over before the stop did not fit. */
  method HostScan(families: seq<Family>, night: nat, host: Family, dinners: Night, seated: set<Family>)
    returns (dinners': Night, seated': set<Family>, ghost stop: nat)
    requires forall f :: f in families ==> night < |f.attendNights|
    requires host !in dinners && host !in seated
    requires Placed(dinners) && Members(dinners) == seated
    ensures dinners'.Keys == dinners.Keys || dinners'.Keys == dinners.Keys + {host}
    ensures forall h :: h in dinners ==> dinners'[h] == dinners[h]
    ensures Placed(dinners') && Members(dinners') == seated'
    ensures seated <= seated' && (host in seated' ==> host in dinners')
    ensures forall g :: g in seated' && g !in seated && g != host ==> g in families && Attends(g, night)
    ensures stop <= |families|
    ensures forall i :: 0 <= i < stop && Candidate(families[i], host, night, seated') ==>
              Room(dinners', host) < families[i].size
    ensures stop < |families| ==>
              Candidate(families[stop], host, night, seated') && families[stop].size <= Room(dinners', host) &&
              Refused(dinners', host, families[stop])
  {
    dinners', seated' := dinners, seated;
    var j := 0;
    var stopped := false;
    // the `break` on a refusal is the second conjunct of the guard
    while j < |families| && !stopped
      invariant Scanning(families, night, host, dinners, seated, j, dinners', seated')
      invariant stopped ==>
                  j < |families| && Candidate(families[j], host, night, seated') &&
                  families[j].size <= Room(dinners', host) && Refused(dinners', host, families[j])
      decreases |families| - j, if stopped then 0 else 1
    {
      dinners', seated', stopped := ScanNext(families, night, host, dinners, seated, j, dinners', seated');
      if !stopped {
        j := j + 1;
      }
    }
    stop := j;
  }

  /** The state of the inner loop after the first `j` families of the list. */
  ghost predicate Scanning(families: seq<Family>, night: nat, host: Family, dinners: Night, seated: set<Family>,
                           j: nat, dinners': Night, seated': set<Family>)
  {
    && j <= |families|
    && (dinners'.Keys == dinners.Keys || dinners'.Keys == dinners.Keys + {host})
    && (forall h :: h in dinners ==> h in dinners' && dinners'[h] == dinners[h])
    && Placed(dinners') && Members(dinners') == seated'
    && seated <= seated' && (host in seated' ==> host in dinners')
    && (forall g :: g in seated' && g !in seated && g != host ==> g in families && Attends(g, night))
    && forall i :: 0 <= i < j && Candidate(families[i], host, night, seated') ==>
         Room(dinners', host) < families[i].size
  }

  /** The inner loop at the next family of the list. */
  method ScanNext(families: seq<Family>, night: nat, host: Family, dinners: Night, seated: set<Family>,
                  j: nat, cur: Night, curSeated: set<Family>)
    returns (dinners': Night, seated': set<Family>, stopped: bool)
    requires forall f :: f in families ==> night < |f.attendNights|
    requires host !in dinners && j < |families|
    requires Scanning(families, night, host, dinners, seated, j, cur, curSeated)
    ensures !stopped ==> Scanning(families, night, host, dinners, seated, j + 1, dinners', seated')
    ensures stopped ==>
              && Scanning(families, night, host, dinners, seated, j, dinners', seated')
              && Candidate(families[j], host, night, seated') && families[j].size <= Room(dinners', host)
              && Refused(dinners', host, families[j])
  {
    var f := families[j];
    assert f in families;
    dinners', seated', stopped := ScanStep(f, night, host, cur, curSeated);
    NewlySeated(families, night, host, f, seated, curSeated, seated');
    if !stopped {
      ScanPrefix(families, j, night, host, curSeated, seated', Room(cur, host), Room(dinners', host));
    }
  }

  /** What the placement pass keeps for a night while it walks the family list. */
  ghost predicate Placing(families: seq<Family>, night: nat, counts: map<Family, nat>,
                          dinners: Night, hosts: seq<Family>, seated: set<Family>, counts': map<Family, nat>)
  {
    Placed(dinners) && Members(dinners) == seated && Opened(families, night, counts, dinners.Keys, hosts, seated, counts')
  }

  /** The bookkeeping part of Placing, over the set of opened tables: `hosts` lists them in
      opening order, each host may host tonight and was below its limit, every seated family is
      a host or attends, and each host's count went up by one. */
  ghost predicate Opened(families: seq<Family>, night: nat, counts: map<Family, nat>,
                         keys: set<Family>, hosts: seq<Family>, seated: set<Family>, counts': map<Family, nat>)
  {
    && Distinct(hosts) && (forall h :: h in keys <==> h in hosts)
    && (forall h :: h in keys ==>
          h in families && h in counts && night < |h.hostNights| && h.hostNights[night] &&
          h.hostLimit.Some? && counts[h] < h.hostLimit.value)
    && (forall g :: g in seated ==> g in families && (g in keys || Attends(g, night)))
    && counts'.Keys == counts.Keys
    && (forall f :: f in counts ==> counts'[f] == counts[f] + (if f in keys then 1 else 0))
  }

  /** The family may open a table tonight, as the night began: it offers the night and is below
      its host limit. */
  predicate MayHost(f: Family, night: nat, counts: map<Family, nat>)
  {
    night < |f.hostNights| && f.hostNights[night] && f in counts && f.hostLimit.Some? && counts[f] < f.hostLimit.value
  }

  /** Host h's scan, seen from later in the night: every candidate before `stop` that still sits
      nowhere did not fit the room left at h's table, and the family at `stop`, if any, attends,
      is not h, fits the room left and is refused. */
  ghost predicate ScanRecord(families: seq<Family>, night: nat, h: Family, stop: nat, dinners: Night, seated: set<Family>)
  {
    && stop <= |families|
    && (forall i :: 0 <= i < stop && Candidate(families[i], h, night, seated) ==> Room(dinners, h) < families[i].size)
    && (stop < |families| ==>
          Attends(families[stop], night) && families[stop] != h &&
          families[stop].size <= Room(dinners, h) && Refused(dinners, h, families[stop]))
  }

  /** Another host's scan leaves h's table, and so what was found about h's scan, alone. */
  lemma RecordKept(families: seq<Family>, night: nat, h: Family, stop: nat, dinners: Night, seated: set<Family>,
                   dinners': Night, seated': set<Family>, host: Family)
    requires ScanRecord(families, night, h, stop, dinners, seated) && h != host && seated <= seated'
    requires (forall k :: k in dinners ==> k in dinners' && dinners'[k] == dinners[k]) && dinners'.Keys <= dinners.Keys + {host}
    ensures ScanRecord(families, night, h, stop, dinners', seated')
  {
    assert h in dinners' <==> h in dinners;
    assert Room(dinners', h) == Room(dinners, h);
    forall i | 0 <= i < stop && Candidate(families[i], h, night, seated') ensures Room(dinners', h) < families[i].size {
      assert Candidate(families[i], h, night, seated);
    }
  }

  /** What one family's turn did, besides keeping Placing: the scan ran exactly when the family
      may host and sat nowhere yet, and then stopped as ScanRecord says; otherwise nothing changed.
      Either way only the family's own table can be new and the other tables are as they were. */
  ghost predicate Offered(families: seq<Family>, night: nat, counts: map<Family, nat>, host: Family,
                          dinners: Night, seated: set<Family>, dinners': Night, seated': set<Family>,
                          scanned: bool, stop: nat)
  {
    && (scanned <==> MayHost(host, night, counts) && host !in seated)
    && (!scanned ==> dinners' == dinners && seated' == seated)
    && (scanned ==> ScanRecord(families, night, host, stop, dinners', seated'))
    && seated <= seated' && dinners'.Keys <= dinners.Keys + {host}
    && (forall h :: h in dinners ==> h in dinners' && dinners'[h] == dinners[h])
  }

  /** One family's turn in the placement pass: if it can host tonight, sits nowhere yet and is
      below its host limit, its scan runs; the host's count goes up when its table opened.
      `scanned` says whether the scan ran and `stop` where it stopped. */
  method OfferHost(families: seq<Family>, night: nat, counts: map<Family, nat>, host: Family,
                   dinners: Night, hosts: seq<Family>, seated: set<Family>, counts': map<Family, nat>)
    returns (dinners': Night, hosts': seq<Family>, seated': set<Family>, counts'': map<Family, nat>,
             ghost scanned: bool, ghost stop: nat)
    requires host in families
    requires forall f :: f in families ==>
               f in counts && f.hostLimit.Some? && night < |f.attendNights| && night < |f.hostNights|
    requires Placing(families, night, counts, dinners, hosts, seated, counts')
    ensures Placing(families, night, counts, dinners', hosts', seated', counts'')
    ensures Offered(families, night, counts, host, dinners, seated, dinners', seated', scanned, stop)
  {
    dinners', hosts', seated', counts'' := dinners, hosts, seated, counts';
    scanned, stop := false, 0;
    MembersAt(dinners, host);
    if host.hostNights[night] && host !in seated && counts'[host] < host.hostLimit.value {
      scanned := true;
      dinners', seated', stop := HostScan(families, night, host, dinners, seated);
      if host in dinners' {
        counts'' := counts'[host := counts'[host] + 1];
        hosts' := hosts + [host];
        ScanOpened(families, night, counts, host, dinners.Keys, hosts, seated, counts', dinners'.Keys, seated');
      } else {
        ScanClosed(families, night, counts, host, dinners.Keys, hosts, seated, counts', dinners'.Keys, seated');
      }
    }
  }

  /** A scan that opened the host's table: the table joins the opened ones and the count rises. */
  lemma ScanOpened(families: seq<Family>, night: nat, counts: map<Family, nat>, host: Family,
                   keys: set<Family>, hosts: seq<Family>, seated: set<Family>, counts': map<Family, nat>,
                   keys': set<Family>, seated': set<Family>)
    requires host in families && host in counts && night < |host.hostNights| && host.hostNights[night]
    requires Opened(families, night, counts, keys, hosts, seated, counts') && host !in keys
    requires host.hostLimit.Some? && counts'[host] < host.hostLimit.value
    requires keys' == keys + {host} && seated <= seated'
    requires forall g :: g in seated' && g !in seated && g != host ==> g in families && Attends(g, night)
    ensures Opened(families, night, counts, keys', hosts + [host], seated', counts'[host := counts'[host] + 1])
  {
    var hosts' := hosts + [host];
    assert Distinct(hosts') by {
      forall i, j | 0 <= i < j < |hosts'| ensures hosts'[i] != hosts'[j] {
        if j < |hosts| { assert hosts'[i] == hosts[i] && hosts'[j] == hosts[j]; }
        else { assert hosts'[i] in hosts; }
      }
    }
  }

  /** A scan that opened nothing leaves the opened tables as they were. */
  lemma ScanClosed(families: seq<Family>, night: nat, counts: map<Family, nat>, host: Family,
                   keys: set<Family>, hosts: seq<Family>, seated: set<Family>, counts': map<Family, nat>,
                   keys': set<Family>, seated': set<Family>)
    requires Opened(families, night, counts, keys, hosts, seated, counts') && host !in keys'
    requires keys' == keys || keys' == keys + {host}
    requires seated <= seated' && (host in seated' ==> host in keys')
    requires forall g :: g in seated' && g !in seated && g != host ==> g in families && Attends(g, night)
    ensures Opened(families, night, counts, keys', hosts, seated', counts')
  {
  }

  /** The scans of the first `i` families, as far as the night has come: each of them that may
      host and still sits nowhere has its scan's stop in `stops`, and every recorded scan holds
      against the tables and seats as they are now. */
  ghost predicate ScansSoFar(families: seq<Family>, night: nat, counts: map<Family, nat>, i: nat,
                             dinners: Night, seated: set<Family>, stops: map<Family, nat>)
  {
    && i <= |families|
    && (forall k :: 0 <= k < i && MayHost(families[k], night, counts) && families[k] !in seated ==> families[k] in stops)
    && (forall h :: h in stops ==>
          h in families && MayHost(h, night, counts) && ScanRecord(families, night, h, stops[h], dinners, seated))
  }

  /** One more family's turn keeps ScansSoFar: its own scan is recorded when it ran, and the
      records of earlier hosts survive because the new scan touched only its own table. */
  lemma ScansNext(families: seq<Family>, night: nat, counts: map<Family, nat>, i: nat,
                  dinners: Night, seated: set<Family>, stops: map<Family, nat>,
                  dinners': Night, seated': set<Family>, scanned: bool, stop: nat)
    requires i < |families| && ScansSoFar(families, night, counts, i, dinners, seated, stops)
    requires Offered(families, night, counts, families[i], dinners, seated, dinners', seated', scanned, stop)
    ensures ScansSoFar(families, night, counts, i + 1, dinners', seated',
                       if scanned then stops[families[i] := stop] else stops)
  {
    var stops' := if scanned then stops[families[i] := stop] else stops;
    forall h | h in stops'
      ensures h in families && MayHost(h, night, counts) && ScanRecord(families, night, h, stops'[h], dinners', seated')
    {
      if scanned && h != families[i] {
        RecordKept(families, night, h, stops[h], dinners, seated, dinners', seated', families[i]);
      }
    }
    forall k | 0 <= k < i + 1 && MayHost(families[k], night, counts) && families[k] !in seated'
      ensures families[k] in stops'
    {
      if k < i { assert families[k] in stops; }
    }
  }

  /** Every family that may host tonight and was left without a seat scanned, and each recorded
      scan holds against the finished night: it passed only families too large for the room left
      at its table and stopped, if before the end of the list, at a family that fits but is refused. */
  ghost predicate NightScans(families: seq<Family>, night: nat, counts: map<Family, nat>,
                             dinners: Night, stops: map<Family, nat>)
  {
    && (forall f :: f in families && MayHost(f, night, counts) && f !in Members(dinners) ==> f in stops)
    && (forall h :: h in stops ==>
          h in families && MayHost(h, night, counts) && ScanRecord(families, night, h, stops[h], dinners, Members(dinners)))
  }

  /** One night of the placement pass over the (already shuffled) family list: each family in
      turn may open a table if it can host tonight, sits nowhere yet and is below its host limit;
      its scan then fills the table. `hosts` is the order in which tables opened; `stops` records
      where each scan stopped, as NightScans says. */
  method PlaceNight(families: seq<Family>, night: nat, counts: map<Family, nat>)
    returns (dinners: Night, hosts: seq<Family>, counts': map<Family, nat>, ghost stops: map<Family, nat>)
    requires forall f :: f in families ==>
               f in counts && f.hostLimit.Some? && night < |f.attendNights| && night < |f.hostNights|
    ensures Placed(dinners)
    ensures Distinct(hosts) && forall h :: h in dinners <==> h in hosts
    ensures forall h :: h in dinners ==> h in families && h.hostNights[night] && counts[h] < h.hostLimit.value
    ensures forall g :: g in Members(dinners) ==> g in families && (g in dinners || Attends(g, night))
    ensures counts' == Bumped(counts, dinners.Keys)
    ensures NightScans(families, night, counts, dinners, stops)
  {
    dinners, hosts, counts' := map[], [], counts;
    var seated: set<Family> := {};
    stops := map[];
    for i := 0 to |families|
      invariant Placing(families, night, counts, dinners, hosts, seated, counts')
      invariant ScansSoFar(families, night, counts, i, dinners, seated, stops)
    {
      ghost var before, seatedBefore := dinners, seated;
      ghost var scanned, stop;
      dinners, hosts, seated, counts', scanned, stop :=
        OfferHost(families, night, counts, families[i], dinners, hosts, seated, counts');
      ScansNext(families, night, counts, i, before, seatedBefore, stops, dinners, seated, scanned, stop);
      if scanned { stops := stops[families[i] := stop]; }
    }
    BumpedPointwise(counts, dinners.Keys, counts');
    forall f | f in families && MayHost(f, night, counts) && f !in Members(dinners) ensures f in stops {
      var k :| 0 <= k < |families| && families[k] == f;
    }
  }

  /** The tables of every night, sorted after placement: `full` holds, per night and in opening
      order, the hosts with no seat left; `fill` the (night, host) pairs with two or more, in night
      order and then opening order. Tables with exactly one seat left are in neither. */
  method ClassifyNight(dinners: Night, order: seq<Family>) returns (full: seq<Family>, fill: seq<Family>)
    requires Distinct(order) && forall h :: h in dinners <==> h in order
    ensures Distinct(full) && forall h :: h in full <==> h in dinners && Load(dinners[h]) == h.space
    ensures forall h :: h in fill <==> h in dinners && Load(dinners[h]) <= h.space - 2
  {
    full, fill := [], [];
    for i := 0 to |order|
      invariant Distinct(full) && forall h :: h in full ==> h in order[..i]
      invariant forall h :: h in full <==> h in order[..i] && Load(dinners[h]) == h.space
      invariant forall h :: h in fill <==> h in order[..i] && Load(dinners[h]) <= h.space - 2
    {
      var host := order[i];
      assert order[..i + 1] == order[..i] + [host];
      var size := DinnerSize(dinners[host]);
      var room := host.space - size;
      if 0 == room {
        full := full + [host];
      } else if 2 <= room {
        fill := fill + [host];
      }
    }
    assert order[..|order|] == order;
  }

  /** Tag each host of a night's fill list with the night, as the keys of `fill_dinners`. */
  function AtNight(night: nat, hosts: seq<Family>): (r: seq<(nat, Family)>)
    ensures forall e :: e in r <==> e.0 == night && e.1 in hosts
  {
    if hosts == [] then [] else [(night, hosts[0])] + AtNight(night, hosts[1..])
  }

  method Classify(schedule: Schedule, orders: seq<seq<Family>>)
    returns (full: seq<seq<Family>>, fill: seq<(nat, Family)>)
    requires |orders| == |schedule|
    requires forall n :: 0 <= n < |schedule| ==> Distinct(orders[n]) && forall h :: h in schedule[n] <==> h in orders[n]
    ensures |full| == |schedule|
    ensures forall n :: 0 <= n < |full| ==>
              Distinct(full[n]) && forall h :: h in full[n] <==> h in schedule[n] && Load(schedule[n][h]) == h.space
    ensures forall e :: e in fill <==>
              e.0 < |schedule| && e.1 in schedule[e.0] && Load(schedule[e.0][e.1]) <= e.1.space - 2
  {
    full, fill := [], [];
    for n := 0 to |schedule|
      invariant |full| == n
      invariant forall m :: 0 <= m < n ==>
                  Distinct(full[m]) && forall h :: h in full[m] <==> h in schedule[m] && Load(schedule[m][h]) == h.space
      invariant forall e :: e in fill <==>
                  e.0 < n && e.1 in schedule[e.0] && Load(schedule[e.0][e.1]) <= e.1.space - 2
    {
      var fullHere, fillHere := ClassifyNight(schedule[n], orders[n]);
      full := full + [fullHere];
      fill := fill + AtNight(n, fillHere);
    }
  }

  /** A family the donor's table may give: it would leave the receiving table exactly one seat
      short of full, and it is not the donor's host. */
  predicate Qualifies(g: Family, fullHost: Family, fillCap: int)
  {
    fillCap - 1 == g.size && g != fullHost
  }

  /** Why a full table gave nobody: it is not larger than the receiving table, none of its
      families qualifies, or the qualifying family met first clashes with the receiving table. */
  ghost predicate Declined(dinners: Night, fillHost: Family, fillSize: int, fillCap: int, fullHost: Family)
    requires fillHost in dinners && fullHost in dinners
  {
    || Load(dinners[fullHost]) <= fillSize
    || (forall g :: g in dinners[fullHost] ==> !Qualifies(g, fullHost, fillCap))
    || (exists g :: g in dinners[fullHost] && Qualifies(g, fullHost, fillCap) && Clashes(g, dinners[fillHost]))
  }

  /** The scan of one full table for a family to give: only when it is larger than the
      receiving table; the first qualifying family ends the scan, and is given unless it clashes
      with somebody at the receiving table. */
  method BorrowFirst(dinners: Night, fillHost: Family, fillSize: int, fillCap: int, fullHost: Family)
    returns (moved: Option<Family>)
    requires fillHost in dinners && fullHost in dinners && fillSize == Load(dinners[fillHost])
    ensures moved.None? ==> Declined(dinners, fillHost, fillSize, fillCap, fullHost)
    ensures moved.Some? ==>
              fillSize < Load(dinners[fullHost]) && moved.value in dinners[fullHost] &&
              Qualifies(moved.value, fullHost, fillCap) && !Clashes(moved.value, dinners[fillHost])
  {
    moved := None;
    var fullSize := DinnerSize(dinners[fullHost]);
    if fillSize < fullSize {
      var pool := dinners[fullHost];
      var stopped := false;
      // the `break` at the first qualifying family is the second conjunct of the guard
      while pool != {} && !stopped
        invariant pool <= dinners[fullHost]
        invariant !stopped ==> moved.None? && forall g :: g in dinners[fullHost] && g !in pool ==> !Qualifies(g, fullHost, fillCap)
        invariant stopped && moved.None? ==>
                    exists g :: g in dinners[fullHost] && Qualifies(g, fullHost, fillCap) && Clashes(g, dinners[fillHost])
        invariant moved.Some? ==>
                    moved.value in dinners[fullHost] && Qualifies(moved.value, fullHost, fillCap) &&
                    !Clashes(moved.value, dinners[fillHost])
        decreases pool
      {
        var g :| g in pool;
        pool := pool - {g};
        if fillCap - 1 == g.size && g != fullHost {
          stopped := true;
          var repel := FindClash(g, dinners[fillHost]);
          if !repel {
            moved := Some(g);
          }
        }
      }
    }
  }

  /** What rebalancing keeps of a night: the same tables and the same families seated, still
      sound, hosts at their own tables and no table over its space. */
  ghost predicate Rebalanced(before: Night, after: Night)
  {
    && after.Keys == before.Keys && Members(after) == Members(before)
    && Sound(after) && HostsSeated(after) && Fits(after)
  }

  /** A transfer: the receiving table gets a qualifying family of a larger table, one that does
      not clash with anybody there. */
  ghost predicate Transfer(dinners: Night, fillHost: Family, fullHost: Family, g: Family, fillCap: int)
  {
    && fillHost in dinners && fullHost in dinners && fillHost != fullHost
    && g in dinners[fullHost] && Qualifies(g, fullHost, fillCap) && !Clashes(g, dinners[fillHost])
  }

  /** A transfer keeps the night, leaves the receiving table exactly one seat short, and leaves
      the giving table (full before) with as many seats as the family took. */
  lemma TransferKeeps(dinners: Night, fillHost: Family, fullHost: Family, g: Family, fillCap: int)
    requires Transfer(dinners, fillHost, fullHost, g, fillCap)
    requires fillCap == fillHost.space - Load(dinners[fillHost])
    requires Sound(dinners) && HostsSeated(dinners) && Fits(dinners)
    ensures Rebalanced(dinners, Move(dinners, fullHost, fillHost, g))
    ensures Load(Move(dinners, fullHost, fillHost, g)[fillHost]) == fillHost.space - 1
    ensures Load(Move(dinners, fullHost, fillHost, g)[fullHost]) == Load(dinners[fullHost]) - g.size
  {
    RepelsSymmetric(g, g);
    MoveSound(dinners, fullHost, fillHost, g);
    MoveHostsSeated(dinners, fullHost, fillHost, g);
  }

  /** The first `n` full hosts of the walk all declined. */
  ghost predicate AllDeclined(dinners: Night, fillHost: Family, fillSize: int, fillCap: int,
                              fullHosts: seq<Family>, n: nat)
    requires fillHost in dinners && n <= |fullHosts| && forall h :: h in fullHosts ==> h in dinners
  {
    forall j :: 0 <= j < n ==> Declined(dinners, fillHost, fillSize, fillCap, fullHosts[j])
  }

  lemma AllDeclinedNext(dinners: Night, fillHost: Family, fillSize: int, fillCap: int,
                        fullHosts: seq<Family>, n: nat)
    requires fillHost in dinners && n < |fullHosts| && forall h :: h in fullHosts ==> h in dinners
    requires AllDeclined(dinners, fillHost, fillSize, fillCap, fullHosts, n)
    requires Declined(dinners, fillHost, fillSize, fillCap, fullHosts[n])
    ensures AllDeclined(dinners, fillHost, fillSize, fillCap, fullHosts, n + 1)
  {
  }

  /** The walk over the night's full hosts, in shuffled order, until one gives a family. */
  method FindDonor(dinners: Night, fillHost: Family, fillSize: int, fillCap: int, fullHosts: seq<Family>)
    returns (dinners': Night, donor: Option<(Family, Family)>, ghost at: nat)
    requires fillHost in dinners && fillSize == Load(dinners[fillHost]) && fillCap == fillHost.space - fillSize
    requires forall h :: h in fullHosts ==> h in dinners && Load(dinners[h]) == h.space
    requires Sound(dinners) && HostsSeated(dinners) && Fits(dinners)
    ensures Rebalanced(dinners, dinners')
    ensures donor.None? ==>
              dinners' == dinners && forall h :: h in fullHosts ==> Declined(dinners, fillHost, fillSize, fillCap, h)
    ensures donor.Some? ==>
              && Transfer(dinners, fillHost, donor.value.0, donor.value.1, fillCap)
              && dinners' == Move(dinners, donor.value.0, fillHost, donor.value.1)
              && Load(dinners'[fillHost]) == fillHost.space - 1
              && donor.value.0.space - Load(dinners'[donor.value.0]) == donor.value.1.size
              && at < |fullHosts| && fullHosts[at] == donor.value.0
              && forall i :: 0 <= i < at ==> Declined(dinners, fillHost, fillSize, fillCap, fullHosts[i])
  {
    var i := 0;
    var moved: Option<Family> := None;
    // the `if dinner_filled: break` is the second conjunct of the guard
    while i < |fullHosts| && moved.None?
      invariant i <= |fullHosts|
      invariant moved.None? ==> AllDeclined(dinners, fillHost, fillSize, fillCap, fullHosts, i)
      invariant moved.Some? ==>
                  && 0 < i && AllDeclined(dinners, fillHost, fillSize, fillCap, fullHosts, i - 1)
                  && Transfer(dinners, fillHost, fullHosts[i - 1], moved.value, fillCap)
      decreases |fullHosts| - i
    {
      moved := BorrowFirst(dinners, fillHost, fillSize, fillCap, fullHosts[i]);
      if moved.None? {
        AllDeclinedNext(dinners, fillHost, fillSize, fillCap, fullHosts, i);
      }
      i := i + 1;
    }
    if moved.Some? {
      var fullHost := fullHosts[i - 1];
      dinners', donor, at := Move(dinners, fullHost, fillHost, moved.value), Some((fullHost, moved.value)), i - 1;
      TransferKeeps(dinners, fillHost, fullHost, moved.value, fillCap);
    } else {
      dinners', donor, at := dinners, None, i;
      forall h | h in fullHosts ensures Declined(dinners, fillHost, fillSize, fillCap, h) {
        var j :| 0 <= j < |fullHosts| && fullHosts[j] == h;
      }
    }
  }

  /** The number of full tables still on offer, over all nights. */
  function Total(full: seq<seq<Family>>): nat
  {
    if full == [] then 0 else Total(full[..|full| - 1]) + |full[|full| - 1]|
  }

  /** Replacing one night's full list changes the total by the difference in length. */
  lemma {:induction false} TotalUpdate(full: seq<seq<Family>>, n: nat, hosts: seq<Family>)
    requires n < |full|
    ensures Total(full[n := hosts]) == Total(full) - |full[n]| + |hosts|
    decreases |full|
  {
    var last := |full| - 1;
    assert full[n := hosts][..last] == if n == last then full[..last] else full[..last][n := hosts];
    if n < last {
      TotalUpdate(full[..last], n, hosts);
    }
  }

  /** The hosts of a night's full list hold tables with no seat left. */
  ghost predicate AllFull(dinners: Night, hosts: seq<Family>)
  {
    Distinct(hosts) && forall h :: h in hosts ==> h in dinners && Load(dinners[h]) == h.space
  }

  /** The queues of the rebalancing loop point at tables of the schedule, and every full host
      still on offer has no seat left. */
  ghost predicate Queued(now: Schedule, full: seq<seq<Family>>, fill: seq<(nat, Family)>)
  {
    && |full| == |now|
    && (forall n :: 0 <= n < |full| ==> AllFull(now[n], full[n]))
    && (forall e :: e in fill ==> e.0 < |now| && e.1 in now[e.0])
  }

  /** After a transfer, the giving host leaves its night's full list, and is queued when the
      family it gave took two or more seats. */
  lemma RequeueKeeps(now: Schedule, full: seq<seq<Family>>, fill: seq<(nat, Family)>,
                     night: nat, fillHost: Family, fullHost: Family, g: Family, fillCap: int)
    requires Queued(now, full, fill) && night < |now|
    requires Transfer(now[night], fillHost, fullHost, g, fillCap) && Disjoint(now[night])
    requires fillCap == fillHost.space - Load(now[night][fillHost])
    ensures Queued(now[night := Move(now[night], fullHost, fillHost, g)],
                   full[night := Without(full[night], fullHost)],
                   fill + if 1 < g.size then [(night, fullHost)] else [])
  {
    var moved := Move(now[night], fullHost, fillHost, g);
    var rest := Without(full[night], fullHost);
    assert AllFull(now[night], full[night]);
    forall h | h in rest ensures h in moved && Load(moved[h]) == h.space {
      assert h in full[night] && h != fullHost;
      // a table with no seat left cannot be the one receiving
      assert h != fillHost;
      assert moved[h] == now[night][h];
    }
    var now' := now[night := moved];
    var full' := full[night := rest];
    forall n | 0 <= n < |full'| ensures AllFull(now'[n], full'[n]) {
      if n != night {
        assert AllFull(now[n], full[n]);
      }
    }
  }

  /** Rebalancing one night further keeps every night rebalanced. */
  lemma RebalancedUpdate(schedule: Schedule, now: Schedule, night: nat, dinners: Night)
    requires |now| == |schedule| && night < |now|
    requires forall n :: 0 <= n < |schedule| ==> Rebalanced(schedule[n], now[n])
    requires Rebalanced(now[night], dinners)
    ensures forall n :: 0 <= n < |schedule| ==> Rebalanced(schedule[n], now[night := dinners][n])
  {
    assert Rebalanced(schedule[night], now[night]);
  }

  /** The queued table of one pass: its size and seats left, then the walk over its night's
      full hosts in shuffled order. */
  method ServeFill(dinners: Night, fullHosts: seq<Family>, fillHost: Family, rand: nat -> nat, k: nat)
    returns (dinners': Night, donor: Option<(Family, Family)>, k': nat)
    requires fillHost in dinners && AllFull(dinners, fullHosts)
    requires Sound(dinners) && HostsSeated(dinners) && Fits(dinners)
    ensures Rebalanced(dinners, dinners')
    ensures donor.None? ==> dinners' == dinners
    ensures donor.Some? ==>
              && donor.value.0 in fullHosts
              && Transfer(dinners, fillHost, donor.value.0, donor.value.1, fillHost.space - Load(dinners[fillHost]))
              && dinners' == Move(dinners, donor.value.0, fillHost, donor.value.1)
    ensures k' == k + Draws(|fullHosts|)
  {
    var fillSize := DinnerSize(dinners[fillHost]);
    var fillCap := fillHost.space - fillSize;
    var order := Shuffled(fullHosts, rand, k);
    k' := k + Draws(|fullHosts|);
    forall h | h in order ensures h in dinners && Load(dinners[h]) == h.space {
      ShuffledMembers(fullHosts, rand, k, h);
    }
    ghost var at;
    dinners', donor, at := FindDonor(dinners, fillHost, fillSize, fillCap, order);
    if donor.Some? {
      ShuffledMembers(fullHosts, rand, k, donor.value.0);
    }
  }

  /** One pass of the `while fill_dinners` loop: the first queued table looks for a family among
      its night's full tables. A giving table leaves the full list and is queued when it now has
      two or more seats left. */
  method RebalanceStep(schedule: Schedule, now: Schedule, full: seq<seq<Family>>, fill: seq<(nat, Family)>,
                       rand: nat -> nat, k: nat)
    returns (now': Schedule, full': seq<seq<Family>>, fill': seq<(nat, Family)>, k': nat)
    requires |now| == |schedule| && Queued(now, full, fill) && fill != []
    requires forall n :: 0 <= n < |schedule| ==> Rebalanced(schedule[n], now[n])
    ensures |now'| == |schedule| && Queued(now', full', fill')
    ensures forall n :: 0 <= n < |schedule| ==> Rebalanced(schedule[n], now'[n])
    ensures Total(full') < Total(full) || (Total(full') == Total(full) && |fill'| < |fill|)
    ensures k <= k'
  {
    assert fill[0] in fill;
    var night, fillHost := fill[0].0, fill[0].1;
    assert Rebalanced(schedule[night], now[night]) && AllFull(now[night], full[night]);
    var dinners, donor;
    dinners, donor, k' := ServeFill(now[night], full[night], fillHost, rand, k);
    now' := now[night := dinners];
    if donor.Some? {
      var fullHost, g := donor.value.0, donor.value.1;
      RequeueKeeps(now, full, fill[1..], night, fillHost, fullHost, g, fillHost.space - Load(now[night][fillHost]));
      full' := full[night := Without(full[night], fullHost)];
      TotalUpdate(full, night, Without(full[night], fullHost));
      fill' := fill[1..] + if 1 < g.size then [(night, fullHost)] else [];
    } else {
      full', fill' := full, fill[1..];
    }
    RebalancedUpdate(schedule, now, night, dinners);
  }

  /** The rebalancing loop of `generate_schedule`. It ends: every pass pops a queued table, and
      queues one again only after taking its host off the full lists. Each night keeps its tables
      and its families, stays sound, keeps its hosts seated and no table over its space. */
  method Rebalance(schedule: Schedule, full: seq<seq<Family>>, fill: seq<(nat, Family)>, rand: nat -> nat, k: nat)
    returns (schedule': Schedule, k': nat)
    requires Queued(schedule, full, fill)
    requires forall n :: 0 <= n < |schedule| ==>
               Sound(schedule[n]) && HostsSeated(schedule[n]) && Fits(schedule[n])
    ensures |schedule'| == |schedule|
    ensures forall n :: 0 <= n < |schedule| ==> Rebalanced(schedule[n], schedule'[n])
    ensures k <= k'
  {
    schedule', k' := schedule, k;
    var full', fill' := full, fill;
    while fill' != []
      invariant |schedule'| == |schedule| && Queued(schedule', full', fill')
      invariant forall n :: 0 <= n < |schedule| ==> Rebalanced(schedule[n], schedule'[n])
      invariant k <= k'
      decreases Total(full'), |fill'|
    {
      schedule', full', fill', k' := RebalanceStep(schedule, schedule', full', fill', rand, k');
    }
  }

  /** What the builder promises about night n: every key is a family able to host that night
      (attending is not required), every seated family hosts or attends, the night is sound, hosts
      sit at their own tables and no table is over its space. */
  ghost predicate NightKept(families: seq<Family>, n: nat, night: Night)
  {
    && (forall h :: h in night ==> h in families && n < |h.hostNights| && h.hostNights[n])
    && (forall g :: g in Members(night) ==> g in families && (g in night || Attends(g, n)))
    && Sound(night) && HostsSeated(night) && Fits(night)
  }

  /** A night at the end of the placement pass: kept, allergy-free, every table holding two or
      more families, and `order` its hosts in opening order. */
  ghost predicate NightPlaced(families: seq<Family>, n: nat, night: Night, order: seq<Family>)
  {
    && NightKept(families, n, night) && AllergyFree(night) && Pairs(night)
    && Distinct(order) && (forall h :: h in night <==> h in order)
  }

  /** What holds between two nights of the placement pass: the nights placed so far are placed,
      `host_counts` counts the nights each family hosts, and none is over its host limit. */
  ghost predicate Placement(families: seq<Family>, schedule: Schedule, orders: seq<seq<Family>>,
                            counts: map<Family, nat>)
  {
    && |orders| == |schedule|
    && (forall n :: 0 <= n < |schedule| ==> NightPlaced(families, n, schedule[n], orders[n]))
    && (forall f :: f in counts <==> f in families)
    && (forall f :: f in counts ==> counts[f] == HostNights(schedule, f))
    && (forall f :: f in counts ==> f.hostLimit.Some? && (counts[f] == 0 || counts[f] <= f.hostLimit.value))
  }

  lemma PlacedFill(families: seq<Family>, schedule: Schedule, orders: seq<seq<Family>>, night: nat,
                   dinners: Night, hosts: seq<Family>, s': Schedule, o': seq<seq<Family>>)
    requires |orders| == |schedule| && night < |schedule|
    requires forall n :: 0 <= n < |schedule| ==> NightPlaced(families, n, schedule[n], orders[n])
    requires NightPlaced(families, night, dinners, hosts)
    requires s' == schedule[night := dinners] && o' == orders[night := hosts]
    ensures forall n :: 0 <= n < |s'| ==> NightPlaced(families, n, s'[n], o'[n])
  {
    forall n | 0 <= n < |s'| ensures NightPlaced(families, n, s'[n], o'[n]) {
      if n != night {
        assert s'[n] == schedule[n] && o'[n] == orders[n];
      }
    }
  }

  /** Placing an empty night keeps Placement, with the counts bumped for its hosts. */
  lemma PlacementFill(families: seq<Family>, schedule: Schedule, orders: seq<seq<Family>>,
                      counts: map<Family, nat>, night: nat, dinners: Night, hosts: seq<Family>,
                      counts': map<Family, nat>)
    requires Placement(families, schedule, orders, counts)
    requires night < |schedule| && schedule[night] == map[]
    requires NightPlaced(families, night, dinners, hosts)
    requires forall h :: h in dinners ==> h in counts && counts[h] < h.hostLimit.value
    requires counts' == Bumped(counts, dinners.Keys)
    ensures Placement(families, schedule[night := dinners], orders[night := hosts], counts')
  {
    PlacedFill(families, schedule, orders, night, dinners, hosts, schedule[night := dinners], orders[night := hosts]);
    CountsFill(schedule, counts, night, dinners, counts');
  }

  /** The placement pass leaves a night placed, stated over the roster in its original order. */
  lemma PlaceNightPlaced(families: seq<Family>, current: seq<Family>, n: nat, dinners: Night, hosts: seq<Family>)
    requires forall f :: f in current <==> f in families
    requires Placed(dinners)
    requires Distinct(hosts) && forall h :: h in dinners <==> h in hosts
    requires forall h :: h in dinners ==> h in current && n < |h.hostNights| && h.hostNights[n]
    requires forall g :: g in Members(dinners) ==> g in current && (g in dinners || Attends(g, n))
    ensures NightPlaced(families, n, dinners, hosts)
  {
  }

  /** Rebalancing keeps what the builder promises about a night. */
  lemma KeptRebalanced(families: seq<Family>, n: nat, before: Night, after: Night)
    requires NightKept(families, n, before) && Rebalanced(before, after)
    ensures NightKept(families, n, after)
  {
  }

  /** Before the first night, nothing is placed and every count is zero. */
  lemma PlacementStart(families: seq<Family>, count: nat, counts: map<Family, nat>)
    requires forall f :: f in families ==> f.hostLimit.Some?
    requires counts == map f | f in families :: 0
    ensures Placement(families, EmptySchedule(count), seq(count, _ => []), counts)
  {
    var schedule := EmptySchedule(count);
    forall f | f in counts ensures counts[f] == HostNights(schedule, f) {
      assert (set i | 0 <= i < |schedule| && f in schedule[i]) == {};
    }
  }

  lemma MultisetMembers<T>(s: seq<T>, t: seq<T>)
    requires multiset(s) == multiset(t)
    ensures forall x :: x in s <==> x in t
  {
    forall x ensures x in s <==> x in t {
      assert x in s <==> x in multiset(s);
      assert x in t <==> x in multiset(t);
    }
  }

  /** The placement pass over all nights, in the given order; the caller's family list is
      shuffled in place before each night. */
  method PlaceAll(a: array<Family>, nights: seq<nat>, count: nat, rand: nat -> nat, k: nat)
    returns (schedule: Schedule, orders: seq<seq<Family>>, counts: map<Family, nat>, k': nat)
    modifies a
    requires WellFormed(a[..]) && count == NightCount(a[..]) && forall f :: f in a[..] ==> f.hostLimit.Some?
    requires |nights| == count && Distinct(nights) && forall t :: 0 <= t < count ==> nights[t] < count
    ensures multiset(a[..]) == multiset(old(a[..]))
    ensures |schedule| == count && k <= k'
    ensures Placement(old(a[..]), schedule, orders, counts)
  {
    ghost var families := a[..];
    counts := map f | f in a[..] :: 0;
    schedule := EmptySchedule(count);
    orders := seq(count, _ => []);
    k' := k;
    PlacementStart(families, count, counts);
    for t := 0 to |nights|
      invariant multiset(a[..]) == multiset(families)
      invariant |schedule| == count && k <= k'
      invariant forall i :: t <= i < count ==> schedule[nights[i]] == map[]
      invariant Placement(families, schedule, orders, counts)
    {
      var night := nights[t];
      k' := ShuffleInPlace(a, rand, k');
      MultisetMembers(a[..], families);
      ghost var stops;
      var dinners, hosts, counts';
      dinners, hosts, counts', stops := PlaceNight(a[..], night, counts);
      PlaceNightPlaced(families, a[..], night, dinners, hosts);
      PlacementFill(families, schedule, orders, counts, night, dinners, hosts, counts');
      schedule, orders, counts := schedule[night := dinners], orders[night := hosts], counts';
    }
  }

  /** `generate_schedule` of the first scheduler. Nights are visited in shuffled order, and the
      caller's family list is shuffled in place before each night (it stays a permutation of
      itself); then tables are sorted and rebalanced across all nights. Every night is kept, and
      no family hosts more nights than its host limit. */
  method GenerateSchedule(a: array<Family>, rand: nat -> nat, k: nat) returns (schedule: Schedule, k': nat)
    modifies a
    requires WellFormed(a[..]) && forall f :: f in a[..] ==> f.hostLimit.Some?
    ensures multiset(a[..]) == multiset(old(a[..]))
    ensures |schedule| == NightCount(old(a[..]))
    ensures forall n :: 0 <= n < |schedule| ==> NightKept(old(a[..]), n, schedule[n])
    ensures forall f :: f in old(a[..]) ==> HostNights(schedule, f) == 0 || HostNights(schedule, f) <= f.hostLimit.value
    ensures k <= k'
  {
    ghost var families := a[..];
    var count := |a[0].attendNights|;
    var nights := Shuffled(Range(count), rand, k);
    k' := k + Draws(count);
    ShuffledRange(count, rand, k, nights);
    var placed, orders, counts;
    placed, orders, counts, k' := PlaceAll(a, nights, count, rand, k');
    var full, fill := Classify(placed, orders);
    schedule, k' := Rebalance(placed, full, fill, rand, k');
    forall n | 0 <= n < |schedule| ensures NightKept(families, n, schedule[n]) {
      assert NightPlaced(families, n, placed[n], orders[n]);
      KeptRebalanced(families, n, placed[n], schedule[n]);
    }
    forall f | f in families ensures HostNights(schedule, f) == 0 || HostNights(schedule, f) <= f.hostLimit.value {
      HostNightsKeys(placed, schedule, f);
    }
  }
}
