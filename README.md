# saltshaker in Dafny

saltshaker plans a series of group dinners. A roster of families says, for every night, whether
each family wants to eat and whether it can host. For each family it also gives:

- how many people it brings (`size`);
- how many it can seat at home (`space`);
- how many nights at most it would like to host (`host_limit`);
- allergy, allergen, acquaintance and repel tags.

A schedule maps every night to its dinners, each a host with the set of families at its table.
The repository holds three generations of the scheduler. This project models all three:

- **`saltshaker.py`** is the prototype, module `Prototype`. Each night it shuffles the family
  list. Every family that offers the night and is not seated yet opens a table, then scans the
  list for guests. An allergy or a repel ends the scan.
- **`schedule.py`** is the first scheduler, module `Build1`:
  - hosts open a table with their first guest;
  - after all nights are placed, part-filled tables borrow a family from full ones across the
    whole schedule.
- **`schedule2.py`** is the second scheduler, module `Build2`. It builds each night in phases:
  1. it picks hosts until the seats offered cover the families attending;
  2. it seats guests host by host;
  3. it packs part-filled tables into each other;
  4. it places the families still unseated;
  5. it rebalances, moving a family from a full table to one that would then be one seat short.

The other modules:

- **`Scoring`** models both `score` functions. Module `Sums` supplies the sums and maxima they
  are specified with.
- **`Diagnostics`** models `count_meals` and the starved count of `find_starved_family`, which
  are the same in both schedulers.
- **`Search`** models the loops around the second builder. `find_schedule` keeps a run only when
  it scores strictly higher. `main` keeps the first best of the workers' results.
- **`Roster`** holds the `Family` record.
- **`Dinners`** holds a night's dinners and the hard constraints on them.
- **`Schedules`** holds host counting.
- **`Shuffle`** models `random.shuffle`, the Fisher–Yates shuffle driven by a stream of draws.

How the Python is modelled:

- **Families.** `Family` compares and hashes by email (`schedule2.py:53-61`). The model uses
  record equality and requires a roster with unique emails. `Roster.SameFamilyIsEquality` shows
  that the two agree there.
- **Nights.** A night is a `map<Family, set<Family>>`.
- **Iteration order.** Where the source iterates over a set or a dict, the model picks any
  element with `:|`. Where dict insertion order matters (the `fill_dinners` queue), the keys
  are kept as a sequence.
- **`break`.** A `break` is a `stopped` conjunct in the loop guard.
- **Randomness.** The `random` module is a draw stream `rand: nat -> nat`, read from a position
  `k` that each method returns advanced.
- **Time budget.** `find_schedule`'s wall-clock budget is a number of extra `rounds`.

What is proved:

- Every night either scheduler builds keeps the hard constraints:
  - nobody sits at two tables;
  - no two families at a table share a repel tag;
  - no table holds more people than its host's `space`, whenever the host itself fits there;
  - hosts offer the night, and guests attend it;
  - in `schedule.py`, also no guest allergic to the home, hosts at their own tables, and at
    least two families per table after placement;
  - nobody hosts more nights than its host limit.
- The scores computed by the loops equal their closed-form definitions.
- The counting loops equal their definitions, and no more family-nights can starve than were
  requested.
- In the prototype, a host's scan passes over a candidate only when it does not fit the room
  left, and stops at the first candidate that is refused. Every host that offers the night and
  is still unassigned at the end had such a scan. The same holds for the placement pass of
  `schedule.py`, for every family that may host and is left without a seat.
- In `schedule2.py`, every attending family left out by the guest pass was turned away by every
  host. While packing has not filled a receiving table, every family left at each other table
  was allergic, too big for the room left or clashed with the receiver's guests. A rebalance
  step takes its donor from the first full table, in the shuffled order, that can give, and
  leaves the night unchanged when none can.
- The search returns the first schedule of highest score among all it generated. The scores it
  adopted along the way are the strict running maxima of the scores, from the first to the
  highest.

## Model

| member | source | states |
|---|---|---|
| Roster.SameFamilyIsEquality | schedule2.py:53-61 | in a roster with unique emails, two records are the same family (equal emails) exactly when they are equal |
| Roster.WellFormedPermutation | schedule.py:205 | shuffling the roster in place keeps it well formed and keeps the number of nights |
| Shuffle.ShuffleInPlace | schedule.py:205 | the shuffled array is the Fisher–Yates permutation of its old contents for the draws read, and the draw position advances by `Draws(len)`: one draw per swap, `len - 1` for a non-empty list and none for an empty one |
| Shuffle.Shuffled | schedule2.py:201 | a shuffle keeps the length and the multiset of its input |
| Shuffle.ShuffledMembers | schedule2.py:336 | a shuffled list holds exactly the elements of the original |
| Schedules.ShuffledRange | schedule2.py:199-201 | the shuffled night order visits every night exactly once |
| Schedules.CountsFill | schedule2.py:218-223 | bumping `host_counts` for the hosts of a newly filled night keeps every count equal to the nights that family hosts |
| Dinners.DinnerSize | schedule2.py:262 | the loop's total is the number of people at the table |
| Dinners.FindClash | schedule2.py:239-243 | the repel loop answers true exactly when the family shares a repel tag with somebody at the table |
| Dinners.Open | schedule2.py:221 | a new table holds only its host; the other tables are unchanged and the host joins the seated families |
| Dinners.Seat | schedule2.py:247 | adding a guest changes only that table, and the guest joins the seated families |
| Dinners.Move | schedule2.py:357-358 | moving a family between tables keeps the set of seated families and changes only the two tables |
| Dinners.SeatSound | schedule2.py:229-249 | seating an unseated guest that clashes with nobody and fits keeps the night sound: no double seating, no repel pair, no overfull table |
| Dinners.MoveSound | schedule2.py:343-366 | moving a family that clashes with nobody at its new table and fits keeps the night sound, and the two loads change by its size |
| Dinners.SeatAllergyFree | schedule2.py:231-235 | seating a guest that is not allergic to the home keeps every table allergy-free |
| Prototype.ByEmailUnique | saltshaker.py:91-95 | with unique emails, looking up a listed family's email finds that family |
| Prototype.Lookup | saltshaker.py:91-95 | the lookup loop returns the first family with the email |
| Prototype.ListedAppend | saltshaker.py:78 | with unique emails, listing one more family raises the counted size by exactly its size |
| Prototype.RepelScan | saltshaker.py:89-100 | the repel verdict is true exactly when somebody at the table, the host included, shares a repel tag with the family; the loop does not stop at the first match |
| Prototype.AppendKeeps | saltshaker.py:102-104 | appending a guest that passed the attend, allergy, capacity and repel checks keeps every table well built and no guest at two tables |
| Prototype.SeatKeeps | saltshaker.py:102-104 | appending a fitting guest that passed the checks keeps the night well built, only grows the host's table, takes exactly the guest's size from the room left, and puts guest and host at a table |
| Prototype.OfferKeeps | saltshaker.py:74-104 | whatever one offer decides, the night stays well built, only the host's table changes and only grows, the room left never grows, every newly assigned email sits at a table, and a stop is a refusal of an unassigned candidate |
| Prototype.Offer | saltshaker.py:74-104 | one turn of a host's scan decides as the source does: a family that is not an unassigned attending non-host fitting the room left is passed over; a fitting one allergic to the home or repelled by somebody at the table ends the scan with the host's table open; any other is appended and it and the host become assigned; what the offer keeps holds as well |
| Prototype.SkippedStep | saltshaker.py:74-80 | an offer that does not stop the scan leaves every candidate before and at it that is still unassigned too large for the room left |
| Prototype.HostScan | saltshaker.py:72-104 | the scan keeps the night well built and only grows the host's table; it ends at the first refusal, if any; every candidate before that point still unassigned at the end did not fit the room left; everyone it assigned sits at a table |
| Prototype.ScannedElsewhere | saltshaker.py:68-72 | a later host's scan leaves an earlier host's table, and so what was found about its scan, unchanged |
| Prototype.ServeNight | saltshaker.py:65-104 | every table of a night starts with a host that offers the night and lists no email twice; its people fit the host's space; every guest attends, is not allergic to the home and repels nobody listed before it; no guest sits at two tables; every host that offers the night and is not assigned in the end scanned the list, passing over only candidates that did not fit, and stopped, if at all, at one blocked by allergy or a repel |
| Prototype.GenerateSchedule | saltshaker.py:62-106 | one table map per night; each night is well built for the family list as shuffled for that night, which is a permutation of the roster |
| Build1.Join | schedule.py:241-254 | seating a family at an open table keeps the night placed and takes exactly its size from the seats left |
| Build1.OpenWith | schedule.py:235-254 | opening a table with its first guest keeps the night placed and seats both host and guest |
| Build1.ScanStep | schedule.py:213-254 | one family of a host's scan is seated, skipped, or ends the scan; it ends the scan only when it is a candidate with room that is allergic or repelled |
| Build1.HostScan | schedule.py:212-254 | the scan keeps the night placed; every candidate before the stopping point was too large for the seats left; the family at the stopping point, if any, was refused |
| Build1.OfferHost | schedule.py:206-254 | one host of the night keeps the placement state: the night placed, hosts distinct and eligible, counts bumped for the opened tables; the scan runs exactly when the family offers the night, is below its limit and sits nowhere yet, and then passes only candidates too large for the room left and stops, if at all, at a fitting refused one; otherwise nothing changes; other tables stay as they were |
| Build1.RecordKept | schedule.py:206-254 | another host's scan changes neither this host's table nor its room, so what was found about this host's scan still holds once more families are seated |
| Build1.ScansNext | schedule.py:206-254 | after each family's turn, every family so far that may host and sits nowhere has a recorded scan, and every recorded scan holds against the night as it now is |
| Build1.PlaceNight | schedule.py:204-254 | a night after placement is sound and allergy-free; hosts sit at their tables; every table has two or more families and is within space; hosts offer the night and are below their limit; guests attend; every family that may host and was left without a seat scanned, and its scan passed only families too large for its room and stopped, if before the end of the list, at a family that fits but is refused, judged against the finished night |
| Build1.ClassifyNight | schedule.py:258-273 | a night's full tables are exactly those with no seat left, and its fill tables exactly those with two or more seats left |
| Build1.Classify | schedule.py:258-273 | the full lists and the fill queue over all nights hold exactly the tables of each kind |
| Build1.BorrowFirst | schedule.py:288-315 | a full table gives a family only when it is larger than the receiving table and the first qualifying family met clashes with nobody there; otherwise it declined |
| Build1.TransferKeeps | schedule.py:306-312 | a transfer keeps the night rebalanced and leaves the receiving table exactly one seat short |
| Build1.FindDonor | schedule.py:286-318 | the walk over full tables stops at the first table that gives; every earlier one declined; with no donor, the night is unchanged |
| Build1.ServeFill | schedule.py:277-318 | one queued table of the rebalance loop keeps its night rebalanced, and any transfer came from one of that night's full tables |
| Build1.RequeueKeeps | schedule.py:307-312 | after a transfer the donor leaves the full list and is queued when its family took two or more seats, and the queues stay consistent |
| Build1.RebalanceStep | schedule.py:277-318 | one pass keeps every night rebalanced and shrinks the full lists or the queue |
| Build1.Rebalance | schedule.py:276-318 | rebalancing keeps every night's tables, seated families, soundness, hosts at their tables and space bounds |
| Build1.PlaceAll | schedule.py:200-254 | the placement pass leaves every night placed, the host counts equal to the nights hosted, and nobody above its host limit |
| Build1.GenerateSchedule | schedule.py:195-320 | every night's hosts offer that night; guests attend; the night is sound with hosts seated and within space; nobody hosts more nights than its limit; the caller's list is permuted in place |
| Build2.Attending | schedule2.py:205-210 | the families of the night are exactly the roster families attending it |
| Build2.FamiliesTonight | schedule2.py:205-210 | the loop collects the attending families in roster order and the seats they need |
| Build2.OpenAdd | schedule2.py:218-224 | opening a family that passes the host test keeps the selection state: the test against the running counts is its eligibility as the night began, it joins the hosts with a dinner of its own, its count rises by one and the seats still needed drop by its space |
| Build2.OpenSkip | schedule2.py:218-219 | passing over a family that fails the host test keeps the selection state, since it is not eligible |
| Build2.OpenHosts | schedule2.py:216-226 | the hosts are the eligible families of the shuffled list, in order, up to the first point where the seats offered cover the seats needed, each at a table of its own |
| Build2.SeatingSkip | schedule2.py:233-245 | passing over a family already seated or turned away by the host keeps the guest-loop state at that host |
| Build2.SeatingSeat | schedule2.py:247-249 | seating a fitting, non-allergic family that clashes with nobody keeps the night sound and allergy-free, takes its size from the room left, and keeps every family passed over turned away |
| Build2.SeatAt | schedule2.py:229-249 | the guest pass at one host keeps the night sound and allergy-free; every family attending and left unseated was turned away for allergy, room or a repel |
| Build2.SeatNext | schedule2.py:229-249 | after one more host's pass, every attending family still unseated was turned away, for allergy, room or a repel, by each host passed so far |
| Build2.SeatGuests | schedule2.py:228-249 | after the guest pass every host still sits at its table and the night is sound and allergy-free; every attending family left unseated was turned away by every host, for allergy, room or a repel |
| Build2.Unassigned | schedule2.py:252-255 | the unassigned families are exactly those attending and not seated |
| Build2.Classify | schedule2.py:259-269 | full hosts are exactly those with no seat left and fill hosts exactly the others |
| Build2.StaysPutMore | schedule2.py:285-295 | a family that stayed at its table because of allergy, room or a repel still stays when the receiver has less room and more guests |
| Build2.PackFrom | schedule2.py:284-301 | packing from one table keeps the seated families and soundness, and removes the receiver from the fill list only when it has become full; the receiver's room only shrinks and its guests stay; while the receiver is not full, every family left at the giving table was there before and was allergic, too big for the room left or clashed with the receiver's table |
| Build2.PackedMore | schedule2.py:284-301 | drawing from a later table leaves an earlier giving table as it was and only shrinks the receiver's room, so the earlier stay-put finding still holds |
| Build2.PackNext | schedule2.py:278-303 | one more giving table keeps the packing state: only fill tables changed, the receiver's room is tracked, tables not yet visited are as they were, and, while the receiver is not full, every family left at each visited table stays put |
| Build2.PackInto | schedule2.py:276-303 | packing into one table leaves it full or keeps it in the fill list, changing only fill tables; while it is not full, every family left at every other fill table was allergic, too big for the room left or clashed with the receiver's table |
| Build2.Pack | schedule2.py:275-303 | the packing pass keeps the tables, the seated families, soundness and allergy-freedom; every table dropped from the fill list is full; when the last receiving table is not full, every family at every other table still in the fill list stays put against it, for allergy, room or a repel |
| Build2.SettledBy | schedule2.py:278-303 | a receiving pass that leaves its table short of full leaves every family at every other fill table staying put against it |
| Build2.PlacingSkip | schedule2.py:310-320 | passing over a family the table turns away keeps the placement state at that table |
| Build2.PlacingSeat | schedule2.py:321-325 | seating a fitting family that clashes with nobody keeps the night sound and allergy-free, keeps every earlier turned-away family turned away, and drops the table from the fill list exactly when it becomes full |
| Build2.PlaceAt | schedule2.py:307-325 | placing at one table seats unassigned families only, and every family still unassigned was turned away by that table |
| Build2.PlaceUnassigned | schedule2.py:306-325 | every family left unassigned was turned away by every fill table; the placement keeps soundness and seats no one twice |
| Build2.Borrow | schedule2.py:343-366 | a full table hands over the first donatable family, leaving the receiver one seat short, or none when no family is donatable |
| Build2.FindDonor | schedule2.py:337-369 | the first full table of the walk that gives hands a family over; all earlier ones could not give; with no donor the night is unchanged |
| Build2.Refill | schedule2.py:329-369 | one receiving table of the rebalance loop keeps the tables, the seated families and soundness; the full tables are walked in the shuffled order; with no donor the night is unchanged and no full table could give; with a donor it is the first full table in that order that can give, the move is exactly one donatable family and leaves the receiver one seat short |
| Build2.Rebalance | schedule2.py:328-369 | rebalancing keeps the tables, the seated families and soundness, and changes only fill and full tables |
| Build2.NightBuild | schedule2.py:203-369 | a built night's hosts attend, offer the night and were below their limits; its guests attend; it is sound; the host counts are bumped for its hosts |
| Build2.GenerateSchedule | schedule2.py:194-371 | every night is valid for the roster and nobody hosts more nights than its host limit |
| Scoring.HostsCounted | schedule2.py:155-162 | `host_counts` has a key exactly for the families that host at least once |
| Scoring.HostingsTotal | schedule2.py:179 | `sum(host_counts.values())` is the number of tables |
| Scoring.MetDiners | schedule2.py:164-168 | every seated family meets itself, and a family never seated meets nobody |
| Scoring.Tally | schedule2.py:155-168 | the tally loops compute the small-table count, the meals, `host_counts` and `meets` of their definitions |
| Scoring.SumValues | schedule2.py:179 | the loop adds up every value of the dict |
| Scoring.MaxValue | schedule.py:174 | the result is the largest value of the dict, and some key holds it |
| Scoring.CountAcquainted | schedule2.py:184-186 | the count is the number of families met that share an acquaintance tag |
| Scoring.AddMeetings | schedule2.py:181-186 | the last loop adds every family's meetings less its acquaintances |
| Scoring.Score2 | schedule2.py:143-188 | schedule2.py's score is 128 per seated family, less 8 per table, plus the meeting terms |
| Scoring.Score1 | schedule.py:144-189 | schedule.py's score is schedule2.py's, less 512 per table under three families and 32 times the most nights anyone hosts |
| Scoring.ValueNoTables | schedule2.py:143-188 | a schedule without tables scores 0 |
| Scoring.MixingNonNegative | schedule2.py:181-186 | the meeting terms never go negative, so a schedule scores at least 128 per seated family less 8 per table |
| Scoring.Value1Below | schedule.py:160-174 | schedule.py scores any schedule with a table at least 32 below schedule2.py |
| Diagnostics.CountTrue | schedule2.py:426 | the count is the number of requested nights |
| Diagnostics.CountMeals | schedule2.py:423-427 | count_meals is the total of requested nights over the family list |
| Diagnostics.IsServed | schedule2.py:439-442 | the family is served exactly when some table of the night holds it |
| Diagnostics.CountMissed | schedule2.py:434-445 | the count is the family's requested nights at which no table holds it |
| Diagnostics.StarvedCount | schedule2.py:429-448 | the starved count is the sum of missed nights, and never exceeds count_meals |
| Diagnostics.StarvedFew | schedule.py:372-397 | no more family-nights starve than were requested |
| Diagnostics.NoneStarved | schedule2.py:429-448 | when every family sits somewhere on each night it asks for, nobody starves |
| Diagnostics.AllStarved | schedule2.py:429-448 | with no tables at all, every requested family-night starves |
| Search.Attempt | schedule2.py:394-395 | one run returns a schedule that meets the builder's guarantees (valid nights, host limits), with its score |
| Search.RecordsSnoc | schedule2.py:396-398 | one more score is adopted exactly when it is strictly higher than the last adopted |
| Search.RecordsRise | schedule2.py:391-398 | the adopted scores rise strictly, begin with the first score, end with the highest, and are all among the scores |
| Search.RoundKeeps | schedule2.py:394-398 | a round keeps the search state whichever way its comparison goes |
| Search.Round | schedule2.py:390-398 | a round keeps the search state: the schedule in hand is the first of highest score so far; the new schedule replaces it, and its score is adopted, exactly when it scores strictly higher |
| Search.FindSchedule | schedule2.py:376-415 | after the runs, the result is the first generated schedule of highest score; every tried schedule meets the builder's guarantees; the adopted scores are the strict running maxima of the scores, rising from the first to the highest |
| Search.BestOf | schedule2.py:495-501 | main keeps the first schedule of highest score among the workers' results; it is one of them and no result scores higher |
| Search.Highest | schedule2.py:495-501 | the schedule at the first highest score scores at least as high as every schedule of the list and strictly higher than every earlier one |
| Search.FirstMaxUnique | schedule2.py:396-398 | the position of the first highest score is unique, so both selection loops find the same schedule |

## Left out

- Reading and writing CSV, logging, `summery`, argument parsing, `multiprocessing` and its
  queue are left out. `Search.BestOf` takes the workers' results as a list.
- The wall-clock budget of `find_schedule` (`schedule2.py:390-410`) is modelled as a number of
  extra rounds. The clock itself is left out. The source checks the clock once every 1001
  rounds, so it runs a multiple of 1001 rounds. The model allows any number, which covers
  those.
- `random` is modelled as a draw stream. Nothing is claimed about the distribution of the
  shuffles.
- `cost` and `simulated_annealing` in `saltshaker.py:47-60,109-125` work on floating point and
  are not part of this model. The same goes for `tests.py`.
- The commented-out penalty terms of both `score` functions are left out, as in the source.
- `schedule.py`'s `find_schedule` and `main` (`schedule.py:325-364,399-462`) are not modelled
  separately. They have the same structure as `schedule2.py`'s, which `Search` models.
- Build2.Rebalance: does not promise allergy-freedom. Rebalancing moves a family without
  checking its allergies against the new home (`schedule2.py:343-366`), so none can be proved.
- Build1.Rebalance: does not promise allergy-freedom, for the same reason (`schedule.py:292-315`).
- Build2.Pack: does not promise that hosts sit at their own tables. Packing may move a table's
  own host into another table (`schedule2.py:284-301`).
- Build2.NightBuild: the space bound holds only for tables whose host fits in its own home
  (`host.size <= host.space`). A host is seated before any capacity check.
- Build2.NightBuild: requires every family size to be at least 1. With a zero-size family,
  placement can seat it and fill a table in the same step. `del fill_dinners[fill_host]` then
  runs twice and raises `KeyError` (`schedule2.py:320-325`).
- Build1.GenerateSchedule: requires every `host_limit` to be set. `schedule.py`'s reader always
  parses it as an integer (`schedule.py:76`), and its comparison would fail on `None`.
- Diagnostics.StarvedCount: requires every requested night to be a night of the schedule.
  Otherwise `schedule[night]` raises `IndexError` (`schedule2.py:439`).
- Scoring.Score1: requires at least one table, because `max()` of an empty `host_counts` raises.
- Prototype.GenerateSchedule, Build1.GenerateSchedule, Build2.GenerateSchedule, Search.Attempt,
  Search.Round, Search.FindSchedule: require a non-empty roster. With no families the source
  raises `IndexError` at `families[0]` (`saltshaker.py:63`, `schedule.py:200`,
  `schedule2.py:199`); the model does not model the exception.
- Prototype.GenerateSchedule, Build1.GenerateSchedule, Build2.GenerateSchedule, Search.Attempt,
  Search.Round, Search.FindSchedule: require every family's `attend_nights` and `host_nights`
  to have exactly as many entries as the first family's. The source reads only the first that
  many, so it accepts longer lists; shorter ones raise `IndexError` (`schedule.py:214`,
  `schedule2.py:208`).
- Prototype.GenerateSchedule, Build1.GenerateSchedule, Build2.GenerateSchedule, Search.Attempt,
  Search.Round, Search.FindSchedule: family sizes are natural numbers. The reader accepts any
  integer (`schedule2.py:72`); a negative size is not modelled.
- Prototype.GenerateSchedule, Build1.GenerateSchedule, Build2.GenerateSchedule, Search.Attempt,
  Search.Round, Search.FindSchedule: require unique emails. In the source two rows with the
  same email are one family for `==`, sets and dicts (`schedule2.py:53-61`) but two entries of
  the list; such rosters are not modelled.
- Build2.PlaceAt, Build2.PlaceUnassigned, Build2.GenerateSchedule, Search.Attempt, Search.Round,
  Search.FindSchedule: require every family size to be at least 1, for the reason given for
  Build2.NightBuild above.
- Search.BestOf: requires at least one result. With none, `schedules[0]` raises `IndexError`
  (`schedule2.py:495`), which happens when `-p 0` asks for no workers (`schedule2.py:484`).
- Dict insertion order is kept only where the result depends on it: the fill queues and the
  host order. Elsewhere a night is a map, and iteration picks any element.
- Prototype.GenerateSchedule: the host is not added to `assigned` when its table opens, and the
  table opens before the allergy check (`saltshaker.py:81-86`). A host can therefore sit alone
  at its table and also as a guest at another. The model keeps this behaviour and promises
  nothing against it.
