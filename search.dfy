// The search around schedule2.py's builder: find_schedule keeps the best of repeated
// generate_schedule runs, and main keeps the best of the workers' results. Both replace the
// schedule in hand only on a strictly higher score, so ties go to the earliest.

module Search {
  import opened Roster
  import opened Schedules
  import opened Scoring
  import Build2

  /** A schedule that meets what schedule2.py's generate_schedule guarantees for the roster:
      one valid night per night of the roster, and no family over its host limit. It does not
      pin down which such schedule the builder returns. */
  ghost predicate Generated(families: seq<Family>, s: Schedule)
    requires WellFormed(families)
  {
    && |s| == NightCount(families)
    && (forall n :: 0 <= n < |s| ==> Build2.NightValid(families, n, s[n]))
    && forall f :: f in families && f.hostLimit.Some? ==>
         HostNights(s, f) == 0 || HostNights(s, f) <= f.hostLimit.value
  }

  /** `xs[at]` is the highest of all, and every earlier one is strictly lower. */
  predicate FirstMax(xs: seq<int>, at: nat)
  {
    && at < |xs|
    && (forall i :: 0 <= i < |xs| ==> xs[i] <= xs[at])
    && (forall i :: 0 <= i < at ==> xs[i] < xs[at])
  }

  /** `scores` are the scores of the first schedules, in order. */
  ghost predicate Scored(schedules: seq<Schedule>, scores: seq<int>)
  {
    |scores| <= |schedules| && forall i :: 0 <= i < |scores| ==> scores[i] == Value2(schedules[i])
  }

  /** The scores of all the schedules, in order. */
  ghost predicate ScoresOf(schedules: seq<Schedule>, scores: seq<int>)
  {
    |scores| == |schedules| && Scored(schedules, scores)
  }

  /** Strictly increasing. */
  predicate Rising(xs: seq<int>)
  {
    forall i, j :: 0 <= i < j < |xs| ==> xs[i] < xs[j]
  }

  /** The scores a search adopts as it reads `xs` in order: the first, then each one strictly
      higher than the last adopted. */
  function Records(xs: seq<int>): seq<int>
  {
    if |xs| == 0 then []
    else
      var before := Records(xs[..|xs| - 1]);
      if |before| == 0 || before[|before| - 1] < xs[|xs| - 1] then before + [xs[|xs| - 1]] else before
  }

  /** The adopted scores rise strictly, start with the first score, end with the highest, and
      are all scores of the list. */
  lemma {:induction false} RecordsRise(xs: seq<int>)
    ensures Rising(Records(xs))
    ensures forall y :: y in Records(xs) ==> y in xs
    ensures |xs| > 0 ==> |Records(xs)| > 0 && Records(xs)[0] == xs[0]
    ensures |xs| > 0 ==> forall i :: 0 <= i < |xs| ==> xs[i] <= Records(xs)[|Records(xs)| - 1]
  {
    if |xs| > 0 {
      var init := xs[..|xs| - 1];
      RecordsRise(init);
      var before := Records(init);
      forall i | 0 <= i < |xs| ensures xs[i] <= Records(xs)[|Records(xs)| - 1] {
        if i < |xs| - 1 {
          assert xs[i] == init[i];
        }
      }
      if |init| > 0 {
        assert init[0] == xs[0];
      }
      forall y | y in Records(xs) ensures y in xs {
        if y in before {
          assert y in init;
        }
      }
    }
  }

  /** Every schedule of the list meets generate_schedule's guarantees for the roster. */
  ghost predicate AllGenerated(families: seq<Family>, tried: seq<Schedule>)
    requires WellFormed(families)
  {
    forall i :: 0 <= i < |tried| ==> Generated(families, tried[i])
  }

  // ---- one more schedule: how each part of the search state extends ------------------------

  lemma AllGeneratedSnoc(families: seq<Family>, tried: seq<Schedule>, next: Schedule)
    requires WellFormed(families) && AllGenerated(families, tried) && Generated(families, next)
    ensures AllGenerated(families, tried + [next])
  {
  }

  lemma ScoresSnoc(schedules: seq<Schedule>, scores: seq<int>, next: Schedule, score: int)
    requires ScoresOf(schedules, scores) && score == Value2(next)
    ensures ScoresOf(schedules + [next], scores + [score])
  {
  }

  lemma ScoredNext(schedules: seq<Schedule>, scores: seq<int>, score: int)
    requires Scored(schedules, scores) && |scores| < |schedules| && score == Value2(schedules[|scores|])
    ensures Scored(schedules, scores + [score])
  {
  }

  lemma FirstMaxKeep(xs: seq<int>, at: nat, x: int)
    requires FirstMax(xs, at) && x <= xs[at]
    ensures FirstMax(xs + [x], at)
  {
  }

  lemma FirstMaxTake(xs: seq<int>, at: nat, x: int)
    requires FirstMax(xs, at) && xs[at] < x
    ensures FirstMax(xs + [x], |xs|)
  {
  }

  lemma RecordsSnoc(xs: seq<int>, x: int)
    ensures var r := Records(xs);
              Records(xs + [x]) == if |r| == 0 || r[|r| - 1] < x then r + [x] else r
  {
    var ys := xs + [x];
    assert ys[..|ys| - 1] == xs;
    assert ys[|ys| - 1] == x;
  }

  /** The record after one more score, read off the last score adopted. */
  lemma RecordsNext(scores: seq<int>, accepted: seq<int>, currentScore: int, nextScore: int)
    requires accepted == Records(scores) && |accepted| > 0 && accepted[|accepted| - 1] == currentScore
    ensures Records(scores + [nextScore]) == if currentScore < nextScore then accepted + [nextScore] else accepted
  {
    RecordsSnoc(scores, nextScore);
  }

  /** The state find_schedule keeps between rounds: every schedule tried so far meets the
      builder's guarantees and was scored, the one in hand is the first of highest score, and
      `accepted` lists the scores adopted so far, ending with the one in hand. */
  ghost predicate Searching(families: seq<Family>, tried: seq<Schedule>, scores: seq<int>, at: nat,
                            accepted: seq<int>, current: Schedule, currentScore: int)
    requires WellFormed(families)
  {
    && AllGenerated(families, tried)
    && ScoresOf(tried, scores) && FirstMax(scores, at) && current == tried[at]
    && currentScore == scores[at]
    && accepted == Records(scores) && |accepted| > 0 && accepted[|accepted| - 1] == currentScore
  }

  /** One run of generate_schedule, scored. */
  method Attempt(families: seq<Family>, rand: nat -> nat, k: nat) returns (next: Schedule, nextScore: int, k': nat)
    requires WellFormed(families) && forall f :: f in families ==> f.size >= 1
    ensures Generated(families, next) && nextScore == Value2(next)
    ensures k <= k'
  {
    next, k' := Build2.GenerateSchedule(families, rand, k);
    nextScore := Score2(next);
  }

  /** A round keeps the search state, whichever way its comparison goes. */
  lemma RoundKeeps(families: seq<Family>, tried: seq<Schedule>, scores: seq<int>, at: nat, accepted: seq<int>,
                   current: Schedule, currentScore: int, next: Schedule, nextScore: int)
    requires WellFormed(families) && Searching(families, tried, scores, at, accepted, current, currentScore)
    requires Generated(families, next) && nextScore == Value2(next)
    ensures var take := currentScore < nextScore;
              Searching(families, tried + [next], scores + [nextScore], if take then |tried| else at,
                        if take then accepted + [nextScore] else accepted,
                        if take then next else current, if take then nextScore else currentScore)
  {
    AllGeneratedSnoc(families, tried, next);
    ScoresSnoc(tried, scores, next, nextScore);
    RecordsNext(scores, accepted, currentScore, nextScore);
    if currentScore < nextScore {
      FirstMaxTake(scores, at, nextScore);
    } else {
      FirstMaxKeep(scores, at, nextScore);
    }
  }

  /** One round of find_schedule: the new schedule replaces the one in hand only when it
      scores strictly higher. */
  method Round(families: seq<Family>, ghost tried: seq<Schedule>, ghost scores: seq<int>, ghost at: nat,
               ghost accepted: seq<int>, current: Schedule, currentScore: int, rand: nat -> nat, k: nat)
    returns (ghost tried': seq<Schedule>, ghost scores': seq<int>, ghost at': nat, ghost accepted': seq<int>,
             current': Schedule, currentScore': int, k': nat)
    requires WellFormed(families) && forall f :: f in families ==> f.size >= 1
    requires Searching(families, tried, scores, at, accepted, current, currentScore)
    ensures Searching(families, tried', scores', at', accepted', current', currentScore')
    ensures |tried'| == |tried| + 1 && tried' == tried + [tried'[|tried|]]
    ensures current' == if currentScore < scores'[|tried|] then tried'[|tried|] else current
    ensures accepted' == if currentScore < scores'[|tried|] then accepted + [scores'[|tried|]] else accepted
    ensures k <= k'
  {
    var next, nextScore;
    next, nextScore, k' := Attempt(families, rand, k);
    RoundKeeps(families, tried, scores, at, accepted, current, currentScore, next, nextScore);
    tried', scores' := tried + [next], scores + [nextScore];
    if currentScore < nextScore {
      current', currentScore' := next, nextScore;
      at', accepted' := |tried|, accepted + [nextScore];
    } else {
      at', accepted', current', currentScore' := at, accepted, current, currentScore;
    }
  }

  /** find_schedule, with its wall-clock budget as `rounds` further runs after the first.
      `tried` lists the schedules generated, in order, with their `scores`; `accepted` lists
      the scores of the schedules it adopted, which rise strictly from the first score to the
      highest. */
  method FindSchedule(families: seq<Family>, rounds: nat, rand: nat -> nat, k: nat)
    returns (current: Schedule, ghost tried: seq<Schedule>, ghost scores: seq<int>, ghost at: nat,
             ghost accepted: seq<int>, k': nat)
    requires WellFormed(families) && forall f :: f in families ==> f.size >= 1
    ensures |tried| == rounds + 1 && AllGenerated(families, tried)
    ensures ScoresOf(tried, scores) && FirstMax(scores, at) && current == tried[at]
    ensures accepted == Records(scores) && Rising(accepted)
    ensures accepted[0] == scores[0] && accepted[|accepted| - 1] == scores[at]
    ensures k <= k'
  {
    var currentScore;
    current, currentScore, k' := Attempt(families, rand, k);
    tried, scores, at, accepted := [current], [currentScore], 0, [currentScore];
    assert scores[..0] == [];
    for r := 0 to rounds
      invariant |tried| == r + 1
      invariant Searching(families, tried, scores, at, accepted, current, currentScore)
      invariant k <= k'
    {
      tried, scores, at, accepted, current, currentScore, k' :=
        Round(families, tried, scores, at, accepted, current, currentScore, rand, k');
    }
    RecordsRise(scores);
  }

  /** The selection over the workers' results in main: the first schedule of highest score.
      The loop starts again from the first schedule, which cannot replace itself. */
  method BestOf(schedules: seq<Schedule>) returns (best: Schedule, ghost scores: seq<int>, ghost at: nat)
    requires |schedules| > 0
    ensures ScoresOf(schedules, scores) && FirstMax(scores, at) && best == schedules[at]
    ensures best in schedules && forall s :: s in schedules ==> Value2(s) <= Value2(best)
  {
    best, at := schedules[0], 0;
    var bestScore := Score2(best);
    scores := [];
    for i := 0 to |schedules|
      invariant |scores| == i && Scored(schedules, scores)
      invariant at < |schedules| && best == schedules[at]
      invariant i == 0 ==> at == 0 && bestScore == Value2(best)
      invariant i > 0 ==> FirstMax(scores, at) && bestScore == scores[at]
    {
      var score := Score2(schedules[i]);
      ScoredNext(schedules, scores, score);
      if i > 0 && bestScore < score {
        FirstMaxTake(scores, at, score);
      } else if i > 0 {
        FirstMaxKeep(scores, at, score);
      }
      scores := scores + [score];
      if bestScore < score {
        best, bestScore, at := schedules[i], score, i;
      }
    }
    Highest(schedules, scores, at);
  }

  /** The schedule at the first highest score scores at least as high as every schedule of the
      list, and strictly higher than every one before it. */
  lemma Highest(schedules: seq<Schedule>, scores: seq<int>, at: nat)
    requires ScoresOf(schedules, scores) && FirstMax(scores, at)
    ensures at < |schedules| && forall s :: s in schedules ==> Value2(s) <= Value2(schedules[at])
    ensures forall i :: 0 <= i < at ==> Value2(schedules[i]) < Value2(schedules[at])
  {
    forall s | s in schedules ensures Value2(s) <= Value2(schedules[at]) {
      var i :| 0 <= i < |schedules| && schedules[i] == s;
      assert scores[i] <= scores[at];
    }
  }

  /** The first maximum is unique: whichever loop finds it, it is the same position. */
  lemma FirstMaxUnique(xs: seq<int>, a: nat, b: nat)
    requires FirstMax(xs, a) && FirstMax(xs, b)
    ensures a == b
  {
    assert xs[a] == xs[b];
  }
}
