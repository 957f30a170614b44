/**
 * Scoring of candidate workers for a shift: a wage-fit score, a rating score
 * and an experience score per worker, and their sum, the match score.
 * Rates and wages are whole currency units; the average rating is a real.
 */
module MatchScoring {
  import opened Wrappers

  /** The joined profile row of a worker (both columns may be missing). */
  datatype Profile = Profile(fullName: Option<string>, username: Option<string>)

  /** A worker row as the candidate query returns it. */
  datatype Worker = Worker(
    id: string,
    profession: string,
    hourlyRate: int,
    averageRating: Option<real>,
    totalReviews: Option<int>,
    profile: Option<Profile>)

  /** A worker with its scores, as the list shows it. */
  datatype ScoredWorker = ScoredWorker(
    workerId: string,
    workerName: string,
    username: string,
    profession: string,
    hourlyRate: int,
    averageRating: real,
    totalReviews: int,
    matchScore: int,
    wageScore: int)

  // ---------------------------------------------------------------------------
  // Wage fit

  /**
   * The rate is at most k percent over the wage: `percentageOver <= k`,
   * multiplied out by the (positive) wage so that it stays in integers.
   */
  predicate OverByAtMost(rate: int, wage: int, k: int)
  {
    (rate - wage) * 100 <= k * wage
  }

  /** The percentage by which the rate exceeds the wage, as the source computes it. */
  function PercentageOver(rate: int, wage: int): real
    requires wage > 0
  {
    ((rate - wage) as real / wage as real) * 100.0
  }

  /**
   * The wage-fit score: 40 when no wage is offered, 100 when the rate is at
   * or below the wage, and otherwise 10 points less for each started 10 % by
   * which the rate exceeds the wage (upper bounds inclusive), down to 0.
   */
  function WageScore(rate: int, wage: int): (r: int)
    ensures wage <= 0 ==> r == 40
    ensures wage > 0 && rate <= wage ==> r == 100
    ensures wage > 0 && rate > wage ==> 0 <= r <= 90 && r % 10 == 0
    // the score brackets the percentage: 90 - r < percentageOver <= 100 - r
    ensures wage > 0 && rate > wage && r > 0 ==> OverByAtMost(rate, wage, 100 - r)
    ensures wage > 0 && rate > wage && r < 90 ==> !OverByAtMost(rate, wage, 90 - r)
  {
    if wage > 0 then
      if rate <= wage then 100
      else if OverByAtMost(rate, wage, 10) then 90
      else if OverByAtMost(rate, wage, 20) then 80
      else if OverByAtMost(rate, wage, 30) then 70
      else if OverByAtMost(rate, wage, 40) then 60
      else if OverByAtMost(rate, wage, 50) then 50
      else if OverByAtMost(rate, wage, 60) then 40
      else if OverByAtMost(rate, wage, 70) then 30
      else if OverByAtMost(rate, wage, 80) then 20
      else if OverByAtMost(rate, wage, 90) then 10
      else 0
    else 40
  }

  /** The integer test is the source's real-valued comparison `percentageOver <= k`. */
  lemma PercentageOverAtMost(rate: int, wage: int, k: int)
    requires wage > 0
    ensures PercentageOver(rate, wage) <= k as real <==> OverByAtMost(rate, wage, k)
  {
    var w := wage as real;
    var q := (rate - wage) as real / w;
    assert q * w == (rate - wage) as real;
    assert PercentageOver(rate, wage) == q * 100.0;
    calc {
      q * 100.0 <= k as real;
    <==> { MulPositiveMonotone(q * 100.0, k as real, w); }
      q * 100.0 * w <= k as real * w;
    <==> { assert q * 100.0 * w == (q * w) * 100.0; }
      ((rate - wage) * 100) as real <= (k * wage) as real;
    }
  }

  /** Multiplying both sides by a positive real keeps an inequality. */
  lemma MulPositiveMonotone(x: real, y: real, w: real)
    requires w > 0.0
    ensures x <= y <==> x * w <= y * w
  {
    if x <= y {
      assert (y - x) * w >= 0.0;
    } else {
      assert (x - y) * w > 0.0;
    }
  }

  /** OverByAtMost widens with k: a larger bound admits every rate a smaller one does. */
  lemma OverByAtMostMonotone(rate: int, wage: int, k1: int, k2: int)
    requires wage > 0
    ensures k1 <= k2 && OverByAtMost(rate, wage, k1) ==> OverByAtMost(rate, wage, k2)
  {
    if k1 <= k2 {
      assert (k2 - k1) * wage >= 0;
    }
  }

  /** The overrun is within decile i, that is at most 10 * (i + 1) percent. */
  predicate WithinDecile(rate: int, wage: int, i: int)
  {
    OverByAtMost(rate, wage, 10 * (i + 1))
  }

  /**
   * The decile of the overrun: the smallest j in `from`..8 whose bound
   * 10 * (j + 1) % is reached, or 9 when the rate is more than 90 % over.
   */
  function FirstDecile(rate: int, wage: int, from: nat): (j: nat)
    requires from <= 9
    ensures from <= j <= 9
    ensures j < 9 ==> WithinDecile(rate, wage, j)
    ensures forall i :: from <= i < j ==> !WithinDecile(rate, wage, i)
    decreases 9 - from
  {
    if from == 9 || WithinDecile(rate, wage, from) then from
    else FirstDecile(rate, wage, from + 1)
  }

  /** Above the wage the score is 90 - 10 * j for the first decile j the overrun fits in. */
  lemma WageScoreIsFirstDecile(rate: int, wage: int)
    requires wage > 0 && rate > wage
    ensures WageScore(rate, wage) == 90 - 10 * FirstDecile(rate, wage, 0)
  {
    var r := WageScore(rate, wage);
    var j := FirstDecile(rate, wage, 0);
    var j' := (90 - r) / 10;
    assert r == 90 - 10 * j';
    // a smaller j would put the overrun within 90 - r percent
    OverByAtMostMonotone(rate, wage, 10 * (j + 1), 90 - r);
    // a larger j would leave decile j' unreached
    assert j' < j ==> !WithinDecile(rate, wage, j');
  }

  /** A higher rate never earns a higher wage score for the same offered wage. */
  lemma WageScoreAntitone(rate1: int, rate2: int, wage: int)
    requires rate1 <= rate2
    ensures WageScore(rate2, wage) <= WageScore(rate1, wage)
  {
    var s1, s2 := WageScore(rate1, wage), WageScore(rate2, wage);
    if wage > 0 && rate1 > wage {
      // rate1 is within every bound rate2 is within
      assert OverByAtMost(rate2, wage, 100 - s2) ==> OverByAtMost(rate1, wage, 100 - s2);
      OverByAtMostMonotone(rate1, wage, 100 - s2, 90 - s1);
    }
  }

  // ---------------------------------------------------------------------------
  // Rating and experience tiers

  /** One row of a tier table: values at or above `atLeast` earn `score`. */
  datatype Tier = Tier(atLeast: real, score: int)

  /** The tier table of the rating score. */
  const RatingTiers: seq<Tier> :=
    [Tier(4.5, 50), Tier(4.0, 40), Tier(3.5, 30), Tier(3.0, 20), Tier(2.5, 10)]

  /** The tier table of the experience score, over the number of reviews. */
  const ExperienceTiers: seq<Tier> :=
    [Tier(20.0, 20), Tier(10.0, 15), Tier(5.0, 10), Tier(1.0, 5)]

  /** The score of the first tier whose lower bound x reaches; 0 below every tier. */
  function TierScore(x: real, tiers: seq<Tier>): int
  {
    if tiers == [] then 0
    else if x >= tiers[0].atLeast then tiers[0].score
    else TierScore(x, tiers[1..])
  }

  /** Tier bounds strictly fall and scores do not rise down the table; no score is negative. */
  ghost predicate Descending(tiers: seq<Tier>)
  {
    && (forall i, j :: 0 <= i < j < |tiers| ==>
          tiers[j].atLeast < tiers[i].atLeast && tiers[j].score <= tiers[i].score)
    && (forall i :: 0 <= i < |tiers| ==> tiers[i].score >= 0)
  }

  /** In a descending table, a larger value never earns a smaller tier score. */
  lemma {:induction false} TierScoreMonotone(x: real, y: real, tiers: seq<Tier>)
    requires Descending(tiers) && x <= y
    ensures 0 <= TierScore(x, tiers) <= TierScore(y, tiers)
    decreases |tiers|
  {
    if tiers != [] && x < tiers[0].atLeast {
      assert Descending(tiers[1..]) by {
        forall i, j | 0 <= i < j < |tiers[1..]|
          ensures tiers[1..][j].atLeast < tiers[1..][i].atLeast
          ensures tiers[1..][j].score <= tiers[1..][i].score
        {
          assert tiers[1..][i] == tiers[i + 1] && tiers[1..][j] == tiers[j + 1];
        }
      }
      if y < tiers[0].atLeast {
        TierScoreMonotone(x, y, tiers[1..]);
      } else {
        TierScoreBounded(x, tiers[1..], tiers[0].score);
      }
    }
  }

  /** Every score of a descending table bounded by s is bounded by s. */
  lemma {:induction false} TierScoreBounded(x: real, tiers: seq<Tier>, s: int)
    requires Descending(tiers)
    requires forall i :: 0 <= i < |tiers| ==> tiers[i].score <= s
    requires s >= 0
    ensures 0 <= TierScore(x, tiers) <= s
    decreases |tiers|
  {
    if tiers != [] && x < tiers[0].atLeast {
      assert Descending(tiers[1..]) by {
        forall i, j | 0 <= i < j < |tiers[1..]|
          ensures tiers[1..][j].atLeast < tiers[1..][i].atLeast
          ensures tiers[1..][j].score <= tiers[1..][i].score
        {
          assert tiers[1..][i] == tiers[i + 1] && tiers[1..][j] == tiers[j + 1];
        }
      }
      TierScoreBounded(x, tiers[1..], s);
    }
  }

  /** The rating score: 50/40/30/20/10 from 4.5/4.0/3.5/3.0/2.5 up, else 0. */
  function RatingScore(avg: real): (r: int)
    ensures 0 <= r <= 50 && r % 10 == 0
    ensures r == 50 <==> avg >= 4.5
    ensures r == 0 <==> avg < 2.5
  {
    if avg >= 4.5 then 50
    else if avg >= 4.0 then 40
    else if avg >= 3.5 then 30
    else if avg >= 3.0 then 20
    else if avg >= 2.5 then 10
    else 0
  }

  /** The experience score: 20/15/10/5 from 20/10/5/1 reviews up, else 0. */
  function ExperienceScore(reviews: int): (r: int)
    ensures 0 <= r <= 20 && r % 5 == 0
    ensures r == 20 <==> reviews >= 20
    ensures r == 0 <==> reviews < 1
  {
    if reviews >= 20 then 20
    else if reviews >= 10 then 15
    else if reviews >= 5 then 10
    else if reviews >= 1 then 5
    else 0
  }

  /** The rating if-chain is the lookup in the rating tier table. */
  lemma RatingScoreIsTierLookup(avg: real)
    ensures RatingScore(avg) == TierScore(avg, RatingTiers)
  {
    var t := RatingTiers;
    assert TierScore(avg, t) == if avg >= 4.5 then 50 else TierScore(avg, t[1..]);
    assert TierScore(avg, t[1..]) == if avg >= 4.0 then 40 else TierScore(avg, t[2..]);
    assert TierScore(avg, t[2..]) == if avg >= 3.5 then 30 else TierScore(avg, t[3..]);
    assert TierScore(avg, t[3..]) == if avg >= 3.0 then 20 else TierScore(avg, t[4..]);
    assert TierScore(avg, t[4..]) == if avg >= 2.5 then 10 else TierScore(avg, t[5..]);
  }

  /** The experience if-chain is the lookup in the experience tier table. */
  lemma ExperienceScoreIsTierLookup(reviews: int)
    ensures ExperienceScore(reviews) == TierScore(reviews as real, ExperienceTiers)
  {
    var t := ExperienceTiers;
    var x := reviews as real;
    assert TierScore(x, t) == if x >= 20.0 then 20 else TierScore(x, t[1..]);
    assert TierScore(x, t[1..]) == if x >= 10.0 then 15 else TierScore(x, t[2..]);
    assert TierScore(x, t[2..]) == if x >= 5.0 then 10 else TierScore(x, t[3..]);
    assert TierScore(x, t[3..]) == if x >= 1.0 then 5 else TierScore(x, t[4..]);
  }

  /** Both score tables are descending. */
  lemma TiersDescending()
    ensures Descending(RatingTiers) && Descending(ExperienceTiers)
  {
  }

  /** A better average rating never earns a lower rating score. */
  lemma RatingScoreMonotone(a: real, b: real)
    requires a <= b
    ensures RatingScore(a) <= RatingScore(b)
  {
    TiersDescending();
    RatingScoreIsTierLookup(a);
    RatingScoreIsTierLookup(b);
    TierScoreMonotone(a, b, RatingTiers);
  }

  /** More reviews never earn a lower experience score. */
  lemma ExperienceScoreMonotone(m: int, n: int)
    requires m <= n
    ensures ExperienceScore(m) <= ExperienceScore(n)
  {
    TiersDescending();
    ExperienceScoreIsTierLookup(m);
    ExperienceScoreIsTierLookup(n);
    TierScoreMonotone(m as real, n as real, ExperienceTiers);
  }

  // ---------------------------------------------------------------------------
  // Scoring a worker

  /** A string column with JavaScript's `|| fallback`: missing or empty gives the fallback. */
  function OrElse(s: Option<string>, fallback: string): (r: string)
    ensures s.Some? && s.value != "" ==> r == s.value
    ensures s.None? || s.value == "" ==> r == fallback
  {
    if s.Some? && s.value != "" then s.value else fallback
  }

  /** What the list shows for a worker without a name or a username. */
  const UnknownName := "Ukjent navn"
  const UnknownUsername := "ukjent"

  /** A missing rating counts as 0. */
  function RatingOrZero(rating: Option<real>): (r: real)
    ensures rating.Some? ==> r == rating.value
    ensures rating.None? ==> r == 0.0
  {
    if rating.Some? then rating.value else 0.0
  }

  /** A missing review count counts as 0. */
  function ReviewsOrZero(reviews: Option<int>): (r: int)
    ensures reviews.Some? ==> r == reviews.value
    ensures reviews.None? ==> r == 0
  {
    if reviews.Some? then reviews.value else 0
  }

  /** The scores of s are those of its own rate, rating and reviews for the offered wage. */
  ghost predicate WellScored(s: ScoredWorker, wage: int)
  {
    && s.wageScore == WageScore(s.hourlyRate, wage)
    && s.matchScore == s.wageScore + RatingScore(s.averageRating) + ExperienceScore(s.totalReviews)
  }

  /** The scored row for one worker at the offered wage. */
  function ScoreWorker(w: Worker, wage: int): (s: ScoredWorker)
    ensures s.workerId == w.id && s.profession == w.profession && s.hourlyRate == w.hourlyRate
    ensures s.averageRating == RatingOrZero(w.averageRating)
    ensures s.totalReviews == ReviewsOrZero(w.totalReviews)
    ensures w.profile.Some? ==> s.workerName == OrElse(w.profile.value.fullName, UnknownName)
    ensures w.profile.Some? ==> s.username == OrElse(w.profile.value.username, UnknownUsername)
    ensures w.profile.None? ==> s.workerName == UnknownName && s.username == UnknownUsername
    ensures WellScored(s, wage)
    ensures 0 <= s.matchScore <= 170
    ensures wage <= 0 ==> s.wageScore == 40
    ensures wage > 0 && w.hourlyRate <= wage ==> s.wageScore == 100
  {
    var avg := RatingOrZero(w.averageRating);
    var reviews := ReviewsOrZero(w.totalReviews);
    var wageScore := WageScore(w.hourlyRate, wage);
    var name := OrElse(if w.profile.Some? then w.profile.value.fullName else None, UnknownName);
    var user := OrElse(if w.profile.Some? then w.profile.value.username else None, UnknownUsername);
    ScoredWorker(w.id, name, user, w.profession, w.hourlyRate, avg, reviews,
                 wageScore + RatingScore(avg) + ExperienceScore(reviews), wageScore)
  }

  /** Every fetched worker scored, in the fetched order. */
  function ScoreAll(ws: seq<Worker>, wage: int): (r: seq<ScoredWorker>)
    ensures |r| == |ws|
    ensures forall i :: 0 <= i < |r| ==>
              && r[i].workerId == ws[i].id
              && r[i].profession == ws[i].profession
              && r[i].hourlyRate == ws[i].hourlyRate
              && r[i].averageRating == RatingOrZero(ws[i].averageRating)
              && r[i].totalReviews == ReviewsOrZero(ws[i].totalReviews)
              && r[i].workerName == ScoreWorker(ws[i], wage).workerName
              && r[i].username == ScoreWorker(ws[i], wage).username
              && WellScored(r[i], wage)
    ensures forall i :: 0 <= i < |r| ==> 0 <= r[i].matchScore <= 170
    ensures wage <= 0 ==> forall i :: 0 <= i < |r| ==> r[i].wageScore == 40
  {
    seq(|ws|, i requires 0 <= i < |ws| => ScoreWorker(ws[i], wage))
  }
}
