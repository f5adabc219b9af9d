/** Weighted results: a judge's weighted average, the rounded team score, the stable
    descending sort and the dense ranking. Scores are exact rationals; a team score is
    kept as a whole number of hundredths. */
module Judging {
  import opened Options
  import opened Permutations

  /** `title` is the source's `label`, which is a reserved word here. */
  datatype Criterion = Criterion(id: string, title: string, weight: int)

  datatype JudgeScores = JudgeScores(judgeId: string, scores: map<string, int>)

  datatype TeamJudges = TeamJudges(teamId: string, judges: seq<JudgeScores>)

  datatype TeamResult = TeamResult(teamId: string, hundredths: int, judgeCount: nat, rank: int)

  // ----- Team scores -----

  function TotalWeight(rubric: seq<Criterion>): int {
    if rubric == [] then 0 else rubric[0].weight + TotalWeight(rubric[1..])
  }

  function ValueOf(scores: map<string, int>, criterionId: string): int {
    if criterionId in scores then scores[criterionId] else 0
  }

  function Earned(rubric: seq<Criterion>, scores: map<string, int>): int {
    if rubric == [] then 0
    else ValueOf(scores, rubric[0].id) * rubric[0].weight + Earned(rubric[1..], scores)
  }

  /** One judge's weighted average, on the 0..100 scale. */
  function JudgeScore(rubric: seq<Criterion>, judge: JudgeScores): real
    requires TotalWeight(rubric) > 0
  {
    Earned(rubric, judge.scores) as real / TotalWeight(rubric) as real * 10.0
  }

  function JudgeScoreSum(rubric: seq<Criterion>, judges: seq<JudgeScores>): real
    requires TotalWeight(rubric) > 0
  {
    if judges == [] then 0.0 else JudgeScore(rubric, judges[0]) + JudgeScoreSum(rubric, judges[1..])
  }

  function MeanScore(rubric: seq<Criterion>, judges: seq<JudgeScores>): real
    requires TotalWeight(rubric) > 0 && judges != []
  {
    JudgeScoreSum(rubric, judges) / |judges| as real
  }

  /** Math.round rounds halves up. */
  function Round(x: real): int {
    (x + 0.5).Floor
  }

  function TeamScore(rubric: seq<Criterion>, judges: seq<JudgeScores>): int
    requires TotalWeight(rubric) > 0 && judges != []
  {
    Round(MeanScore(rubric, judges) * 100.0)
  }

  function Scorer(rubric: seq<Criterion>): TeamJudges -> Option<TeamResult>
    requires TotalWeight(rubric) > 0
  {
    (team: TeamJudges) =>
      if team.judges == [] then None
      else Some(TeamResult(team.teamId, TeamScore(rubric, team.judges), |team.judges|, 0))
  }

  /** A rubric that passed validation has positive weights. */
  ghost predicate PositiveWeights(rubric: seq<Criterion>) {
    forall i | 0 <= i < |rubric| :: rubric[i].weight >= 1
  }

  datatype RubricError = Malformed | TotalIs(total: int)

  function TrimmedIds(rubric: seq<Criterion>, trim: string -> string): set<string> {
    set i | 0 <= i < |rubric| :: trim(rubric[i].id)
  }

  predicate WellFormedRubric(rubric: seq<Criterion>, trim: string -> string) {
    && 3 <= |rubric| <= 8
    && (forall i | 0 <= i < |rubric| ::
          && 2 <= |trim(rubric[i].id)| <= 40
          && 2 <= |trim(rubric[i].title)| <= 60
          && 1 <= rubric[i].weight <= 100)
    && |TrimmedIds(rubric, trim)| == |rubric|
  }

  /** What must hold before a rubric is stored; None when it may be. */
  function ValidateRubric(rubric: seq<Criterion>, trim: string -> string): Option<RubricError> {
    if !WellFormedRubric(rubric, trim) then Some(Malformed)
    else if TotalWeight(rubric) != 100 then Some(TotalIs(TotalWeight(rubric)))
    else None
  }

  /** A stored rubric is one the computation is defined for. */
  lemma ValidRubricComputes(rubric: seq<Criterion>, trim: string -> string)
    requires ValidateRubric(rubric, trim) == None
    ensures TotalWeight(rubric) > 0 && PositiveWeights(rubric)
  {
  }

  lemma TrimmedIdsDistinct(rubric: seq<Criterion>, trim: string -> string)
    ensures |TrimmedIds(rubric, trim)| == |rubric|
        <==> forall i, j | 0 <= i < j < |rubric| :: trim(rubric[i].id) != trim(rubric[j].id)
  {
    var ids := seq(|rubric|, i requires 0 <= i < |rubric| => trim(rubric[i].id));
    forall id ensures id in TrimmedIds(rubric, trim) <==> id in ids {
      if id in TrimmedIds(rubric, trim) {
        var i :| 0 <= i < |rubric| && id == trim(rubric[i].id);
        assert ids[i] == id;
      }
    }
    assert TrimmedIds(rubric, trim) == set id | id in ids;
    DistinctCountExactly(ids);
    assert forall i | 0 <= i < |rubric| :: ids[i] == trim(rubric[i].id);
  }

  /** A rubric may be stored exactly with three to eight criteria, each with an id, a label and a
      weight within bounds, no two ids alike once trimmed, and weights that add up to a hundred. */
  lemma ValidatesExactly(rubric: seq<Criterion>, trim: string -> string)
    ensures ValidateRubric(rubric, trim) == None
        <==> && 3 <= |rubric| <= 8
             && (forall i | 0 <= i < |rubric| ::
                   && 2 <= |trim(rubric[i].id)| <= 40 && 2 <= |trim(rubric[i].title)| <= 60
                   && 1 <= rubric[i].weight <= 100)
             && (forall i, j | 0 <= i < j < |rubric| :: trim(rubric[i].id) != trim(rubric[j].id))
             && TotalWeight(rubric) == 100
  {
    TrimmedIdsDistinct(rubric, trim);
  }

  // ----- The arithmetic of one team -----

  ghost function EarnedSum(rubric: seq<Criterion>, judges: seq<JudgeScores>): int {
    if judges == [] then 0 else Earned(rubric, judges[0].scores) + EarnedSum(rubric, judges[1..])
  }

  lemma {:induction false} SumIsEarned(rubric: seq<Criterion>, judges: seq<JudgeScores>)
    requires TotalWeight(rubric) > 0
    ensures JudgeScoreSum(rubric, judges) * TotalWeight(rubric) as real == EarnedSum(rubric, judges) as real * 10.0
  {
    if judges == [] {
    } else {
      SumIsEarned(rubric, judges[1..]);
      var w, e := TotalWeight(rubric) as real, Earned(rubric, judges[0].scores) as real;
      assert e / w * w == e;
      assert JudgeScore(rubric, judges[0]) * w == e * 10.0;
    }
  }

  lemma MeanTimesCount(sum: real, n: real)
    requires n > 0.0
    ensures sum / n * n == sum
  {
  }

  lemma MeanTimesCell(mean: real, sum: real, n: real, w: real, scaled: real)
    requires mean * n == sum && sum * w == scaled
    ensures mean * 100.0 * (w * n) == 100.0 * scaled
  {
    assert mean * (w * n) == (mean * n) * w;
  }

  lemma ScoreTimesCell(rubric: seq<Criterion>, judges: seq<JudgeScores>)
    requires TotalWeight(rubric) > 0 && judges != []
    ensures MeanScore(rubric, judges) * 100.0 * (TotalWeight(rubric) as real * |judges| as real)
         == 100.0 * (EarnedSum(rubric, judges) as real * 10.0)
  {
    SumIsEarned(rubric, judges);
    var sum, n := JudgeScoreSum(rubric, judges), |judges| as real;
    MeanTimesCount(sum, n);
    MeanTimesCell(MeanScore(rubric, judges), sum, n, TotalWeight(rubric) as real,
                  EarnedSum(rubric, judges) as real * 10.0);
  }

  /** 1000 * earned / cell lies in [h - 1/2, h + 1/2). */
  ghost predicate Nearest(cell: int, earned: int, h: int) {
    -cell <= 2000 * earned - 2 * (cell * h) < cell
  }

  /** The rounded score in whole numbers: with n judges and total weight w it is the only whole
      number of hundredths nearest to 1000 * earned / (n * w), a half counting upwards. */
  lemma TeamScoreIsNearest(rubric: seq<Criterion>, judges: seq<JudgeScores>, h: int)
    requires TotalWeight(rubric) > 0 && judges != []
    ensures h == TeamScore(rubric, judges)
        <==> Nearest(TotalWeight(rubric) * |judges|, EarnedSum(rubric, judges), h)
  {
    ScoreTimesCell(rubric, judges);
    NearestInIntegers(MeanScore(rubric, judges) * 100.0, TotalWeight(rubric), |judges|,
                      EarnedSum(rubric, judges), h);
  }

  lemma NearestInIntegers(x: real, w: int, n: int, e: int, h: int)
    requires w > 0 && n > 0 && x * (w as real * n as real) == 100.0 * (e as real * 10.0)
    ensures h == Round(x) <==> Nearest(w * n, e, h)
  {
    var cell := w * n;
    assert cell > 0;
    assert cell as real == w as real * n as real;
    RoundIsNearest(x, cell as real, 1000.0 * e as real, h);
    assert (cell * h) as real == cell as real * h as real;
  }

  lemma RoundIsNearest(x: real, cell: real, scaled: real, h: int)
    requires cell > 0.0 && x * cell == scaled
    ensures h == Round(x) <==> -cell <= 2.0 * scaled - 2.0 * (cell * h as real) < cell
  {
    var d := x - h as real;
    assert scaled - cell * h as real == d * cell;
    ScaleCompare(d, -0.5, cell);
    ScaleCompare(0.5, d, cell);
    if d == 0.5 { assert d * cell == 0.5 * cell; }
  }

  lemma ScaleCompare(x: real, y: real, cell: real)
    requires cell > 0.0
    ensures x >= y <==> x * cell >= y * cell
    ensures x == y <==> x * cell == y * cell
  {
    assert x * cell - y * cell == (x - y) * cell;
  }

  /** Values are integers 0..10, one per criterion. */
  ghost predicate ValuesInRange(judges: seq<JudgeScores>) {
    forall i, c | 0 <= i < |judges| && c in judges[i].scores :: 0 <= judges[i].scores[c] <= 10
  }

  lemma {:induction false} EarnedBounds(rubric: seq<Criterion>, scores: map<string, int>)
    requires PositiveWeights(rubric)
    requires forall c | c in scores :: 0 <= scores[c] <= 10
    ensures 0 <= Earned(rubric, scores) <= 10 * TotalWeight(rubric)
  {
    if rubric == [] {
    } else {
      EarnedBounds(rubric[1..], scores);
      var v, w := ValueOf(scores, rubric[0].id), rubric[0].weight;
      assert 0 <= v * w <= 10 * w;
    }
  }

  lemma {:induction false} EarnedSumBounds(rubric: seq<Criterion>, judges: seq<JudgeScores>)
    requires PositiveWeights(rubric) && ValuesInRange(judges)
    ensures 0 <= EarnedSum(rubric, judges) <= 10 * (TotalWeight(rubric) * |judges|)
  {
    if judges == [] {
    } else {
      EarnedBounds(rubric, judges[0].scores);
      EarnedSumBounds(rubric, judges[1..]);
      assert TotalWeight(rubric) * |judges| == TotalWeight(rubric) + TotalWeight(rubric) * |judges[1..]|;
    }
  }

  lemma TeamScoreInRange(rubric: seq<Criterion>, judges: seq<JudgeScores>)
    requires TotalWeight(rubric) > 0 && PositiveWeights(rubric) && judges != [] && ValuesInRange(judges)
    ensures 0 <= TeamScore(rubric, judges) <= 10000
  {
    EarnedSumBounds(rubric, judges);
    var h := TeamScore(rubric, judges);
    TeamScoreIsNearest(rubric, judges, h);
    NearestInRange(TotalWeight(rubric), |judges|, EarnedSum(rubric, judges), h);
  }

  lemma WholeCells(cell: int, k: int)
    requires cell > 0
    ensures k >= 1 ==> cell * k >= cell
    ensures k <= -1 ==> cell * k <= -cell
  {
  }

  lemma NearestInRange(w: int, n: int, e: int, h: int)
    requires w > 0 && n > 0 && 0 <= e <= 10 * (w * n)
    requires Nearest(w * n, e, h)
    ensures 0 <= h <= 10000
  {
    WholeCells(w * n, h);
    WholeCells(w * n, h - 10000);
    assert w * n * (h - 10000) == w * n * h - 10000 * (w * n);
  }

  /** `after` holds the same judges, each value at least what it was. */
  ghost predicate Raised(before: seq<JudgeScores>, after: seq<JudgeScores>) {
    && |before| == |after|
    && forall i, c: string | 0 <= i < |before| :: ValueOf(before[i].scores, c) <= ValueOf(after[i].scores, c)
  }

  lemma {:induction false} EarnedMonotone(rubric: seq<Criterion>, before: map<string, int>, after: map<string, int>)
    requires PositiveWeights(rubric)
    requires forall c: string :: ValueOf(before, c) <= ValueOf(after, c)
    ensures Earned(rubric, before) <= Earned(rubric, after)
  {
    if rubric == [] {
    } else {
      EarnedMonotone(rubric[1..], before, after);
      var lo, hi, w := ValueOf(before, rubric[0].id), ValueOf(after, rubric[0].id), rubric[0].weight;
      assert (hi - lo) * w >= 0;
    }
  }

  lemma {:induction false} EarnedSumMonotone(rubric: seq<Criterion>, before: seq<JudgeScores>, after: seq<JudgeScores>)
    requires PositiveWeights(rubric) && Raised(before, after)
    ensures EarnedSum(rubric, before) <= EarnedSum(rubric, after)
  {
    if before == [] {
    } else {
      assert forall c: string :: ValueOf(before[0].scores, c) <= ValueOf(after[0].scores, c);
      EarnedMonotone(rubric, before[0].scores, after[0].scores);
      EarnedSumMonotone(rubric, before[1..], after[1..]);
    }
  }

  /** Raising scores never lowers the team. */
  lemma TeamScoreMonotone(rubric: seq<Criterion>, before: seq<JudgeScores>, after: seq<JudgeScores>)
    requires TotalWeight(rubric) > 0 && PositiveWeights(rubric) && before != [] && Raised(before, after)
    ensures TeamScore(rubric, before) <= TeamScore(rubric, after)
  {
    EarnedSumMonotone(rubric, before, after);
    var lo, hi := TeamScore(rubric, before), TeamScore(rubric, after);
    TeamScoreIsNearest(rubric, before, lo);
    TeamScoreIsNearest(rubric, after, hi);
    NearestMonotone(TotalWeight(rubric), |before|, EarnedSum(rubric, before), EarnedSum(rubric, after), lo, hi);
  }

  lemma NearestMonotone(w: int, n: int, e1: int, e2: int, lo: int, hi: int)
    requires w > 0 && n > 0 && e1 <= e2
    requires Nearest(w * n, e1, lo) && Nearest(w * n, e2, hi)
    ensures lo <= hi
  {
    WholeCells(w * n, lo - hi);
    assert w * n * (lo - hi) == w * n * lo - w * n * hi;
  }

  /** The weights of one rubric are a positive multiple of the other's. */
  ghost predicate Proportional(one: seq<Criterion>, two: seq<Criterion>, a: int, b: int) {
    && a > 0 && b > 0
    && |one| == |two|
    && forall i | 0 <= i < |one| :: one[i].id == two[i].id && one[i].weight * a == two[i].weight * b
  }

  lemma ProportionalStep(v: int, w1: int, w2: int, e1: int, e2: int, a: int, b: int)
    requires w1 * a == w2 * b && e1 * a == e2 * b
    ensures (v * w1 + e1) * a == (v * w2 + e2) * b
  {
    assert (v * w1) * a == v * (w1 * a) && (v * w2) * b == v * (w2 * b);
  }

  lemma {:induction false} EarnedProportional(
      one: seq<Criterion>, two: seq<Criterion>, a: int, b: int, scores: map<string, int>)
    requires Proportional(one, two, a, b)
    ensures Earned(one, scores) * a == Earned(two, scores) * b
    ensures TotalWeight(one) * a == TotalWeight(two) * b
  {
    if one == [] {
    } else {
      EarnedProportional(one[1..], two[1..], a, b, scores);
      ProportionalStep(ValueOf(scores, one[0].id), one[0].weight, two[0].weight,
                       Earned(one[1..], scores), Earned(two[1..], scores), a, b);
    }
  }

  lemma RatioUnchanged(e1: int, w1: int, e2: int, w2: int, a: int, b: int)
    requires w1 > 0 && w2 > 0 && a > 0 && b > 0
    requires e1 * a == e2 * b && w1 * a == w2 * b
    ensures e1 as real / w1 as real == e2 as real / w2 as real
  {
    assert (e1 * w2) * (a * b) == (e1 * a) * (w2 * b) == (e2 * b) * (w1 * a) == (e2 * w1) * (a * b);
    assert a * b > 0;
    assert e1 * w2 == e2 * w1;
    var x := e1 as real / w1 as real;
    assert x * w1 as real == e1 as real;
    assert (e1 * w2) as real == (x * w2 as real) * w1 as real;
    assert (x * w2 as real) * w1 as real == e2 as real * w1 as real;
    assert x * w2 as real == e2 as real;
  }

  lemma {:induction false} SumProportional(
      one: seq<Criterion>, two: seq<Criterion>, a: int, b: int, judges: seq<JudgeScores>)
    requires Proportional(one, two, a, b) && TotalWeight(one) > 0 && TotalWeight(two) > 0
    ensures JudgeScoreSum(one, judges) == JudgeScoreSum(two, judges)
  {
    if judges == [] {
    } else {
      var s := judges[0].scores;
      EarnedProportional(one, two, a, b, s);
      RatioUnchanged(Earned(one, s), TotalWeight(one), Earned(two, s), TotalWeight(two), a, b);
      SumProportional(one, two, a, b, judges[1..]);
    }
  }

  /** Scaling every weight by the same positive factor changes no team score. */
  lemma TeamScoreScaleFree(one: seq<Criterion>, two: seq<Criterion>, a: int, b: int, judges: seq<JudgeScores>)
    requires Proportional(one, two, a, b) && TotalWeight(one) > 0 && TotalWeight(two) > 0 && judges != []
    ensures TeamScore(one, judges) == TeamScore(two, judges)
  {
    SumProportional(one, two, a, b, judges);
  }

  lemma {:induction false} SumOfConcat(rubric: seq<Criterion>, xs: seq<JudgeScores>, ys: seq<JudgeScores>)
    requires TotalWeight(rubric) > 0
    ensures JudgeScoreSum(rubric, xs + ys) == JudgeScoreSum(rubric, xs) + JudgeScoreSum(rubric, ys)
  {
    if xs == [] {
      assert xs + ys == ys;
    } else {
      assert (xs + ys)[1..] == xs[1..] + ys;
      SumOfConcat(rubric, xs[1..], ys);
    }
  }

  lemma {:induction false} SumPermutes(rubric: seq<Criterion>, xs: seq<JudgeScores>, ys: seq<JudgeScores>)
    requires TotalWeight(rubric) > 0 && multiset(xs) == multiset(ys)
    ensures |xs| == |ys| && JudgeScoreSum(rubric, xs) == JudgeScoreSum(rubric, ys)
    decreases |xs|
  {
    if xs == [] {
      assert |multiset(ys)| == 0;
    } else {
      var i := SplitOff(xs, ys);
      SumPermutes(rubric, xs[1..], ys[..i] + ys[i + 1..]);
      SumOfConcat(rubric, ys[..i], ys[i + 1..]);
      SumOfConcat(rubric, ys[..i], [ys[i]] + ys[i + 1..]);
      assert ([ys[i]] + ys[i + 1..])[1..] == ys[i + 1..];
    }
  }

  // ----- What a value counts for -----

  ghost predicate DistinctIds(rubric: seq<Criterion>) {
    forall i, j | 0 <= i < j < |rubric| :: rubric[i].id != rubric[j].id
  }

  /** A value for an id outside the rubric counts for nothing. */
  lemma {:induction false} OtherIdsEarnNothing(rubric: seq<Criterion>, scores: map<string, int>, c: string, v: int)
    requires forall i | 0 <= i < |rubric| :: rubric[i].id != c
    ensures Earned(rubric, scores[c := v]) == Earned(rubric, scores)
  {
    if rubric == [] {
    } else {
      assert rubric[0].id != c;
      OtherIdsEarnNothing(rubric[1..], scores, c, v);
    }
  }

  lemma Regained(v: int, was: int, w: int, rest: int)
    ensures v * w + rest == was * w + rest + (v - was) * w
  {
  }

  /** Changing the value given for the i-th criterion changes what is earned by the difference
      times that criterion's weight, a missing value being 0. */
  lemma {:induction false} ValueEarnsItsWeight(rubric: seq<Criterion>, scores: map<string, int>, i: nat, v: int)
    requires DistinctIds(rubric) && i < |rubric|
    ensures var id := rubric[i].id;
            var was := if id in scores then scores[id] else 0;
            Earned(rubric, scores[id := v]) == Earned(rubric, scores) + (v - was) * rubric[i].weight
  {
    var id, rest := rubric[i].id, rubric[1..];
    var was := if id in scores then scores[id] else 0;
    if i == 0 {
      assert forall k | 0 <= k < |rest| :: rest[k] == rubric[k + 1];
      OtherIdsEarnNothing(rest, scores, id, v);
      Regained(v, was, rubric[0].weight, Earned(rest, scores));
    } else {
      assert rubric[0].id != id && rest[i - 1] == rubric[i];
      ValueEarnsItsWeight(rest, scores, i - 1, v);
    }
  }

  /** Where every criterion has the same value, or none has a value, what is earned is that value
      times the whole weight. */
  lemma {:induction false} SameValueEarns(rubric: seq<Criterion>, scores: map<string, int>, v: int)
    requires forall i | 0 <= i < |rubric| ::
               if rubric[i].id in scores then scores[rubric[i].id] == v else v == 0
    ensures Earned(rubric, scores) == v * TotalWeight(rubric)
  {
    if rubric == [] {
    } else {
      SameValueEarns(rubric[1..], scores, v);
      assert ValueOf(scores, rubric[0].id) == v;
      assert v * (rubric[0].weight + TotalWeight(rubric[1..])) == v * rubric[0].weight + v * TotalWeight(rubric[1..]);
    }
  }

  /** Every criterion's weight counts once in the whole. */
  lemma {:induction false} WeightCounts(rubric: seq<Criterion>, i: nat, w: int)
    requires i < |rubric|
    ensures TotalWeight(rubric[i := rubric[i].(weight := w)]) == TotalWeight(rubric) + w - rubric[i].weight
  {
    var changed := rubric[i := rubric[i].(weight := w)];
    if i == 0 {
      assert changed[1..] == rubric[1..];
    } else {
      WeightCounts(rubric[1..], i - 1, w);
      assert changed[1..] == rubric[1..][i - 1 := rubric[i].(weight := w)];
    }
  }

  lemma {:induction false} NoWeight(rubric: seq<Criterion>)
    requires forall i | 0 <= i < |rubric| :: rubric[i].weight == 0
    ensures TotalWeight(rubric) == 0
  {
    if rubric == [] {
    } else {
      NoWeight(rubric[1..]);
    }
  }

  lemma {:induction false} SumWithOneChanged(rubric: seq<Criterion>, judges: seq<JudgeScores>, k: nat, judge: JudgeScores)
    requires TotalWeight(rubric) > 0 && k < |judges|
    ensures JudgeScoreSum(rubric, judges[k := judge])
         == JudgeScoreSum(rubric, judges) + JudgeScore(rubric, judge) - JudgeScore(rubric, judges[k])
  {
    if k == 0 {
      assert judges[0 := judge][1..] == judges[1..];
    } else {
      assert judges[k := judge][1..] == judges[1..][k - 1 := judge];
      SumWithOneChanged(rubric, judges[1..], k - 1, judge);
    }
  }

  /** One judge's change of one value, by `up`, moves the team's mean on the 0..100 scale by `up`
      times the criterion's share of the weight, times ten, over the number of judges. */
  lemma {:induction false} MeanMovesExactly(rubric: seq<Criterion>, judges: seq<JudgeScores>, k: nat, i: nat, v: int)
    requires TotalWeight(rubric) > 0 && DistinctIds(rubric) && k < |judges| && i < |rubric|
    ensures var id, scores := rubric[i].id, judges[k].scores;
            var up := v - (if id in scores then scores[id] else 0);
            MeanScore(rubric, judges[k := judges[k].(scores := scores[id := v])])
            == MeanScore(rubric, judges)
               + (up * rubric[i].weight) as real / TotalWeight(rubric) as real * 10.0 / |judges| as real
  {
    var scores := judges[k].scores;
    var judge := judges[k].(scores := scores[rubric[i].id := v]);
    ValueEarnsItsWeight(rubric, scores, i, v);
    SumWithOneChanged(rubric, judges, k, judge);
    var up := v - (if rubric[i].id in scores then scores[rubric[i].id] else 0);
    ShareAdds(Earned(rubric, scores), up * rubric[i].weight, TotalWeight(rubric));
    MeanAdds(JudgeScoreSum(rubric, judges), (up * rubric[i].weight) as real / TotalWeight(rubric) as real * 10.0, |judges|);
  }

  lemma ShareAdds(e: int, more: int, w: int)
    requires w > 0
    ensures (e + more) as real / w as real * 10.0 == e as real / w as real * 10.0 + more as real / w as real * 10.0
  {
  }

  lemma MeanAdds(sum: real, more: real, n: nat)
    requires n > 0
    ensures (sum + more) / n as real == sum / n as real + more / n as real
  {
  }

  ghost predicate GivesAll(rubric: seq<Criterion>, judge: JudgeScores, v: int) {
    forall i | 0 <= i < |rubric| :: if rubric[i].id in judge.scores then judge.scores[rubric[i].id] == v else v == 0
  }

  lemma {:induction false} SumOfSame(rubric: seq<Criterion>, judges: seq<JudgeScores>, v: int)
    requires TotalWeight(rubric) > 0 && forall k | 0 <= k < |judges| :: GivesAll(rubric, judges[k], v)
    ensures JudgeScoreSum(rubric, judges) == (10 * v) as real * |judges| as real
  {
    if judges == [] {
    } else {
      SameValueEarns(rubric, judges[0].scores, v);
      assert (v * TotalWeight(rubric)) as real / TotalWeight(rubric) as real == v as real;
      SumOfSame(rubric, judges[1..], v);
    }
  }

  /** A team to which every judge gave `v` throughout scores 10 * v, and 0 if nobody gave anything. */
  lemma SameValueScores(rubric: seq<Criterion>, judges: seq<JudgeScores>, v: int)
    requires TotalWeight(rubric) > 0 && judges != [] && forall k | 0 <= k < |judges| :: GivesAll(rubric, judges[k], v)
    ensures MeanScore(rubric, judges) == (10 * v) as real && TeamScore(rubric, judges) == 1000 * v
  {
    SumOfSame(rubric, judges, v);
    assert (10 * v) as real * |judges| as real / |judges| as real == (10 * v) as real;
    assert MeanScore(rubric, judges) * 100.0 == (1000 * v) as real;
  }

  // ----- Sorting -----

  function InsertByScore(x: TeamResult, sorted: seq<TeamResult>): seq<TeamResult> {
    if sorted == [] || x.hundredths >= sorted[0].hundredths then [x] + sorted
    else [sorted[0]] + InsertByScore(x, sorted[1..])
  }

  /** Array.sort with (a, b) => b.weightedScore - a.weightedScore. */
  function SortByScore(xs: seq<TeamResult>): seq<TeamResult> {
    if xs == [] then [] else InsertByScore(xs[0], SortByScore(xs[1..]))
  }

  ghost predicate Descending(xs: seq<TeamResult>) {
    forall i, j | 0 <= i < j < |xs| :: xs[i].hundredths >= xs[j].hundredths
  }

  /** The elements with one score, in order. */
  ghost function WithScore(xs: seq<TeamResult>, score: int): seq<TeamResult> {
    if xs == [] then []
    else if xs[0].hundredths == score then [xs[0]] + WithScore(xs[1..], score)
    else WithScore(xs[1..], score)
  }

  lemma {:induction false} InsertPermutes(x: TeamResult, xs: seq<TeamResult>)
    ensures multiset(InsertByScore(x, xs)) == multiset([x] + xs)
  {
    if xs == [] || x.hundredths >= xs[0].hundredths {
    } else {
      InsertPermutes(x, xs[1..]);
      assert xs == [xs[0]] + xs[1..];
    }
  }

  lemma {:induction false} InsertStaysBelow(x: TeamResult, xs: seq<TeamResult>, bound: int)
    requires x.hundredths <= bound && forall i | 0 <= i < |xs| :: xs[i].hundredths <= bound
    ensures forall i | 0 <= i < |InsertByScore(x, xs)| :: InsertByScore(x, xs)[i].hundredths <= bound
  {
    if xs == [] || x.hundredths >= xs[0].hundredths {
    } else {
      InsertStaysBelow(x, xs[1..], bound);
    }
  }

  lemma {:induction false} InsertDescends(x: TeamResult, xs: seq<TeamResult>)
    requires Descending(xs)
    ensures Descending(InsertByScore(x, xs))
  {
    if xs == [] || x.hundredths >= xs[0].hundredths {
    } else {
      InsertDescends(x, xs[1..]);
      InsertStaysBelow(x, xs[1..], xs[0].hundredths);
    }
  }

  lemma {:induction false} InsertIsStable(x: TeamResult, xs: seq<TeamResult>, v: int)
    ensures WithScore(InsertByScore(x, xs), v) == WithScore([x] + xs, v)
  {
    assert ([x] + xs)[1..] == xs;
    if xs == [] || x.hundredths >= xs[0].hundredths {
    } else {
      InsertIsStable(x, xs[1..], v);
      assert InsertByScore(x, xs)[1..] == InsertByScore(x, xs[1..]);
      assert ([x] + xs[1..])[1..] == xs[1..];
    }
  }

  lemma FirstWithScore(x: TeamResult, xs: seq<TeamResult>, v: int)
    ensures WithScore([x] + xs, v) == (if x.hundredths == v then [x] else []) + WithScore(xs, v)
  {
    assert ([x] + xs)[1..] == xs;
  }

  lemma {:induction false} SortIsStable(xs: seq<TeamResult>, v: int)
    ensures WithScore(SortByScore(xs), v) == WithScore(xs, v)
  {
    if xs == [] {
    } else {
      SortIsStable(xs[1..], v);
      InsertIsStable(xs[0], SortByScore(xs[1..]), v);
      FirstWithScore(xs[0], SortByScore(xs[1..]), v);
      FirstWithScore(xs[0], xs[1..], v);
      assert xs == [xs[0]] + xs[1..];
    }
  }

  /** The sort permutes, orders by falling score and keeps ties in their original order. */
  lemma {:induction false} SortSorts(xs: seq<TeamResult>)
    ensures Descending(SortByScore(xs))
    ensures multiset(SortByScore(xs)) == multiset(xs)
    ensures forall v :: WithScore(SortByScore(xs), v) == WithScore(xs, v)
  {
    if xs == [] {
    } else {
      SortSorts(xs[1..]);
      InsertPermutes(xs[0], SortByScore(xs[1..]));
      InsertDescends(xs[0], SortByScore(xs[1..]));
      assert xs == [xs[0]] + xs[1..];
    }
    forall v ensures WithScore(SortByScore(xs), v) == WithScore(xs, v) {
      SortIsStable(xs, v);
    }
  }

  lemma {:induction false} WithScoreMembers(xs: seq<TeamResult>, v: int)
    ensures forall x :: x in WithScore(xs, v) <==> x in xs && x.hundredths == v
  {
    if xs == [] {
    } else {
      WithScoreMembers(xs[1..], v);
      assert xs == [xs[0]] + xs[1..];
    }
  }

  lemma HeadHasItsScore(xs: seq<TeamResult>)
    ensures xs != [] ==> WithScore(xs, xs[0].hundredths) != []
  {
  }

  /** Any other stable descending sort returns the very same list. */
  lemma {:induction false} StableSortIsUnique(xs: seq<TeamResult>, ys: seq<TeamResult>)
    requires Descending(xs) && Descending(ys)
    requires forall v :: WithScore(xs, v) == WithScore(ys, v)
    ensures xs == ys
    decreases |xs|
  {
    if xs == [] || ys == [] {
      HeadHasItsScore(xs);
      HeadHasItsScore(ys);
    } else {
      WithScoreMembers(xs, ys[0].hundredths);
      WithScoreMembers(ys, xs[0].hundredths);
      assert xs[0] in WithScore(xs, xs[0].hundredths) && ys[0] in WithScore(ys, ys[0].hundredths);
      assert ys[0] in xs && xs[0] in ys by {
        WithScoreMembers(xs, xs[0].hundredths);
        WithScoreMembers(ys, ys[0].hundredths);
      }
      assert xs[0].hundredths == ys[0].hundredths;
      var top := xs[0].hundredths;
      assert WithScore(xs, top)[0] == xs[0] && WithScore(ys, top)[0] == ys[0];
      forall v ensures WithScore(xs[1..], v) == WithScore(ys[1..], v) {
        assert WithScore(xs, v) == WithScore(ys, v);
        if v == top {
          assert WithScore(xs[1..], v) == WithScore(xs, v)[1..];
          assert WithScore(ys[1..], v) == WithScore(ys, v)[1..];
        }
      }
      StableSortIsUnique(xs[1..], ys[1..]);
    }
  }

  // ----- Dense ranking -----

  /** How often the score has changed by position `i`, counting the first score as a change. */
  function DenseRank(xs: seq<TeamResult>, i: nat): nat
    requires i < |xs|
  {
    if i == 0 then 1
    else DenseRank(xs, i - 1) + (if xs[i].hundredths != xs[i - 1].hundredths then 1 else 0)
  }

  function Ranked(xs: seq<TeamResult>): seq<TeamResult> {
    seq(|xs|, i requires 0 <= i < |xs| => xs[i].(rank := DenseRank(xs, i)))
  }

  /** The loop over the sorted results, writing each rank in place. */
  method AssignRanks(results: array<TeamResult>)
    modifies results
    ensures results[..] == Ranked(old(results[..]))
  {
    var currentRank := 0;
    var previousScore: Option<int> := None;
    ghost var before := results[..];
    for i := 0 to results.Length
      invariant results[i..] == before[i..]
      invariant results[..i] == Ranked(before)[..i]
      invariant i == 0 ==> currentRank == 0 && previousScore == None
      invariant i > 0 ==> currentRank == DenseRank(before, i - 1) && previousScore == Some(before[i - 1].hundredths)
    {
      assert results[i] == before[i] by { assert results[i] == results[i..][0]; }
      if previousScore != Some(results[i].hundredths) {
        currentRank := currentRank + 1;
        previousScore := Some(results[i].hundredths);
      }
      results[i] := results[i].(rank := currentRank);
      assert results[..i + 1] == results[..i] + [results[i]];
      assert Ranked(before)[..i + 1] == Ranked(before)[..i] + [Ranked(before)[i]];
    }
    assert results[..] == results[..results.Length];
    assert Ranked(before) == Ranked(before)[..results.Length];
  }

  ghost function Scores(xs: seq<TeamResult>): set<int> {
    set x | x in xs :: x.hundredths
  }

  ghost function Higher(scores: set<int>, score: int): set<int> {
    set v | v in scores && v > score
  }

  /** A rank is one more than the number of distinct scores above it. */
  lemma {:induction false} DenseRankCountsHigher(xs: seq<TeamResult>, i: nat)
    requires Descending(xs) && i < |xs|
    ensures DenseRank(xs, i) == 1 + |Higher(Scores(xs), xs[i].hundredths)|
  {
    var above := Higher(Scores(xs), xs[i].hundredths);
    if i == 0 {
      assert above == {};
    } else {
      DenseRankCountsHigher(xs, i - 1);
      var previous := Higher(Scores(xs), xs[i - 1].hundredths);
      if xs[i].hundredths == xs[i - 1].hundredths {
        assert above == previous;
      } else {
        assert xs[i - 1] in xs;
        assert above == previous + {xs[i - 1].hundredths};
      }
    }
  }

  lemma {:induction false} RanksReach(xs: seq<TeamResult>, i: nat, r: int)
    requires i < |xs| && 1 <= r <= DenseRank(xs, i)
    ensures exists j :: 0 <= j <= i && DenseRank(xs, j) == r
  {
    if r == DenseRank(xs, i) {
    } else {
      RanksReach(xs, i - 1, r);
    }
  }

  /** The ranks handed out are exactly 1 to the number of distinct scores. */
  lemma RanksAreDense(xs: seq<TeamResult>, r: int)
    requires Descending(xs)
    ensures (exists i :: 0 <= i < |xs| && DenseRank(xs, i) == r) <==> 1 <= r <= |Scores(xs)|
  {
    forall i | 0 <= i < |xs| ensures 1 <= DenseRank(xs, i) <= |Scores(xs)| {
      DenseRankCountsHigher(xs, i);
      var above := Higher(Scores(xs), xs[i].hundredths);
      assert xs[i] in xs;
      Smaller(above + {xs[i].hundredths}, Scores(xs));
    }
    if xs != [] && 1 <= r <= |Scores(xs)| {
      var last := |xs| - 1;
      DenseRankCountsHigher(xs, last);
      assert xs[last] in xs;
      assert Scores(xs) == Higher(Scores(xs), xs[last].hundredths) + {xs[last].hundredths};
      RanksReach(xs, last, r);
    }
  }

  lemma Smaller(a: set<int>, b: set<int>)
    requires a <= b
    ensures |a| <= |b|
  {
    assert b == a + (b - a);
  }

  // ----- The whole computation -----

  function ComputeResults(rubric: seq<Criterion>, perTeam: seq<TeamJudges>): seq<TeamResult>
    requires TotalWeight(rubric) > 0
  {
    Ranked(SortByScore(FilterMap(perTeam, Scorer(rubric))))
  }

  /** What is said about one team: its own score and judge count, and a rank that depends
      only on the set of scores. */
  ghost function Placed(scores: set<int>): TeamResult -> Option<TeamResult> {
    (x: TeamResult) => Some(x.(rank := 1 + |Higher(scores, x.hundredths)|))
  }

  lemma {:induction false} PlacedAt(xs: seq<TeamResult>, scores: set<int>)
    ensures |FilterMap(xs, Placed(scores))| == |xs|
    ensures forall i | 0 <= i < |xs| ::
              FilterMap(xs, Placed(scores))[i] == xs[i].(rank := 1 + |Higher(scores, xs[i].hundredths)|)
  {
    if xs == [] {
    } else {
      PlacedAt(xs[1..], scores);
    }
  }

  lemma SortedRankedIsPlaced(sorted: seq<TeamResult>)
    requires Descending(sorted)
    ensures Ranked(sorted) == FilterMap(sorted, Placed(Scores(sorted)))
  {
    var placed := FilterMap(sorted, Placed(Scores(sorted)));
    PlacedAt(sorted, Scores(sorted));
    forall i | 0 <= i < |sorted| ensures Ranked(sorted)[i] == placed[i] {
      DenseRankCountsHigher(sorted, i);
    }
  }

  lemma SameScores(xs: seq<TeamResult>, ys: seq<TeamResult>)
    requires multiset(xs) == multiset(ys)
    ensures Scores(xs) == Scores(ys)
  {
    assert forall x :: x in xs <==> x in multiset(xs);
    assert forall y :: y in ys <==> y in multiset(ys);
  }

  lemma RankedIsPlaced(xs: seq<TeamResult>)
    ensures multiset(Ranked(SortByScore(xs))) == multiset(FilterMap(xs, Placed(Scores(xs))))
  {
    var sorted := SortByScore(xs);
    SortSorts(xs);
    SameScores(sorted, xs);
    SortedRankedIsPlaced(sorted);
    FilterMapPermutes(sorted, xs, Placed(Scores(xs)));
  }

  /** The line a judged team gets when the judged teams have these scores. */
  ghost function LineFor(rubric: seq<Criterion>, team: TeamJudges, scores: set<int>): TeamResult
    requires TotalWeight(rubric) > 0 && team.judges != []
  {
    var score := TeamScore(rubric, team.judges);
    TeamResult(team.teamId, score, |team.judges|, 1 + |Higher(scores, score)|)
  }

  lemma LinesAreResults(rubric: seq<Criterion>, perTeam: seq<TeamJudges>, line: TeamResult)
    requires TotalWeight(rubric) > 0
    ensures var scored := FilterMap(perTeam, Scorer(rubric));
            line in FilterMap(scored, Placed(Scores(scored)))
            <==> exists team | team in perTeam :: team.judges != [] && line == LineFor(rubric, team, Scores(scored))
  {
    var scored := FilterMap(perTeam, Scorer(rubric));
    FilterMapMembers(scored, Placed(Scores(scored)), line);
    if x :| x in scored && Placed(Scores(scored))(x) == Some(line) {
      FilterMapMembers(perTeam, Scorer(rubric), x);
    }
    if team :| team in perTeam && team.judges != [] && line == LineFor(rubric, team, Scores(scored)) {
      var x := line.(rank := 0);
      assert Scorer(rubric)(team) == Some(x);
      FilterMapMembers(perTeam, Scorer(rubric), x);
      assert Placed(Scores(scored))(x) == Some(line);
    }
  }

  /** The results are in falling score order and hold one line per judged team: its own score
      and judge count, ranked one below the distinct scores above it. */
  lemma ResultsSpecified(rubric: seq<Criterion>, perTeam: seq<TeamJudges>)
    requires TotalWeight(rubric) > 0
    ensures var scored := FilterMap(perTeam, Scorer(rubric));
            var results := ComputeResults(rubric, perTeam);
            && Descending(results)
            && |results| == |scored|
            && (forall line :: line in results
                  <==> exists team | team in perTeam ::
                         team.judges != [] && line == LineFor(rubric, team, Scores(scored)))
  {
    var scored := FilterMap(perTeam, Scorer(rubric));
    var results := ComputeResults(rubric, perTeam);
    SortSorts(scored);
    RankedIsPlaced(scored);
    assert |multiset(SortByScore(scored))| == |multiset(scored)|;
    forall line ensures line in results
      <==> exists team | team in perTeam :: team.judges != [] && line == LineFor(rubric, team, Scores(scored))
    {
      assert line in results <==> line in multiset(results);
      LinesAreResults(rubric, perTeam, line);
      var placed := FilterMap(scored, Placed(Scores(scored)));
      assert line in placed <==> line in multiset(placed);
    }
  }

  /** `two` lists the teams and each team's judges in another order. */
  ghost predicate Reordered(one: seq<TeamJudges>, two: seq<TeamJudges>) {
    exists middle: seq<TeamJudges> :: JudgesReordered(one, middle) && multiset(middle) == multiset(two)
  }

  ghost predicate JudgesReordered(one: seq<TeamJudges>, two: seq<TeamJudges>) {
    && |one| == |two|
    && forall i | 0 <= i < |one| ::
         one[i].teamId == two[i].teamId && multiset(one[i].judges) == multiset(two[i].judges)
  }

  lemma {:induction false} JudgeOrderIrrelevant(rubric: seq<Criterion>, one: seq<TeamJudges>, two: seq<TeamJudges>)
    requires TotalWeight(rubric) > 0 && JudgesReordered(one, two)
    ensures FilterMap(one, Scorer(rubric)) == FilterMap(two, Scorer(rubric))
  {
    if one == [] {
    } else {
      SumPermutes(rubric, one[0].judges, two[0].judges);
      JudgeOrderIrrelevant(rubric, one[1..], two[1..]);
    }
  }

  /** Reordering teams or judges changes no team's score, judge count or rank. */
  lemma ResultsIgnoreOrder(rubric: seq<Criterion>, one: seq<TeamJudges>, two: seq<TeamJudges>)
    requires TotalWeight(rubric) > 0 && Reordered(one, two)
    ensures multiset(ComputeResults(rubric, one)) == multiset(ComputeResults(rubric, two))
  {
    var middle :| JudgesReordered(one, middle) && multiset(middle) == multiset(two);
    JudgeOrderIrrelevant(rubric, one, middle);
    var s1, s2 := FilterMap(middle, Scorer(rubric)), FilterMap(two, Scorer(rubric));
    FilterMapPermutes(middle, two, Scorer(rubric));
    SameScores(s1, s2);
    RankedIsPlaced(s1);
    RankedIsPlaced(s2);
    FilterMapPermutes(s1, s2, Placed(Scores(s1)));
  }
}
