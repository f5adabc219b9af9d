/** An event's results from its database rows: only score rows of finalized reviews are
    grouped, per team and judge, before the weighted computation. */
module EventResults {
  import opened Options
  import opened Permutations
  import opened Judging

  datatype ScoreRow = ScoreRow(judgeId: string, teamId: string, criterionId: string, value: int)

  datatype ProgressRow = ProgressRow(judgeId: string, teamId: string)

  /** The rows the queries return: the rubric if there is one, the submitting teams, every
      score of the event, and the finalized reviews. */
  datatype EventData = EventData(
    rubric: Option<seq<Criterion>>, teams: seq<string>, scores: seq<ScoreRow>, progress: seq<ProgressRow>)

  function PairKey(judgeId: string, teamId: string): string {
    judgeId + ":" + teamId
  }

  function FinalizedKeys(progress: seq<ProgressRow>): set<string> {
    set p | p in progress :: PairKey(p.judgeId, p.teamId)
  }

  function Counts(row: ScoreRow, teamId: string, finalized: set<string>): bool {
    row.teamId == teamId && PairKey(row.judgeId, row.teamId) in finalized
  }

  /** The row's value written into its judge's record; a judge not seen yet goes last. */
  function Recorded(judges: seq<JudgeScores>, row: ScoreRow): seq<JudgeScores> {
    if judges == [] then [JudgeScores(row.judgeId, map[row.criterionId := row.value])]
    else if judges[0].judgeId == row.judgeId then
      [judges[0].(scores := judges[0].scores[row.criterionId := row.value])] + judges[1..]
    else [judges[0]] + Recorded(judges[1..], row)
  }

  /** The entries of the judges map after the rows have been visited in order. */
  function Grouped(rows: seq<ScoreRow>, teamId: string, finalized: set<string>): seq<JudgeScores> {
    if rows == [] then []
    else
      var judges := Grouped(rows[..|rows| - 1], teamId, finalized);
      var row := rows[|rows| - 1];
      if Counts(row, teamId, finalized) then Recorded(judges, row) else judges
  }

  function PerTeam(data: EventData): seq<TeamJudges> {
    var finalized := FinalizedKeys(data.progress);
    seq(|data.teams|, i requires 0 <= i < |data.teams| =>
      TeamJudges(data.teams[i], Grouped(data.scores, data.teams[i], finalized)))
  }

  function ComputeEventResults(data: EventData): Option<seq<TeamResult>>
    requires data.rubric.Some? ==> TotalWeight(data.rubric.value) > 0
  {
    if data.rubric.None? then None else Some(ComputeResults(data.rubric.value, PerTeam(data)))
  }

  // ----- The nested loops -----

  function Entries(order: seq<string>, judgesMap: map<string, map<string, int>>): seq<JudgeScores>
    requires forall j | j in order :: j in judgesMap
  {
    seq(|order|, i requires 0 <= i < |order| => JudgeScores(order[i], judgesMap[order[i]]))
  }

  lemma {:induction false} RecordedExisting(
      order: seq<string>, judgesMap: map<string, map<string, int>>, row: ScoreRow)
    requires NoDuplicates(order) && (forall j | j in order :: j in judgesMap) && row.judgeId in order
    ensures Recorded(Entries(order, judgesMap), row)
            == Entries(order, judgesMap[row.judgeId := judgesMap[row.judgeId][row.criterionId := row.value]])
  {
    var changed := judgesMap[row.judgeId := judgesMap[row.judgeId][row.criterionId := row.value]];
    assert Entries(order, judgesMap)[1..] == Entries(order[1..], judgesMap);
    assert Entries(order, changed)[1..] == Entries(order[1..], changed);
    if order[0] == row.judgeId {
      assert Entries(order[1..], changed) == Entries(order[1..], judgesMap);
    } else {
      RecordedExisting(order[1..], judgesMap, row);
    }
  }

  lemma {:induction false} RecordedNew(
      order: seq<string>, judgesMap: map<string, map<string, int>>, row: ScoreRow)
    requires (forall j | j in order :: j in judgesMap) && row.judgeId !in order
    ensures Recorded(Entries(order, judgesMap), row)
            == Entries(order + [row.judgeId], judgesMap[row.judgeId := map[row.criterionId := row.value]])
  {
    var changed := judgesMap[row.judgeId := map[row.criterionId := row.value]];
    if order == [] {
      assert Entries([row.judgeId], changed) == [JudgeScores(row.judgeId, map[row.criterionId := row.value])];
    } else {
      assert Entries(order, judgesMap)[1..] == Entries(order[1..], judgesMap);
      RecordedNew(order[1..], judgesMap, row);
      assert (order + [row.judgeId])[1..] == order[1..] + [row.judgeId];
      assert Entries(order + [row.judgeId], changed)[1..] == Entries(order[1..] + [row.judgeId], changed);
    }
  }

  method GroupTeam(scores: seq<ScoreRow>, teamId: string, finalized: set<string>) returns (judges: seq<JudgeScores>)
    ensures judges == Grouped(scores, teamId, finalized)
  {
    var order: seq<string> := [];
    var judgesMap: map<string, map<string, int>> := map[];
    for i := 0 to |scores|
      invariant NoDuplicates(order)
      invariant forall j :: j in order <==> j in judgesMap
      invariant Entries(order, judgesMap) == Grouped(scores[..i], teamId, finalized)
    {
      var score := scores[i];
      assert scores[..i + 1][..i] == scores[..i];
      if score.teamId != teamId { continue; }
      if PairKey(score.judgeId, score.teamId) !in finalized { continue; }
      if score.judgeId in judgesMap {
        RecordedExisting(order, judgesMap, score);
        var entry := judgesMap[score.judgeId];
        judgesMap := judgesMap[score.judgeId := entry[score.criterionId := score.value]];
      } else {
        RecordedNew(order, judgesMap, score);
        order := order + [score.judgeId];
        judgesMap := judgesMap[score.judgeId := map[score.criterionId := score.value]];
      }
    }
    assert scores[..|scores|] == scores;
    return Entries(order, judgesMap);
  }

  /** What the service returns: nothing without a rubric, and scores that are not numbers under a
      rubric without weight. */
  datatype Standings = NoRubric | Standings(results: seq<TeamResult>) | Unscored(lines: seq<UnscoredLine>)

  datatype UnscoredLine = UnscoredLine(teamId: string, judgeCount: nat, rank: nat)

  /** The judged teams as they come. NaN orders nothing, so the sort moves no one, and it never
      equals the score before it, so every team gets the next rank. */
  function UnscoredLines(perTeam: seq<TeamJudges>): seq<UnscoredLine> {
    if perTeam == [] then []
    else
      var lines, last := UnscoredLines(perTeam[..|perTeam| - 1]), perTeam[|perTeam| - 1];
      if last.judges == [] then lines else lines + [UnscoredLine(last.teamId, |last.judges|, |lines| + 1)]
  }

  lemma {:induction false} WeightNonnegative(rubric: seq<Criterion>)
    requires forall i | 0 <= i < |rubric| :: rubric[i].weight >= 0
    ensures TotalWeight(rubric) >= 0
  {
    if rubric == [] {
    } else {
      WeightNonnegative(rubric[1..]);
    }
  }

  method LoadEventResults(data: EventData) returns (standings: Standings)
    requires data.rubric.Some? ==> forall i | 0 <= i < |data.rubric.value| :: data.rubric.value[i].weight >= 0
    ensures data.rubric.None? ==> standings == NoRubric
    ensures data.rubric.Some? && TotalWeight(data.rubric.value) == 0 ==>
              standings == Unscored(UnscoredLines(PerTeam(data)))
    ensures data.rubric.Some? && TotalWeight(data.rubric.value) != 0 ==>
              && TotalWeight(data.rubric.value) > 0
              && Some(standings) == (match ComputeEventResults(data)
                                     case None => None
                                     case Some(results) => Some(Standings(results)))
  {
    if data.rubric.None? {
      return NoRubric;
    }
    WeightNonnegative(data.rubric.value);
    var finalized := FinalizedKeys(data.progress);
    var perTeam: seq<TeamJudges> := [];
    for t := 0 to |data.teams|
      invariant perTeam == PerTeam(data)[..t]
    {
      var judges := GroupTeam(data.scores, data.teams[t], finalized);
      perTeam := perTeam + [TeamJudges(data.teams[t], judges)];
    }
    assert perTeam == PerTeam(data);
    if TotalWeight(data.rubric.value) == 0 {
      var lines := RankUnscored(perTeam);
      return Unscored(lines);
    }
    var scored := SortByScore(FilterMap(perTeam, Scorer(data.rubric.value)));
    var ranking := new TeamResult[|scored|](i requires 0 <= i < |scored| => scored[i]);
    assert ranking[..] == scored;
    AssignRanks(ranking);
    return Standings(ranking[..]);
  }

  method RankUnscored(perTeam: seq<TeamJudges>) returns (lines: seq<UnscoredLine>)
    ensures lines == UnscoredLines(perTeam)
  {
    lines := [];
    var currentRank := 0;
    for t := 0 to |perTeam|
      invariant lines == UnscoredLines(perTeam[..t]) && currentRank == |lines|
    {
      assert perTeam[..t + 1][..t] == perTeam[..t];
      if perTeam[t].judges != [] {
        currentRank := currentRank + 1;
        lines := lines + [UnscoredLine(perTeam[t].teamId, |perTeam[t].judges|, currentRank)];
      }
    }
    assert perTeam[..|perTeam|] == perTeam;
  }

  function Judged(): TeamJudges -> Option<TeamJudges> {
    (team: TeamJudges) => if team.judges == [] then None else Some(team)
  }

  /** Without weight the ranks say nothing but the order the judged teams were read in. */
  lemma {:induction false} UnscoredRanksAreOrder(perTeam: seq<TeamJudges>)
    ensures var lines, judged := UnscoredLines(perTeam), FilterMap(perTeam, Judged());
            && |lines| == |judged|
            && forall i | 0 <= i < |lines| ::
                 lines[i] == UnscoredLine(judged[i].teamId, |judged[i].judges|, i + 1)
  {
    if perTeam == [] {
    } else {
      var front, last := perTeam[..|perTeam| - 1], perTeam[|perTeam| - 1];
      UnscoredRanksAreOrder(front);
      assert perTeam == front + [last];
      FilterMapConcat(front, [last], Judged());
      assert [last][1..] == [];
    }
  }

  // ----- What a grouped judge holds -----

  /** The last value written for each criterion by one judge's rows that count. */
  ghost function ScoresOf(rows: seq<ScoreRow>, teamId: string, finalized: set<string>, judgeId: string): map<string, int> {
    if rows == [] then map[]
    else
      var row := rows[|rows| - 1];
      var earlier := ScoresOf(rows[..|rows| - 1], teamId, finalized, judgeId);
      if Counts(row, teamId, finalized) && row.judgeId == judgeId then earlier[row.criterionId := row.value] else earlier
  }

  ghost function JudgeIds(judges: seq<JudgeScores>): seq<string> {
    seq(|judges|, i requires 0 <= i < |judges| => judges[i].judgeId)
  }

  lemma JudgeIdsMembers(judges: seq<JudgeScores>)
    ensures forall e | e in judges :: e.judgeId in JudgeIds(judges)
    ensures forall j | j in JudgeIds(judges) :: exists e | e in judges :: e.judgeId == j
  {
    forall e | e in judges ensures e.judgeId in JudgeIds(judges) {
      var i :| 0 <= i < |judges| && judges[i] == e;
      assert JudgeIds(judges)[i] == e.judgeId;
    }
  }

  lemma {:induction false} RecordedIds(judges: seq<JudgeScores>, row: ScoreRow)
    ensures JudgeIds(Recorded(judges, row))
         == if row.judgeId in JudgeIds(judges) then JudgeIds(judges) else JudgeIds(judges) + [row.judgeId]
  {
    if judges == [] {
    } else {
      var tail := judges[1..];
      assert JudgeIds(judges) == [judges[0].judgeId] + JudgeIds(tail);
      if judges[0].judgeId != row.judgeId {
        RecordedIds(tail, row);
        assert JudgeIds(Recorded(judges, row)) == [judges[0].judgeId] + JudgeIds(Recorded(tail, row));
      }
    }
  }

  /** What one entry is after a row is written. */
  ghost predicate IsRecorded(entry: JudgeScores, judges: seq<JudgeScores>, row: ScoreRow) {
    if entry.judgeId != row.judgeId then entry in judges
    else if row.judgeId in JudgeIds(judges)
    then exists b | b in judges :: b.judgeId == entry.judgeId && entry.scores == b.scores[row.criterionId := row.value]
    else entry.scores == map[row.criterionId := row.value]
  }

  lemma RecordedInTail(entry: JudgeScores, judges: seq<JudgeScores>, row: ScoreRow)
    requires judges != [] && judges[0].judgeId != row.judgeId && IsRecorded(entry, judges[1..], row)
    ensures IsRecorded(entry, judges, row)
  {
    assert JudgeIds(judges) == [judges[0].judgeId] + JudgeIds(judges[1..]);
    assert forall b | b in judges[1..] :: b in judges;
  }

  lemma {:induction false} RecordedEntries(judges: seq<JudgeScores>, row: ScoreRow, entry: JudgeScores)
    requires NoDuplicates(JudgeIds(judges)) && entry in Recorded(judges, row)
    ensures IsRecorded(entry, judges, row)
  {
    if judges == [] {
    } else {
      var tail := judges[1..];
      assert JudgeIds(judges) == [judges[0].judgeId] + JudgeIds(tail);
      assert JudgeIds(judges)[1..] == JudgeIds(tail);
      JudgeIdsMembers(tail);
      if judges[0].judgeId == row.judgeId {
        var b := judges[0];
        if entry == b.(scores := b.scores[row.criterionId := row.value]) {
          assert b in judges && JudgeIds(judges)[0] == row.judgeId;
        } else {
          var k :| 0 <= k < |tail| && tail[k] == entry;
          assert JudgeIds(judges)[0] == row.judgeId && JudgeIds(judges)[k + 1] == entry.judgeId;
        }
      } else if entry != judges[0] {
        RecordedEntries(tail, row, entry);
        RecordedInTail(entry, judges, row);
      }
    }
  }

  /** Writing a row touches its own judge's record and no other. */
  lemma RecordedJudges(judges: seq<JudgeScores>, row: ScoreRow)
    requires NoDuplicates(JudgeIds(judges))
    ensures var after := Recorded(judges, row);
            && NoDuplicates(JudgeIds(after))
            && (forall j :: j in JudgeIds(after) <==> j in JudgeIds(judges) || j == row.judgeId)
            && (forall e | e in after :: IsRecorded(e, judges, row))
  {
    RecordedIds(judges, row);
    forall e | e in Recorded(judges, row) ensures IsRecorded(e, judges, row) {
      RecordedEntries(judges, row, e);
    }
  }

  /** Each judge with a counting row appears once, with that judge's last values. */
  lemma {:induction false} GroupedSpecified(rows: seq<ScoreRow>, teamId: string, finalized: set<string>)
    ensures var judges := Grouped(rows, teamId, finalized);
            && NoDuplicates(JudgeIds(judges))
            && (forall j :: j in JudgeIds(judges)
                  <==> exists row | row in rows :: Counts(row, teamId, finalized) && row.judgeId == j)
            && (forall e | e in judges :: e.scores == ScoresOf(rows, teamId, finalized, e.judgeId))
            && (forall j | j !in JudgeIds(judges) :: ScoresOf(rows, teamId, finalized, j) == map[])
  {
    if rows == [] {
    } else {
      var front, row := rows[..|rows| - 1], rows[|rows| - 1];
      GroupedSpecified(front, teamId, finalized);
      var before := Grouped(front, teamId, finalized);
      assert rows == front + [row];
      if Counts(row, teamId, finalized) {
        RecordedJudges(before, row);
        GroupedStep(before, front, row, teamId, finalized);
      }
    }
  }

  lemma GroupedStep(
      before: seq<JudgeScores>, front: seq<ScoreRow>, row: ScoreRow, teamId: string, finalized: set<string>)
    requires NoDuplicates(JudgeIds(before)) && Counts(row, teamId, finalized)
    requires forall e | e in before :: e.scores == ScoresOf(front, teamId, finalized, e.judgeId)
    requires forall j | j !in JudgeIds(before) :: ScoresOf(front, teamId, finalized, j) == map[]
    ensures forall e | e in Recorded(before, row) :: e.scores == ScoresOf(front + [row], teamId, finalized, e.judgeId)
  {
    RecordedJudges(before, row);
    assert (front + [row])[..|front|] == front;
  }

  /** At most one row per judge, team and criterion. */
  ghost predicate UniqueRows(rows: seq<ScoreRow>) {
    forall i, j | 0 <= i < j < |rows| ::
      !(rows[i].judgeId == rows[j].judgeId && rows[i].teamId == rows[j].teamId
        && rows[i].criterionId == rows[j].criterionId)
  }

  /** With unique rows a judge's record is the set of that judge's counting rows. */
  lemma {:induction false} ScoresOfUnique(
      rows: seq<ScoreRow>, teamId: string, finalized: set<string>, judgeId: string, c: string, v: int)
    requires UniqueRows(rows)
    ensures var scores := ScoresOf(rows, teamId, finalized, judgeId);
            (c in scores && scores[c] == v)
            <==> (ScoreRow(judgeId, teamId, c, v) in rows && PairKey(judgeId, teamId) in finalized)
  {
    if rows == [] {
    } else {
      var front, row := rows[..|rows| - 1], rows[|rows| - 1];
      ScoresOfUnique(front, teamId, finalized, judgeId, c, v);
      var wanted := ScoreRow(judgeId, teamId, c, v);
      assert rows == front + [row];
      assert wanted in rows <==> wanted in front || wanted == row;
      if row.judgeId == judgeId && row.teamId == teamId && row.criterionId == c {
        assert wanted !in front;
      }
    }
  }

  // ----- Unfinished reviews do not leak -----

  /** The rows of finalized reviews. */
  function FinalizedRows(data: EventData): seq<ScoreRow> {
    var finalized := FinalizedKeys(data.progress);
    FilterMap(data.scores, (row: ScoreRow) => if PairKey(row.judgeId, row.teamId) in finalized then Some(row) else None)
  }

  lemma FinalizedRowsMembers(data: EventData, row: ScoreRow)
    ensures row in FinalizedRows(data)
            <==> row in data.scores && PairKey(row.judgeId, row.teamId) in FinalizedKeys(data.progress)
  {
    var finalized := FinalizedKeys(data.progress);
    FilterMapMembers(data.scores,
      (row: ScoreRow) => if PairKey(row.judgeId, row.teamId) in finalized then Some(row) else None, row);
  }

  /** The two databases agree on everything except score rows of unfinished reviews and the
      order of their rows. */
  ghost predicate SameFinalized(one: EventData, two: EventData) {
    && one.rubric == two.rubric
    && FinalizedKeys(one.progress) == FinalizedKeys(two.progress)
    && UniqueRows(one.scores) && UniqueRows(two.scores)
    && forall row :: row in FinalizedRows(one) <==> row in FinalizedRows(two)
  }

  lemma JudgeEntry(rows: seq<ScoreRow>, teamId: string, finalized: set<string>, e: JudgeScores)
    ensures e in Grouped(rows, teamId, finalized)
            <==> (exists row | row in rows :: Counts(row, teamId, finalized) && row.judgeId == e.judgeId)
                 && e.scores == ScoresOf(rows, teamId, finalized, e.judgeId)
  {
    GroupedSpecified(rows, teamId, finalized);
    var judges := Grouped(rows, teamId, finalized);
    JudgeIdsMembers(judges);
    if e.judgeId in JudgeIds(judges) {
      var b :| b in judges && b.judgeId == e.judgeId;
      assert b == JudgeScores(e.judgeId, ScoresOf(rows, teamId, finalized, e.judgeId));
    }
  }

  ghost predicate Holds(scores: map<string, int>, c: string, v: int) {
    c in scores && scores[c] == v
  }

  lemma SameScoresOf(one: EventData, two: EventData, teamId: string, judgeId: string)
    requires SameFinalized(one, two)
    ensures ScoresOf(one.scores, teamId, FinalizedKeys(one.progress), judgeId)
            == ScoresOf(two.scores, teamId, FinalizedKeys(two.progress), judgeId)
  {
    var finalized := FinalizedKeys(one.progress);
    var s1, s2 := ScoresOf(one.scores, teamId, finalized, judgeId), ScoresOf(two.scores, teamId, finalized, judgeId);
    forall c: string, v: int ensures Holds(s1, c, v) <==> Holds(s2, c, v) {
      ScoresOfUnique(one.scores, teamId, finalized, judgeId, c, v);
      ScoresOfUnique(two.scores, teamId, finalized, judgeId, c, v);
      FinalizedRowsMembers(one, ScoreRow(judgeId, teamId, c, v));
      FinalizedRowsMembers(two, ScoreRow(judgeId, teamId, c, v));
    }
    forall c ensures c in s1 <==> c in s2 {
      if c in s1 { assert Holds(s1, c, s1[c]); }
      if c in s2 { assert Holds(s2, c, s2[c]); }
    }
    forall c | c in s1 ensures s1[c] == s2[c] {
      assert Holds(s1, c, s1[c]);
    }
  }

  lemma SameJudges(one: EventData, two: EventData, teamId: string)
    requires SameFinalized(one, two)
    ensures multiset(Grouped(one.scores, teamId, FinalizedKeys(one.progress)))
            == multiset(Grouped(two.scores, teamId, FinalizedKeys(two.progress)))
  {
    var finalized := FinalizedKeys(one.progress);
    var g1, g2 := Grouped(one.scores, teamId, finalized), Grouped(two.scores, teamId, finalized);
    GroupedDistinct(one.scores, teamId, finalized);
    GroupedDistinct(two.scores, teamId, finalized);
    forall e ensures e in g1 <==> e in g2 {
      JudgeEntry(one.scores, teamId, finalized, e);
      JudgeEntry(two.scores, teamId, finalized, e);
      SameScoresOf(one, two, teamId, e.judgeId);
      forall row ensures row in one.scores && Counts(row, teamId, finalized)
                         <==> row in two.scores && Counts(row, teamId, finalized) {
        FinalizedRowsMembers(one, row);
        FinalizedRowsMembers(two, row);
      }
    }
    SameMembersPermute(g1, g2);
  }

  lemma GroupedDistinct(rows: seq<ScoreRow>, teamId: string, finalized: set<string>)
    ensures NoDuplicates(Grouped(rows, teamId, finalized))
  {
    GroupedSpecified(rows, teamId, finalized);
    var judges := Grouped(rows, teamId, finalized);
    forall i, j | 0 <= i < j < |judges| ensures judges[i] != judges[j] {
      assert JudgeIds(judges)[i] != JudgeIds(judges)[j];
    }
  }

  /** Rows of unfinished reviews, and the order of rows, never reach the results: with the
      same teams in the same order the two result lists are identical. */
  lemma UnfinishedReviewsDoNotLeak(one: EventData, two: EventData)
    requires one.rubric.Some? ==> TotalWeight(one.rubric.value) > 0
    requires SameFinalized(one, two) && one.teams == two.teams
    ensures ComputeEventResults(one) == ComputeEventResults(two)
  {
    if one.rubric.Some? {
      forall i | 0 <= i < |one.teams|
        ensures multiset(PerTeam(one)[i].judges) == multiset(PerTeam(two)[i].judges)
      {
        SameJudges(one, two, one.teams[i]);
      }
      JudgeOrderIrrelevant(one.rubric.value, PerTeam(one), PerTeam(two));
    }
  }

  /** With the teams read in another order too, only tied teams can change places. */
  lemma TeamOrderIrrelevant(one: EventData, two: EventData)
    requires one.rubric.Some? && TotalWeight(one.rubric.value) > 0
    requires SameFinalized(one, two) && multiset(one.teams) == multiset(two.teams)
    ensures var r1, r2 := ComputeEventResults(one).value, ComputeEventResults(two).value;
            Descending(r1) && Descending(r2) && multiset(r1) == multiset(r2)
  {
    var moved := one.(teams := two.teams);
    UnfinishedReviewsDoNotLeak(moved, two) by {
      forall row ensures row in FinalizedRows(moved) <==> row in FinalizedRows(two) {
        FinalizedRowsMembers(moved, row);
        FinalizedRowsMembers(one, row);
      }
    }
    PerTeamPermutes(one, two.teams);
    ResultsIgnoreOrder(one.rubric.value, PerTeam(one), PerTeam(moved)) by {
      assert JudgesReordered(PerTeam(one), PerTeam(one));
    }
    ResultsSpecified(one.rubric.value, PerTeam(one));
    ResultsSpecified(one.rubric.value, PerTeam(moved));
  }

  lemma PerTeamPermutes(data: EventData, teams: seq<string>)
    requires multiset(data.teams) == multiset(teams)
    ensures multiset(PerTeam(data)) == multiset(PerTeam(data.(teams := teams)))
  {
    var finalized := FinalizedKeys(data.progress);
    var f := (t: string) => Some(TeamJudges(t, Grouped(data.scores, t, finalized)));
    MapIsFilterMap(data.teams, f);
    MapIsFilterMap(teams, f);
    assert PerTeam(data) == FilterMap(data.teams, f);
    assert PerTeam(data.(teams := teams)) == FilterMap(teams, f);
    FilterMapPermutes(data.teams, teams, f);
  }

  lemma {:induction false} MapIsFilterMap(xs: seq<string>, f: string -> Option<TeamJudges>)
    requires forall x :: f(x).Some?
    ensures |FilterMap(xs, f)| == |xs| && forall i | 0 <= i < |xs| :: FilterMap(xs, f)[i] == f(xs[i]).value
  {
    if xs == [] {
    } else {
      MapIsFilterMap(xs[1..], f);
    }
  }

  // ----- Which pair a key names -----

  /** Ids without a colon, as the generated ids are, make the joined key name one pair. */
  lemma PairKeyNamesOnePair(j1: string, t1: string, j2: string, t2: string)
    requires ':' !in j1 && ':' !in j2
    ensures PairKey(j1, t1) == PairKey(j2, t2) <==> j1 == j2 && t1 == t2
  {
    if PairKey(j1, t1) == PairKey(j2, t2) {
      var key := PairKey(j1, t1);
      assert key[|j1|] == ':' && key[|j2|] == ':';
      assert forall i | 0 <= i < |j1| :: key[i] == j1[i];
      assert forall i | 0 <= i < |j2| :: key[i] == j2[i];
      assert |j1| == |j2|;
      assert j1 == key[..|j1|] && j2 == key[..|j2|];
      assert t1 == key[|j1| + 1..] && t2 == key[|j2| + 1..];
    }
  }

  /** A judge's rows for a team count exactly when that judge finalized that team. */
  lemma FinalizedMeansFinalized(data: EventData, row: ScoreRow)
    requires ':' !in row.judgeId && forall p | p in data.progress :: ':' !in p.judgeId
    ensures row in FinalizedRows(data)
            <==> row in data.scores && ProgressRow(row.judgeId, row.teamId) in data.progress
  {
    FinalizedRowsMembers(data, row);
    forall p | p in data.progress
      ensures PairKey(p.judgeId, p.teamId) == PairKey(row.judgeId, row.teamId)
              <==> p == ProgressRow(row.judgeId, row.teamId)
    {
      PairKeyNamesOnePair(p.judgeId, p.teamId, row.judgeId, row.teamId);
    }
  }

  // ----- Readiness -----

  datatype Readiness = Readiness(teamsWithSubmission: nat, fullyJudgedTeams: nat, activeJudges: nat)

  function FullyJudged(teamId: string, judges: seq<string>, finalized: set<string>): bool {
    forall j | j in judges :: PairKey(j, teamId) in finalized
  }

  function JudgingReadiness(teams: seq<string>, judges: seq<string>, progress: seq<ProgressRow>): Readiness {
    var finalized := FinalizedKeys(progress);
    var full := FilterMap(teams, (t: string) => if FullyJudged(t, judges, finalized) then Some(t) else None);
    Readiness(|teams|, if judges == [] then 0 else |full|, |judges|)
  }

  /** The judges counted for a team are those with a finalized review and at least one score. */
  lemma JudgeCountMeaning(data: EventData, teamId: string)
    ensures var finalized := FinalizedKeys(data.progress);
            |Grouped(data.scores, teamId, finalized)|
            == |set row | row in data.scores && Counts(row, teamId, finalized) :: row.judgeId|
  {
    var finalized := FinalizedKeys(data.progress);
    GroupedSpecified(data.scores, teamId, finalized);
    var ids := JudgeIds(Grouped(data.scores, teamId, finalized));
    DistinctCountExactly(ids);
    assert (set j | j in ids) == set row | row in data.scores && Counts(row, teamId, finalized) :: row.judgeId;
  }

  lemma {:induction false} AllKept(teams: seq<string>, keep: string -> Option<string>)
    ensures |FilterMap(teams, keep)| == |teams| <==> forall t | t in teams :: keep(t).Some?
  {
    if teams == [] {
    } else {
      AllKept(teams[1..], keep);
      assert forall t | t in teams :: t == teams[0] || t in teams[1..];
    }
  }

  /** The organizer sees every team fully judged exactly when there is no team, or there is a judge
      and every judge has finalized every team. */
  lemma ReadyExactly(teams: seq<string>, judges: seq<string>, progress: seq<ProgressRow>)
    ensures var readiness := JudgingReadiness(teams, judges, progress);
            readiness.fullyJudgedTeams == readiness.teamsWithSubmission
            <==> teams == [] || (judges != [] && forall t | t in teams :: FullyJudged(t, judges, FinalizedKeys(progress)))
  {
    var finalized := FinalizedKeys(progress);
    AllKept(teams, (t: string) => if FullyJudged(t, judges, finalized) then Some(t) else None);
  }

  lemma {:induction false} KeptCount(teams: seq<string>, keep: string -> Option<string>)
    requires NoDuplicates(teams) && forall t :: keep(t) == Some(t) || keep(t) == None
    ensures |FilterMap(teams, keep)| == |set t | t in teams && keep(t).Some?|
  {
    if teams == [] {
    } else {
      var kept := set t | t in teams && keep(t).Some?;
      var rest := set t | t in teams[1..] && keep(t).Some?;
      assert NoDuplicates(teams[1..]) && teams[0] !in teams[1..];
      KeptCount(teams[1..], keep);
      if keep(teams[0]).Some? {
        assert kept == rest + {teams[0]};
      } else {
        assert kept == rest;
      }
    }
  }

  /** The three counts: the teams, the judges, and the teams each of the judges has finalized, of
      which there is none without a judge. */
  lemma ReadinessCounts(teams: seq<string>, judges: seq<string>, progress: seq<ProgressRow>)
    requires NoDuplicates(teams)
    ensures var readiness := JudgingReadiness(teams, judges, progress);
            && readiness.teamsWithSubmission == |teams| && readiness.activeJudges == |judges|
            && readiness.fullyJudgedTeams
               == |set t | t in teams && judges != []
                           && (forall j | j in judges :: PairKey(j, t) in FinalizedKeys(progress))|
  {
    var finalized := FinalizedKeys(progress);
    var keep := (t: string) => if FullyJudged(t, judges, finalized) then Some(t) else None;
    KeptCount(teams, keep);
    assert judges != [] ==>
      (set t | t in teams && keep(t).Some?)
      == (set t | t in teams && judges != [] && forall j | j in judges :: PairKey(j, t) in finalized);
    assert judges == [] ==>
      (set t | t in teams && judges != [] && forall j | j in judges :: PairKey(j, t) in finalized) == {};
  }

  lemma {:induction false} AllScored(rubric: seq<Criterion>, perTeam: seq<TeamJudges>)
    requires TotalWeight(rubric) > 0 && forall team | team in perTeam :: team.judges != []
    ensures |FilterMap(perTeam, Scorer(rubric))| == |perTeam|
  {
    if perTeam == [] {
    } else {
      AllScored(rubric, perTeam[1..]);
    }
  }

  ghost predicate HasScored(rows: seq<ScoreRow>, judgeId: string, teamId: string) {
    exists row | row in rows :: row.judgeId == judgeId && row.teamId == teamId
  }

  lemma FullyJudgedCount(data: EventData, judges: seq<string>, teamId: string)
    requires NoDuplicates(judges) && FullyJudged(teamId, judges, FinalizedKeys(data.progress))
    requires forall j | j in judges :: HasScored(data.scores, j, teamId)
    ensures |Grouped(data.scores, teamId, FinalizedKeys(data.progress))| >= |judges|
  {
    var counted := set row | row in data.scores && Counts(row, teamId, FinalizedKeys(data.progress)) :: row.judgeId;
    JudgeCountMeaning(data, teamId);
    var seated := set j | j in judges;
    DistinctCountExactly(judges);
    forall j | j in seated ensures j in counted {
      assert HasScored(data.scores, j, teamId);
    }
    assert seated <= counted;
    assert counted == seated + (counted - seated);
  }

  /** A team every active judge has finalized and scored is ranked on at least that many reviews. */
  lemma FullyJudgedTeamIsRanked(data: EventData, judges: seq<string>, teamId: string)
    requires data.rubric.Some? && TotalWeight(data.rubric.value) > 0
    requires judges != [] && NoDuplicates(judges) && teamId in data.teams
    requires FullyJudged(teamId, judges, FinalizedKeys(data.progress))
    requires forall j | j in judges :: HasScored(data.scores, j, teamId)
    ensures exists r | r in ComputeEventResults(data).value :: r.teamId == teamId && r.judgeCount >= |judges|
  {
    var rubric := data.rubric.value;
    FullyJudgedCount(data, judges, teamId);
    var t :| 0 <= t < |data.teams| && data.teams[t] == teamId;
    var team := PerTeam(data)[t];
    assert team in PerTeam(data) && |team.judges| >= |judges|;
    ResultsSpecified(rubric, PerTeam(data));
    var scored := FilterMap(PerTeam(data), Scorer(rubric));
    assert LineFor(rubric, team, Scores(scored)) in ComputeResults(rubric, PerTeam(data));
  }

  /** An event that is ready, with every team scored by every judge, ranks every team, each on at
      least as many reviews as there are active judges. */
  lemma ReadyEventRanksEveryTeam(data: EventData, judges: seq<string>)
    requires data.rubric.Some? && TotalWeight(data.rubric.value) > 0
    requires judges != [] && NoDuplicates(judges)
    requires var readiness := JudgingReadiness(data.teams, judges, data.progress);
             readiness.fullyJudgedTeams == readiness.teamsWithSubmission
    requires forall t, j | t in data.teams && j in judges :: HasScored(data.scores, j, t)
    ensures var results := ComputeEventResults(data).value;
            |results| == |data.teams| && forall r | r in results :: r.judgeCount >= |judges|
  {
    var rubric, perTeam := data.rubric.value, PerTeam(data);
    ReadyExactly(data.teams, judges, data.progress);
    forall team | team in perTeam ensures |team.judges| >= |judges| {
      var t :| 0 <= t < |data.teams| && perTeam[t] == team;
      FullyJudgedCount(data, judges, data.teams[t]);
    }
    AllScored(rubric, perTeam);
    ResultsSpecified(rubric, perTeam);
  }

  /** Every judge with a counting row for the team gave `v` for every criterion of the rubric. */
  ghost predicate GivenThroughout(data: EventData, rubric: seq<Criterion>, teamId: string, v: int) {
    forall row, i | row in data.scores && Counts(row, teamId, FinalizedKeys(data.progress)) && 0 <= i < |rubric| ::
      ScoreRow(row.judgeId, teamId, rubric[i].id, v) in data.scores
  }

  lemma GivenThroughoutIsGrouped(data: EventData, rubric: seq<Criterion>, teamId: string, v: int)
    requires UniqueRows(data.scores) && GivenThroughout(data, rubric, teamId, v)
    ensures var judges := Grouped(data.scores, teamId, FinalizedKeys(data.progress));
            forall k | 0 <= k < |judges| :: GivesAll(rubric, judges[k], v)
  {
    var finalized := FinalizedKeys(data.progress);
    var judges := Grouped(data.scores, teamId, finalized);
    GroupedSpecified(data.scores, teamId, finalized);
    forall k, i | 0 <= k < |judges| && 0 <= i < |rubric|
      ensures rubric[i].id in judges[k].scores && judges[k].scores[rubric[i].id] == v
    {
      assert judges[k].judgeId == JudgeIds(judges)[k] && JudgeIds(judges)[k] in JudgeIds(judges);
      var row :| row in data.scores && Counts(row, teamId, finalized) && row.judgeId == judges[k].judgeId;
      assert judges[k] in judges;
      ScoresOfUnique(data.scores, teamId, finalized, judges[k].judgeId, rubric[i].id, v);
    }
  }

  /** A team whose counting judges gave `v` throughout stands in the results with ten times `v`. */
  lemma SameValueStands(data: EventData, teamId: string, v: int)
    requires data.rubric.Some? && TotalWeight(data.rubric.value) > 0 && teamId in data.teams
    requires UniqueRows(data.scores) && GivenThroughout(data, data.rubric.value, teamId, v)
    requires exists row | row in data.scores :: Counts(row, teamId, FinalizedKeys(data.progress))
    ensures exists r | r in ComputeEventResults(data).value :: r.teamId == teamId && r.hundredths == 100 * (10 * v)
  {
    var rubric, finalized := data.rubric.value, FinalizedKeys(data.progress);
    GivenThroughoutIsGrouped(data, rubric, teamId, v);
    GroupedSpecified(data.scores, teamId, finalized);
    var row :| row in data.scores && Counts(row, teamId, finalized);
    assert row.judgeId in JudgeIds(Grouped(data.scores, teamId, finalized));
    var t :| 0 <= t < |data.teams| && data.teams[t] == teamId;
    var team := PerTeam(data)[t];
    assert team in PerTeam(data) && team.judges != [];
    SameValueScores(rubric, team.judges, v);
    ResultsSpecified(rubric, PerTeam(data));
    var scored := FilterMap(PerTeam(data), Scorer(rubric));
    assert LineFor(rubric, team, Scores(scored)) in ComputeResults(rubric, PerTeam(data));
  }
}
