/**
  The leaderboard: one row per player who has a score under the chosen game
  filter, ranked by average guesses over solved games, players with only
  missed games last.
*/
module Leaderboard {
  import opened Wrappers
  import opened Seqs
  import opened Strings
  import opened Records

  /** What the rank column shows: a medal for the first three places. */
  datatype Medal = Gold | Silver | Bronze | Plain(rank: nat)

  /** The score column: the two-decimal average (kept as a whole number of
      hundredths), a dash for a player without scores, or X when nothing was solved. */
  datatype Display = Average(hundredths: int) | NoScores | AllMissed

  datatype Row = Row(
    id: string,
    name: string,
    played: nat,
    solved: nat,
    avg: Option<int>,
    display: Display,
    subtitle: string,
    sortKey: int)

  /** The sort key 999 of a player with no solved game, in hundredths. */
  const UNSOLVED_SORT_KEY: int := 99900

  /** `<Medal rank={i + 1} />`. */
  function MedalFor(rank: nat): (m: Medal)
    requires rank >= 1
    ensures m == Gold <==> rank == 1
    ensures m == Silver <==> rank == 2
    ensures m == Bronze <==> rank == 3
    ensures m.Plain? <==> rank > 3
    ensures m.Plain? ==> m.rank == rank
  {
    if rank == 1 then Gold
    else if rank == 2 then Silver
    else if rank == 3 then Bronze
    else Plain(rank)
  }

  /** The rank column of the table, from the row positions. */
  function Standings(rows: seq<Row>): (ms: seq<Medal>)
    ensures |ms| == |rows|
    ensures |ms| > 0 ==> ms[0] == Gold
    ensures |ms| > 1 ==> ms[1] == Silver
    ensures |ms| > 2 ==> ms[2] == Bronze
    ensures forall i :: 3 <= i < |ms| ==> ms[i] == Plain(i + 1)
    ensures forall i :: 0 <= i < |ms| ==> (ms[i].Plain? <==> i >= 3)
    ensures forall i, j :: 0 <= i < j < |ms| ==> ms[i] != ms[j]
  {
    seq(|rows|, i requires 0 <= i < |rows| => MedalFor(i + 1))
  }

  /** `${solved}/${played} solved`, or `no scores`. */
  function Subtitle(solved: nat, played: nat): string {
    if played > 0 then NatToString(solved) + "/" + NatToString(played) + " solved" else "no scores"
  }

  /** The row `computeRows` builds for one player from the filtered scores. */
  function PlayerRow(p: Player, filtered: seq<ScoreRecord>): (row: Row)
    ensures row.id == p.id && row.name == p.name
    ensures row.played == |ForPlayer(filtered, p.id)|
    ensures row.solved == |SolvedOnly(ForPlayer(filtered, p.id))| <= row.played
    ensures row.avg == SolvedAverage(ForPlayer(filtered, p.id))
    ensures row.avg.None? <==> row.solved == 0
    ensures row.subtitle == Subtitle(row.solved, row.played)
    ensures row.display.Average? <==> row.solved > 0
    ensures row.display.NoScores? <==> row.played == 0
    ensures row.avg.Some? ==> row.display == Average(row.avg.value) && row.sortKey == row.avg.value
    ensures row.avg.None? ==> row.sortKey == UNSOLVED_SORT_KEY
  {
    var mine := ForPlayer(filtered, p.id);
    var played := |mine|;
    var solved := |SolvedOnly(mine)|;
    var avg := SolvedAverage(mine);
    Row(
      p.id,
      p.name,
      played,
      solved,
      avg,
      if avg.Some? then Average(avg.value) else if played == 0 then NoScores else AllMissed,
      Subtitle(solved, played),
      if avg.Some? then avg.value else UNSOLVED_SORT_KEY)
  }

  /** `players.map(...)`. */
  function AllRows(players: seq<Player>, filtered: seq<ScoreRecord>): (rows: seq<Row>)
    ensures |rows| == |players|
    ensures forall k :: 0 <= k < |players| ==> rows[k] == PlayerRow(players[k], filtered)
  {
    seq(|players|, k requires 0 <= k < |players| => PlayerRow(players[k], filtered))
  }

  predicate HasPlayed(row: Row) {
    row.played > 0
  }

  /** The relations between a row's fields that every computed row keeps. */
  predicate Consistent(row: Row) {
    && row.solved <= row.played
    && (row.avg.None? <==> row.solved == 0)
    && row.sortKey == (if row.avg.Some? then row.avg.value else UNSOLVED_SORT_KEY)
  }

  predicate RankedRow(row: Row) {
    HasPlayed(row) && Consistent(row)
  }

  predicate SortedByKey(rows: seq<Row>) {
    forall i, j :: 0 <= i < j < |rows| ==> rows[i].sortKey <= rows[j].sortKey
  }

  /** The rows whose sort key is `k`, in their order. */
  function WithKey(rows: seq<Row>, k: int): seq<Row> {
    if |rows| == 0 then []
    else (if rows[0].sortKey == k then [rows[0]] else []) + WithKey(rows[1..], k)
  }

  /** Places `x` before the first row whose key is not smaller. */
  function InsertByKey(x: Row, rows: seq<Row>): (r: seq<Row>)
    ensures |r| > 0 && (r[0] == x || (|rows| > 0 && r[0] == rows[0]))
  {
    if |rows| == 0 || x.sortKey <= rows[0].sortKey then [x] + rows
    else [rows[0]] + InsertByKey(x, rows[1..])
  }

  /** Insertion adds exactly `x`. */
  lemma {:induction false} InsertByKeyPermutes(x: Row, rows: seq<Row>)
    ensures multiset(InsertByKey(x, rows)) == multiset(rows) + multiset{x}
  {
    if |rows| > 0 && x.sortKey > rows[0].sortKey {
      InsertByKeyPermutes(x, rows[1..]);
      assert rows == [rows[0]] + rows[1..];
    }
  }

  /** Inserting into sorted rows keeps them sorted. */
  lemma {:induction false} InsertByKeySorted(x: Row, rows: seq<Row>)
    requires SortedByKey(rows)
    ensures SortedByKey(InsertByKey(x, rows))
  {
    if |rows| > 0 && x.sortKey > rows[0].sortKey {
      var rest := InsertByKey(x, rows[1..]);
      InsertByKeySorted(x, rows[1..]);
      assert rows[0].sortKey <= rest[0].sortKey;
      assert forall j :: 0 <= j < |rest| ==> rows[0].sortKey <= rest[j].sortKey;
      assert InsertByKey(x, rows) == [rows[0]] + rest;
    }
  }

  /** `rows.sort((a, b) => a.sortKey - b.sortKey)`; the sort is stable. */
  function SortByKey(rows: seq<Row>): (r: seq<Row>)
    ensures SortedByKey(r)
    ensures multiset(r) == multiset(rows)
  {
    if |rows| == 0 then []
    else
      assert rows == [rows[0]] + rows[1..];
      var sorted := SortByKey(rows[1..]);
      InsertByKeySorted(rows[0], sorted);
      InsertByKeyPermutes(rows[0], sorted);
      InsertByKey(rows[0], sorted)
  }

  /** Inserting `x` puts it ahead of every row with the same key. */
  lemma {:induction false} InsertByKeyStable(x: Row, rows: seq<Row>, k: int)
    ensures WithKey(InsertByKey(x, rows), k)
         == (if x.sortKey == k then [x] else []) + WithKey(rows, k)
  {
    if |rows| == 0 || x.sortKey <= rows[0].sortKey {
      assert InsertByKey(x, rows) == [x] + rows;
      WithKeyCons(x, rows, k);
    } else {
      var rest := InsertByKey(x, rows[1..]);
      assert InsertByKey(x, rows) == [rows[0]] + rest;
      InsertByKeyStable(x, rows[1..], k);
      WithKeyCons(rows[0], rest, k);
      WithKeyCons(rows[0], rows[1..], k);
      assert [rows[0]] + rows[1..] == rows;
      if x.sortKey == k {
        assert WithKey(InsertByKey(x, rows), k) == WithKey(rest, k);
        assert WithKey(rows, k) == WithKey(rows[1..], k);
      } else {
        assert WithKey(rest, k) == WithKey(rows[1..], k);
      }
    }
  }

  lemma WithKeyCons(x: Row, rows: seq<Row>, k: int)
    ensures WithKey([x] + rows, k) == (if x.sortKey == k then [x] else []) + WithKey(rows, k)
  {
    assert ([x] + rows)[1..] == rows;
  }

  /** Rows with equal keys keep their original order. */
  lemma {:induction false} SortByKeyStable(rows: seq<Row>, k: int)
    ensures WithKey(SortByKey(rows), k) == WithKey(rows, k)
  {
    if |rows| > 0 {
      SortByKeyStable(rows[1..], k);
      InsertByKeyStable(rows[0], SortByKey(rows[1..]), k);
    }
  }

  /** The unranked rows: one per player with at least one filtered score, in player order. */
  function Candidates(players: seq<Player>, scores: seq<ScoreRecord>, filter: GameFilter): (rows: seq<Row>)
    ensures forall i :: 0 <= i < |rows| ==> RankedRow(rows[i])
  {
    Filter(AllRows(players, ForGame(scores, filter)), HasPlayed)
  }

  /** `computeRows()`: rows of the players who played, ranked. */
  function ComputeRows(players: seq<Player>, scores: seq<ScoreRecord>, filter: GameFilter): (rows: seq<Row>)
    ensures SortedByKey(rows)
    ensures multiset(rows) == multiset(Candidates(players, scores, filter))
    ensures forall i :: 0 <= i < |rows| ==> RankedRow(rows[i])
  {
    var candidates := Candidates(players, scores, filter);
    var rows := SortByKey(candidates);
    Rearranged(candidates, rows, RankedRow);
    rows
  }

  /** Every ranked row is the row of a listed player. */
  lemma RankedRowFromPlayer(players: seq<Player>, scores: seq<ScoreRecord>, filter: GameFilter, i: nat)
    requires i < |ComputeRows(players, scores, filter)|
    ensures var row := ComputeRows(players, scores, filter)[i];
      exists k :: 0 <= k < |players| && row == PlayerRow(players[k], ForGame(scores, filter))
  {
    var filtered := ForGame(scores, filter);
    var rows := ComputeRows(players, scores, filter);
    RearrangedMember(rows, Candidates(players, scores, filter), rows[i]);
    FilterMember(AllRows(players, filtered), HasPlayed, rows[i]);
    RowOfAllRows(players, filtered, rows[i]);
  }

  /** A row of `players.map(...)` is the row of one of the players. */
  lemma RowOfAllRows(players: seq<Player>, filtered: seq<ScoreRecord>, row: Row)
    requires row in AllRows(players, filtered)
    ensures exists k :: 0 <= k < |players| && row == PlayerRow(players[k], filtered)
  {
    var all := AllRows(players, filtered);
    var k :| 0 <= k < |all| && all[k] == row;
    assert row == PlayerRow(players[k], filtered);
  }

  /** Every listed player with a filtered score is ranked. */
  lemma PlayersWhoPlayedAreRanked(players: seq<Player>, scores: seq<ScoreRecord>, filter: GameFilter, k: nat)
    requires k < |players| && PlayerRow(players[k], ForGame(scores, filter)).played > 0
    ensures PlayerRow(players[k], ForGame(scores, filter)) in ComputeRows(players, scores, filter)
  {
    var all := AllRows(players, ForGame(scores, filter));
    var candidates := Candidates(players, scores, filter);
    assert HasPlayed(all[k]);
    assert all[k] in candidates;
    assert all[k] in multiset(ComputeRows(players, scores, filter));
  }

  /** With distinct player ids, no row is ranked twice. */
  lemma RankedRowsDistinct(players: seq<Player>, scores: seq<ScoreRecord>, filter: GameFilter)
    requires forall a, b :: 0 <= a < b < |players| ==> players[a].id != players[b].id
    ensures var rows := ComputeRows(players, scores, filter);
      forall i, j :: 0 <= i < j < |rows| ==> rows[i] != rows[j]
  {
    var all := AllRows(players, ForGame(scores, filter));
    var rows := ComputeRows(players, scores, filter);
    var candidates := Candidates(players, scores, filter);
    assert candidates == Filter(all, HasPlayed);
    FilterSubMultiset(all, HasPlayed);
    assert multiset(rows) == multiset(candidates) <= multiset(all);
    forall x ensures multiset(rows)[x] <= 1 {
      DistinctCounts(all, x);
    }
    CountsDistinct(rows);
  }

  /** With distinct player ids, no player is ranked twice. */
  lemma RankedIdsDistinct(players: seq<Player>, scores: seq<ScoreRecord>, filter: GameFilter)
    requires forall a, b :: 0 <= a < b < |players| ==> players[a].id != players[b].id
    ensures var rows := ComputeRows(players, scores, filter);
      forall i, j :: 0 <= i < j < |rows| ==> rows[i].id != rows[j].id
  {
    var rows := ComputeRows(players, scores, filter);
    RankedRowsDistinct(players, scores, filter);
    forall i, j | 0 <= i < j < |rows| ensures rows[i].id != rows[j].id {
      RankedRowFromPlayer(players, scores, filter, i);
      RankedRowFromPlayer(players, scores, filter, j);
    }
  }

  /** Players with the same sort key keep the order of the player list. */
  lemma TiesKeepPlayerOrder(players: seq<Player>, scores: seq<ScoreRecord>, filter: GameFilter, k: int)
    ensures WithKey(ComputeRows(players, scores, filter), k)
         == WithKey(Candidates(players, scores, filter), k)
  {
    SortByKeyStable(Candidates(players, scores, filter), k);
  }

  /** An average is taken over solved scores only, so it lies between the
      smallest and the largest score a solved record may hold. */
  lemma RowAverageBounds(p: Player, filtered: seq<ScoreRecord>, lo: int, hi: int)
    requires 0 <= lo <= hi
    requires ScoresWithin(filtered, lo, hi)
    ensures var row := PlayerRow(p, filtered);
      row.avg.Some? ==> 100 * lo <= row.avg.value <= 100 * hi
  {
    var mine := ForPlayer(filtered, p.id);
    forall i | 0 <= i < |mine| && mine[i].solved ensures lo <= NumberValue(mine[i].score) <= hi {
      assert mine[i] in filtered;
    }
    SolvedAverageBounds(mine, lo, hi);
  }

  lemma ForGameScoresWithin(scores: seq<ScoreRecord>, filter: GameFilter, lo: int, hi: int)
    requires ScoresWithin(scores, lo, hi)
    ensures ScoresWithin(ForGame(scores, filter), lo, hi)
  {
    var filtered := ForGame(scores, filter);
    forall i | 0 <= i < |filtered| && filtered[i].solved
      ensures lo <= NumberValue(filtered[i].score) <= hi
    {
      assert filtered[i] in scores;
    }
  }

  /** With every solved score between 1 and 6 guesses, every shown average is
      between 1.00 and 6.00. */
  lemma AveragesWithinGuesses(players: seq<Player>, scores: seq<ScoreRecord>, filter: GameFilter)
    requires ScoresWithin(scores, 1, 6)
    ensures var rows := ComputeRows(players, scores, filter);
      forall i :: 0 <= i < |rows| && rows[i].avg.Some? ==> 100 <= rows[i].avg.value <= 600
  {
    var filtered := ForGame(scores, filter);
    var rows := ComputeRows(players, scores, filter);
    ForGameScoresWithin(scores, filter, 1, 6);
    forall i | 0 <= i < |rows| && rows[i].avg.Some?
      ensures 100 <= rows[i].avg.value <= 600
    {
      RankedRowFromPlayer(players, scores, filter, i);
      var k :| 0 <= k < |players| && rows[i] == PlayerRow(players[k], filtered);
      RowAverageBounds(players[k], filtered, 1, 6);
    }
  }

  /** A ranked row with a solved game sorts below the sentinel key. */
  lemma SolverKeyBelowSentinel(players: seq<Player>, scores: seq<ScoreRecord>, filter: GameFilter, j: nat)
    requires ScoresWithin(scores, 0, 998)
    requires j < |ComputeRows(players, scores, filter)|
    requires ComputeRows(players, scores, filter)[j].solved > 0
    ensures ComputeRows(players, scores, filter)[j].sortKey <= 99800 < UNSOLVED_SORT_KEY
  {
    var filtered := ForGame(scores, filter);
    ForGameScoresWithin(scores, filter, 0, 998);
    RankedRowFromPlayer(players, scores, filter, j);
    var k :| 0 <= k < |players| && ComputeRows(players, scores, filter)[j] == PlayerRow(players[k], filtered);
    RowAverageBounds(players[k], filtered, 0, 998);
  }

  /** Every player who solved something ranks above every player who solved
      nothing, as long as no solved score exceeds 998 guesses (the constant
      999 is not a bound on averages, only a sentinel). */
  lemma SolversRankFirst(players: seq<Player>, scores: seq<ScoreRecord>, filter: GameFilter)
    requires ScoresWithin(scores, 0, 998)
    ensures var rows := ComputeRows(players, scores, filter);
      forall i, j :: 0 <= i < j < |rows| && rows[i].solved == 0 ==> rows[j].solved == 0
  {
    var rows := ComputeRows(players, scores, filter);
    forall i, j | 0 <= i < j < |rows| && rows[j].solved > 0
      ensures rows[i].solved > 0
    {
      SolverKeyBelowSentinel(players, scores, filter, j);
    }
  }

  /** The bound of `SolversRankFirst` is needed: a lone solve in 999 guesses
      averages exactly the sentinel 999, and the stable sort then leaves that
      solver behind an all-DNF player listed before them. */
  lemma SentinelTieRanksSolverLast()
    ensures var scores := [SentinelDnf(), SentinelSolve()];
      var rows := ComputeRows([Player("a", "A"), Player("b", "B")], scores, AllGames);
      |rows| == 2 && rows[0].solved == 0 && rows[1].solved == 1
  {
    var a := Player("a", "A");
    var b := Player("b", "B");
    var scores := [SentinelDnf(), SentinelSolve()];
    SentinelRowA();
    SentinelRowB();
    TwoCandidatesKeepOrder(a, b, scores);
  }

  /** Player "a"'s only game of the sentinel example: a DNF. */
  function SentinelDnf(): ScoreRecord {
    ScoreRecord("a", "framed", "2024-01-01", None, false, None)
  }

  /** Player "b"'s only game of the sentinel example: a solve in 999 guesses. */
  function SentinelSolve(): ScoreRecord {
    ScoreRecord("b", "framed", "2024-01-01", Some(999), true, None)
  }

  /** The row of player "a": played once, solved nothing, the sentinel key. */
  lemma SentinelRowA()
    ensures var row := PlayerRow(Player("a", "A"), [SentinelDnf(), SentinelSolve()]);
      row.played == 1 && row.solved == 0 && row.sortKey == UNSOLVED_SORT_KEY
  {
    var ra, rb := SentinelDnf(), SentinelSolve();
    ForPlayerCons(ra, [rb], "a");
    ForPlayerCons(rb, [], "a");
    assert [ra] + [rb] == [ra, rb] && [rb] + [] == [rb];
    assert SolvedOnly([ra]) == [] by {
      assert [ra][1..] == [];
    }
  }

  /** The row of player "b": played once, solved once, and an average equal to the sentinel key. */
  lemma SentinelRowB()
    ensures var row := PlayerRow(Player("b", "B"), [SentinelDnf(), SentinelSolve()]);
      row.played == 1 && row.solved == 1 && row.sortKey == UNSOLVED_SORT_KEY
  {
    var ra, rb := SentinelDnf(), SentinelSolve();
    ForPlayerCons(ra, [rb], "b");
    ForPlayerCons(rb, [], "b");
    assert [ra] + [rb] == [ra, rb] && [rb] + [] == [rb];
    assert SolvedOnly([rb]) == [rb] by {
      assert [rb][1..] == [];
    }
    assert TotalScore([rb]) == 999;
    assert Hundredths(999, 1) == 99900;
  }

  /** Two players who both played and share a sort key are ranked in list order. */
  lemma TwoCandidatesKeepOrder(a: Player, b: Player, scores: seq<ScoreRecord>)
    requires PlayerRow(a, scores).played > 0 && PlayerRow(b, scores).played > 0
    requires PlayerRow(a, scores).sortKey == PlayerRow(b, scores).sortKey
    ensures ComputeRows([a, b], scores, AllGames) == [PlayerRow(a, scores), PlayerRow(b, scores)]
  {
    var x, y := PlayerRow(a, scores), PlayerRow(b, scores);
    AllRowsTwo(a, b, scores);
    KeepPlayedTwo(x, y);
    SortTwoTied(x, y);
  }

  /** `players.map(...)` over two players. */
  lemma AllRowsTwo(a: Player, b: Player, filtered: seq<ScoreRecord>)
    ensures AllRows([a, b], filtered) == [PlayerRow(a, filtered), PlayerRow(b, filtered)]
  {
  }

  /** Two rows that both played survive the `played > 0` filter. */
  lemma KeepPlayedTwo(x: Row, y: Row)
    requires x.played > 0 && y.played > 0
    ensures Filter([x, y], HasPlayed) == [x, y]
  {
    FilterKeepsAll([x, y], HasPlayed);
  }

  /** Sorting two rows with the same key keeps them in place. */
  lemma SortTwoTied(x: Row, y: Row)
    requires x.sortKey == y.sortKey
    ensures SortByKey([x, y]) == [x, y]
  {
    assert [x, y][1..] == [y] && [y][1..] == [];
  }
}
