/**
  The score record as the views read it from the score table, the game
  filter the views share, and the arithmetic of their averages.
*/
module Records {
  import opened Wrappers
  import opened Seqs

  /** One row of the `scores` table (its database id is not modelled). */
  datatype ScoreRecord = ScoreRecord(
    playerId: string,
    gameKey: string,
    date: string,
    score: Option<int>,
    solved: bool,
    puzzleNumber: Option<nat>)

  /** One row of the `players` table. */
  datatype Player = Player(id: string, name: string)

  /** The game selector of the leaderboard and history: `'all'` or one game key. */
  datatype GameFilter = AllGames | OnlyGame(key: string)

  predicate GameMatches(filter: GameFilter, r: ScoreRecord) {
    filter.AllGames? || r.gameKey == filter.key
  }

  /** The number JavaScript uses for a nullable integer in `+` and `-`: null is 0. */
  function NumberValue(score: Option<int>): int {
    if score.Some? then score.value else 0
  }

  predicate IsSolved(r: ScoreRecord) {
    r.solved
  }

  /** `rs.filter(s => s.solved)`. */
  function SolvedOnly(rs: seq<ScoreRecord>): (r: seq<ScoreRecord>)
    ensures |r| <= |rs|
    ensures forall i :: 0 <= i < |r| ==> r[i] in rs && r[i].solved
    ensures forall i :: 0 <= i < |rs| && rs[i].solved ==> rs[i] in r
  {
    Filter(rs, IsSolved)
  }

  /** `rs.filter(s => s.game_key === filter)`, or all of `rs` for `'all'`. */
  function ForGame(rs: seq<ScoreRecord>, filter: GameFilter): (r: seq<ScoreRecord>)
    ensures filter.AllGames? ==> r == rs
    ensures forall i :: 0 <= i < |r| ==> r[i] in rs && GameMatches(filter, r[i])
    ensures forall i :: 0 <= i < |rs| && GameMatches(filter, rs[i]) ==> rs[i] in r
  {
    if filter.AllGames? then rs else Filter(rs, (s: ScoreRecord) => s.gameKey == filter.key)
  }

  /** `rs.filter(s => s.player_id === id)`. */
  function ForPlayer(rs: seq<ScoreRecord>, id: string): (r: seq<ScoreRecord>)
    ensures forall i :: 0 <= i < |r| ==> r[i] in rs && r[i].playerId == id
    ensures forall i :: 0 <= i < |rs| && rs[i].playerId == id ==> rs[i] in r
  {
    Filter(rs, (s: ScoreRecord) => s.playerId == id)
  }

  /** Filtering by player, one record at a time. */
  lemma ForPlayerCons(r: ScoreRecord, rs: seq<ScoreRecord>, id: string)
    ensures ForPlayer([r] + rs, id) == (if r.playerId == id then [r] else []) + ForPlayer(rs, id)
  {
    assert ([r] + rs)[1..] == rs;
  }

  /** Every solved record's score lies between `lo` and `hi`. */
  predicate ScoresWithin(rs: seq<ScoreRecord>, lo: int, hi: int) {
    forall i :: 0 <= i < |rs| && rs[i].solved ==> lo <= NumberValue(rs[i].score) <= hi
  }

  /** `rs.reduce((acc, s) => acc + s.score, 0)`. */
  function TotalScore(rs: seq<ScoreRecord>): int {
    if |rs| == 0 then 0 else NumberValue(rs[0].score) + TotalScore(rs[1..])
  }

  /** `(sum / n).toFixed(2)` read as a whole number of hundredths: the exact
      quotient rounded to the nearest hundredth, a tie going away from zero. */
  function Hundredths(sum: int, n: nat): (h: int)
    requires n > 0
    ensures sum >= 0 ==> 2 * n * h - n <= 200 * sum < 2 * n * h + n
    ensures sum < 0 ==> 2 * n * h - n < 200 * sum <= 2 * n * h + n
  {
    if sum >= 0 then
      var h := (200 * sum + n) / (2 * n);
      assert 2 * n * h <= 200 * sum + n < 2 * n * h + 2 * n by {
        DivBounds(200 * sum + n, 2 * n);
      }
      h
    else
      var m := (-200 * sum + n) / (2 * n);
      assert 2 * n * m <= -200 * sum + n < 2 * n * m + 2 * n by {
        DivBounds(-200 * sum + n, 2 * n);
      }
      -m
  }

  /** The mean score over the solved records, in hundredths rounded as
      `toFixed(2)` rounds; missed games do not enter the mean. */
  function SolvedAverage(rs: seq<ScoreRecord>): (avg: Option<int>)
    ensures avg.None? <==> |SolvedOnly(rs)| == 0
  {
    var solved := SolvedOnly(rs);
    if |solved| > 0 then Some(Hundredths(TotalScore(solved), |solved|)) else None
  }

  /** A mean of solved scores between `lo` and `hi` lies between them. */
  lemma SolvedAverageBounds(rs: seq<ScoreRecord>, lo: int, hi: int)
    requires 0 <= lo <= hi
    requires ScoresWithin(rs, lo, hi)
    ensures SolvedAverage(rs).Some? ==> 100 * lo <= SolvedAverage(rs).value <= 100 * hi
  {
    var solved := SolvedOnly(rs);
    if |solved| > 0 {
      forall i | 0 <= i < |solved| ensures lo <= NumberValue(solved[i].score) <= hi {
        assert solved[i] in rs;
      }
      TotalScoreBounds(solved, lo, hi);
      HundredthsBetween(TotalScore(solved), |solved|, lo, hi);
    }
  }

  lemma DivBounds(a: int, b: int)
    requires b > 0
    ensures b * (a / b) <= a < b * (a / b) + b
  {
  }

  /** A sum of `n` scores, each between `lo` and `hi`, lies between `n * lo` and `n * hi`. */
  lemma {:induction false} TotalScoreBounds(rs: seq<ScoreRecord>, lo: int, hi: int)
    requires forall i :: 0 <= i < |rs| ==> lo <= NumberValue(rs[i].score) <= hi
    ensures |rs| * lo <= TotalScore(rs) <= |rs| * hi
  {
    if |rs| > 0 {
      TotalScoreBounds(rs[1..], lo, hi);
    }
  }

  /** The rounded mean of `n` values between `lo` and `hi` lies between them. */
  lemma HundredthsBetween(sum: int, n: nat, lo: int, hi: int)
    requires n > 0 && 0 <= lo <= hi
    requires n * lo <= sum <= n * hi
    ensures 100 * lo <= Hundredths(sum, n) <= 100 * hi
  {
    var h := Hundredths(sum, n);
    MulNonNegative(n, lo);
    assert sum >= 0;
    MulLessCancel(n, 200 * lo, 2 * h + 1) by {
      assert 200 * sum < 2 * n * h + n;
      assert n * (200 * lo) == 200 * (n * lo);
      assert n * (2 * h + 1) == 2 * n * h + n;
    }
    MulAtMostCancel(n, 2 * h - 1, 200 * hi) by {
      assert 2 * n * h - n <= 200 * sum;
      assert n * (200 * hi) == 200 * (n * hi);
      assert n * (2 * h - 1) == 2 * n * h - n;
    }
  }

  lemma MulNonNegative(a: nat, b: nat)
    ensures a * b >= 0
  {
  }

  lemma MulLessCancel(n: int, a: int, b: int)
    requires n > 0 && n * a < n * b
    ensures a < b
  {
    if a >= b {
      MulMonotone(n, b, a);
    }
  }

  lemma MulAtMostCancel(n: int, a: int, b: int)
    requires n > 0 && n * a <= n * b
    ensures a <= b
  {
    if a > b {
      MulMonotone(n, b + 1, a);
    }
  }

  lemma MulMonotone(n: int, a: int, b: int)
    requires n > 0 && a <= b
    ensures n * a <= n * b
  {
    assert n * b - n * a == n * (b - a);
  }
}
