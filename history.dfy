/**
  The history page: the records listed under the game filter and the view
  mode, grouped by date with the newest date first, and the user's own
  statistics.
*/
module History {
  import opened Wrappers
  import opened Seqs
  import opened Records

  /** `'me'` or `'all'`. */
  datatype ViewMode = Mine | Everyone

  /** The test of `filtered`: the game matches and the record is the user's, unless everyone's are shown. */
  predicate IsListed(r: ScoreRecord, filter: GameFilter, mode: ViewMode, userId: string) {
    GameMatches(filter, r) && (mode.Everyone? || r.playerId == userId)
  }

  function ListedTest(filter: GameFilter, mode: ViewMode, userId: string): ScoreRecord -> bool {
    (r: ScoreRecord) => IsListed(r, filter, mode, userId)
  }

  /** `filtered`: a record is listed exactly when it passes the test, in the fetched order. */
  function Listed(scores: seq<ScoreRecord>, filter: GameFilter, mode: ViewMode, userId: string): (rs: seq<ScoreRecord>)
    ensures forall i :: 0 <= i < |rs| ==> rs[i] in scores && IsListed(rs[i], filter, mode, userId)
    ensures forall i :: 0 <= i < |scores| && IsListed(scores[i], filter, mode, userId) ==> scores[i] in rs
  {
    Filter(scores, ListedTest(filter, mode, userId))
  }

  function DateIs(d: string): ScoreRecord -> bool {
    (r: ScoreRecord) => r.date == d
  }

  function DateIsNot(d: string): ScoreRecord -> bool {
    (r: ScoreRecord) => r.date != d
  }

  /** The records of date `d`, in their order: the array `byDate[d]` that the
      `forEach` loop builds. It is the filter by date (`OnDateIsFilter`), written
      as its own recursion so that the grouping proofs can take one record off
      the front at a time. */
  function OnDate(rs: seq<ScoreRecord>, d: string): seq<ScoreRecord> {
    if |rs| == 0 then []
    else (if rs[0].date == d then [rs[0]] else []) + OnDate(rs[1..], d)
  }

  lemma {:induction false} OnDateIsFilter(rs: seq<ScoreRecord>, d: string)
    ensures OnDate(rs, d) == Filter(rs, DateIs(d))
  {
    if |rs| > 0 {
      OnDateIsFilter(rs[1..], d);
    }
  }

  predicate HasDate(rs: seq<ScoreRecord>, d: string) {
    exists i :: 0 <= i < |rs| && rs[i].date == d
  }

  predicate Distinct(ds: seq<string>) {
    forall i, j :: 0 <= i < j < |ds| ==> ds[i] != ds[j]
  }

  lemma {:induction false} OnDateStep(rs: seq<ScoreRecord>, r: ScoreRecord, d: string)
    ensures OnDate(rs + [r], d) == OnDate(rs, d) + (if r.date == d then [r] else [])
  {
    if |rs| == 0 {
      assert rs + [r] == [r];
      assert [r][1..] == [];
    } else {
      var head := if rs[0].date == d then [rs[0]] else [];
      var last := if r.date == d then [r] else [];
      assert (rs + [r])[0] == rs[0] && (rs + [r])[1..] == rs[1..] + [r];
      OnDateStep(rs[1..], r, d);
      assert OnDate(rs + [r], d) == head + (OnDate(rs[1..], d) + last);
      assert head + (OnDate(rs[1..], d) + last) == (head + OnDate(rs[1..], d)) + last;
    }
  }

  /** `byDate` holds, for each date met in `rs`, that date's records in
      order, and `keys` lists those dates once each. */
  ghost predicate Groups(byDate: map<string, seq<ScoreRecord>>, keys: seq<string>, rs: seq<ScoreRecord>) {
    && Distinct(keys)
    && (forall d :: d in byDate <==> d in keys)
    && (forall d :: d in byDate <==> HasDate(rs, d))
    && (forall d :: d in byDate ==> byDate[d] == OnDate(rs, d) && byDate[d] != [])
  }

  /** The `forEach` that fills `byDate`: one entry per date, holding that
      date's records in the listed order; `keys` is `Object.keys(byDate)`, the
      dates in the order they were first met. */
  method GroupByDate(filtered: seq<ScoreRecord>) returns (byDate: map<string, seq<ScoreRecord>>, keys: seq<string>)
    ensures Distinct(keys)
    ensures forall d :: d in byDate <==> d in keys
    ensures forall d :: d in byDate <==> HasDate(filtered, d)
    ensures forall d :: d in byDate ==> byDate[d] == OnDate(filtered, d) && byDate[d] != []
  {
    byDate := map[];
    keys := [];
    for n := 0 to |filtered|
      invariant Groups(byDate, keys, filtered[..n])
    {
      var s := filtered[n];
      ghost var byDate0, keys0 := byDate, keys;
      if s.date !in byDate {
        byDate := byDate[s.date := []];
        keys := keys + [s.date];
      }
      byDate := byDate[s.date := byDate[s.date] + [s]];
      GroupsStep(byDate0, keys0, filtered[..n], s, byDate, keys);
      assert filtered[..n + 1] == filtered[..n] + [s];
    }
    assert filtered[..|filtered|] == filtered;
  }

  /** One turn of the `forEach` keeps `Groups`. */
  lemma GroupsStep(byDate: map<string, seq<ScoreRecord>>, keys: seq<string>, rs: seq<ScoreRecord>, s: ScoreRecord,
                   byDate': map<string, seq<ScoreRecord>>, keys': seq<string>)
    requires Groups(byDate, keys, rs)
    requires keys' == if s.date in byDate then keys else keys + [s.date]
    requires byDate' == byDate[s.date := (if s.date in byDate then byDate[s.date] else []) + [s]]
    ensures Groups(byDate', keys', rs + [s])
  {
    forall d ensures d in byDate' <==> HasDate(rs + [s], d) {
      HasDateStep(rs, s, d);
    }
    forall d | d in byDate' ensures byDate'[d] == OnDate(rs + [s], d) && byDate'[d] != [] {
      OnDateStep(rs, s, d);
      if d == s.date && s.date !in byDate {
        NoDateNoRecords(rs, s.date);
      }
    }
  }

  lemma HasDateStep(rs: seq<ScoreRecord>, r: ScoreRecord, d: string)
    ensures HasDate(rs + [r], d) <==> HasDate(rs, d) || r.date == d
  {
    if HasDate(rs, d) {
      var i :| 0 <= i < |rs| && rs[i].date == d;
      assert (rs + [r])[i] == rs[i];
    }
    if HasDate(rs + [r], d) && r.date != d {
      var i :| 0 <= i < |rs| + 1 && (rs + [r])[i].date == d;
      assert rs[i] == (rs + [r])[i];
    }
    assert (rs + [r])[|rs|] == r;
  }

  lemma {:induction false} NoDateNoRecords(rs: seq<ScoreRecord>, d: string)
    requires !HasDate(rs, d)
    ensures OnDate(rs, d) == []
  {
    if |rs| > 0 {
      assert rs[0].date != d;
      NoDateNoRecords(rs[1..], d);
    }
  }

  /** The date groups laid end to end, in the order of `ds`. */
  function Grouped(rs: seq<ScoreRecord>, ds: seq<string>): seq<ScoreRecord> {
    if |ds| == 0 then [] else OnDate(rs, ds[0]) + Grouped(rs, ds[1..])
  }

  /** Groups for other dates do not see the records of date `d`. */
  lemma {:induction false} GroupedWithout(rs: seq<ScoreRecord>, ds: seq<string>, d: string)
    requires d !in ds
    ensures Grouped(rs, ds) == Grouped(Filter(rs, DateIsNot(d)), ds)
  {
    if |ds| > 0 {
      GroupedWithout(rs, ds[1..], d);
      FilterFilter(rs, DateIsNot(d), DateIs(ds[0]), DateIs(ds[0]));
      OnDateIsFilter(rs, ds[0]);
      OnDateIsFilter(Filter(rs, DateIsNot(d)), ds[0]);
    }
  }

  /** Grouping by date is a partition: every record lands in the group of its
      date, and nothing is lost or duplicated. */
  lemma {:induction false} GroupingIsPartition(rs: seq<ScoreRecord>, ds: seq<string>)
    requires Distinct(ds)
    requires forall i :: 0 <= i < |rs| ==> rs[i].date in ds
    ensures multiset(Grouped(rs, ds)) == multiset(rs)
    decreases |ds|
  {
    if |ds| == 0 {
      assert rs == [];
    } else {
      var d := ds[0];
      var rest := Filter(rs, DateIsNot(d));
      assert d !in ds[1..];
      GroupedWithout(rs, ds[1..], d);
      forall i | 0 <= i < |rest| ensures rest[i].date in ds[1..] {
        assert rest[i] in rs;
        assert rest[i].date in ds && rest[i].date != d;
      }
      GroupingIsPartition(rest, ds[1..]);
      FilterSplits(rs, DateIs(d), DateIsNot(d));
      OnDateIsFilter(rs, d);
    }
  }

  /** The order `localeCompare` gives `YYYY-MM-DD` dates: code point by code
      point, a proper prefix first. */
  predicate LexLess(a: string, b: string) {
    if |a| == 0 then |b| > 0
    else |b| > 0 && (a[0] < b[0] || (a[0] == b[0] && LexLess(a[1..], b[1..])))
  }

  lemma {:induction false} LexIrreflexive(a: string)
    ensures !LexLess(a, a)
  {
    if |a| > 0 {
      LexIrreflexive(a[1..]);
    }
  }

  lemma {:induction false} LexTransitive(a: string, b: string, c: string)
    requires LexLess(a, b) && LexLess(b, c)
    ensures LexLess(a, c)
  {
    if |a| > 0 && a[0] == b[0] && b[0] == c[0] {
      LexTransitive(a[1..], b[1..], c[1..]);
    }
  }

  lemma {:induction false} LexTotal(a: string, b: string)
    requires a != b
    ensures LexLess(a, b) || LexLess(b, a)
  {
    if |a| > 0 && |b| > 0 && a[0] == b[0] {
      assert a == [a[0]] + a[1..] && b == [b[0]] + b[1..];
      LexTotal(a[1..], b[1..]);
    }
  }

  lemma LexAsymmetric(a: string, b: string)
    requires LexLess(a, b)
    ensures !LexLess(b, a)
  {
    if LexLess(b, a) {
      LexTransitive(a, b, a);
      LexIrreflexive(a);
    }
  }

  /** `a` sorts no later than `b` under the descending order. */
  lemma NotLessTransitive(a: string, b: string, c: string)
    requires !LexLess(a, b) && !LexLess(b, c)
    ensures !LexLess(a, c)
  {
    if LexLess(a, c) {
      if a != b { LexTotal(a, b); }
      if b != c { LexTotal(b, c); }
      if a != b && b != c { LexTransitive(c, b, a); }
      LexAsymmetric(a, c);
    }
  }

  /** Newest date first. */
  predicate SortedDesc(ds: seq<string>) {
    forall i, j :: 0 <= i < j < |ds| ==> !LexLess(ds[i], ds[j])
  }

  function InsertDesc(x: string, ds: seq<string>): (r: seq<string>)
    requires SortedDesc(ds)
    ensures SortedDesc(r)
    ensures multiset(r) == multiset(ds) + multiset{x}
    ensures |r| > 0 && (r[0] == x || (|ds| > 0 && r[0] == ds[0]))
  {
    if |ds| == 0 || !LexLess(x, ds[0]) then
      assert forall j :: 0 <= j < |ds| ==> !LexLess(x, ds[j]) by {
        forall j | 1 <= j < |ds| ensures !LexLess(x, ds[j]) {
          NotLessTransitive(x, ds[0], ds[j]);
        }
      }
      [x] + ds
    else
      assert ds == [ds[0]] + ds[1..];
      var rest := InsertDesc(x, ds[1..]);
      assert forall j :: 0 <= j < |rest| ==> !LexLess(ds[0], rest[j]) by {
        LexAsymmetric(x, ds[0]);
        forall j | 1 <= j < |rest| ensures !LexLess(ds[0], rest[j]) {
          NotLessTransitive(ds[0], rest[0], rest[j]);
        }
      }
      [ds[0]] + rest
  }

  /** `Object.keys(byDate).sort((a, b) => b.localeCompare(a))`. */
  function SortDatesDesc(ds: seq<string>): (r: seq<string>)
    ensures SortedDesc(r)
    ensures multiset(r) == multiset(ds)
  {
    if |ds| == 0 then []
    else
      assert ds == [ds[0]] + ds[1..];
      InsertDesc(ds[0], SortDatesDesc(ds[1..]))
  }

  /** Distinct dates come out strictly newest first. */
  lemma SortedDatesStrictlyDescending(ds: seq<string>)
    requires Distinct(ds)
    ensures var r := SortDatesDesc(ds);
      Distinct(r) && forall i, j :: 0 <= i < j < |r| ==> LexLess(r[j], r[i])
  {
    var r := SortDatesDesc(ds);
    forall x ensures multiset(r)[x] <= 1 {
      DistinctCounts(ds, x);
    }
    CountsDistinct(r);
    forall i, j | 0 <= i < j < |r| ensures LexLess(r[j], r[i]) {
      LexTotal(r[i], r[j]);
    }
  }

  /** The history list: `filtered`, grouped by date, the dates newest first.
      Every listed record appears in the group of its date, in the listed
      order, and the groups together hold the listed records exactly. */
  method DateGroups(scores: seq<ScoreRecord>, filter: GameFilter, mode: ViewMode, userId: string)
    returns (dates: seq<string>, byDate: map<string, seq<ScoreRecord>>)
    ensures Distinct(dates)
    ensures forall i, j :: 0 <= i < j < |dates| ==> LexLess(dates[j], dates[i])
    ensures forall d :: d in byDate <==> d in dates
    ensures forall d :: d in byDate <==> HasDate(Listed(scores, filter, mode, userId), d)
    ensures forall d :: d in byDate ==> byDate[d] == OnDate(Listed(scores, filter, mode, userId), d) && byDate[d] != []
    ensures multiset(Grouped(Listed(scores, filter, mode, userId), dates)) == multiset(Listed(scores, filter, mode, userId))
  {
    var filtered := Listed(scores, filter, mode, userId);
    var keys;
    byDate, keys := GroupByDate(filtered);
    dates := SortDatesDesc(keys);
    SortedDatesStrictlyDescending(keys);
    forall d ensures d in dates <==> d in keys {
      assert d in multiset(dates) <==> d in multiset(keys);
    }
    forall i | 0 <= i < |filtered| ensures filtered[i].date in dates {
      assert HasDate(filtered, filtered[i].date);
    }
    GroupingIsPartition(filtered, dates);
  }

  /** `myScores`: the user's records under the game filter. */
  predicate IsMine(r: ScoreRecord, filter: GameFilter, userId: string) {
    r.playerId == userId && GameMatches(filter, r)
  }

  function MineTest(filter: GameFilter, userId: string): ScoreRecord -> bool {
    (r: ScoreRecord) => IsMine(r, filter, userId)
  }

  function MyScores(scores: seq<ScoreRecord>, filter: GameFilter, userId: string): (rs: seq<ScoreRecord>)
    ensures forall i :: 0 <= i < |rs| ==> rs[i] in scores && IsMine(rs[i], filter, userId)
    ensures forall i :: 0 <= i < |scores| && IsMine(scores[i], filter, userId) ==> scores[i] in rs
  {
    Filter(scores, MineTest(filter, userId))
  }

  /** The statistics do not depend on the view mode: they are always the
      records the list shows in the user's own view. */
  lemma StatsIgnoreViewMode(scores: seq<ScoreRecord>, filter: GameFilter, userId: string)
    ensures MyScores(scores, filter, userId) == Listed(scores, filter, Mine, userId)
  {
    FilterCongruent(scores, MineTest(filter, userId), ListedTest(filter, Mine, userId));
  }

  /** `Math.round(solved / played * 100)`, or the dash when nothing was played:
      the percentage rounded to the nearest whole number, halves up. */
  function SolveRate(solved: nat, played: nat): (rate: Option<nat>)
    requires solved <= played
    ensures rate.None? <==> played == 0
    ensures rate.Some? ==> rate.value <= 100
    ensures rate.Some? ==> 2 * played * rate.value <= 200 * solved + played < 2 * played * rate.value + 2 * played
  {
    if played == 0 then None
    else
      var r := (200 * solved + played) / (2 * played);
      DivBounds(200 * solved + played, 2 * played);
      assert 200 * solved + played < 2 * played * 101 by {
        MulMonotone(200, solved, played);
      }
      assert r <= 100 by {
        if r > 100 {
          MulMonotone(2 * played, 101, r);
        }
      }
      Some(r)
  }

  /** Every game solved shows 100%. */
  lemma SolveRateAllSolved(played: nat)
    requires played > 0
    ensures SolveRate(played, played) == Some(100)
  {
    var r := SolveRate(played, played).value;
    assert 201 * played < 2 * played * r + 2 * played;
    if r < 100 {
      MulMonotone(2 * played, r, 99);
    }
  }

  /** No game solved shows 0%. */
  lemma SolveRateNoneSolved(played: nat)
    requires played > 0
    ensures SolveRate(0, played) == Some(0)
  {
    var r := SolveRate(0, played).value;
    assert 2 * played * r <= played;
    if r > 0 {
      MulMonotone(2 * played, 1, r);
    }
  }

  /** The three stat cards. */
  datatype Stats = Stats(played: nat, solveRate: Option<nat>, avgGuesses: Option<int>)

  function UserStats(scores: seq<ScoreRecord>, filter: GameFilter, userId: string): (st: Stats)
    ensures st.played == |MyScores(scores, filter, userId)|
    ensures st.solveRate.None? <==> st.played == 0
    ensures st.solveRate == SolveRate(|SolvedOnly(MyScores(scores, filter, userId))|, st.played)
    ensures st.avgGuesses == SolvedAverage(MyScores(scores, filter, userId))
    ensures st.avgGuesses.None? <==>
      forall i :: 0 <= i < st.played ==> !MyScores(scores, filter, userId)[i].solved
  {
    var mine := MyScores(scores, filter, userId);
    var solved := SolvedOnly(mine);
    assert (forall i :: 0 <= i < |mine| ==> !mine[i].solved) ==> |solved| == 0 by {
      if |solved| > 0 {
        assert solved[0] in mine;
      }
    }
    Stats(|mine|, SolveRate(|solved|, |mine|), SolvedAverage(mine))
  }

  /** With every solved score between 1 and 6 guesses, the average guesses
      card shows a value between 1.00 and 6.00. */
  lemma AvgGuessesWithinGuesses(scores: seq<ScoreRecord>, filter: GameFilter, userId: string)
    requires ScoresWithin(scores, 1, 6)
    ensures var st := UserStats(scores, filter, userId);
      st.avgGuesses.Some? ==> 100 <= st.avgGuesses.value <= 600
  {
    var mine := MyScores(scores, filter, userId);
    forall i | 0 <= i < |mine| && mine[i].solved ensures 1 <= NumberValue(mine[i].score) <= 6 {
      assert mine[i] in scores;
    }
    SolvedAverageBounds(mine, 1, 6);
  }

  /** The index `Object.fromEntries` keeps for `id`: the last entry wins. */
  function LastWithId(players: seq<Player>, id: string): (k: Option<nat>)
    ensures k.None? <==> forall j :: 0 <= j < |players| ==> players[j].id != id
    ensures k.Some? ==> (k.value < |players| && players[k.value].id == id
      && forall j :: k.value < j < |players| ==> players[j].id != id)
  {
    if |players| == 0 then None
    else if players[|players| - 1].id == id then Some(|players| - 1)
    else LastWithId(players[..|players| - 1], id)
  }

  /** `playerMap[s.player_id] || '?'`. */
  function DisplayName(players: seq<Player>, id: string): (name: string)
    ensures name != []
    ensures (forall j :: 0 <= j < |players| ==> players[j].id != id) ==> name == "?"
    ensures forall k :: (0 <= k < |players| && players[k].id == id
      && (forall j :: k < j < |players| ==> players[j].id != id)) ==>
        name == (if players[k].name == [] then "?" else players[k].name)
  {
    match LastWithId(players, id)
    case None => "?"
    case Some(k) => if players[k].name == [] then "?" else players[k].name
  }
}
