/**
  The Today page: the score entry modal (manual entry and pasted share text),
  the record lookup, the save that updates or inserts today's record, and
  the share grid a player copies.
*/
module Today {
  import opened Wrappers
  import opened Seqs
  import opened Strings
  import opened Games
  import opened Records
  import opened ParseScore
  import opened ScoreDots

  // ---------------------------------------------------------------------------
  // Record lookup

  predicate IsRecordOf(r: ScoreRecord, playerId: string, gameKey: string) {
    r.playerId == playerId && r.gameKey == gameKey
  }

  /** Index of the first record of `playerId` for `gameKey` at or after `from`. */
  function FindFrom(scores: seq<ScoreRecord>, playerId: string, gameKey: string, from: nat): (r: Option<nat>)
    requires from <= |scores|
    ensures r.Some? ==>
      && from <= r.value < |scores|
      && IsRecordOf(scores[r.value], playerId, gameKey)
      && forall j :: from <= j < r.value ==> !IsRecordOf(scores[j], playerId, gameKey)
    ensures r.None? ==> forall j :: from <= j < |scores| ==> !IsRecordOf(scores[j], playerId, gameKey)
    decreases |scores| - from
  {
    if from == |scores| then None
    else if IsRecordOf(scores[from], playerId, gameKey) then Some(from)
    else FindFrom(scores, playerId, gameKey, from + 1)
  }

  function FindIndex(scores: seq<ScoreRecord>, playerId: string, gameKey: string): Option<nat> {
    FindFrom(scores, playerId, gameKey, 0)
  }

  /** `getScore(playerId, gameKey)`: the first record of that player for that
      game, or nothing. */
  function GetScore(scores: seq<ScoreRecord>, playerId: string, gameKey: string): (r: Option<ScoreRecord>)
    ensures r.None? <==> forall j :: 0 <= j < |scores| ==> !IsRecordOf(scores[j], playerId, gameKey)
    ensures r.Some? ==>
      exists i :: 0 <= i < |scores| && scores[i] == r.value && IsRecordOf(r.value, playerId, gameKey)
        && forall j :: 0 <= j < i ==> !IsRecordOf(scores[j], playerId, gameKey)
  {
    match FindIndex(scores, playerId, gameKey)
    case Some(i) => Some(scores[i])
    case None => None
  }

  // ---------------------------------------------------------------------------
  // The score entry modal

  datatype EntryMode = PasteMode | ManualMode

  /** What the modal hands to the page's save: `{ score, solved, puzzleNumber }`. */
  datatype Entry = Entry(score: Option<int>, solved: bool, puzzleNumber: Option<nat>)

  datatype SaveOutcome = Saved(entry: Entry) | Rejected(message: string)

  const PASTE_FIRST: string := "Paste a valid score first."
  const SCORE_RANGE: string := "Enter a score between 1 and 6."
  const CANNOT_PARSE: string := "Could not parse score. Try manual entry."

  /** The manual score the modal accepts: `parseInt` must give a number that is
      neither 0 nor NaN and lies in 1..6. */
  predicate AcceptedManualScore(manualScore: string) {
    var n := ParseInt(manualScore);
    n.Some? && n.value != 0 && 1 <= n.value <= 6
  }

  /** What the modal's `handleSave` does with its state: the entry it saves or
      the error it shows. */
  function ModalSave(mode: EntryMode, parsed: Option<ShareResult>, manualScore: string, dnf: bool): (o: SaveOutcome)
    ensures mode == PasteMode ==> (o.Rejected? <==> parsed.None?)
    ensures mode == PasteMode && parsed.None? ==> o == Rejected(PASTE_FIRST)
    ensures mode == PasteMode && parsed.Some? ==>
      o.entry == Entry(parsed.value.score, parsed.value.solved, Some(parsed.value.puzzleNumber))
    ensures mode == ManualMode && dnf ==> o == Saved(Entry(None, false, None))
    ensures mode == ManualMode && !dnf ==>
      (o.Saved? <==> ParseInt(manualScore).Some? && 1 <= ParseInt(manualScore).value <= 6)
    ensures mode == ManualMode && !dnf && o.Saved? ==>
      o.entry.solved && o.entry.score == ParseInt(manualScore) && o.entry.puzzleNumber.None?
    ensures mode == ManualMode && !dnf && o.Rejected? ==> o.message == SCORE_RANGE
  {
    if mode == PasteMode then
      if parsed.None? then Rejected(PASTE_FIRST)
      else Saved(Entry(parsed.value.score, parsed.value.solved, Some(parsed.value.puzzleNumber)))
    else if dnf then Saved(Entry(None, false, None))
    else if AcceptedManualScore(manualScore) then Saved(Entry(ParseInt(manualScore), true, None))
    else Rejected(SCORE_RANGE)
  }

  /** An entry as the rest of the app expects it: a score exactly when solved,
      and at least one guess. */
  predicate WellFormedEntry(e: Entry) {
    (e.solved <==> e.score.Some?) && (e.score.Some? ==> e.score.value >= 1)
  }

  /** Every entry the modal saves from a parse is well formed. */
  lemma PastedEntriesWellFormed(text: string, manualScore: string, dnf: bool)
    ensures var o := ModalSave(PasteMode, Parse(Some(text)), manualScore, dnf);
      o.Saved? ==> WellFormedEntry(o.entry)
  {
    var parsed := Parse(Some(text));
    if parsed.Some? {
      var lines := Lines(text);
      assert parsed == ParseLines(lines, Trim(text));
      ParseLinesResult(lines, Trim(text));
    }
  }

  /** Every manual entry is well formed, and its score is at most 6. */
  lemma ManualEntriesWellFormed(parsed: Option<ShareResult>, manualScore: string, dnf: bool)
    ensures var o := ModalSave(ManualMode, parsed, manualScore, dnf);
      o.Saved? ==> WellFormedEntry(o.entry) && (o.entry.solved ==> 1 <= o.entry.score.value <= 6)
  {
  }

  /** Pressing the score button `n` (which stores `String(n)`) and saving
      saves a solve in `n` guesses without a puzzle number. */
  lemma ScoreButtonSaves(n: int, parsed: Option<ShareResult>)
    requires 1 <= n <= 6
    ensures ModalSave(ManualMode, parsed, IntToString(n), false) == Saved(Entry(Some(n), true, None))
  {
    ParseIntOfIntToString(n);
  }

  /** The modal's React state. */
  class ScoreEntryModal {
    var mode: EntryMode
    var pasteText: string
    var manualScore: string
    var dnf: bool
    var parsed: Option<ShareResult>
    var error: string
    var saving: bool

    constructor ()
      ensures mode == ManualMode && pasteText == "" && manualScore == "" && !dnf
      ensures parsed.None? && error == "" && !saving
    {
      mode, pasteText, manualScore, dnf := ManualMode, "", "", false;
      parsed, error, saving := None, "", false;
    }

    /** The two mode tabs. */
    method SetMode(m: EntryMode)
      modifies this`mode
      ensures mode == m
    {
      mode := m;
    }

    /** The score buttons 1..6. */
    method PickScore(n: int)
      modifies this`manualScore, this`dnf
      ensures manualScore == IntToString(n) && !dnf
    {
      manualScore := IntToString(n);
      dnf := false;
    }

    /** The DNF button toggles and clears the manual score. */
    method ToggleDnf()
      modifies this`manualScore, this`dnf
      ensures dnf == !old(dnf) && manualScore == ""
    {
      dnf := !dnf;
      manualScore := "";
    }

    /** `handlePaste(text)`: parse on every change; complain only about text
      longer than 10 UTF-16 code units, so typing does not flash the error. */
    method HandlePaste(text: string)
      modifies this`pasteText, this`error, this`parsed
      ensures pasteText == text && parsed == Parse(Some(text))
      ensures parsed.Some? ==> error == ""
      ensures parsed.None? ==> error == (if Utf16Length(text) > 10 then CANNOT_PARSE else "")
    {
      pasteText := text;
      error := "";
      var result := ParseShareText(Some(text));
      ShowParse(text, result);
    }

    /** The branch of `handlePaste` that stores the parse and, when a text longer
      than 10 code units does not parse, the error. */
    method ShowParse(text: string, result: Option<ShareResult>)
      modifies this`error, this`parsed
      requires error == ""
      ensures parsed == result
      ensures result.Some? ==> error == ""
      ensures result.None? ==> error == (if Utf16Length(text) > 10 then CANNOT_PARSE else "")
    {
      if result.Some? {
        parsed := result;
      } else {
        parsed := None;
        var length := Utf16Length(text);
        if length > 10 {
          error := CANNOT_PARSE;
        }
      }
    }

    /** `handleSave()`: build the entry branch by branch; on a rejection set the
      error and save nothing. `saved` is what `onSave` receives. */
    method HandleSave() returns (saved: Option<Entry>)
      modifies this`error, this`saving
      ensures var o := ModalSave(mode, parsed, manualScore, dnf);
        && (o.Saved? ==> saved == Some(o.entry) && error == old(error))
        && (o.Rejected? ==> saved.None? && error == o.message)
      ensures !saving
    {
      saving := true;
      var score: Option<int>;
      var solved: bool;
      var puzzleNumber: Option<nat>;

      if mode == PasteMode {
        if parsed.None? {
          error := PASTE_FIRST;
          saving := false;
          return None;
        }
        score := parsed.value.score;
        solved := parsed.value.solved;
        puzzleNumber := Some(parsed.value.puzzleNumber);
      } else {
        if dnf {
          score := None;
          solved := false;
        } else {
          var n := ParseInt(manualScore);
          if n.None? || n.value == 0 || n.value < 1 || n.value > 6 {
            error := SCORE_RANGE;
            saving := false;
            return None;
          }
          score := n;
          solved := true;
        }
        puzzleNumber := None;
      }

      saved := Some(Entry(score, solved, puzzleNumber));
      saving := false;
    }
  }

  // ---------------------------------------------------------------------------
  // Saving into today's records

  /** At most one record per (player, game), which the save maintains. */
  predicate OnePerPlayerAndGame(scores: seq<ScoreRecord>) {
    forall i, j :: 0 <= i < j < |scores| ==>
      !(scores[i].playerId == scores[j].playerId && scores[i].gameKey == scores[j].gameKey)
  }

  predicate AllOnDate(scores: seq<ScoreRecord>, date: string) {
    forall i :: 0 <= i < |scores| ==> scores[i].date == date
  }

  /** The Today page's list of today's records. */
  class TodayScores {
    var scores: seq<ScoreRecord>

    constructor ()
      ensures scores == []
    {
      scores := [];
    }

    /** The page's `handleSave(entry)` for the signed-in player and the open
      game: overwrite the score, solved flag and puzzle number of the record
      `getScore` finds, or else insert a new record dated `today`. */
    method Save(userId: string, gameKey: string, entry: Entry, today: string)
      modifies this
      ensures match FindIndex(old(scores), userId, gameKey)
        case Some(i) =>
          && |scores| == |old(scores)|
          && scores[i] == old(scores)[i].(score := entry.score, solved := entry.solved, puzzleNumber := entry.puzzleNumber)
          && forall j :: 0 <= j < |scores| && j != i ==> scores[j] == old(scores)[j]
        case None =>
          scores == old(scores) + [ScoreRecord(userId, gameKey, today, entry.score, entry.solved, entry.puzzleNumber)]
      ensures GetScore(scores, userId, gameKey).Some?
      ensures var r := GetScore(scores, userId, gameKey).value;
        r.score == entry.score && r.solved == entry.solved && r.puzzleNumber == entry.puzzleNumber
      ensures OnePerPlayerAndGame(old(scores)) ==> OnePerPlayerAndGame(scores)
      ensures AllOnDate(old(scores), today) ==> AllOnDate(scores, today)
    {
      var existing := FindIndex(scores, userId, gameKey);
      if existing.Some? {
        var i := existing.value;
        scores := scores[i := scores[i].(score := entry.score, solved := entry.solved, puzzleNumber := entry.puzzleNumber)];
        assert FindIndex(scores, userId, gameKey) == Some(i) by {
          FindIgnoresOtherFields(old(scores), scores, userId, gameKey, 0);
        }
      } else {
        scores := scores + [ScoreRecord(userId, gameKey, today, entry.score, entry.solved, entry.puzzleNumber)];
        FindSkipsNonMatching(scores, userId, gameKey, 0, |scores| - 1);
      }
    }
  }

  /** The search only looks at player and game. */
  lemma {:induction false} FindIgnoresOtherFields(a: seq<ScoreRecord>, b: seq<ScoreRecord>, playerId: string, gameKey: string, from: nat)
    requires |a| == |b| && from <= |a|
    requires forall j :: 0 <= j < |a| ==> (IsRecordOf(a[j], playerId, gameKey) <==> IsRecordOf(b[j], playerId, gameKey))
    ensures FindFrom(a, playerId, gameKey, from) == FindFrom(b, playerId, gameKey, from)
    decreases |a| - from
  {
    if from < |a| {
      FindIgnoresOtherFields(a, b, playerId, gameKey, from + 1);
    }
  }

  /** The search passes over records of other players and games. */
  lemma {:induction false} FindSkipsNonMatching(scores: seq<ScoreRecord>, playerId: string, gameKey: string, from: nat, to: nat)
    requires from <= to <= |scores|
    requires forall j :: from <= j < to ==> !IsRecordOf(scores[j], playerId, gameKey)
    ensures FindFrom(scores, playerId, gameKey, from) == FindFrom(scores, playerId, gameKey, to)
    decreases |scores| - from
  {
    if from < to {
      FindSkipsNonMatching(scores, playerId, gameKey, from + 1, to);
    }
  }

  // ---------------------------------------------------------------------------
  // The share grid

  const RED_SQUARE: char := '\U{1F7E5}'
  const BLACK_SQUARE: char := '\U{2B1B}'
  const GREEN_SQUARE: char := '\U{1F7E9}'
  const WHITE_SQUARE: char := '\U{2B1C}'

  /** The glyph of box `i` of a record. */
  function BoxAt(s: ScoreRecord, i: nat): char {
    if !s.solved then RED_SQUARE
    else if i < NumberValue(s.score) - 1 then BLACK_SQUARE
    else if i == NumberValue(s.score) - 1 then GREEN_SQUARE
    else WHITE_SQUARE
  }

  /** `Array.from({ length: 6 }, ...).join('')`. */
  function Boxes(s: ScoreRecord): (b: string)
    ensures |b| == 6
  {
    seq(6, i requires 0 <= i => BoxAt(s, i))
  }

  function Repeat(c: char, n: nat): (r: string)
    ensures |r| == n && forall i :: 0 <= i < n ==> r[i] == c
  {
    if n == 0 then "" else [c] + Repeat(c, n - 1)
  }

  /** The row of boxes as a picture: six red squares for a DNF; for a solve in
      `s` guesses, `s - 1` black squares, the green square, then white squares. */
  lemma BoxesPicture(s: ScoreRecord)
    ensures !s.solved ==> Boxes(s) == Repeat(RED_SQUARE, 6)
    ensures s.solved && 1 <= NumberValue(s.score) <= 6 ==>
      var n := NumberValue(s.score);
      Boxes(s) == Repeat(BLACK_SQUARE, n - 1) + [GREEN_SQUARE] + Repeat(WHITE_SQUARE, 6 - n)
  {
  }

  /** The glyph a dot colour stands for in the share grid. */
  function GlyphOf(c: DotColour): char {
    match c
    case Zinc600 => BLACK_SQUARE
    case Emerald400 => GREEN_SQUARE
    case Zinc800 => WHITE_SQUARE
    case Red700 => RED_SQUARE
  }

  /** The share grid draws the same picture as the score dots of the record. */
  lemma BoxesAgreeWithDots(s: ScoreRecord)
    ensures forall i :: 0 <= i < 6 ==> Boxes(s)[i] == GlyphOf(Dots(Played(s.score, s.solved))[i])
  {
  }

  /** `${s.score}` for a nullable number. */
  function ScoreText(score: Option<int>): string {
    if score.Some? then IntToString(score.value) else "null"
  }

  /** `s.solved ? `${s.score}/6` : 'X/6'`. */
  function ResultText(s: ScoreRecord): (t: string)
    ensures !s.solved ==> t == "X/6"
    ensures s.solved && s.score.Some? && s.score.value >= 0 ==> t == NatToString(s.score.value) + "/6"
  {
    if s.solved then ScoreText(s.score) + "/6" else "X/6"
  }

  /** One game's line of the share text. */
  function ShareLine(s: ScoreRecord, game: Game): string {
    Boxes(s) + "  " + ResultText(s) + " " + game.title
  }

  const SHARE_TITLE: string := "Framed w/ Friends \U{2014} "

  predicate HasRecord(scores: seq<ScoreRecord>, userId: string, game: Game) {
    GetScore(scores, userId, game.key).Some?
  }

  /** The lines pushed for `games`, in order, skipping games without a record. */
  function GameLines(scores: seq<ScoreRecord>, userId: string, games: seq<Game>): seq<string>
  {
    if |games| == 0 then []
    else
      var last := games[|games| - 1];
      var before := GameLines(scores, userId, games[..|games| - 1]);
      match GetScore(scores, userId, last.key)
      case None => before
      case Some(s) => before + [ShareLine(s, last)]
  }

  /** Header, then one line per game with a record, in `GAMES` order. */
  function ShareLines(scores: seq<ScoreRecord>, userId: string, date: string): seq<string> {
    [SHARE_TITLE + date] + GameLines(scores, userId, GAMES)
  }

  /** `buildShareText()`; the formatted date is a parameter. */
  method BuildShareText(scores: seq<ScoreRecord>, userId: string, date: string) returns (text: string)
    ensures text == Join(ShareLines(scores, userId, date), '\n')
  {
    var lines := [SHARE_TITLE + date];
    for gi := 0 to |GAMES|
      invariant lines == [SHARE_TITLE + date] + GameLines(scores, userId, GAMES[..gi])
    {
      var game := GAMES[gi];
      assert GAMES[..gi + 1][..gi] == GAMES[..gi];
      var s := GetScore(scores, userId, game.key);
      if s.None? {
        continue;
      }
      var result := if s.value.solved then ScoreText(s.value.score) + "/6" else "X/6";
      var boxes := Boxes(s.value);
      lines := lines + [boxes + "  " + result + " " + game.title];
    }
    assert GAMES[..|GAMES|] == GAMES;
    text := Join(lines, '\n');
  }

  /** The test `if (!s) return` applies to a game. */
  function HasRecordTest(scores: seq<ScoreRecord>, userId: string): Game -> bool {
    (g: Game) => HasRecord(scores, userId, g)
  }

  /** The game lines are the games that have a record, each turned into its
      line: the push loop is a filter followed by a map. */
  lemma {:induction false} GameLinesAreFilteredGames(scores: seq<ScoreRecord>, userId: string, games: seq<Game>)
    ensures var withRecord := Filter(games, HasRecordTest(scores, userId));
      && |GameLines(scores, userId, games)| == |withRecord|
      && forall j :: 0 <= j < |withRecord| ==>
           GameLines(scores, userId, games)[j]
             == ShareLine(GetScore(scores, userId, withRecord[j].key).value, withRecord[j])
  {
    if |games| > 0 {
      var p := HasRecordTest(scores, userId);
      var init, last := games[..|games| - 1], games[|games| - 1];
      GameLinesAreFilteredGames(scores, userId, init);
      SplitLast(games);
      FilterSnoc(init, last, p);
      if p(last) {
        GameLinesSnoc(GameLines(scores, userId, init), Filter(init, p), scores, userId, last);
      }
    }
  }

  /** The step of GameLinesAreFilteredGames for a last game that has a record. */
  lemma GameLinesSnoc(lines: seq<string>, withRecord: seq<Game>, scores: seq<ScoreRecord>, userId: string, last: Game)
    requires HasRecord(scores, userId, last)
    requires |lines| == |withRecord|
    requires forall j :: 0 <= j < |withRecord| ==>
      HasRecord(scores, userId, withRecord[j]) &&
      lines[j] == ShareLine(GetScore(scores, userId, withRecord[j].key).value, withRecord[j])
    ensures var more := withRecord + [last];
      forall j :: 0 <= j < |more| ==>
        HasRecord(scores, userId, more[j]) &&
        (lines + [ShareLine(GetScore(scores, userId, last.key).value, last)])[j]
          == ShareLine(GetScore(scores, userId, more[j].key).value, more[j])
  {
    var more := withRecord + [last];
    forall j | 0 <= j < |more|
      ensures HasRecord(scores, userId, more[j])
    {
      if j < |withRecord| {
        assert more[j] == withRecord[j];
      }
    }
  }

  /** No piece of a game line is a line break. */
  lemma ShareLineHasNoNewline(s: ScoreRecord, game: Game)
    requires '\n' !in game.title
    ensures '\n' !in ShareLine(s, game)
  {
    assert '\n' !in Boxes(s);
    if s.solved && s.score.Some? {
      var digits := NatToString(if s.score.value < 0 then -s.score.value else s.score.value);
      assert '\n' !in digits;
    }
  }

  /** Splitting the share text at line breaks gives back the header and the
      game lines, provided the formatted date holds no line break. */
  lemma ShareTextSplitsIntoLines(scores: seq<ScoreRecord>, userId: string, date: string)
    requires '\n' !in date
    ensures SplitWhere(Join(ShareLines(scores, userId, date), '\n'), IsNewline) == ShareLines(scores, userId, date)
  {
    var gameLines := GameLines(scores, userId, GAMES);
    var lines := [SHARE_TITLE + date] + gameLines;
    var withRecord := Filter(GAMES, HasRecordTest(scores, userId));
    GameLinesAreFilteredGames(scores, userId, GAMES);
    ShareTitleHasNoNewline(date);
    forall k | 0 <= k < |gameLines| ensures '\n' !in gameLines[k] {
      var g := withRecord[k];
      GameTitlesHaveNoNewline(g);
      ShareLineHasNoNewline(GetScore(scores, userId, g.key).value, g);
    }
    NoNewlineInAnyLine(SHARE_TITLE + date, gameLines);
    SplitJoin(lines, '\n', IsNewline);
  }

  lemma ShareTitleHasNoNewline(date: string)
    requires '\n' !in date
    ensures '\n' !in SHARE_TITLE + date
  {
    assert forall i :: 0 <= i < |SHARE_TITLE| ==> SHARE_TITLE[i] != '\n';
  }

  lemma GameTitlesHaveNoNewline(g: Game)
    requires g in GAMES
    ensures '\n' !in g.title
  {
  }

  lemma NoNewlineInAnyLine(head: string, tail: seq<string>)
    requires '\n' !in head
    requires forall k :: 0 <= k < |tail| ==> '\n' !in tail[k]
    ensures var lines := [head] + tail;
      forall i, j :: 0 <= i < |lines| && 0 <= j < |lines[i]| ==> !IsNewline(lines[i][j])
  {
    var lines := [head] + tail;
    forall i, j | 0 <= i < |lines| && 0 <= j < |lines[i]| ensures !IsNewline(lines[i][j]) {
      if i > 0 {
        assert lines[i] == tail[i - 1];
      }
    }
  }
}
