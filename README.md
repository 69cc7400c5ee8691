# Framed w/ Friends — score pipeline in Dafny

Framed w/ Friends lets a small group of players log their daily results for
four photo-guessing games (Framed, One Frame, Title Shot, Poster) and compare
them. This project models the score pipeline of the web app and proves its
properties:

- the share-text parser, which turns the text a game site lets you copy
  ("Framed #842" followed by a line of emoji) into a game, a puzzle number
  and a score, a DNF (a parsed attempt without a solve), or nothing;
- the Today page: the score entry modal (manual entry, DNF, pasted share
  text), the lookup of a player's record for a game, the save that updates
  that record or inserts a new one for today, and the share grid of coloured
  squares a player copies;
- the score dots component that draws a result as six coloured dots;
- the leaderboard: per-player played/solved counts, the average over solved
  games, the ranking with medals;
- the history page: the records listed under the game filter and the view
  mode, grouped by date with the newest date first, and the user's own
  played / solve-rate / average statistics.

Modules: `Wrappers` (Option), `Seqs` (`filter` and its laws), `Strings`
(JavaScript white space, `trim`, `split`, `join`, `parseInt`, decimal
printing, UTF-16 length), `Games` (the game table and `MAX_GUESSES`),
`Records` (the score record, the game filter, averages), `ParseScore`,
`ScoreDots`, `Today`, `Leaderboard`, `History`.

The parser and the loops of the Today and History pages are methods whose loops are
proved against specification functions (`ParseScore.ParseShareText`, with its
two loops `ParseScore.MatchGame` and `ParseScore.ScanSegments`, against
`ParseScore.Parse`, `Today.BuildShareText` against `Today.ShareLines`,
`History.GroupByDate` against `History.OnDate`); the modal and the list of
today's records are classes whose methods update their fields. The leaderboard
and the history statistics are functions, as in the source.

Numbers follow JavaScript where it matters: `null` in `+` and `-` counts as 0;
`toFixed(2)` is a whole number of hundredths rounded half away from zero;
`Math.round` of a percentage is `floor((200 * solved + played) / (2 * played))`;
`text.length` counts UTF-16 code units; `parseInt(s, 10)` skips leading white
space, takes an optional sign and the longest run of digits.

## Model

| member | source | states |
|---|---|---|
| ParseScore.ParseShareText | src/lib/parseScore.js:24-78 | the parser (early exits, header loop, success loop) computes exactly `Parse(text)` |
| ParseScore.MatchGame | src/lib/parseScore.js:31-45 | the header loop finds a game iff some pattern accepts line 1, and then reports the key, label and number of the first accepting pattern in table order |
| ParseScore.ScanSegments | src/lib/parseScore.js:54-68 | the success loop reports solved iff some segment holds a success glyph, with score 1 + the index of the first such segment; otherwise score null |
| ParseScore.Parse | src/lib/parseScore.js:25-28 | a missing (non-string) or empty text gives null |
| ParseScore.ParseLines | src/lib/parseScore.js:27-77 | null with fewer than 2 non-empty lines; rawText is the trimmed input; solved exactly when there is a score |
| ParseScore.ParseLinesHeader | src/lib/parseScore.js:35-45 | non-null iff line 1 is accepted by some header pattern, whatever the other lines say; game key, label and puzzle number come from the first accepting pattern in table order |
| ParseScore.ParseLinesResult | src/lib/parseScore.js:48-77 | solved iff some segment of the last line holds a success glyph; score is 1 + the index of the first such segment, so 1 <= score <= number of segments, and is not capped at 6; a DNF has score null |
| ParseScore.MatchHeader | src/lib/parseScore.js:14-19 | one header pattern, anchored at the start: each label word in any letter case, each followed by a white-space run, then `#` and the digit run whose decimal value is the puzzle number; none otherwise |
| ParseScore.HeaderMatches | src/lib/parseScore.js:35-36 | what every pattern of the table makes of line 1, one entry per pattern, in table order |
| ParseScore.DetectHeader | src/lib/parseScore.js:35-43 | the patterns tried in order on line 1, the first that accepts giving the game and the number |
| ParseScore.HeaderTextMatches | src/lib/parseScore.js:14-19 | every header spelled as label words in any letter case, separated by white space runs, then `#` and digits, is accepted, with the decimal value of all the digits as puzzle number, whatever follows |
| ParseScore.TableIsLetterWords | src/lib/parseScore.js:14-19 | every label of the pattern table is made of ASCII letter words, so the header lemmas apply to the real table |
| ParseScore.MatchedHeaderIsHeaderText | src/lib/parseScore.js:14-19 | conversely every accepted line 1 has that form, and the number is the value of the whole digit run |
| ParseScore.DetectFromFirst | src/lib/parseScore.js:35-43 | the patterns are tried in order: a detected header comes from a pattern that accepts, and every earlier pattern rejects |
| ParseScore.DetectFromNone | src/lib/parseScore.js:35-43 | no header is detected exactly when every pattern rejects the line |
| ParseScore.HeaderIsAnchored | src/lib/parseScore.js:15-18 | matching is anchored at the start of line 1: a line whose first letter differs from the label's never matches |
| ParseScore.OneFrameHeaderNumber | src/lib/parseScore.js:16 | the One Frame pattern reads puzzle 5 off "One Frame #5" |
| ParseScore.OneFrameIsNotFramed | src/lib/parseScore.js:15-16 | "One Frame #5" is not a Framed header and is detected as One Frame, puzzle 5 |
| ParseScore.IncludesGlyph | src/lib/parseScore.js:58 | for a one-character glyph, `includes` holds iff the glyph occurs anywhere in the segment |
| ParseScore.FirstSuccessFrom | src/lib/parseScore.js:57-63 | the scan returns the first segment holding a success glyph, or none when no later segment holds one |
| Strings.Trim | src/lib/parseScore.js:27 | `trim()`: the result has no white space at either end and is no longer than the input |
| Strings.Lines | src/lib/parseScore.js:27 | the input trimmed, split at line feeds, each piece trimmed, empty pieces dropped |
| Strings.Words | src/lib/parseScore.js:51 | the maximal runs of non-white-space characters, which is what splitting at white-space runs and dropping empty pieces gives |
| Strings.LinesAreTrimmed | src/lib/parseScore.js:27 | the lines are non-empty and carry no white space at either end |
| Strings.WordsAreSegments | src/lib/parseScore.js:51 | the segments are non-empty and contain no white space |
| Strings.WordsOfJoin | src/lib/parseScore.js:51 | splitting space-joined non-empty words gives the words back |
| Strings.TrimStart | src/lib/parseScore.js:27 | removes exactly the leading white space |
| Strings.TrimEnd | src/lib/parseScore.js:27 | removes exactly the trailing white space |
| Strings.TrimIdempotent | src/lib/parseScore.js:76 | trimming twice is trimming once |
| Strings.SplitJoin | src/pages/Today.jsx:211 | splitting a join at the separator gives the parts back when no part holds the separator |
| Strings.ParseInt | src/pages/Today.jsx:46 | `parseInt` is NaN exactly when no digit follows the leading white space and optional sign |
| Strings.ParseIntOfIntToString | src/pages/Today.jsx:127 | `parseInt(String(n))` is n for every integer n |
| Strings.NatToString | src/pages/Leaderboard.jsx:81 | `String(n)` of a count: at least one digit, all digits, no leading zero |
| Strings.IntToString | src/pages/Today.jsx:127 | `String(n)` of an integer: non-empty, starting with a minus sign exactly when n is negative |
| Strings.Utf16Length | src/pages/Today.jsx:28 | `text.length`: one code unit per character, two for a character beyond U+FFFF |
| Strings.DecimalOfNatToString | src/pages/Leaderboard.jsx:81 | printing a count in decimal and reading it back gives the count |
| Strings.Utf16LengthBounds | src/pages/Today.jsx:28 | the UTF-16 length lies between the number of code points and twice that |
| Today.GetScore | src/pages/Today.jsx:191-192 | none iff no record of that player for that game exists; otherwise the first such record |
| Today.FindFrom | src/pages/Today.jsx:192 | the index found is the first matching record at or after the start |
| Today.ModalSave | src/pages/Today.jsx:32-56 | paste mode rejects with "Paste a valid score first." iff nothing parsed, else copies score, solved and puzzle number; manual DNF saves score null, solved false; a manual score saves iff `parseInt` gives 1..6, as a solve with that score, else "Enter a score between 1 and 6."; manual saves have no puzzle number |
| Today.PastedEntriesWellFormed | src/pages/Today.jsx:36-40 | every entry saved from a parse has a score exactly when solved, and that score is at least 1 |
| Today.ManualEntriesWellFormed | src/pages/Today.jsx:41-51 | every manual entry has a score exactly when solved, and that score lies in 1..6 |
| Today.ScoreButtonSaves | src/pages/Today.jsx:124-136 | pressing score button n in 1..6 and saving saves a solve in n guesses |
| Today.ScoreEntryModal.constructor | src/pages/Today.jsx:12-18 | the modal opens in manual mode with empty fields, no parse, no error |
| Today.ScoreEntryModal.SetMode | src/pages/Today.jsx:79-85 | the tabs switch the mode |
| Today.ScoreEntryModal.PickScore | src/pages/Today.jsx:127 | a score button stores `String(n)` and clears DNF |
| Today.ScoreEntryModal.ToggleDnf | src/pages/Today.jsx:139 | the DNF button flips DNF and clears the manual score |
| Today.ScoreEntryModal.HandlePaste | src/pages/Today.jsx:20-30 | the pasted text is parsed; a failed parse shows the error only for text longer than 10 UTF-16 units |
| Today.ScoreEntryModal.ShowParse | src/pages/Today.jsx:24-29 | a successful parse is stored with no error; a failed one stores null and sets the error only when the text is longer than 10 UTF-16 units |
| Today.ScoreEntryModal.HandleSave | src/pages/Today.jsx:32-56 | hands `ModalSave`'s entry to the page, or sets its error message and hands nothing |
| Today.TodayScores.constructor | src/pages/Today.jsx:165 | the page starts with no records |
| Today.TodayScores.Save | src/pages/Today.jsx:223-236 | an existing record gets the new score, solved flag and puzzle number and nothing else changes; otherwise exactly one record dated today is appended; afterwards `getScore` finds the saved values; at most one record per player and game, and all records dated today, are preserved |
| Today.BoxAt | src/pages/Today.jsx:202-207 | box i: red for a DNF; for a solve black before the winning guess, green at it, white after it |
| Today.Boxes | src/pages/Today.jsx:202-207 | the box row always has 6 glyphs |
| Today.BoxesPicture | src/pages/Today.jsx:202-207 | a DNF is six red squares; a solve in s guesses is s-1 black squares, the green square, then white squares |
| Today.BoxesAgreeWithDots | src/pages/Today.jsx:202-207 | the share grid shows the same picture as the score dots of the record |
| Today.BuildShareText | src/pages/Today.jsx:194-212 | the loop over the games builds the header line and one line per game with a record, joined by line breaks |
| Today.ResultText | src/pages/Today.jsx:201 | `X/6` for a DNF; the score followed by `/6` for a solve |
| Today.ShareLine | src/pages/Today.jsx:208 | the box row, two spaces, the result, a space, the game label |
| Today.GameLines | src/pages/Today.jsx:198-209 | one line per game of the table with a record of the user, in table order |
| Today.ShareLines | src/pages/Today.jsx:196-209 | the title with the date, then the game lines |
| Today.GameLinesAreFilteredGames | src/pages/Today.jsx:198-209 | the game lines are the games with a record, in table order, each turned into its box row, result and label |
| Today.ShareLineHasNoNewline | src/pages/Today.jsx:208 | a game line holds no line break |
| Today.ShareTextSplitsIntoLines | src/pages/Today.jsx:196-211 | splitting the share text at line breaks gives back the header and the game lines |
| Today.GameTitlesHaveNoNewline | src/lib/constants.js:2-7 | no game label holds a line break |
| ScoreDots.DotColourAt | src/components/ScoreDots.jsx:4-37 | dot i: grey-800 when not played, red for a DNF, for a solve grey-600 before the winning guess, emerald at it, grey-800 after it |
| ScoreDots.Dots | src/components/ScoreDots.jsx:8-28 | every branch draws exactly MAX_GUESSES dots |
| ScoreDots.DotCounts | src/components/ScoreDots.jsx:3-42 | unplayed: six grey-800 dots; DNF: six red dots; solve in s (1..6): s-1 grey-600, exactly one emerald, 6-s grey-800; a solve outside 1..6 has no emerald dot |
| Records.ForGame | src/pages/Leaderboard.jsx:63-65 | 'all' keeps every record; a game key keeps exactly that game's records |
| Records.ForPlayer | src/pages/Leaderboard.jsx:69 | keeps exactly the player's records: every kept record is one of the player's, and every record of the player is kept |
| Records.SolvedOnly | src/pages/Leaderboard.jsx:71 | keeps exactly the solved records: every kept record is solved, and every solved record is kept |
| Records.TotalScore | src/pages/Leaderboard.jsx:72 | the `reduce` sum of the scores, null counting as 0 |
| Records.Hundredths | src/pages/Leaderboard.jsx:73 | the quotient rounded to the nearest hundredth, ties away from zero |
| Records.SolvedAverage | src/pages/Leaderboard.jsx:72-73 | the average over solved records only; none exactly when nothing is solved |
| Records.SolvedAverageBounds | src/pages/History.jsx:57-60 | an average of solved scores in lo..hi lies in lo..hi |
| Records.TotalScoreBounds | src/pages/Leaderboard.jsx:72 | a sum of n scores in lo..hi lies between n*lo and n*hi |
| Records.HundredthsBetween | src/pages/Leaderboard.jsx:73 | rounding keeps a mean between its bounds |
| Leaderboard.MedalFor | src/pages/Leaderboard.jsx:8-13 | gold exactly for rank 1, silver exactly for 2, bronze exactly for 3, the rank number itself for every rank above 3 |
| Leaderboard.Standings | src/pages/Leaderboard.jsx:26 | the rank is the 1-based position: gold, silver and bronze for the first three rows, the number i + 1 for the row at index i from the fourth on, and no two rows share a rank |
| Leaderboard.PlayerRow | src/pages/Leaderboard.jsx:68-83 | played counts the player's filtered records, solved the solved ones, solved <= played; avg is the rounded mean of the player's solved scores, none iff nothing solved; the subtitle is built from solved and played; display is the average iff something was solved, the dash iff nothing was played, else X; the sort key is the average, or 999 |
| Leaderboard.AllRows | src/pages/Leaderboard.jsx:68 | one row per listed player, in player order |
| Leaderboard.Candidates | src/pages/Leaderboard.jsx:85 | every kept row has played > 0 and consistent fields |
| Leaderboard.Subtitle | src/pages/Leaderboard.jsx:81 | `solved/played solved` when something was played, `no scores` otherwise |
| Leaderboard.InsertByKey | src/pages/Leaderboard.jsx:86 | one insertion step of the sort: the new row goes before the first row whose key is not smaller |
| Leaderboard.InsertByKeyPermutes | src/pages/Leaderboard.jsx:86 | insertion adds exactly the new row |
| Leaderboard.InsertByKeySorted | src/pages/Leaderboard.jsx:86 | insertion into rows sorted by key keeps them sorted |
| Leaderboard.SortByKey | src/pages/Leaderboard.jsx:86 | the sort orders by key and is a permutation |
| Leaderboard.InsertByKeyStable | src/pages/Leaderboard.jsx:86 | an inserted row goes ahead of rows with the same key |
| Leaderboard.SortByKeyStable | src/pages/Leaderboard.jsx:86 | the sort is stable: rows with equal keys keep their order |
| Leaderboard.ComputeRows | src/pages/Leaderboard.jsx:67-87 | the ranked rows are sorted by key, a permutation of the rows of players who played, each with played > 0 |
| Leaderboard.RankedRowFromPlayer | src/pages/Leaderboard.jsx:68 | every ranked row is the row of a listed player |
| Leaderboard.PlayersWhoPlayedAreRanked | src/pages/Leaderboard.jsx:85 | every listed player with a filtered record is ranked |
| Leaderboard.RankedRowsDistinct | src/pages/Leaderboard.jsx:68-85 | with distinct player ids, no two ranked rows are equal |
| Leaderboard.RankedIdsDistinct | src/pages/Leaderboard.jsx:68-85 | with distinct player ids, no player appears twice |
| Leaderboard.TiesKeepPlayerOrder | src/pages/Leaderboard.jsx:86 | players with equal keys keep the order of the player list |
| Leaderboard.RowAverageBounds | src/pages/Leaderboard.jsx:72-73 | a row's average lies within the bounds of the solved scores |
| Leaderboard.ForGameScoresWithin | src/pages/Leaderboard.jsx:63-65 | filtering by game keeps a bound on solved scores |
| Leaderboard.AveragesWithinGuesses | src/pages/Leaderboard.jsx:72-73 | with solved scores in 1..6 every average shown is in 1.00..6.00 |
| Leaderboard.SolverKeyBelowSentinel | src/pages/Leaderboard.jsx:82 | with solved scores up to 998, a row with a solve has a key below 999 |
| Leaderboard.SolversRankFirst | src/pages/Leaderboard.jsx:82-86 | with solved scores up to 998, every player with a solve ranks before every all-DNF player |
| Leaderboard.SentinelTieRanksSolverLast | src/pages/Leaderboard.jsx:73-86 | without the bound the ranking can fail: a lone solve in 999 guesses averages exactly the 999 sentinel, and the stable sort keeps that solver behind an all-DNF player listed first |
| History.Listed | src/pages/History.jsx:40-44 | a record is listed iff its game matches the filter and it is the user's or everyone's are shown |
| History.GroupByDate | src/pages/History.jsx:47-51 | one group per date present, keys distinct; each group is that date's listed records in listed order, never empty |
| History.GroupsStep | src/pages/History.jsx:48-51 | one turn of the `forEach` keeps the grouping invariant |
| History.OnDateStep | src/pages/History.jsx:50 | appending a record extends only its own date's group |
| History.GroupingIsPartition | src/pages/History.jsx:47-51 | laid end to end, the groups hold exactly the listed records: nothing lost or duplicated |
| History.LexLess | src/pages/History.jsx:52 | the order `localeCompare` gives the dates: code point by code point, a proper prefix first |
| History.LexIrreflexive | src/pages/History.jsx:52 | no date sorts before itself |
| History.LexTransitive | src/pages/History.jsx:52 | the date order is transitive |
| History.LexTotal | src/pages/History.jsx:52 | any two different dates are ordered |
| History.InsertDesc | src/pages/History.jsx:52 | insertion keeps the dates newest first and adds exactly the new date |
| History.SortDatesDesc | src/pages/History.jsx:52 | the date sort orders newest first and is a permutation |
| History.SortedDatesStrictlyDescending | src/pages/History.jsx:52 | distinct dates come out strictly newest first, each once |
| History.DateGroups | src/pages/History.jsx:40-52 | the listed page: dates distinct and strictly newest first, exactly the dates of listed records, each group its date's records in order, the groups a partition of the listed records |
| History.MyScores | src/pages/History.jsx:55-56 | exactly the user's records under the game filter |
| History.StatsIgnoreViewMode | src/pages/History.jsx:55-56 | the statistics use the user's own listing whatever the view mode |
| History.SolveRate | src/pages/History.jsx:61-63 | the dash iff nothing played; otherwise the percentage rounded half up, between 0 and 100 |
| History.SolveRateAllSolved | src/pages/History.jsx:62 | every game solved gives 100 |
| History.SolveRateNoneSolved | src/pages/History.jsx:62 | no game solved gives 0 |
| History.UserStats | src/pages/History.jsx:55-63 | played counts the user's filtered records; the rate is the rounded percentage of them that are solved, the dash iff nothing was played; the average is the rounded mean of the solved scores, the dash iff nothing was solved |
| History.AvgGuessesWithinGuesses | src/pages/History.jsx:57-60 | with solved scores in 1..6 the average shown is in 1.00..6.00 |
| History.LastWithId | src/pages/History.jsx:38 | `Object.fromEntries` keeps the last entry for an id |
| History.DisplayName | src/pages/History.jsx:133 | a missing id or an empty name shows "?"; otherwise the name of the last player entry with that id |

## Left out

- All Supabase reads, inserts and updates, the real-time refetch channel and the loading flags: the model works on the lists those reads return and on the in-memory effect of a save.
- Database record ids: `Today.TodayScores.Save` updates the record that `getScore` finds, which is the one the source updates by id.
- The wall-clock `TODAY` constant is a parameter of `Today.TodayScores.Save`; the locale-formatted date of the share header is a parameter of `Today.BuildShareText`, and the locale date headers of the history page are not modelled.
- The clipboard write and the "copied" timer of the share button, and every other purely visual part of the pages (colours, highlighting of the user's own row, the per-record "s/6" cell of the history list, avatars, login, layout).
- `FAIL_EMOJI_PATTERN` in the parser is declared but never used; the epoch dates and emojis of the game table are not used by the modelled code.
- src/lib/dates.js is not part of this model: the modelled pages do not call it.
- The leaderboard's period switch only chooses which rows are fetched; the model takes the fetched rows.
- Records.Hundredths: averages are exact rational quotients rounded to hundredths, not double-precision values, so a quotient whose binary approximation falls just below a half-hundredth may round differently in the browser.
- History.SolveRate: likewise exact; the floating-point product `solved / played * 100` is not modelled.
- Strings.ParseInt: exact integers; the loss of precision of `parseInt` beyond 2^53 is not modelled.
- ParseScore.MatchHeader: the puzzle number is the exact decimal value of the digit run; the rounding of `parseInt` beyond 2^53, and its `Infinity` for very long digit runs, are not modelled (real puzzle numbers are small).
- History.LexLess: `localeCompare` is modelled as code-point order, which agrees with it on `YYYY-MM-DD` dates.
- The `/i` flag folds ASCII letters only; every header label is ASCII, so no other folding is modelled.
- Leaderboard.Row: the average text `toFixed(2)` is kept as its number of hundredths, and `parseFloat` of it as the same number, so the sort compares hundredths.
- The code has no streaks, head-to-head comparisons, puzzle numbers derived from epoch dates or DNF penalty; the leaderboard average leaves missed games out.
