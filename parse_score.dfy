/**
  The share-text parser: pasted result text becomes a structured score, a DNF
  (a parsed attempt without a solve), or nothing at all when the text is not
  a share text of a configured game.
*/
module ParseScore {
  import opened Wrappers
  import opened Strings

  /** One row of the header table: the regular expression
      `^<words[0]>\s+...<words[n-1]>\s+#(\d+)` with the `i` flag. */
  datatype HeaderPattern = HeaderPattern(key: string, title: string, words: seq<string>)

  const GAME_PATTERNS: seq<HeaderPattern> := [
    HeaderPattern("framed", "Framed", ["Framed"]),
    HeaderPattern("one-frame", "One Frame", ["One", "Frame"]),
    HeaderPattern("title-shot", "Title Shot", ["Title", "Shot"]),
    HeaderPattern("poster", "Poster", ["Poster"])
  ]

  /** Every label of the table is made of ASCII letter words, as the header
      lemmas require. */
  lemma TableIsLetterWords()
    ensures forall j :: 0 <= j < |GAME_PATTERNS| ==> LetterWords(GAME_PATTERNS[j].words)
  {
  }

  /** A large green square and a large green circle. */
  const SUCCESS_EMOJI: seq<string> := ["\U{1F7E9}", "\U{1F7E2}"]

  /** What a successful parse returns; `score` is `None` (null) for a DNF. */
  datatype ShareResult = ShareResult(
    gameKey: string,
    gameLabel: string,
    puzzleNumber: nat,
    score: Option<nat>,
    solved: bool,
    rawText: string)

  // ---------------------------------------------------------------------------
  // Header recognition

  predicate IsAsciiLetter(c: char) {
    'A' <= c <= 'Z' || 'a' <= c <= 'z'
  }

  /** The canonical form the `i` flag compares: ASCII letters fold to upper case,
      and no other character folds onto an ASCII letter. */
  function Upper(c: char): (u: char)
    ensures IsAsciiLetter(u) <==> IsAsciiLetter(c)
  {
    if 'a' <= c <= 'z' then (c as int - 32) as char else c
  }

  predicate StartsWithIgnoringCase(s: string, w: string) {
    |w| <= |s| && forall i :: 0 <= i < |w| ==> Upper(s[i]) == Upper(w[i])
  }

  /** Length of the leading run of `\s` characters. */
  function SpaceRun(s: string): (n: nat)
    ensures n <= |s|
    ensures forall i :: 0 <= i < n ==> IsSpace(s[i])
    ensures n == |s| || !IsSpace(s[n])
  {
    if |s| > 0 && IsSpace(s[0]) then 1 + SpaceRun(s[1..]) else 0
  }

  /** The number captured by `(\d+)` when `s` begins with the header
      `<words[0]>\s+...<words[n-1]>\s+#\d+` (letters compared ignoring case),
      otherwise `None`. Each `\s+` and the `\d+` take the longest run. */
  function MatchHeader(s: string, words: seq<string>): Option<nat>
    decreases |words|
  {
    if |words| == 0 then
      if |s| >= 2 && s[0] == '#' && IsDigit(s[1]) then
        Some(DecimalValue(s[1..][..DigitRun(s[1..])]))
      else None
    else if StartsWithIgnoringCase(s, words[0]) then
      var rest := s[|words[0]|..];
      var gap := SpaceRun(rest);
      if gap == 0 then None else MatchHeader(rest[gap..], words[1..])
    else None
  }

  /** Words made of ASCII letters only, as every label in the table is. */
  predicate LetterWords(words: seq<string>) {
    forall i :: 0 <= i < |words| ==>
      |words[i]| > 0 && forall j :: 0 <= j < |words[i]| ==> IsAsciiLetter(words[i][j])
  }

  predicate AllSpace(s: string) {
    forall i :: 0 <= i < |s| ==> IsSpace(s[i])
  }

  /** A header as a player's site writes it: each label word in some letter
      case, each followed by a non-empty run of white space, then `#` and digits. */
  function HeaderText(variants: seq<string>, gaps: seq<string>, digits: string): string
    requires |variants| == |gaps|
  {
    if |variants| == 0 then "#" + digits
    else variants[0] + gaps[0] + HeaderText(variants[1..], gaps[1..], digits)
  }

  /** The spellings of `words` a case-insensitive match accepts. */
  predicate SpellingsOf(variants: seq<string>, words: seq<string>) {
    |variants| == |words| &&
    forall i :: 0 <= i < |words| ==>
      |variants[i]| == |words[i]| && StartsWithIgnoringCase(variants[i], words[i])
  }

  predicate ValidGaps(gaps: seq<string>) {
    forall i :: 0 <= i < |gaps| ==> |gaps[i]| > 0 && AllSpace(gaps[i])
  }

  /** Every header written as above is recognised, whatever follows the digits,
      and its number is the decimal value of all the digits. */
  lemma {:induction false} HeaderTextMatches(
    words: seq<string>, variants: seq<string>, gaps: seq<string>, digits: string, tail: string)
    requires LetterWords(words) && SpellingsOf(variants, words) && |gaps| == |words| && ValidGaps(gaps)
    requires |digits| > 0 && AllDigits(digits)
    requires tail == [] || !IsDigit(tail[0])
    ensures MatchHeader(HeaderText(variants, gaps, digits) + tail, words) == Some(DecimalValue(digits))
    decreases |words|
  {
    if |words| == 0 {
      NumberMatches(HeaderText(variants, gaps, digits) + tail, words, digits, tail);
    } else {
      HeaderTextMatches(words[1..], variants[1..], gaps[1..], digits, tail);
      HeaderWordMatches(words, variants, gaps, digits, tail, DecimalValue(digits));
    }
  }

  /** `#`, the digits and what follows: the number is the value of the digits. */
  lemma NumberMatches(s: string, words: seq<string>, digits: string, tail: string)
    requires |words| == 0
    requires |digits| > 0 && AllDigits(digits)
    requires tail == [] || !IsDigit(tail[0])
    requires s == "#" + digits + tail
    ensures MatchHeader(s, words) == Some(DecimalValue(digits))
  {
    assert s[1..] == digits + tail;
    DigitRunAll(digits);
    DigitRunOfPrefix(digits, tail);
    assert s[1..][..|digits|] == digits;
  }

  /** The first label word and its gap are consumed, leaving the rest of the header. */
  lemma HeaderWordMatches(
    words: seq<string>, variants: seq<string>, gaps: seq<string>, digits: string, tail: string, n: nat)
    requires |words| > 0
    requires LetterWords(words) && SpellingsOf(variants, words) && |gaps| == |words| && ValidGaps(gaps)
    requires MatchHeader(HeaderText(variants[1..], gaps[1..], digits) + tail, words[1..]) == Some(n)
    ensures MatchHeader(HeaderText(variants, gaps, digits) + tail, words) == Some(n)
  {
    var later := HeaderText(variants[1..], gaps[1..], digits) + tail;
    assert |variants[0]| == |words[0]| && StartsWithIgnoringCase(variants[0], words[0]);
    assert |gaps[0]| > 0 && AllSpace(gaps[0]);
    LaterStartsWithNonSpace(words[1..], variants[1..], gaps[1..], digits, tail);
    HeaderTextUnfold(variants, gaps, digits, tail);
    WordAndGapMatch(HeaderText(variants, gaps, digits) + tail, words, variants[0], gaps[0], later);
  }

  lemma HeaderTextUnfold(variants: seq<string>, gaps: seq<string>, digits: string, tail: string)
    requires |variants| == |gaps| > 0
    ensures HeaderText(variants, gaps, digits) + tail
      == variants[0] + (gaps[0] + (HeaderText(variants[1..], gaps[1..], digits) + tail))
  {
  }

  /** A spelling of the first label word, then white space, then a non-space:
      the pattern goes on with the remaining words after the white space. */
  lemma WordAndGapMatch(s: string, words: seq<string>, v: string, g: string, later: string)
    requires |words| > 0 && |v| == |words[0]| && StartsWithIgnoringCase(v, words[0])
    requires |g| > 0 && AllSpace(g)
    requires |later| > 0 && !IsSpace(later[0])
    requires s == v + (g + later)
    ensures MatchHeader(s, words) == MatchHeader(later, words[1..])
  {
    assert s[..|v|] == v;
    assert StartsWithIgnoringCase(s, words[0]);
    assert s[|words[0]|..] == g + later;
    SpaceRunOfPrefix(g, later);
    assert (g + later)[|g|..] == later;
  }

  /** What follows a white-space gap in a header is never white space. */
  lemma LaterStartsWithNonSpace(
    words: seq<string>, variants: seq<string>, gaps: seq<string>, digits: string, tail: string)
    requires LetterWords(words) && SpellingsOf(variants, words) && |gaps| == |words|
    ensures var s := HeaderText(variants, gaps, digits) + tail; |s| > 0 && !IsSpace(s[0])
  {
    if |words| > 0 {
      assert IsAsciiLetter(Upper(words[0][0]));
      assert Upper(variants[0][0]) == Upper(words[0][0]);
    }
  }

  lemma {:induction false} SpaceRunOfPrefix(gap: string, later: string)
    requires AllSpace(gap)
    requires |later| > 0 && !IsSpace(later[0])
    ensures SpaceRun(gap + later) == |gap|
  {
    if |gap| > 0 {
      assert (gap + later)[1..] == gap[1..] + later;
      SpaceRunOfPrefix(gap[1..], later);
    } else {
      assert gap + later == later;
    }
  }

  lemma {:induction false} DigitRunOfPrefix(digits: string, tail: string)
    requires AllDigits(digits)
    requires tail == [] || !IsDigit(tail[0])
    ensures DigitRun(digits + tail) == |digits|
  {
    if |digits| > 0 {
      assert (digits + tail)[1..] == digits[1..] + tail;
      DigitRunOfPrefix(digits[1..], tail);
    } else {
      assert digits + tail == tail;
    }
  }

  /** Every line a header pattern accepts is such a header: the converse of
      HeaderTextMatches. The lemma returns the decomposition. */
  lemma {:induction false} MatchedHeaderIsHeaderText(s: string, words: seq<string>, n: nat)
    returns (variants: seq<string>, gaps: seq<string>, digits: string, tail: string)
    requires MatchHeader(s, words) == Some(n)
    ensures SpellingsOf(variants, words) && |gaps| == |words| && ValidGaps(gaps)
    ensures |digits| > 0 && AllDigits(digits) && n == DecimalValue(digits)
    ensures tail == [] || !IsDigit(tail[0])
    ensures s == HeaderText(variants, gaps, digits) + tail
    decreases |words|
  {
    if |words| == 0 {
      digits, tail := MatchedNumberIsDigits(s, n);
      variants, gaps := [], [];
    } else {
      var later := s[|words[0]|..][SpaceRun(s[|words[0]|..])..];
      var vs, gs;
      vs, gs, digits, tail := MatchedHeaderIsHeaderText(later, words[1..], n);
      variants, gaps := MatchedHeaderStep(s, words, vs, gs, digits, tail);
    }
  }

  /** One label word and its gap in front of an already decomposed remainder. */
  lemma MatchedHeaderStep(s: string, words: seq<string>, vs: seq<string>, gs: seq<string>, digits: string, tail: string)
    returns (variants: seq<string>, gaps: seq<string>)
    requires |words| > 0 && StartsWithIgnoringCase(s, words[0])
    requires SpellingsOf(vs, words[1..]) && |gs| == |words| - 1 && ValidGaps(gs)
    requires var rest := s[|words[0]|..]; SpaceRun(rest) > 0 && rest[SpaceRun(rest)..] == HeaderText(vs, gs, digits) + tail
    ensures SpellingsOf(variants, words) && |gaps| == |words| && ValidGaps(gaps)
    ensures s == HeaderText(variants, gaps, digits) + tail
  {
    var w := words[0];
    var rest := s[|w|..];
    var gap := SpaceRun(rest);
    var v, g := s[..|w|], rest[..gap];
    variants := [v] + vs;
    gaps := [g] + gs;
    SpellingsCons(v, vs, words);
    ValidGapsCons(g, gs);
    HeaderTextCons(v, g, vs, gs, digits);
    SplitAround(s, |w|, gap, HeaderText(vs, gs, digits) + tail);
    assert v + g + (HeaderText(vs, gs, digits) + tail) == v + g + HeaderText(vs, gs, digits) + tail;
  }

  lemma SplitAround(s: string, n: nat, gap: nat, later: string)
    requires n <= |s| && gap <= |s| - n
    requires s[n..][gap..] == later
    ensures s == s[..n] + s[n..][..gap] + later
  {
    assert s[n..] == s[n..][..gap] + later;
    assert s == s[..n] + s[n..];
  }

  lemma SpellingsCons(v: string, vs: seq<string>, words: seq<string>)
    requires |words| > 0 && |v| == |words[0]| && StartsWithIgnoringCase(v, words[0])
    requires SpellingsOf(vs, words[1..])
    ensures SpellingsOf([v] + vs, words)
  {
    forall i | 0 <= i < |words|
      ensures |([v] + vs)[i]| == |words[i]| && StartsWithIgnoringCase(([v] + vs)[i], words[i])
    {
      if i > 0 { assert ([v] + vs)[i] == vs[i - 1] && words[i] == words[1..][i - 1]; }
    }
  }

  lemma ValidGapsCons(g: string, gs: seq<string>)
    requires |g| > 0 && AllSpace(g) && ValidGaps(gs)
    ensures ValidGaps([g] + gs)
  {
    forall i | 0 <= i < |[g] + gs| ensures |([g] + gs)[i]| > 0 && AllSpace(([g] + gs)[i]) {
      if i > 0 { assert ([g] + gs)[i] == gs[i - 1]; }
    }
  }

  lemma HeaderTextCons(v: string, g: string, vs: seq<string>, gs: seq<string>, digits: string)
    requires |vs| == |gs|
    ensures HeaderText([v] + vs, [g] + gs, digits) == v + g + HeaderText(vs, gs, digits)
  {
    assert ([v] + vs)[1..] == vs && ([g] + gs)[1..] == gs;
  }

  /** The end of a header: `#`, the digits, and what follows them. */
  lemma MatchedNumberIsDigits(s: string, n: nat) returns (digits: string, tail: string)
    requires MatchHeader(s, []) == Some(n)
    ensures |digits| > 0 && AllDigits(digits) && n == DecimalValue(digits)
    ensures tail == [] || !IsDigit(tail[0])
    ensures s == "#" + digits + tail
  {
    var body := s[1..];
    var run := DigitRun(body);
    digits := body[..run];
    tail := body[run..];
    assert body == digits + tail;
    assert s == [s[0]] + body;
  }

  datatype Header = Header(index: nat, number: nat)

  /** What each pattern of the table makes of `line`, in table order. */
  function HeaderMatches(line: string): (ms: seq<Option<nat>>)
    ensures |ms| == |GAME_PATTERNS|
    ensures forall j :: 0 <= j < |ms| ==> ms[j] == MatchHeader(line, GAME_PATTERNS[j].words)
  {
    seq(|GAME_PATTERNS|, j requires 0 <= j < |GAME_PATTERNS| => MatchHeader(line, GAME_PATTERNS[j].words))
  }

  /** The first entry at or after `k` that accepted the line, with its number. */
  function DetectFrom(ms: seq<Option<nat>>, k: nat): (r: Option<Header>)
    requires k <= |ms|
    ensures r.Some? ==> k <= r.value.index < |ms|
    decreases |ms| - k
  {
    if k == |ms| then None
    else match ms[k]
      case Some(n) => Some(Header(k, n))
      case None => DetectFrom(ms, k + 1)
  }

  /** A detected header is accepted by its entry and by no earlier one. */
  lemma {:induction false} DetectFromFirst(ms: seq<Option<nat>>, k: nat)
    requires k <= |ms|
    ensures var r := DetectFrom(ms, k);
      r.Some? ==>
        && ms[r.value.index] == Some(r.value.number)
        && forall j :: k <= j < r.value.index ==> ms[j].None?
    decreases |ms| - k
  {
    if k < |ms| && ms[k].None? {
      DetectFromFirst(ms, k + 1);
    }
  }

  /** Nothing is detected only when no entry from `k` on accepts the line. */
  lemma {:induction false} DetectFromNone(ms: seq<Option<nat>>, k: nat)
    requires k <= |ms|
    ensures DetectFrom(ms, k).None? <==> forall j :: k <= j < |ms| ==> ms[j].None?
    decreases |ms| - k
  {
    if k < |ms| {
      DetectFromNone(ms, k + 1);
    }
  }

  /** Entry `k` is taken when it accepts the line and passed over otherwise. */
  lemma DetectStep(ms: seq<Option<nat>>, k: nat)
    requires k < |ms|
    ensures DetectFrom(ms, k) ==
      match ms[k]
      case Some(n) => Some(Header(k, n))
      case None => DetectFrom(ms, k + 1)
  {
  }

  /** The header table tried in order, first match wins. */
  function DetectHeader(line: string): Option<Header> {
    DetectFrom(HeaderMatches(line), 0)
  }

  /** A header line cannot be taken for a game whose first label letter differs
      from the line's first letter: matching is anchored at the start. */
  lemma {:induction false} HeaderIsAnchored(s: string, words: seq<string>)
    requires |words| > 0 && |words[0]| > 0
    requires |s| == 0 || Upper(s[0]) != Upper(words[0][0])
    ensures MatchHeader(s, words) == None
  {
    assert !StartsWithIgnoringCase(s, words[0]);
  }

  /** "One Frame #5" is a One Frame header, number 5, and never a Framed one. */
  lemma OneFrameIsNotFramed()
    ensures MatchHeader("One Frame #5", GAME_PATTERNS[0].words) == None
    ensures DetectHeader("One Frame #5") == Some(Header(1, 5))
  {
    var line := "One Frame #5";
    var framed, oneFrame := GAME_PATTERNS[0].words, GAME_PATTERNS[1].words;
    assert framed == ["Framed"] && oneFrame == ["One", "Frame"];
    HeaderIsAnchored(line, framed);
    OneFrameHeaderNumber();
    var ms := HeaderMatches(line);
    assert ms[0] == None && ms[1] == Some(5);
    DetectStep(ms, 0);
    DetectStep(ms, 1);
  }

  /** The One Frame pattern reads 5 off "One Frame #5". */
  lemma OneFrameHeaderNumber()
    ensures MatchHeader("One Frame #5", ["One", "Frame"]) == Some(5)
  {
    HashFive();
    WordThenSpace("Frame #5", "Frame", "#5", ["Frame"]);
    assert ["Frame"][1..] == [];
    WordThenSpace("One Frame #5", "One", "Frame #5", ["One", "Frame"]);
    assert ["One", "Frame"][1..] == ["Frame"];
  }

  /** A label word spelled as in the table and one space are consumed. */
  lemma WordThenSpace(s: string, w: string, later: string, words: seq<string>)
    requires |words| > 0 && words[0] == w
    requires |w| < |s| && s[..|w|] == w && s[|w|] == ' ' && s[|w| + 1..] == later
    requires |later| > 0 && !IsSpace(later[0])
    ensures MatchHeader(s, words) == MatchHeader(later, words[1..])
  {
    assert StartsWithIgnoringCase(s, w);
    assert s[|w|..] == " " + later;
    SpaceRunOfPrefix(" ", later);
    assert (" " + later)[1..] == later;
  }

  lemma HashFive()
    ensures MatchHeader("#5", []) == Some(5)
  {
    assert DigitRun("5") == 1 by {
      assert "5"[1..] == "";
    }
    assert "5"[..1] == "5";
    assert DecimalValue("5") == 5 by {
      assert "5"[..0] == "";
    }
    assert "#5"[1..] == "5";
  }

  // ---------------------------------------------------------------------------
  // Result line

  /** `s.includes(sub)`. */
  predicate Includes(s: string, sub: string)
    decreases |s|
  {
    sub <= s || (|s| > 0 && Includes(s[1..], sub))
  }

  /** For a one-character glyph, `includes` is membership: a segment is tested
      as a whole, so a glyph anywhere inside it counts. */
  lemma {:induction false} IncludesGlyph(s: string, g: char)
    ensures Includes(s, [g]) <==> g in s
  {
    if |s| > 0 {
      IncludesGlyph(s[1..], g);
      assert s == [s[0]] + s[1..];
    }
  }

  /** `SUCCESS_EMOJI.some(e => seg.includes(e))`. */
  predicate IsSuccess(seg: string) {
    exists e | e in SUCCESS_EMOJI :: Includes(seg, e)
  }

  /** The index of the first success segment at or after `i`. */
  function FirstSuccessFrom(segs: seq<string>, i: nat): (r: Option<nat>)
    requires i <= |segs|
    ensures r.Some? ==>
      i <= r.value < |segs| && IsSuccess(segs[r.value])
      && forall j :: i <= j < r.value ==> !IsSuccess(segs[j])
    ensures r.None? ==> forall j :: i <= j < |segs| ==> !IsSuccess(segs[j])
    decreases |segs| - i
  {
    if i == |segs| then None
    else if IsSuccess(segs[i]) then Some(i)
    else FirstSuccessFrom(segs, i + 1)
  }

  /** A segment without a success glyph is passed over. */
  lemma FirstSuccessSkips(segs: seq<string>, i: nat)
    requires i < |segs| && !IsSuccess(segs[i])
    ensures FirstSuccessFrom(segs, i) == FirstSuccessFrom(segs, i + 1)
  {
  }

  function FirstSuccess(segs: seq<string>): Option<nat> {
    FirstSuccessFrom(segs, 0)
  }

  // ---------------------------------------------------------------------------
  // The parser

  /** Line 1 is accepted by table entry `k` and by no earlier entry. */
  predicate IsFirstHeader(line: string, k: nat) {
    && k < |GAME_PATTERNS|
    && MatchHeader(line, GAME_PATTERNS[k].words).Some?
    && forall j :: 0 <= j < k ==> MatchHeader(line, GAME_PATTERNS[j].words).None?
  }

  /** Segment `i` is the first one holding a success glyph. */
  predicate IsFirstSuccess(segs: seq<string>, i: nat) {
    i < |segs| && IsSuccess(segs[i]) && forall j :: 0 <= j < i ==> !IsSuccess(segs[j])
  }

  /** The parse of the non-empty trimmed lines of a text whose trim is `raw`. */
  function ParseLines(lines: seq<string>, raw: string): (r: Option<ShareResult>)
    ensures |lines| < 2 ==> r.None?
    ensures r.Some? ==> r.value.rawText == raw && (r.value.solved <==> r.value.score.Some?)
  {
    if |lines| < 2 then None
    else
      match DetectHeader(lines[0])
      case None => None
      case Some(h) =>
        var first := FirstSuccess(Words(lines[|lines| - 1]));
        var score := if first.Some? then Some(first.value + 1) else None;
        Some(ShareResult(
          GAME_PATTERNS[h.index].key, GAME_PATTERNS[h.index].title, h.number,
          score, first.Some?, raw))
  }

  /** The header decides whether there is a result at all, and which game and
      puzzle it is: the first pattern of the table that accepts line 1. */
  lemma ParseLinesHeader(lines: seq<string>, raw: string)
    ensures var r := ParseLines(lines, raw);
      r.Some? <==>
        |lines| >= 2 && exists k :: 0 <= k < |GAME_PATTERNS| && MatchHeader(lines[0], GAME_PATTERNS[k].words).Some?
    ensures var r := ParseLines(lines, raw);
      r.Some? ==>
        exists k: nat ::
          && IsFirstHeader(lines[0], k)
          && r.value.gameKey == GAME_PATTERNS[k].key
          && r.value.gameLabel == GAME_PATTERNS[k].title
          && MatchHeader(lines[0], GAME_PATTERNS[k].words) == Some(r.value.puzzleNumber)
  {
    if |lines| >= 2 {
      DetectFromFirst(HeaderMatches(lines[0]), 0);
      DetectFromNone(HeaderMatches(lines[0]), 0);
      var h := DetectHeader(lines[0]);
      if h.Some? {
        assert IsFirstHeader(lines[0], h.value.index);
      }
    }
  }

  /** Whether and in how many guesses the puzzle was solved is read off the
      segments of the last line: the first one holding a success glyph. */
  lemma ParseLinesResult(lines: seq<string>, raw: string)
    ensures var r := ParseLines(lines, raw);
      r.Some? ==>
        var segs := Words(lines[|lines| - 1]);
        && (r.value.solved <==> exists i :: 0 <= i < |segs| && IsSuccess(segs[i]))
        && (r.value.solved ==> exists i: nat :: IsFirstSuccess(segs, i) && r.value.score == Some(i + 1))
        && (r.value.solved ==> 1 <= r.value.score.value <= |segs|)
        && (!r.value.solved ==> r.value.score == None)
  {
    if ParseLines(lines, raw).Some? {
      var segs := Words(lines[|lines| - 1]);
      var first := FirstSuccess(segs);
      if first.Some? {
        assert IsFirstSuccess(segs, first.value);
      }
    }
  }

  /** What `parseShareText` returns; `None` for a non-string (`text.None?`)
      and for every failure. */
  function Parse(text: Option<string>): (r: Option<ShareResult>)
    ensures text.None? || text == Some("") ==> r.None?
  {
    if text.None? || text.value == "" then None
    else ParseLines(Lines(text.value), Trim(text.value))
  }

  /** The header loop of `parseShareText`: tries the table in order and stops
      at the first pattern that accepts line 1. */
  method MatchGame(line: string) returns (gameKey: Option<string>, gameLabel: string, puzzleNumber: nat)
    ensures gameKey.None? <==> forall j :: 0 <= j < |GAME_PATTERNS| ==> MatchHeader(line, GAME_PATTERNS[j].words).None?
    ensures gameKey.Some? ==>
      exists k: nat ::
        && IsFirstHeader(line, k)
        && gameKey.value == GAME_PATTERNS[k].key && gameLabel == GAME_PATTERNS[k].title
        && MatchHeader(line, GAME_PATTERNS[k].words) == Some(puzzleNumber)
    ensures gameKey.None? <==> DetectHeader(line).None?
    ensures gameKey.Some? ==>
      var h := DetectHeader(line).value;
      gameKey.value == GAME_PATTERNS[h.index].key && gameLabel == GAME_PATTERNS[h.index].title
      && puzzleNumber == h.number
  {
    gameKey, gameLabel, puzzleNumber := None, "", 0;
    var k := 0;
    while k < |GAME_PATTERNS|
      invariant 0 <= k <= |GAME_PATTERNS|
      invariant gameKey.None?
      invariant DetectHeader(line) == DetectFrom(HeaderMatches(line), k)
    {
      var m := MatchHeader(line, GAME_PATTERNS[k].words);
      DetectStep(HeaderMatches(line), k);
      if m.Some? {
        gameKey := Some(GAME_PATTERNS[k].key);
        gameLabel := GAME_PATTERNS[k].title;
        puzzleNumber := m.value;
        break;
      }
      k := k + 1;
    }
    DetectFromFirst(HeaderMatches(line), 0);
    DetectFromNone(HeaderMatches(line), 0);
    if gameKey.Some? {
      assert IsFirstHeader(line, k);
    }
  }

  /** The success loop of `parseShareText`: stops at the first segment holding
      a success glyph and reports one plus its index. */
  method ScanSegments(segments: seq<string>) returns (score: Option<nat>, solved: bool)
    ensures solved <==> exists i :: 0 <= i < |segments| && IsSuccess(segments[i])
    ensures solved ==> exists i: nat :: IsFirstSuccess(segments, i) && score == Some(i + 1)
    ensures !solved ==> score.None?
    ensures score == (if FirstSuccess(segments).Some? then Some(FirstSuccess(segments).value + 1) else None)
  {
    score, solved := None, false;
    var i := 0;
    while i < |segments|
      invariant 0 <= i <= |segments|
      invariant !solved && score.None?
      invariant FirstSuccess(segments) == FirstSuccessFrom(segments, i)
    {
      if IsSuccess(segments[i]) {
        score := Some(i + 1);
        solved := true;
        break;
      }
      FirstSuccessSkips(segments, i);
      i := i + 1;
    }
    if !solved {
      score := None;
    } else {
      assert IsFirstSuccess(segments, i);
    }
  }

  /** `parseShareText(text)`: trims and splits the text, tries the header table
      in order and stops at the first match, then scans the segments of the last
      line and stops at the first success glyph. */
  method ParseShareText(text: Option<string>) returns (result: Option<ShareResult>)
    ensures result == Parse(text)
  {
    if text.None? || text.value == "" {
      return None;
    }
    var t := text.value;
    var lines := Lines(t);
    if |lines| < 2 {
      return None;
    }
    var gameKey, gameLabel, puzzleNumber := MatchGame(lines[0]);
    if gameKey.None? {
      return None;
    }
    var emojiLine := lines[|lines| - 1];
    var segments := Words(emojiLine);
    var score, solved := ScanSegments(segments);
    return Some(ShareResult(gameKey.value, gameLabel, puzzleNumber, score, solved, Trim(t)));
  }
}
