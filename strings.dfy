/**
  The JavaScript string primitives the score pipeline relies on, on Dafny
  strings (sequences of Unicode scalar values): `trim`, `split`, `join`,
  `\s`, `\d`, `parseInt(_, 10)`, `String(n)` and `length`.
*/
module Strings {
  import opened Wrappers
  import opened Seqs

  /** A character of the `\s` class and of what `trim` removes: ECMAScript's
      WhiteSpace and LineTerminator code points. */
  predicate IsSpace(c: char) {
    c == '\t' || c == '\n' || c == '\U{B}' || c == '\U{C}' || c == '\r' || c == ' '
    || c == '\U{A0}' || c == '\U{1680}' || ('\U{2000}' <= c <= '\U{200A}')
    || c == '\U{2028}' || c == '\U{2029}' || c == '\U{202F}' || c == '\U{205F}'
    || c == '\U{3000}' || c == '\U{FEFF}'
  }

  predicate IsNewline(c: char) {
    c == '\n'
  }

  /** A character of the `\d` class. */
  predicate IsDigit(c: char) {
    '0' <= c <= '9'
  }

  predicate AllDigits(s: string) {
    forall i :: 0 <= i < |s| ==> IsDigit(s[i])
  }

  predicate NoSpace(s: string) {
    forall i :: 0 <= i < |s| ==> !IsSpace(s[i])
  }

  predicate NonEmpty(s: string) {
    |s| > 0
  }

  /** `s.trimStart()`: the suffix left after every leading white space character. */
  function TrimStart(s: string): (r: string)
    ensures |r| <= |s| && r == s[|s| - |r|..]
    ensures forall i :: 0 <= i < |s| - |r| ==> IsSpace(s[i])
    ensures r == [] || !IsSpace(r[0])
  {
    if |s| > 0 && IsSpace(s[0]) then TrimStart(s[1..]) else s
  }

  /** `s.trimEnd()`: the prefix left after every trailing white space character. */
  function TrimEnd(s: string): (r: string)
    ensures |r| <= |s| && r == s[..|r|]
    ensures forall i :: |r| <= i < |s| ==> IsSpace(s[i])
    ensures r == [] || !IsSpace(r[|r| - 1])
  {
    if |s| > 0 && IsSpace(s[|s| - 1]) then TrimEnd(s[..|s| - 1]) else s
  }

  /** `s.trim()`. */
  function Trim(s: string): (r: string)
    ensures |r| <= |s|
    ensures r == [] || (!IsSpace(r[0]) && !IsSpace(r[|r| - 1]))
  {
    TrimEnd(TrimStart(s))
  }

  /** A string without white space at either end is its own trim. */
  lemma TrimUntouched(s: string)
    requires s == [] || (!IsSpace(s[0]) && !IsSpace(s[|s| - 1]))
    ensures Trim(s) == s
  {
  }

  /** Trimming twice is trimming once. */
  lemma TrimIdempotent(s: string)
    ensures Trim(Trim(s)) == Trim(s)
  {
    TrimUntouched(Trim(s));
  }

  /** `s.split(sep)` generalised to a class of separator characters: the pieces
      between separators, empty pieces included. */
  function SplitWhere(s: string, isSep: char -> bool): (r: seq<string>)
    ensures |r| >= 1
    ensures forall i, j :: 0 <= i < |r| && 0 <= j < |r[i]| ==> !isSep(r[i][j])
    decreases |s|
  {
    if |s| == 0 then [""]
    else
      var rest := SplitWhere(s[1..], isSep);
      if isSep(s[0]) then [""] + rest else [[s[0]] + rest[0]] + rest[1..]
  }

  /** `parts.join(sep)` for a one-character separator. */
  function Join(parts: seq<string>, sep: char): (s: string)
    ensures |parts| == 1 ==> s == parts[0]
  {
    if |parts| == 0 then ""
    else if |parts| == 1 then parts[0]
    else parts[0] + [sep] + Join(parts[1..], sep)
  }

  /** Splitting a piece without separators in front of some text glues the piece
      onto the first piece of that text. */
  lemma {:induction false} SplitGluesPrefix(w: string, tail: string, isSep: char -> bool)
    requires forall j :: 0 <= j < |w| ==> !isSep(w[j])
    ensures SplitWhere(w + tail, isSep)
         == [w + SplitWhere(tail, isSep)[0]] + SplitWhere(tail, isSep)[1..]
    decreases |w|
  {
    if |w| > 0 {
      assert (w + tail)[1..] == w[1..] + tail;
      SplitGluesPrefix(w[1..], tail, isSep);
      assert [w[0]] + (w[1..] + SplitWhere(tail, isSep)[0]) == w + SplitWhere(tail, isSep)[0];
    } else {
      var r := SplitWhere(tail, isSep);
      assert w + tail == tail;
      assert w + r[0] == r[0];
      assert [r[0]] + r[1..] == r;
    }
  }

  /** Splitting on the separator that joined the pieces gives the pieces back,
      provided no piece holds a separator. */
  lemma {:induction false} SplitJoin(parts: seq<string>, sep: char, isSep: char -> bool)
    requires |parts| >= 1 && isSep(sep)
    requires forall i, j :: 0 <= i < |parts| && 0 <= j < |parts[i]| ==> !isSep(parts[i][j])
    ensures SplitWhere(Join(parts, sep), isSep) == parts
  {
    if |parts| == 1 {
      SplitGluesPrefix(parts[0], "", isSep);
      assert parts[0] + "" == parts[0];
    } else {
      var tail := [sep] + Join(parts[1..], sep);
      assert Join(parts, sep) == parts[0] + tail;
      SplitGluesPrefix(parts[0], tail, isSep);
      SplitJoin(parts[1..], sep, isSep);
      assert tail[1..] == Join(parts[1..], sep);
      assert SplitWhere(tail, isSep) == [""] + parts[1..];
      assert parts[0] + "" == parts[0];
      assert parts == [parts[0]] + parts[1..];
    }
  }

  /** `s.split(/\s+/).filter(Boolean)`: the maximal runs of non-white-space
      characters. Splitting at every white space character and dropping the
      empty pieces gives the same runs as splitting at runs of white space. */
  function Words(s: string): seq<string> {
    Filter(SplitWhere(s, IsSpace), NonEmpty)
  }

  /** Every segment is non-empty and holds no white space. */
  lemma WordsAreSegments(s: string)
    ensures var r := Words(s); forall i :: 0 <= i < |r| ==> NonEmpty(r[i]) && NoSpace(r[i])
  {
  }

  /** Words separated by single spaces are read back as those words. */
  lemma WordsOfJoin(ws: seq<string>)
    requires forall i :: 0 <= i < |ws| ==> NonEmpty(ws[i]) && NoSpace(ws[i])
    ensures Words(Join(ws, ' ')) == ws
  {
    if |ws| == 0 {
      assert SplitWhere("", IsSpace) == [""];
    } else {
      SplitJoin(ws, ' ', IsSpace);
      FilterKeepsAll(ws, NonEmpty);
    }
  }

  /** `s.trim().split('\n').map(l => l.trim()).filter(Boolean)`: the non-empty
      trimmed lines of `s`. */
  function Lines(s: string): seq<string> {
    var raw := SplitWhere(Trim(s), IsNewline);
    Filter(seq(|raw|, i requires 0 <= i < |raw| => Trim(raw[i])), NonEmpty)
  }

  /** Every line is non-empty and has no white space at either end. */
  lemma LinesAreTrimmed(s: string)
    ensures var r := Lines(s);
      forall i :: 0 <= i < |r| ==> NonEmpty(r[i]) && !IsSpace(r[i][0]) && !IsSpace(r[i][|r[i]| - 1])
  {
    var raw := SplitWhere(Trim(s), IsNewline);
    var trimmed := seq(|raw|, i requires 0 <= i < |raw| => Trim(raw[i]));
    assert forall k :: 0 <= k < |trimmed| ==> trimmed[k] == Trim(raw[k]);
    KeptAreTrimmed(trimmed);
  }

  /** Dropping the empty strings from strings without white space at either end
      leaves non-empty strings without white space at either end. */
  lemma KeptAreTrimmed(ts: seq<string>)
    requires forall k :: 0 <= k < |ts| ==> ts[k] == [] || (!IsSpace(ts[k][0]) && !IsSpace(ts[k][|ts[k]| - 1]))
    ensures var r := Filter(ts, NonEmpty);
      forall i :: 0 <= i < |r| ==> NonEmpty(r[i]) && !IsSpace(r[i][0]) && !IsSpace(r[i][|r[i]| - 1])
  {
  }

  /** Length of the leading run of `\d` characters. */
  function DigitRun(s: string): (n: nat)
    ensures n <= |s|
    ensures AllDigits(s[..n])
    ensures n == |s| || !IsDigit(s[n])
  {
    if |s| > 0 && IsDigit(s[0]) then
      assert s[..1 + DigitRun(s[1..])] == [s[0]] + s[1..][..DigitRun(s[1..])];
      1 + DigitRun(s[1..])
    else 0
  }

  function DigitValue(c: char): nat
    requires IsDigit(c)
  {
    c as int - '0' as int
  }

  function DigitChar(d: nat): (c: char)
    requires d < 10
    ensures IsDigit(c) && DigitValue(c) == d
  {
    ('0' as int + d) as char
  }

  /** The number a string of decimal digits denotes. */
  function DecimalValue(ds: string): nat
    requires AllDigits(ds)
  {
    if |ds| == 0 then 0 else 10 * DecimalValue(ds[..|ds| - 1]) + DigitValue(ds[|ds| - 1])
  }

  /** `String(n)` for a natural number: its decimal digits, without leading zeros. */
  function NatToString(n: nat): (s: string)
    ensures |s| >= 1 && AllDigits(s)
    ensures |s| > 1 ==> s[0] != '0'
  {
    if n < 10 then [DigitChar(n)] else NatToString(n / 10) + [DigitChar(n % 10)]
  }

  /** Reading back the digits `String(n)` writes gives `n`. */
  lemma {:induction false} DecimalOfNatToString(n: nat)
    ensures DecimalValue(NatToString(n)) == n
  {
    var s := NatToString(n);
    if n >= 10 {
      assert s[..|s| - 1] == NatToString(n / 10);
      DecimalOfNatToString(n / 10);
    }
  }

  /** `String(i)` for an integer. */
  function IntToString(i: int): (s: string)
    ensures |s| >= 1 && (s[0] == '-' <==> i < 0)
  {
    if i < 0 then "-" + NatToString(-i) else NatToString(i)
  }

  /** `parseInt(s, 10)`; `None` stands for NaN. Leading white space is skipped,
      one sign is read, then the longest run of digits; whatever follows is ignored. */
  function ParseInt(s: string): (r: Option<int>)
    ensures r.None? <==> DigitRun(Unsigned(TrimStart(s))) == 0
  {
    var t := TrimStart(s);
    var u := Unsigned(t);
    var n := DigitRun(u);
    if n == 0 then None
    else
      var magnitude: int := DecimalValue(u[..n]);
      Some(if |t| > 0 && t[0] == '-' then -magnitude else magnitude)
  }

  /** The text after an optional leading sign. */
  function Unsigned(t: string): (u: string)
    ensures u == t || (|t| > 0 && (t[0] == '-' || t[0] == '+') && u == t[1..])
  {
    if |t| > 0 && (t[0] == '-' || t[0] == '+') then t[1..] else t
  }

  /** `parseInt(String(i), 10) === i` for every integer. */
  lemma ParseIntOfIntToString(i: int)
    ensures ParseInt(IntToString(i)) == Some(i)
  {
    var s := IntToString(i);
    var digits := if i < 0 then -i else i;
    var t := NatToString(digits);
    assert !IsSpace(s[0]);
    assert TrimStart(s) == s;
    assert Unsigned(s) == t;
    DigitRunAll(t);
    assert t[..|t|] == t;
    DecimalOfNatToString(digits);
  }

  /** The digit run of a string of digits is all of it. */
  lemma {:induction false} DigitRunAll(s: string)
    requires AllDigits(s)
    ensures DigitRun(s) == |s|
  {
    if |s| > 0 {
      DigitRunAll(s[1..]);
    }
  }

  /** `s.length`: the number of UTF-16 code units, two for a character outside
      the Basic Multilingual Plane. */
  function Utf16Length(s: string): nat {
    if |s| == 0 then 0 else (if s[0] as int > 0xFFFF then 2 else 1) + Utf16Length(s[1..])
  }

  /** The UTF-16 length lies between the number of code points and twice that. */
  lemma {:induction false} Utf16LengthBounds(s: string)
    ensures |s| <= Utf16Length(s) <= 2 * |s|
  {
    if |s| > 0 {
      Utf16LengthBounds(s[1..]);
    }
  }
}
