/**
 * The Python string operations the device-survey code relies on, stated
 * over `seq<char>`: `str.isspace`, `strip`, `split()` on whitespace,
 * `split(sep)`, `splitlines`, `in` on substrings, `startswith`,
 * `endswith`, `int()` and `float()` on the decimal forms they accept.
 */
module PyText {
  import opened Wrappers

  /** `c.isspace()`: the characters Python counts as whitespace. */
  predicate IsSpace(c: char) {
    c == ' ' || '\t' <= c <= '\r' || '\U{1c}' <= c <= '\U{1f}' || c == '\U{85}' || c == '\U{a0}'
    || c == '\U{1680}' || '\U{2000}' <= c <= '\U{200a}' || c == '\U{2028}' || c == '\U{2029}'
    || c == '\U{202f}' || c == '\U{205f}' || c == '\U{3000}'
  }

  /** The characters at which `str.splitlines()` ends a line ("\r\n" counts once). */
  predicate IsLineBreak(c: char) {
    '\n' <= c <= '\r' || '\U{1c}' <= c <= '\U{1e}' || c == '\U{85}' || c == '\U{2028}' || c == '\U{2029}'
  }

  /** A word as `str.split()` produces it: non-empty and free of whitespace. */
  predicate IsToken(w: string) {
    w != [] && forall j :: 0 <= j < |w| ==> !IsSpace(w[j])
  }

  predicate NoLineBreak(s: string) {
    forall j :: 0 <= j < |s| ==> !IsLineBreak(s[j])
  }

  // ---------------------------------------------------------------- strip

  /** `s.lstrip()`: the suffix left after dropping the leading whitespace. */
  function LStrip(s: string): (r: string)
    ensures |r| <= |s| && r == s[|s| - |r|..]
    ensures r == [] || !IsSpace(r[0])
  {
    if s != [] && IsSpace(s[0]) then LStrip(s[1..]) else s
  }

  /** What `lstrip` drops is whitespace. */
  lemma {:induction false} LStripDropsSpace(s: string)
    ensures forall j :: 0 <= j < |s| - |LStrip(s)| ==> IsSpace(s[j])
    decreases |s|
  {
    if s != [] && IsSpace(s[0]) {
      LStripDropsSpace(s[1..]);
    }
  }

  /** `s.rstrip()`: the prefix left after dropping the trailing whitespace. */
  function RStrip(s: string): (r: string)
    ensures |r| <= |s| && r == s[..|r|]
    ensures r == [] || !IsSpace(r[|r| - 1])
    ensures forall j :: |r| <= j < |s| ==> IsSpace(s[j])
  {
    if s != [] && IsSpace(s[|s| - 1]) then RStrip(s[..|s| - 1]) else s
  }

  /** `s.strip()`. */
  function Strip(s: string): (r: string)
    ensures |r| <= |s|
    ensures r == [] || (!IsSpace(r[0]) && !IsSpace(r[|r| - 1]))
  {
    var t := LStrip(s);
    assert t != [] ==> t[0] == s[|s| - |t|];
    RStrip(t)
  }

  /** A text that starts and ends in non-space is its own strip. */
  lemma StripUnchanged(s: string)
    requires s == [] || (!IsSpace(s[0]) && !IsSpace(s[|s| - 1]))
    ensures Strip(s) == s
  {
    assert LStrip(s) == s;
  }

  /** A text of whitespace only strips to nothing. */
  lemma StripAllSpace(s: string)
    requires forall j :: 0 <= j < |s| ==> IsSpace(s[j])
    ensures Strip(s) == []
  {
    assert LStrip(s) == [];
  }

  /** Strip removes trailing whitespace from a text that starts and ends in non-space. */
  lemma {:induction false} StripTrailing(a: string, w: string)
    requires a != [] && !IsSpace(a[0]) && !IsSpace(a[|a| - 1])
    requires forall j :: 0 <= j < |w| ==> IsSpace(w[j])
    ensures Strip(a + w) == a
  {
    var s := a + w;
    assert LStrip(s) == s;
    var r := RStrip(s);
    assert s[|a| - 1] == a[|a| - 1];
    assert |r| == |a|;
    assert r == s[..|a|] == a;
  }

  // ------------------------------------------------------ split on whitespace

  /** Length of the longest whitespace-free prefix of `t`. */
  function TokenLen(t: string): (n: nat)
    ensures n <= |t|
    ensures n == |t| || IsSpace(t[n])
  {
    if t == [] || IsSpace(t[0]) then 0 else 1 + TokenLen(t[1..])
  }

  /** The prefix `TokenLen` measures holds no whitespace. */
  lemma {:induction false} TokenLenNoSpace(t: string)
    ensures forall j :: 0 <= j < TokenLen(t) ==> !IsSpace(t[j])
    decreases |t|
  {
    if t != [] && !IsSpace(t[0]) {
      TokenLenNoSpace(t[1..]);
    }
  }

  /** `s.split()`: the maximal runs of non-whitespace, in order. */
  function SplitWs(s: string): (r: seq<string>)
    decreases |s|
  {
    var t := LStrip(s);
    if t == [] then []
    else
      var n := TokenLen(t);
      [t[..n]] + SplitWs(t[n..])
  }

  /** Every word of `s.split()` is non-empty and free of whitespace. */
  lemma {:induction false} SplitWsTokens(s: string)
    ensures forall w :: w in SplitWs(s) ==> IsToken(w)
    decreases |s|
  {
    var t := LStrip(s);
    if t != [] {
      var n := TokenLen(t);
      TokenLenNoSpace(t);
      assert n > 0 && IsToken(t[..n]);
      SplitWsTokens(t[n..]);
    }
  }

  /** `sep.join(ws)`. */
  function Join(ws: seq<string>, sep: string): string {
    if ws == [] then "" else if |ws| == 1 then ws[0] else ws[0] + sep + Join(ws[1..], sep)
  }

  lemma {:induction false} TokenLenOfWord(a: string, b: string)
    requires forall j :: 0 <= j < |a| ==> !IsSpace(a[j])
    requires b == [] || IsSpace(b[0])
    ensures TokenLen(a + b) == |a|
  {
    if a != [] {
      assert (a + b)[1..] == a[1..] + b;
      TokenLenOfWord(a[1..], b);
    } else {
      assert a + b == b;
    }
  }

  /** A word alone splits into itself. */
  lemma SplitWsWord(w: string)
    requires IsToken(w)
    ensures SplitWs(w) == [w]
  {
    assert LStrip(w) == w;
    TokenLenOfWord(w, []);
    assert w + [] == w;
    assert w[|w|..] == [];
  }

  /** Leading whitespace is skipped. */
  lemma SplitWsSkipSpace(rest: string)
    ensures SplitWs(" " + rest) == SplitWs(rest)
  {
    var s := " " + rest;
    assert s[1..] == rest;
    assert LStrip(s) == LStrip(rest);
  }

  /** A word followed by a space is the first piece, whatever follows. */
  lemma SplitWsCons(w: string, rest: string)
    requires IsToken(w)
    ensures SplitWs(w + " " + rest) == [w] + SplitWs(rest)
  {
    var s := w + (" " + rest);
    assert w + " " + rest == s;
    assert LStrip(s) == s;
    TokenLenOfWord(w, " " + rest);
    assert s[..|w|] == w;
    assert s[|w|..] == " " + rest;
    SplitWsSkipSpace(rest);
  }

  lemma SplitWsJoinCons(ws: seq<string>)
    requires |ws| > 1 && IsToken(ws[0]) && SplitWs(Join(ws[1..], " ")) == ws[1..]
    ensures SplitWs(Join(ws, " ")) == ws
  {
    JoinCons(ws, " ");
    SeqCons(ws);
    SplitWsConsOf(ws[0], Join(ws[1..], " "), ws[1..], ws);
  }

  lemma SeqCons<T>(s: seq<T>)
    requires s != []
    ensures s == [s[0]] + s[1..]
  {
  }

  lemma JoinCons(ws: seq<string>, sep: string)
    requires |ws| > 1
    ensures Join(ws, sep) == ws[0] + sep + Join(ws[1..], sep)
  {
  }

  lemma SplitWsConsOf(w: string, rest: string, tail: seq<string>, ws: seq<string>)
    requires IsToken(w) && SplitWs(rest) == tail && ws == [w] + tail
    ensures SplitWs(w + " " + rest) == ws
  {
    SplitWsCons(w, rest);
  }

  /** Splitting a single-space join of words gives the words back. */
  lemma {:induction false} SplitWsJoin(ws: seq<string>)
    requires forall i :: 0 <= i < |ws| ==> IsToken(ws[i])
    ensures SplitWs(Join(ws, " ")) == ws
    decreases |ws|
  {
    if |ws| == 1 {
      SplitWsWord(ws[0]);
    } else if |ws| > 1 {
      SplitWsJoin(ws[1..]);
      SplitWsJoinCons(ws);
    }
  }

  // --------------------------------------------------- split on one character

  /** Index of the first `c` in `s`, or `|s|` when there is none. */
  function IndexOf(s: string, c: char): (n: nat)
    ensures n <= |s|
    ensures forall j :: 0 <= j < n ==> s[j] != c
    ensures n < |s| ==> s[n] == c
  {
    if s == [] || s[0] == c then 0 else 1 + IndexOf(s[1..], c)
  }

  /** `s.split(sep)` for a one-character separator. */
  function Split(s: string, sep: char): (r: seq<string>)
    ensures |r| >= 1
    ensures forall i :: 0 <= i < |r| ==> sep !in r[i]
    decreases |s|
  {
    var n := IndexOf(s, sep);
    if n == |s| then [s] else [s[..n]] + Split(s[n + 1..], sep)
  }

  /** Two pieces free of the separator, joined by it, split back into those two. */
  lemma SplitTwo(a: string, b: string, sep: char)
    requires sep !in a && sep !in b
    ensures Split(a + [sep] + b, sep) == [a, b]
  {
    var s := a + [sep] + b;
    assert s[|a|] == sep;
    assert forall j :: 0 <= j < |a| ==> s[j] == a[j];
    assert IndexOf(s, sep) == |a|;
    assert s[..|a|] == a && s[|a| + 1..] == b;
  }

  /** Joining the pieces of a split with the separator gives the text back. */
  lemma {:induction false} JoinSplit(s: string, sep: char)
    ensures Join(Split(s, sep), [sep]) == s
    decreases |s|
  {
    var n := IndexOf(s, sep);
    if n < |s| {
      var a, rest := s[..n], s[n + 1..];
      var t := Split(rest, sep);
      assert Split(s, sep) == [a] + t;
      JoinSplit(rest, sep);
      JoinPrepend(a, t, [sep]);
      assert s == a + [sep] + rest;
    }
  }

  lemma JoinPrepend(a: string, t: seq<string>, sep: string)
    requires |t| >= 1
    ensures Join([a] + t, sep) == a + sep + Join(t, sep)
  {
    var ws := [a] + t;
    assert ws[0] == a && ws[1..] == t;
    JoinCons(ws, sep);
  }

  /** A split has more than one piece exactly when the separator occurs. */
  lemma SplitPieces(s: string, sep: char)
    ensures |Split(s, sep)| > 1 <==> sep in s
  {
    var n := IndexOf(s, sep);
    if sep in s {
      var k :| 0 <= k < |s| && s[k] == sep;
      assert n <= k;
    }
  }

  // ------------------------------------------------------------ splitlines

  /** Index of the first line break in `s`, or `|s|` when there is none. */
  function BreakIndex(s: string): (n: nat)
    ensures n <= |s|
    ensures forall j :: 0 <= j < n ==> !IsLineBreak(s[j])
    ensures n < |s| ==> IsLineBreak(s[n])
  {
    if s == [] || IsLineBreak(s[0]) then 0 else 1 + BreakIndex(s[1..])
  }

  /** `s.splitlines()`: no trailing empty line, "\r\n" is one boundary. */
  function SplitLines(s: string): (r: seq<string>)
    ensures forall i :: 0 <= i < |r| ==> NoLineBreak(r[i])
    decreases |s|
  {
    if s == [] then []
    else
      var n := BreakIndex(s);
      if n == |s| then [s]
      else
        var width := if s[n] == '\r' && n + 1 < |s| && s[n + 1] == '\n' then 2 else 1;
        [s[..n]] + SplitLines(s[n + width..])
  }

  /** Each line followed by "\n", concatenated: the text a shell command prints. */
  function Terminated(ls: seq<string>): string {
    if ls == [] then "" else ls[0] + "\n" + Terminated(ls[1..])
  }

  lemma {:induction false} BreakIndexOfLine(a: string, b: string)
    requires NoLineBreak(a)
    requires b != [] && IsLineBreak(b[0])
    ensures BreakIndex(a + b) == |a|
  {
    if a != [] {
      assert (a + b)[1..] == a[1..] + b;
      BreakIndexOfLine(a[1..], b);
    } else {
      assert a + b == b;
    }
  }

  /** `splitlines` gives back the lines of a newline-terminated text. */
  lemma {:induction false} SplitLinesTerminated(ls: seq<string>)
    requires forall i :: 0 <= i < |ls| ==> NoLineBreak(ls[i])
    ensures SplitLines(Terminated(ls)) == ls
    decreases |ls|
  {
    if ls != [] {
      var l, rest := ls[0], Terminated(ls[1..]);
      var s := l + ("\n" + rest);
      assert Terminated(ls) == s;
      BreakIndexOfLine(l, "\n" + rest);
      assert s[|l|] == '\n';
      assert s[..|l|] == l;
      assert s[|l| + 1..] == rest;
      SplitLinesTerminated(ls[1..]);
    }
  }

  // ---------------------------------------------------- substring search

  predicate StartsWith(s: string, p: string) {
    |p| <= |s| && s[..|p|] == p
  }

  predicate EndsWith(s: string, p: string) {
    |p| <= |s| && s[|s| - |p|..] == p
  }

  predicate OccursAt(s: string, pat: string, k: nat) {
    k + |pat| <= |s| && s[k..k + |pat|] == pat
  }

  /** `s.find(pat)`: the first position at which `pat` occurs, if any. */
  function FindSub(s: string, pat: string): (r: Option<nat>)
    ensures r.Some? ==> OccursAt(s, pat, r.value)
    ensures r.Some? ==> forall k :: 0 <= k < r.value ==> !OccursAt(s, pat, k)
    ensures r.None? ==> forall k :: 0 <= k <= |s| ==> !OccursAt(s, pat, k)
    decreases |s|
  {
    if StartsWith(s, pat) then Some(0)
    else if s == [] then None
    else
      var rest := FindSub(s[1..], pat);
      assert !OccursAt(s, pat, 0);
      assert forall k: nat | 1 <= k :: OccursAt(s, pat, k) <==> OccursAt(s[1..], pat, k - 1) by {
        forall k: nat | 1 <= k ensures OccursAt(s, pat, k) <==> OccursAt(s[1..], pat, k - 1) {
          if k + |pat| <= |s| {
            assert s[1..][k - 1..k - 1 + |pat|] == s[k..k + |pat|];
          }
        }
      }
      match rest
      case None => None
      case Some(k) => Some(k + 1)
  }

  /** An occurrence with none before it is the one `find` reports. */
  lemma FirstOccurrence(s: string, pat: string, p: nat)
    requires OccursAt(s, pat, p) && forall q: nat :: q < p ==> !OccursAt(s, pat, q)
    ensures FindSub(s, pat) == Some(p)
  {
    var r := FindSub(s, pat);
    assert p <= |s|;
    if r.Some? {
      assert !(r.value < p);
      assert !(p < r.value);
    }
  }

  /** `pat in s`. */
  predicate Contains(s: string, pat: string) {
    FindSub(s, pat).Some?
  }

  /** A text that begins with `h` contains `h`. */
  lemma PrefixContained(h: string, rest: string)
    ensures Contains(h + rest, h)
  {
    assert (h + rest)[..|h|] == h;
  }

  // ----------------------------------------------------------- int and float

  predicate IsDigit(c: char) { '0' <= c <= '9' }

  predicate AllDigits(s: string) { forall j :: 0 <= j < |s| ==> IsDigit(s[j]) }

  lemma DigitNotSpace(c: char)
    requires IsDigit(c)
    ensures !IsSpace(c)
  {
  }

  /** The value of a (possibly empty) run of decimal digits. */
  function DigitsValue(s: string): nat
    requires AllDigits(s)
  {
    if s == [] then 0 else 10 * DigitsValue(s[..|s| - 1]) + (s[|s| - 1] as int - '0' as int)
  }

  /** `str(n)` for a natural number. */
  function NatToString(n: nat): (r: string)
    ensures r != [] && AllDigits(r)
  {
    if n < 10 then [('0' as int + n) as char] else NatToString(n / 10) + [('0' as int + n % 10) as char]
  }

  /** `str(n)`. */
  function IntToString(n: int): string {
    if n < 0 then "-" + NatToString(-n) else NatToString(n)
  }

  lemma {:induction false} DigitsValueOfNatToString(n: nat)
    ensures DigitsValue(NatToString(n)) == n
  {
    if n >= 10 {
      var s := NatToString(n);
      assert s[..|s| - 1] == NatToString(n / 10);
      DigitsValueOfNatToString(n / 10);
    }
  }

  /** The sign a number literal starts with, if any, is split off. */
  function Unsigned(t: string): string {
    if t != [] && (t[0] == '+' || t[0] == '-') then t[1..] else t
  }

  predicate IsNegative(t: string) { t != [] && t[0] == '-' }

  /** `int(s)` for the literals it accepts: surrounding whitespace, an optional sign, ASCII digits. */
  function ParseInt(s: string): (r: Option<int>)
    ensures r.Some? <==> var u := Unsigned(Strip(s)); u != [] && AllDigits(u)
  {
    var t := Strip(s);
    var u := Unsigned(t);
    if u != [] && AllDigits(u) then
      var v: int := DigitsValue(u);
      Some(if IsNegative(t) then -v else v)
    else None
  }

  /** `int(str(n)) == n`. */
  lemma IntRoundTrip(n: int)
    ensures ParseInt(IntToString(n)) == Some(n)
  {
    var m: nat := if n < 0 then -n else n;
    var d := NatToString(m);
    DigitsValueOfNatToString(m);
    if n < 0 {
      SignedDigits(d);
    } else {
      StripDigits(d);
      assert Unsigned(d) == d;
    }
  }

  /** A minus sign followed by digits is already stripped, and its unsigned part is the digits. */
  lemma SignedDigits(d: string)
    requires d != [] && AllDigits(d)
    ensures Strip("-" + d) == "-" + d && Unsigned("-" + d) == d && IsNegative("-" + d)
  {
    var s := "-" + d;
    assert s[0] == '-' && s[1..] == d;
    assert s[|s| - 1] == d[|d| - 1];
    DigitNotSpace(d[|d| - 1]);
    StripUnchanged(s);
  }

  /** The value of the digits after a decimal point: tenths, hundredths, and so on. */
  function FracValue(frac: string): (r: real)
    requires AllDigits(frac)
    ensures 0.0 <= r < 1.0
  {
    if frac == [] then 0.0 else ((frac[0] as int - '0' as int) as real + FracValue(frac[1..])) / 10.0
  }

  /** The value of a decimal literal with a point: the whole part plus the fraction. */
  function PointValue(whole: string, frac: string): (r: real)
    requires AllDigits(whole) && AllDigits(frac)
    ensures DigitsValue(whole) as real <= r < DigitsValue(whole) as real + 1.0
  {
    DigitsValue(whole) as real + FracValue(frac)
  }

  /**
   * The value of an unsigned decimal literal: digits, optionally a point
   * and more digits, with at least one digit in all.
   */
  function DecimalValue(b: string): Option<real> {
    var p := IndexOf(b, '.');
    var whole := b[..p];
    if p == |b| then
      if b != [] && AllDigits(b) then Some(DigitsValue(b) as real) else None
    else
      var frac := b[p + 1..];
      if AllDigits(whole) && AllDigits(frac) && (whole != [] || frac != []) then
        Some(PointValue(whole, frac))
      else None
  }

  /** `float(s)` for plain decimal literals: surrounding whitespace, optional sign, digits with an optional point. */
  function ParseFloat(s: string): (r: Option<real>)
    ensures Strip(s) == [] ==> r == None
  {
    var t := Strip(s);
    match DecimalValue(Unsigned(t))
    case None => None
    case Some(v) => Some(if IsNegative(t) then -v else v)
  }

  /** Every integer literal `int()` accepts is accepted by `float()`, with the same value. */
  lemma FloatOfIntLiteral(s: string)
    requires ParseInt(s).Some?
    ensures ParseFloat(s) == Some(ParseInt(s).value as real)
  {
    var u := Unsigned(Strip(s));
    NoPointInDigits(u);
  }

  /** `float()` reads digits, a point at `p` and more digits as the whole part plus the fraction. */
  lemma DecimalLiteral(n: string, p: nat)
    requires 0 < p < |n| - 1 && n[p] == '.' && AllDigits(n[..p]) && AllDigits(n[p + 1..])
    ensures ParseFloat(n) == Some(PointValue(n[..p], n[p + 1..]))
  {
    DecimalStripped(n, p);
    PointIndex(n, p);
  }

  lemma DecimalStripped(n: string, p: nat)
    requires 0 < p < |n| - 1 && AllDigits(n[..p]) && AllDigits(n[p + 1..])
    ensures Strip(n) == n && Unsigned(n) == n && !IsNegative(n)
  {
    assert n[0] == n[..p][0];
    assert n[|n| - 1] == n[p + 1..][|n| - p - 2];
    DigitNotSpace(n[0]);
    DigitNotSpace(n[|n| - 1]);
  }

  lemma PointIndex(n: string, p: nat)
    requires p < |n| && n[p] == '.' && AllDigits(n[..p])
    ensures IndexOf(n, '.') == p
  {
    forall j | 0 <= j < p ensures n[j] != '.' {
      assert n[j] == n[..p][j];
    }
  }

  /** A run of digits has no surrounding whitespace to strip. */
  lemma StripDigits(digits: string)
    requires digits != [] && AllDigits(digits)
    ensures Strip(digits) == digits
  {
    DigitNotSpace(digits[0]);
    DigitNotSpace(digits[|digits| - 1]);
  }

  /** A run of digits has no decimal point. */
  lemma NoPointInDigits(digits: string)
    requires AllDigits(digits)
    ensures IndexOf(digits, '.') == |digits|
  {
  }

  /** `float()` reads a run of digits as that whole number. */
  lemma DigitsLiteral(digits: string)
    requires digits != [] && AllDigits(digits)
    ensures ParseFloat(digits) == Some(DigitsValue(digits) as real)
  {
    StripDigits(digits);
    NoPointInDigits(digits);
    assert Unsigned(digits) == digits;
  }

  // ---------------------------------------------------------------- letters

  /** `c.isalpha()`, restricted to ASCII letters. */
  predicate IsAlpha(c: char) { 'A' <= c <= 'Z' || 'a' <= c <= 'z' }

  /**
   * `c.upper()` on an ASCII character: a letter becomes its capital, a
   * capital or any other character stays, and each capital comes from
   * exactly itself and its lower-case letter.
   */
  function Upper(c: char): (r: char)
    ensures IsAlpha(c) <==> 'A' <= r <= 'Z'
    ensures !IsAlpha(c) ==> r == c
    ensures 'A' <= r <= 'Z' ==> (c == r || c as int == r as int + 32)
  {
    if 'a' <= c <= 'z' then (c as int - 32) as char else c
  }

  /** Upper-casing twice is upper-casing once. */
  lemma UpperIdempotent(c: char)
    ensures Upper(Upper(c)) == Upper(c)
  {
  }

  /** `s.replace(a, b)` for single characters. */
  function ReplaceChar(s: string, a: char, b: char): (r: string)
    ensures |r| == |s|
    ensures a !in s ==> r == s
  {
    if s == [] then [] else [if s[0] == a then b else s[0]] + ReplaceChar(s[1..], a, b)
  }

  /** Each character of `s.replace(a, b)` is the original one, or `b` where that was `a`. */
  lemma {:induction false} ReplaceCharAt(s: string, a: char, b: char, j: nat)
    requires j < |s|
    ensures ReplaceChar(s, a, b)[j] == if s[j] == a then b else s[j]
  {
    if j > 0 {
      ReplaceCharAt(s[1..], a, b, j - 1);
    }
  }
}
