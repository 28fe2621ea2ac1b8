/**
 * Text helpers shared by the daemon, the clients and the importer: decimal
 * rendering and parsing (std::to_string, std::stoi, Python int), whitespace
 * stripping (Python str.strip, SQLite TRIM) and splitting/joining on a
 * separator character. Strings are sequences of characters, one character
 * per element: bytes for the C++ code, code points for the importer.
 */
module Text {
  import opened Wrappers

  // ---------------------------------------------------------------------------
  // Decimal digits

  predicate IsDigit(c: char) {
    '0' <= c <= '9'
  }

  predicate AllDigits(s: string) {
    forall k :: 0 <= k < |s| ==> IsDigit(s[k])
  }

  function DigitChar(d: nat): (c: char)
    requires d < 10
    ensures IsDigit(c)
  {
    ('0' as int + d) as char
  }

  function DigitValue(c: char): (d: nat)
    requires IsDigit(c)
    ensures d < 10
  {
    c as int - '0' as int
  }

  /** Value of a run of decimal digits, most significant digit first. */
  function DigitsValue(s: string): nat
    requires AllDigits(s)
  {
    if s == [] then 0 else 10 * DigitsValue(s[..|s| - 1]) + DigitValue(s[|s| - 1])
  }

  /** Decimal rendering of a natural number (std::to_string on an unsigned value). */
  function Decimal(n: nat): (s: string)
    ensures s != [] && AllDigits(s)
    ensures |s| > 1 ==> s[0] != '0'
  {
    if n < 10 then [DigitChar(n)] else Decimal(n / 10) + [DigitChar(n % 10)]
  }

  /** Reading back a rendered number gives the number. */
  lemma {:induction false} DecimalRoundTrip(n: nat)
    ensures DigitsValue(Decimal(n)) == n
  {
    if n >= 10 {
      var s := Decimal(n);
      assert s[..|s| - 1] == Decimal(n / 10);
      DecimalRoundTrip(n / 10);
    }
  }

  /** Two numbers with the same rendering are equal. */
  lemma DecimalInjective(m: nat, n: nat)
    requires Decimal(m) == Decimal(n)
    ensures m == n
  {
    DecimalRoundTrip(m);
    DecimalRoundTrip(n);
  }

  // ---------------------------------------------------------------------------
  // std::stoi

  const IntMin: int := -0x8000_0000
  const IntMax: int := 0x7fff_ffff

  /** isspace in the C locale, which strtol skips before a number. */
  predicate IsCSpace(c: char) {
    c == ' ' || ('\t' <= c <= '\r')
  }

  /** First index at or after `i` whose character is not white space. */
  function SkipSpace(s: string, i: nat, isSpace: char -> bool): (j: nat)
    requires i <= |s|
    ensures i <= j <= |s|
    ensures forall k :: i <= k < j ==> isSpace(s[k])
    ensures j < |s| ==> !isSpace(s[j])
    decreases |s| - i
  {
    if i < |s| && isSpace(s[i]) then SkipSpace(s, i + 1, isSpace) else i
  }

  /** End of the maximal run of digits starting at `i`. */
  function DigitRunEnd(s: string, i: nat): (j: nat)
    requires i <= |s|
    ensures i <= j <= |s|
    ensures AllDigits(s[i..j])
    ensures j < |s| ==> !IsDigit(s[j])
    decreases |s| - i
  {
    if i < |s| && IsDigit(s[i]) then
      var j := DigitRunEnd(s, i + 1);
      assert s[i..j] == [s[i]] + s[i + 1..j];
      j
    else i
  }

  /**
   * std::stoi: leading C white space, an optional sign, at least one digit;
   * characters after the digits are ignored. No digit, or a value outside
   * the 32-bit int range, throws; that is None here.
   */
  function Stoi(s: string): (r: Option<int>)
    ensures r.Some? ==> IntMin <= r.value <= IntMax
  {
    var i := SkipSpace(s, 0, IsCSpace);
    var negative := i < |s| && s[i] == '-';
    var start := if i < |s| && (s[i] == '-' || s[i] == '+') then i + 1 else i;
    var end := DigitRunEnd(s, start);
    if end == start then None
    else
      var magnitude: int := DigitsValue(s[start..end]);
      var v := if negative then -magnitude else magnitude;
      if IntMin <= v <= IntMax then Some(v) else None
  }

  /** stoi reads back every non-negative int that to_string writes. */
  lemma StoiDecimal(n: nat)
    requires n <= IntMax
    ensures Stoi(Decimal(n)) == Some(n)
  {
    var s := Decimal(n);
    assert SkipSpace(s, 0, IsCSpace) == 0;
    assert DigitRunEnd(s, 0) == |s|;
    assert s[0..|s|] == s;
    DecimalRoundTrip(n);
  }

  /** stoi reads a minus sign followed by digits as the negative value. */
  lemma StoiNegative(n: nat)
    requires n <= -IntMin
    ensures Stoi("-" + Decimal(n)) == Some(-(n as int))
  {
    var s := "-" + Decimal(n);
    assert SkipSpace(s, 0, IsCSpace) == 0;
    assert DigitRunEnd(s, 1) == |s|;
    assert s[1..|s|] == Decimal(n);
    DecimalRoundTrip(n);
  }

  /** A field with no digit at all makes stoi throw. */
  lemma StoiNeedsDigit(s: string)
    requires forall k :: 0 <= k < |s| ==> !IsDigit(s[k])
    ensures Stoi(s) == None
  {
  }

  // ---------------------------------------------------------------------------
  // Stripping

  /** Drops the leading characters that satisfy `isSpace`. */
  function StripLeft(s: string, isSpace: char -> bool): (r: string)
    ensures |r| <= |s|
    ensures forall k :: 0 <= k < |s| - |r| ==> isSpace(s[k])
    ensures r != [] ==> !isSpace(r[0])
  {
    if s != [] && isSpace(s[0]) then StripLeft(s[1..], isSpace) else s
  }

  /** What StripLeft keeps is a suffix of its input. */
  lemma {:induction false} StripLeftSuffix(s: string, isSpace: char -> bool)
    ensures var r := StripLeft(s, isSpace); r == s[|s| - |r|..]
    decreases |s|
  {
    if s != [] && isSpace(s[0]) {
      StripLeftSuffix(s[1..], isSpace);
    }
  }

  /** Drops the trailing characters that satisfy `isSpace`. */
  function StripRight(s: string, isSpace: char -> bool): (r: string)
    ensures |r| <= |s| && r == s[..|r|]
    ensures forall k :: |r| <= k < |s| ==> isSpace(s[k])
    ensures r != [] ==> !isSpace(r[|r| - 1])
  {
    if s != [] && isSpace(s[|s| - 1]) then StripRight(s[..|s| - 1], isSpace) else s
  }

  function Strip(s: string, isSpace: char -> bool): string {
    StripRight(StripLeft(s, isSpace), isSpace)
  }

  /** Stripping keeps a contiguous piece of the input and removes only spaces. */
  lemma StripSlice(s: string, isSpace: char -> bool)
    ensures var r, i := Strip(s, isSpace), |s| - |StripLeft(s, isSpace)|;
            i + |r| <= |s| && r == s[i..i + |r|]
            && (forall k :: 0 <= k < i ==> isSpace(s[k]))
            && (forall k :: i + |r| <= k < |s| ==> isSpace(s[k]))
  {
    var l := StripLeft(s, isSpace);
    var r := StripRight(l, isSpace);
    var i := |s| - |l|;
    StripLeftSuffix(s, isSpace);
    assert r == s[i..i + |r|];
    forall k | i + |r| <= k < |s| ensures isSpace(s[k]) {
      assert s[k] == l[k - i];
    }
  }

  /** The result of stripping starts and ends with a non-space, or is empty. */
  lemma StripEnds(s: string, isSpace: char -> bool)
    ensures var r := Strip(s, isSpace);
            r != [] ==> !isSpace(r[0]) && !isSpace(r[|r| - 1])
  {
    var l := StripLeft(s, isSpace);
    var r := StripRight(l, isSpace);
    if r != [] {
      assert r[0] == l[0];
    }
  }

  /** Stripping twice is stripping once. */
  lemma StripIdempotent(s: string, isSpace: char -> bool)
    ensures Strip(Strip(s, isSpace), isSpace) == Strip(s, isSpace)
  {
    var r := Strip(s, isSpace);
    StripEnds(s, isSpace);
    assert StripLeft(r, isSpace) == r;
    assert StripRight(r, isSpace) == r;
  }

  /** A string that starts and ends with non-spaces is its own strip. */
  lemma StripNoop(s: string, isSpace: char -> bool)
    requires s != [] && !isSpace(s[0]) && !isSpace(s[|s| - 1])
    ensures Strip(s, isSpace) == s
  {
    assert StripLeft(s, isSpace) == s;
  }

  /** Python's str.isspace(): the characters str.strip() and the regex \s remove. */
  predicate IsPySpace(c: char) {
    c == ' ' || ('\t' <= c <= '\r') || ('\U{1C}' <= c <= '\U{1F}')
    || c == '\U{85}' || c == '\U{A0}' || c == '\U{1680}'
    || ('\U{2000}' <= c <= '\U{200A}') || c == '\U{2028}' || c == '\U{2029}'
    || c == '\U{202F}' || c == '\U{205F}' || c == '\U{3000}'
  }

  /** Python str.strip() with no argument. */
  function PyStrip(s: string): string {
    Strip(s, IsPySpace)
  }

  // ---------------------------------------------------------------------------
  // Splitting and joining on a separator

  /**
   * Plain split: the pieces between separators, so k separators give k + 1
   * pieces (the empty string gives one empty piece).
   */
  function Split(s: string, sep: char): (fs: seq<string>)
    ensures |fs| >= 1
    ensures forall k :: 0 <= k < |fs| ==> sep !in fs[k]
  {
    if s == [] then [""]
    else
      var init := Split(s[..|s| - 1], sep);
      var c := s[|s| - 1];
      if c == sep then init + [""]
      else init[..|init| - 1] + [init[|init| - 1] + [c]]
  }

  /** The pieces joined by single separators. */
  function Join(fs: seq<string>, sep: char): string {
    if fs == [] then ""
    else if |fs| == 1 then fs[0]
    else Join(fs[..|fs| - 1], sep) + [sep] + fs[|fs| - 1]
  }

  predicate SeparatorFree(fs: seq<string>, sep: char) {
    forall k :: 0 <= k < |fs| ==> sep !in fs[k]
  }

  lemma {:induction false} SplitPiece(w: string, sep: char)
    requires sep !in w
    ensures Split(w, sep) == [w]
    decreases |w|
  {
    if w != [] {
      assert sep !in w[..|w| - 1];
      SplitPiece(w[..|w| - 1], sep);
      assert w[..|w| - 1] + [w[|w| - 1]] == w;
    }
  }

  lemma {:induction false} SplitAfterSeparator(p: string, w: string, sep: char)
    requires sep !in w
    ensures Split(p + [sep] + w, sep) == Split(p, sep) + [w]
    decreases |w|
  {
    var s := p + [sep] + w;
    if w == [] {
      assert s[..|s| - 1] == p;
    } else {
      var w' := w[..|w| - 1];
      assert s[..|s| - 1] == p + [sep] + w';
      assert sep !in w';
      SplitAfterSeparator(p, w', sep);
      assert w' + [w[|w| - 1]] == w;
    }
  }

  /** Joining the pieces of a split gives the string back. */
  lemma {:induction false} JoinSplit(s: string, sep: char)
    ensures Join(Split(s, sep), sep) == s
    decreases |s|
  {
    if s != [] {
      var s' := s[..|s| - 1];
      var c := s[|s| - 1];
      var init := Split(s', sep);
      JoinSplit(s', sep);
      assert s == s' + [c];
      var n := |init|;
      if c == sep {
        assert Split(s, sep) == init + [""];
        JoinLast(init, "", sep);
      } else if n == 1 {
        assert Split(s, sep) == [init[0] + [c]];
      } else {
        var front := init[..n - 1];
        assert Split(s, sep) == front + [init[n - 1] + [c]];
        assert front + [init[n - 1]] == init;
        JoinLast(front, init[n - 1], sep);
        JoinLast(front, init[n - 1] + [c], sep);
      }
    }
  }

  /** Appending a piece appends a separator and the piece. */
  lemma JoinLast(fs: seq<string>, w: string, sep: char)
    requires fs != []
    ensures Join(fs + [w], sep) == Join(fs, sep) + [sep] + w
  {
    assert (fs + [w])[..|fs|] == fs;
  }

  /** Splitting the join of separator-free pieces gives the pieces back. */
  lemma {:induction false} SplitJoin(fs: seq<string>, sep: char)
    requires fs != [] && SeparatorFree(fs, sep)
    ensures Split(Join(fs, sep), sep) == fs
    decreases |fs|
  {
    if |fs| == 1 {
      SplitPiece(fs[0], sep);
    } else {
      var init := fs[..|fs| - 1];
      SplitJoin(init, sep);
      SplitAfterSeparator(Join(init, sep), fs[|fs| - 1], sep);
      assert init + [fs[|fs| - 1]] == fs;
    }
  }
}
