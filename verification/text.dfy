/** Character and string helpers shared by the normalisers, and the model of
    Python's `float()` and `int()` on text. Characters are ASCII-classified. */
module Text {
  import opened Wrappers

  predicate IsDigit(c: char) { '0' <= c <= '9' }

  /** Python's `str.isspace` restricted to ASCII: space, tab, line feed,
      vertical tab, form feed, carriage return and the four separators
      U+001C to U+001F. */
  predicate IsSpace(c: char) {
    c == ' ' || '\t' <= c <= '\r' || '\U{001C}' <= c <= '\U{001F}'
  }

  predicate HasDigit(s: string) { exists i :: 0 <= i < |s| && IsDigit(s[i]) }

  predicate AllDigits(s: string) { forall i :: 0 <= i < |s| ==> IsDigit(s[i]) }

  /** Each character of `s` is a digit or `c`. */
  predicate DigitsAnd(s: string, c: char) {
    forall i :: 0 <= i < |s| ==> IsDigit(s[i]) || s[i] == c
  }

  /** At most one occurrence of `c` in `s`. */
  predicate AtMostOne(s: string, c: char) {
    forall i, j :: 0 <= i < j < |s| && s[i] == c ==> s[j] != c
  }

  function DigitValue(c: char): nat
    requires IsDigit(c)
  {
    c as int - '0' as int
  }

  /** Decimal value of a string of digits. */
  function NatValue(s: string): nat
    requires AllDigits(s)
  {
    if s == [] then 0 else NatValue(s[..|s| - 1]) * 10 + DigitValue(s[|s| - 1])
  }

  function LowerChar(c: char): char {
    if 'A' <= c <= 'Z' then (c as int + 32) as char else c
  }

  /** Python's `str.lower` on ASCII letters. */
  function Lower(s: string): (r: string)
    ensures |r| == |s| && forall i :: 0 <= i < |s| ==> r[i] == LowerChar(s[i])
  {
    if s == [] then [] else [LowerChar(s[0])] + Lower(s[1..])
  }

  predicate StartsWith(s: string, p: string) {
    |p| <= |s| && s[..|p|] == p
  }

  /** Python's `p in s` for strings. */
  predicate Contains(s: string, p: string)
    decreases |s|
  {
    StartsWith(s, p) || (|s| > 0 && Contains(s[1..], p))
  }

  /** A pattern occurring at position `i` is contained. */
  lemma {:induction false} ContainsAt(s: string, p: string, i: nat)
    requires i <= |s| && StartsWith(s[i..], p)
    ensures Contains(s, p)
    decreases i
  {
    if i > 0 {
      assert s[1..][i - 1..] == s[i..];
      ContainsAt(s[1..], p, i - 1);
    }
  }

  /** Every character of a contained pattern occurs in the text. */
  lemma {:induction false} ContainsChars(s: string, p: string, k: nat)
    requires Contains(s, p) && k < |p|
    ensures p[k] in s
    decreases |s|
  {
    if StartsWith(s, p) {
      assert s[k] == p[k];
    } else {
      ContainsChars(s[1..], p, k);
      assert p[k] in s[1..];
    }
  }

  /** Python's `s.replace(pat, rep)`: non-overlapping, left to right. */
  function ReplaceAll(s: string, pat: string, rep: string): (r: string)
    requires |pat| > 0
    ensures |rep| <= |pat| ==> |r| <= |s|
    ensures rep == pat ==> r == s
    decreases |s|
  {
    if |s| < |pat| then s
    else if s[..|pat|] == pat then rep + ReplaceAll(s[|pat|..], pat, rep)
    else [s[0]] + ReplaceAll(s[1..], pat, rep)
  }

  lemma {:induction false} ReplaceAbsent(s: string, pat: string, rep: string)
    requires |pat| > 0 && pat[0] !in s
    ensures ReplaceAll(s, pat, rep) == s
    decreases |s|
  {
    if |s| >= |pat| {
      assert s[..|pat|][0] != pat[0];
      ReplaceAbsent(s[1..], pat, rep);
    }
  }

  /** A prefix without the pattern's first character is kept as it is. */
  lemma {:induction false} ReplaceAfter(x: string, pat: string, rep: string, y: string)
    requires |pat| > 0 && pat[0] !in x
    ensures ReplaceAll(x + y, pat, rep) == x + ReplaceAll(y, pat, rep)
    decreases |x|
  {
    if x == [] {
      assert x + y == y;
    } else {
      var s := x + y;
      var tail := ReplaceAll(y, pat, rep);
      assert pat[0] !in x[1..];
      ReplaceAfter(x[1..], pat, rep, y);
      assert s[1..] == x[1..] + y;
      if |s| < |pat| {
        assert tail == y;
      } else {
        assert s[..|pat|] != pat by {
          assert s[..|pat|][0] == x[0];
        }
        assert ReplaceAll(s, pat, rep) == [x[0]] + (x[1..] + tail);
        assert [x[0]] + (x[1..] + tail) == x + tail;
      }
    }
  }

  /** A text starting with the pattern has it replaced. */
  lemma ReplaceHead(pat: string, rep: string, y: string)
    requires |pat| > 0
    ensures ReplaceAll(pat + y, pat, rep) == rep + ReplaceAll(y, pat, rep)
  {
    assert (pat + y)[..|pat|] == pat;
    assert (pat + y)[|pat|..] == y;
  }

  /** Removing the one pattern occurrence between two pattern-free texts. */
  lemma ReplaceOne(x: string, pat: string, rep: string, y: string)
    requires |pat| > 0 && pat[0] !in x && pat[0] !in y
    ensures ReplaceAll(x + (pat + y), pat, rep) == x + (rep + y)
  {
    ReplaceAfter(x, pat, rep, pat + y);
    ReplaceHead(pat, rep, y);
    ReplaceAbsent(y, pat, rep);
  }

  /** What remains once leading whitespace is dropped: a suffix of `s` that
      does not start with whitespace. */
  function TrimStart(s: string): (r: string)
    ensures r == [] || !IsSpace(r[0])
  {
    if s != [] && IsSpace(s[0]) then TrimStart(s[1..]) else s
  }

  /** What remains once trailing whitespace is dropped: a prefix of `s`
      that does not end with whitespace. */
  function TrimEnd(s: string): (r: string)
    ensures r == [] || !IsSpace(r[|r| - 1])
  {
    if s != [] && IsSpace(s[|s| - 1]) then TrimEnd(s[..|s| - 1]) else s
  }

  /** Python's `str.strip()` with no argument. */
  function Strip(s: string): (r: string)
    ensures exists i :: 0 <= i <= |s| && r <= s[i..]
    ensures r == [] || (!IsSpace(r[0]) && !IsSpace(r[|r| - 1]))
  {
    var t := TrimStart(s);
    TrimStartSuffix(s);
    TrimEndPrefix(t);
    assert TrimEnd(t) <= s[|s| - |t|..];
    TrimEnd(t)
  }

  lemma {:induction false} TrimStartSuffix(s: string)
    ensures |TrimStart(s)| <= |s| && TrimStart(s) == s[|s| - |TrimStart(s)|..]
  {
    if s != [] && IsSpace(s[0]) {
      TrimStartSuffix(s[1..]);
    }
  }

  lemma {:induction false} TrimEndPrefix(s: string)
    ensures TrimEnd(s) <= s
  {
    if s != [] && IsSpace(s[|s| - 1]) {
      TrimEndPrefix(s[..|s| - 1]);
    }
  }

  function IndexOf(s: string, c: char): (r: Option<nat>)
    ensures r.Some? ==> r.value < |s| && s[r.value] == c
    ensures r.None? ==> c !in s
  {
    if s == [] then None
    else if s[0] == c then Some(0)
    else match IndexOf(s[1..], c)
      case None => None
      case Some(k) => Some(k + 1)
  }

  /** The index found is the first occurrence. */
  lemma {:induction false} IndexOfEarliest(s: string, c: char)
    requires IndexOf(s, c).Some?
    ensures c !in s[..IndexOf(s, c).value]
  {
    if s[0] != c {
      IndexOfEarliest(s[1..], c);
      assert s[..IndexOf(s, c).value] == [s[0]] + s[1..][..IndexOf(s[1..], c).value];
    }
  }

  lemma {:induction false} IndexOfFirst(s: string, c: char, k: nat)
    requires k < |s| && s[k] == c && c !in s[..k]
    ensures IndexOf(s, c) == Some(k)
  {
    if k > 0 {
      assert s[0] == s[..k][0];
      assert s[1..][..k - 1] == s[..k][1..];
      IndexOfFirst(s[1..], c, k - 1);
    }
  }

  /** An unsigned decimal: digits, optionally one dot and more digits, at
      least one digit in all (`"12"`, `"12."`, `".5"`, `"12.50"`). */
  function ParseUnsigned(s: string): Option<real> {
    match IndexOf(s, '.')
    case None =>
      if s != [] && AllDigits(s) then Some(NatValue(s) as real) else None
    case Some(k) =>
      var whole, frac := s[..k], s[k + 1..];
      if AllDigits(whole) && AllDigits(frac) && |whole| + |frac| > 0
      then Some(NatValue(whole) as real + Fraction(frac))
      else None
  }

  /** The value of the digits after a decimal dot: each digit counts a
      tenth of the one before it. */
  function Fraction(digits: string): (r: real)
    requires AllDigits(digits)
    ensures 0.0 <= r < 1.0
  {
    if digits == [] then 0.0 else (DigitValue(digits[0]) as real + Fraction(digits[1..])) / 10.0
  }

  /** Two digits after the dot are hundredths. */
  lemma FractionCents(c: string)
    requires AllDigits(c) && |c| == 2
    ensures Fraction(c) == NatValue(c) as real / 100.0
  {
    var a, b := DigitValue(c[0]), DigitValue(c[1]);
    assert c[1..] == [c[1]];
    assert Fraction([c[1]]) == b as real / 10.0 by {
      assert [c[1]][1..] == [];
    }
    assert Fraction(c) == (a as real + b as real / 10.0) / 10.0;
    assert c[..1] == [c[0]];
    assert NatValue([c[0]]) == a by {
      assert [c[0]][..0] == [];
    }
    assert NatValue(c) == a * 10 + b;
  }

  /** A decimal with an optional sign. */
  function ParseDecimal(s: string): Option<real> {
    if s != [] && (s[0] == '+' || s[0] == '-') then
      match ParseUnsigned(s[1..])
      case None => None
      case Some(v) => Some(if s[0] == '-' then -v else v)
    else ParseUnsigned(s)
  }

  /** Python's `float(s)`: surrounding whitespace is ignored; `None` stands
      for the `ValueError` it raises. */
  function PyFloat(s: string): (r: Option<real>)
    ensures r.Some? ==> HasDigit(s)
  {
    DecimalNeedsDigit(s);
    ParseDecimal(Strip(s))
  }

  /** Python's `int(s)`: optional sign and digits, surrounding whitespace
      ignored; `None` stands for the `ValueError` it raises. */
  function PyInt(s: string): (r: Option<int>)
    ensures r.Some? ==> Strip(s) != [] && HasDigit(Strip(s))
    ensures r.Some? && r.value < 0 ==> Strip(s)[0] == '-'
  {
    var t := Strip(s);
    if t != [] && (t[0] == '+' || t[0] == '-') then
      var d := t[1..];
      if d != [] && AllDigits(d) then Some(if t[0] == '-' then -(NatValue(d) as int) else NatValue(d) as int)
      else None
    else if t != [] && AllDigits(t) then Some(NatValue(t) as int)
    else None
  }

  /** Rounding to two decimals (to the nearest cent, halves upwards). */
  function Round2(x: real): (r: real)
    ensures x - 1.0 / 200.0 < r <= x + 1.0 / 200.0
    ensures (r * 100.0).Floor as real == r * 100.0
  {
    ((x * 100.0 + 0.5).Floor as real) / 100.0
  }

  /** Python's one-character `replace` maps each character on its own. */
  lemma {:induction false} ReplaceCharPointwise(s: string, a: char, b: char)
    ensures |ReplaceAll(s, [a], [b])| == |s|
    ensures forall i :: 0 <= i < |s| ==> ReplaceAll(s, [a], [b])[i] == if s[i] == a then b else s[i]
  {
    if s != [] {
      ReplaceCharPointwise(s[1..], a, b);
      assert s[..1] == [s[0]];
    }
  }

  lemma StripUnchanged(s: string)
    requires forall i :: 0 <= i < |s| ==> !IsSpace(s[i])
    ensures Strip(s) == s
  {
    assert TrimStart(s) == s;
  }

  /** `ParseUnsigned` on a text that is digits `w`, a dot at `k` and digits `c`. */
  lemma ParseUnsignedAt(u: string, k: nat, w: string, c: string)
    requires k < |u| && u[k] == '.' && u[..k] == w && u[k + 1..] == c
    requires AllDigits(w) && AllDigits(c) && |c| > 0
    ensures ParseUnsigned(u) == Some(NatValue(w) as real + Fraction(c))
  {
    DigitsLack(w, '.');
    IndexOfFirst(u, '.', k);
  }

  /** A character that is not a digit does not occur in a string of digits. */
  lemma {:induction false} DigitsLack(s: string, c: char)
    requires AllDigits(s) && !IsDigit(c)
    ensures c !in s
    decreases |s|
  {
    if s != [] {
      assert IsDigit(s[0]);
      assert AllDigits(s[1..]) by {
        forall i | 0 <= i < |s| - 1 ensures IsDigit(s[1..][i]) {
          assert s[1..][i] == s[i + 1];
        }
      }
      DigitsLack(s[1..], c);
      assert s == [s[0]] + s[1..];
    }
  }

  /** Digits, a dot and digits hold no whitespace to strip. */
  lemma DottedStrip(w: string, c: string)
    requires AllDigits(w) && AllDigits(c)
    ensures Strip(w + ("." + c)) == w + ("." + c)
  {
    var u := w + ("." + c);
    forall i | 0 <= i < |u| ensures !IsSpace(u[i]) {
      if i < |w| {
        assert u[i] == w[i];
      } else if i > |w| {
        assert u[i] == c[i - |w| - 1];
      }
    }
    StripUnchanged(u);
  }

  /** The pieces of digits, a dot and digits. */
  lemma DottedSplit(w: string, c: string)
    ensures (w + ("." + c))[..|w|] == w && (w + ("." + c))[|w|] == '.'
    ensures (w + ("." + c))[|w| + 1..] == c
  {
  }

  /** The unsigned parse of digits, a dot and digits. */
  lemma DottedUnsigned(w: string, c: string)
    requires AllDigits(w) && AllDigits(c) && |c| > 0
    ensures ParseUnsigned(w + ("." + c)) == Some(NatValue(w) as real + Fraction(c))
  {
    DottedSplit(w, c);
    ParseUnsignedAt(w + ("." + c), |w|, w, c);
  }

  /** `float()` of a non-empty run of digits, a dot and two digits. */
  lemma ParseWholeCents(w: string, c: string)
    requires AllDigits(w) && w != [] && AllDigits(c) && |c| == 2
    ensures PyFloat(w + ("." + c)) == Some(NatValue(w) as real + NatValue(c) as real / 100.0)
  {
    var u := w + ("." + c);
    DottedStrip(w, c);
    assert IsDigit(u[0]) by {
      assert u[0] == w[0];
    }
    PyFloatUnsigned(u);
    DottedUnsigned(w, c);
    FractionCents(c);
  }

  /** `float()` of a stripped text starting with a digit is its unsigned parse. */
  lemma PyFloatUnsigned(u: string)
    requires Strip(u) == u && u != [] && IsDigit(u[0])
    ensures PyFloat(u) == ParseUnsigned(u)
  {
  }

  /** A Dutch amount as the source site writes it: "€ ", whole digits, an
      optional thousands dot, more digits, a decimal comma and the cents. */
  function DutchText(w: string, sep: string, t: string, c: string): string {
    "€ " + (w + (sep + (t + ("," + c))))
  }

  /** Two runs of digits make one. */
  lemma DigitsConcat(a: string, b: string)
    requires AllDigits(a) && AllDigits(b)
    ensures AllDigits(a + b)
  {
    forall i | 0 <= i < |a + b| ensures IsDigit((a + b)[i]) {
      if i >= |a| { assert (a + b)[i] == b[i - |a|]; }
    }
  }

  /** `float("1234.56")`. */
  lemma ThousandsDigits()
    ensures NatValue("1234") == 1234 && NatValue("56") == 56
  {
    assert "1234"[..3] == "123"; assert "123"[..2] == "12"; assert "12"[..1] == "1"; assert "1"[..0] == "";
    assert "56"[..1] == "5"; assert "5"[..0] == "";
  }

  lemma ThousandsParse()
    ensures PyFloat("1234.56") == Some(1234.56)
  {
    assert "1234.56" == "1234" + ("." + "56");
    ThousandsDigits();
    ParseWholeCents("1234", "56");
  }

  lemma {:induction false} TrimStartKeepsChars(s: string)
    ensures forall c :: c in TrimStart(s) ==> c in s
  {
    if s != [] && IsSpace(s[0]) {
      TrimStartKeepsChars(s[1..]);
    }
  }

  lemma {:induction false} TrimEndKeepsChars(s: string)
    ensures forall c :: c in TrimEnd(s) ==> c in s
  {
    if s != [] && IsSpace(s[|s| - 1]) {
      TrimEndKeepsChars(s[..|s| - 1]);
    }
  }

  /** `float()` accepts no text without a digit. */
  lemma DecimalNeedsDigit(s: string)
    ensures ParseDecimal(Strip(s)).Some? ==> HasDigit(s)
  {
    var t := Strip(s);
    if ParseDecimal(t).None? {
      return;
    }
    var signed := t != [] && (t[0] == '+' || t[0] == '-');
    var u := if signed then t[1..] else t;
    assert ParseUnsigned(u).Some?;
    var k: nat :| k < |u| && IsDigit(u[k]) by {
      match IndexOf(u, '.')
      case None =>
        assert IsDigit(u[0]);
      case Some(j) =>
        if j > 0 {
          assert IsDigit(u[..j][0]);
        } else {
          assert IsDigit(u[j + 1..][0]);
        }
    }
    var j := if signed then k + 1 else k;
    assert t[j] == u[k];
    var i :| 0 <= i <= |s| && t <= s[i..];
    assert s[i..][j] == t[j];
    assert IsDigit(s[i + j]);
  }

}
