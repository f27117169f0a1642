/**
 * String helpers shared by the front end, the catalog builder and the API:
 * substring search, trimming, ASCII case folding and decimal rendering.
 * Strings are sequences of Unicode scalar values.
 */
module Strings {

  // ---------------------------------------------------------------------------
  // Substring containment (JavaScript `includes`)
  // ---------------------------------------------------------------------------

  /** `sub` occurs in `s` starting at position `i`. */
  predicate OccursAt(s: string, sub: string, i: int)
  {
    0 <= i && i + |sub| <= |s| && s[i..i + |sub|] == sub
  }

  /** `sub` occurs somewhere in `s`; the empty string occurs in every string. */
  predicate Contains(s: string, sub: string)
    decreases |s|
  {
    sub <= s || (s != [] && Contains(s[1..], sub))
  }

  /** An occurrence at any position means containment. */
  lemma {:induction false} OccursContains(s: string, sub: string, i: int)
    requires OccursAt(s, sub, i)
    ensures Contains(s, sub)
    decreases i
  {
    if i == 0 {
      assert s[..|sub|] == s[0..|sub|];
    } else {
      assert s[1..][i - 1..i - 1 + |sub|] == s[i..i + |sub|];
      OccursContains(s[1..], sub, i - 1);
    }
  }

  /** Containment means an occurrence at some position. */
  lemma {:induction false} ContainsOccurs(s: string, sub: string)
    requires Contains(s, sub)
    ensures exists i :: OccursAt(s, sub, i)
    decreases |s|
  {
    if sub <= s {
      assert s[0..|sub|] == sub;
      assert OccursAt(s, sub, 0);
    } else {
      ContainsOccurs(s[1..], sub);
      var i :| OccursAt(s[1..], sub, i);
      assert s[1..][i..i + |sub|] == s[i + 1..i + 1 + |sub|];
      assert OccursAt(s, sub, i + 1);
    }
  }

  /** Containment is exactly the existence of an occurrence position. */
  lemma ContainsIffOccurs(s: string, sub: string)
    ensures Contains(s, sub) <==> exists i :: OccursAt(s, sub, i)
  {
    if Contains(s, sub) {
      ContainsOccurs(s, sub);
    }
    if exists i :: OccursAt(s, sub, i) {
      var i :| OccursAt(s, sub, i);
      OccursContains(s, sub, i);
    }
  }

  /** A string contains every one of its infixes. */
  lemma ContainsInfix(a: string, x: string, b: string)
    ensures Contains(a + x + b, x)
  {
    var s := a + x + b;
    assert s[|a|..|a| + |x|] == x;
    assert OccursAt(s, x, |a|);
    ContainsIffOccurs(s, x);
  }

  // ---------------------------------------------------------------------------
  // Trimming with a caller-chosen notion of whitespace
  // ---------------------------------------------------------------------------

  /** Which language's notion of whitespace a trim uses. */
  datatype Blanks = JsBlanks | PyBlanks

  /**
   * JavaScript's `String.prototype.trim` whitespace: the ASCII blanks, the
   * line terminators, no-break space, the byte order mark and the Unicode
   * space separators.
   */
  predicate IsJsSpace(c: char)
  {
    c == ' ' || c == '\t' || c == '\n' || c == '\U{0B}' || c == '\U{0C}' || c == '\r'
    || c == '\U{A0}' || c == '\U{FEFF}' || c == '\U{1680}'
    || ('\U{2000}' <= c <= '\U{200A}')
    || c == '\U{2028}' || c == '\U{2029}' || c == '\U{202F}' || c == '\U{205F}' || c == '\U{3000}'
  }

  /** Python's `str.isspace`. */
  predicate IsPySpace(c: char)
  {
    c == ' ' || ('\t' <= c <= '\r') || ('\U{1C}' <= c <= '\U{1F}')
    || c == '\U{85}' || c == '\U{A0}' || c == '\U{1680}' || ('\U{2000}' <= c <= '\U{200A}')
    || c == '\U{2028}' || c == '\U{2029}' || c == '\U{202F}' || c == '\U{205F}' || c == '\U{3000}'
  }

  /** `c` is whitespace for the language `ws` names. */
  predicate IsBlank(ws: Blanks, c: char)
  {
    match ws
    case JsBlanks => IsJsSpace(c)
    case PyBlanks => IsPySpace(c)
  }


  /** Drops the leading characters that satisfy `ws`. */
  function TrimStart(s: string, ws: Blanks): (r: string)
    ensures |r| <= |s|
    decreases |s|
  {
    if s != [] && IsBlank(ws, s[0]) then TrimStart(s[1..], ws) else s
  }

  /** `TrimStart` keeps a suffix that does not start with whitespace and drops only whitespace. */
  lemma {:induction false} TrimStartShape(s: string, ws: Blanks)
    ensures var r := TrimStart(s, ws);
      r == s[|s| - |r|..] && (forall i :: 0 <= i < |s| - |r| ==> IsBlank(ws, s[i]))
      && (r == [] || !IsBlank(ws, r[0]))
    decreases |s|
  {
    if s != [] && IsBlank(ws, s[0]) {
      var r := TrimStart(s[1..], ws);
      TrimStartShape(s[1..], ws);
      assert s[1..][|s| - 1 - |r|..] == s[|s| - |r|..];
      forall i | 0 <= i < |s| - |r| ensures IsBlank(ws, s[i]) {
        if i > 0 {
          assert s[i] == s[1..][i - 1];
        }
      }
    }
  }

  /** Drops the trailing characters that satisfy `ws`. */
  function TrimEnd(s: string, ws: Blanks): (r: string)
    ensures |r| <= |s|
    decreases |s|
  {
    if s != [] && IsBlank(ws, s[|s| - 1]) then TrimEnd(s[..|s| - 1], ws) else s
  }

  /** `TrimEnd` keeps a prefix that does not end with whitespace and drops only whitespace. */
  lemma {:induction false} TrimEndShape(s: string, ws: Blanks)
    ensures var r := TrimEnd(s, ws);
      r == s[..|r|] && (forall i :: |r| <= i < |s| ==> IsBlank(ws, s[i]))
      && (r == [] || !IsBlank(ws, r[|r| - 1]))
    decreases |s|
  {
    if s != [] && IsBlank(ws, s[|s| - 1]) {
      var init := s[..|s| - 1];
      var r := TrimEnd(init, ws);
      TrimEndShape(init, ws);
      assert init[..|r|] == s[..|r|];
      forall i | |r| <= i < |s| ensures IsBlank(ws, s[i]) {
        if i < |s| - 1 {
          assert s[i] == init[i];
        }
      }
    }
  }

  /** Drops leading and trailing characters that satisfy `ws`. */
  function TrimBy(s: string, ws: Blanks): string
  {
    TrimEnd(TrimStart(s, ws), ws)
  }

  /** Every character of `s` is whitespace in the sense of `ws`. */
  predicate AllBy(s: string, ws: Blanks)
  {
    forall i :: 0 <= i < |s| ==> IsBlank(ws, s[i])
  }

  /** Trimming keeps a contiguous stretch of the input. */
  lemma TrimBySlice(s: string, ws: Blanks)
    ensures var r := TrimBy(s, ws);
      forall i :: 0 <= i < |r| ==> r[i] == s[|s| - |TrimStart(s, ws)| + i]
  {
    var t := TrimStart(s, ws);
    TrimStartShape(s, ws);
    TrimEndShape(t, ws);
    var r := TrimEnd(t, ws);
    forall i | 0 <= i < |r| ensures r[i] == s[|s| - |t| + i] {
      assert r[i] == t[i];
    }
  }

  /** The trimmed string neither starts nor ends with whitespace. */
  lemma TrimByEnds(s: string, ws: Blanks)
    ensures TrimBy(s, ws) == [] || (!IsBlank(ws, TrimBy(s, ws)[0]) && !IsBlank(ws, TrimBy(s, ws)[|TrimBy(s, ws)| - 1]))
  {
    var t := TrimStart(s, ws);
    var r := TrimEnd(t, ws);
    TrimStartShape(s, ws);
    TrimEndShape(t, ws);
    if r != [] {
      assert t[0] == r[0];
    }
  }

  /** Trimming yields the empty string exactly when the input is all whitespace. */
  lemma TrimByEmpty(s: string, ws: Blanks)
    ensures TrimBy(s, ws) == [] <==> AllBy(s, ws)
  {
    var t := TrimStart(s, ws);
    TrimStartShape(s, ws);
    TrimEndShape(t, ws);
    assert TrimEnd(t, ws) == [] ==> t == [];
  }

  /** Text that neither starts nor ends with whitespace is left as it is. */
  lemma TrimByFixes(s: string, ws: Blanks)
    requires s == [] || (!IsBlank(ws, s[0]) && !IsBlank(ws, s[|s| - 1]))
    ensures TrimBy(s, ws) == s
  {
    assert TrimStart(s, ws) == s;
  }

  /** Trimming twice is the same as trimming once. */
  lemma TrimByIdempotent(s: string, ws: Blanks)
    ensures TrimBy(TrimBy(s, ws), ws) == TrimBy(s, ws)
  {
    var r := TrimBy(s, ws);
    TrimByEnds(s, ws);
    if r != [] {
      assert TrimStart(r, ws) == r;
    }
  }

  /** JavaScript `s.trim()`. */
  function TrimJs(s: string): string
  {
    TrimBy(s, JsBlanks)
  }

  // ---------------------------------------------------------------------------
  // ASCII classes and case folding
  // ---------------------------------------------------------------------------

  predicate IsAscii(c: char) { c as int < 128 }

  predicate IsUpperAscii(c: char) { 'A' <= c <= 'Z' }

  predicate IsAsciiLetter(c: char) { 'A' <= c <= 'Z' || 'a' <= c <= 'z' }

  /** Lowercase of one character, for the ASCII letters only. */
  function LowerChar(c: char): (r: char)
    ensures !IsUpperAscii(r)
    ensures IsAscii(r) <==> IsAscii(c)
    ensures !IsUpperAscii(c) ==> r == c
  {
    if IsUpperAscii(c) then (c as int + 32) as char else c
  }

  /** ASCII lowercasing of a whole string, character by character. */
  function LowerAscii(s: string): (r: string)
    ensures |r| == |s|
    ensures forall i :: 0 <= i < |s| ==> r[i] == LowerChar(s[i])
  {
    seq(|s|, i requires 0 <= i < |s| => LowerChar(s[i]))
  }

  /** Lowercasing a string without capitals changes nothing. */
  lemma LowerAsciiFixes(s: string)
    requires forall i :: 0 <= i < |s| ==> !IsUpperAscii(s[i])
    ensures LowerAscii(s) == s
  {
  }

  /** Replaces every occurrence of the character `from` by `to`. */
  function ReplaceChar(s: string, from: char, to: char): (r: string)
    ensures |r| == |s|
    ensures forall i :: 0 <= i < |s| ==> r[i] == (if s[i] == from then to else s[i])
  {
    seq(|s|, i requires 0 <= i < |s| => if s[i] == from then to else s[i])
  }

  // ---------------------------------------------------------------------------
  // Decimal rendering of natural numbers (template-literal `${n}`)
  // ---------------------------------------------------------------------------

  predicate IsDigit(c: char) { '0' <= c <= '9' }

  function DigitChar(d: nat): (c: char)
    requires d < 10
    ensures IsDigit(c)
  {
    ('0' as int + d) as char
  }

  /** The decimal numeral of `n`, without leading zeros. */
  function Decimal(n: nat): (r: string)
    ensures r != []
    ensures forall i :: 0 <= i < |r| ==> IsDigit(r[i])
    ensures r[0] == '0' ==> n == 0
  {
    if n < 10 then [DigitChar(n)] else Decimal(n / 10) + [DigitChar(n % 10)]
  }

  function DigitValue(c: char): (d: nat)
    requires IsDigit(c)
    ensures d < 10 && DigitChar(d) == c
  {
    c as int - '0' as int
  }

  /** The number a string of decimal digits denotes. */
  function DigitsValue(s: string): nat
    requires forall i :: 0 <= i < |s| ==> IsDigit(s[i])
  {
    if s == [] then 0
    else DigitsValue(s[..|s| - 1]) * 10 + DigitValue(s[|s| - 1])
  }

  /** Reading back a rendered numeral gives the number. */
  lemma {:induction false} DecimalRoundTrip(n: nat)
    ensures DigitsValue(Decimal(n)) == n
  {
    if n >= 10 {
      var r := Decimal(n / 10);
      DecimalRoundTrip(n / 10);
      assert (r + [DigitChar(n % 10)])[..|r|] == r;
    }
  }

  /** Different numbers render differently. */
  lemma DecimalInjective(m: nat, n: nat)
    requires Decimal(m) == Decimal(n)
    ensures m == n
  {
    DecimalRoundTrip(m);
    DecimalRoundTrip(n);
  }
}
