/**
 * Canonical decomposition (Unicode NFD), restricted to the precomposed Latin
 * letters of the Latin-1 block (U+00C0..U+00FF) that Portuguese exercise
 * names use: each of them becomes an ASCII base letter followed by one
 * combining mark. Every other character is taken to be decomposed already.
 */
module Unicode {
  import opened Strings

  /** The Combining Diacritical Marks block, U+0300..U+036F. */
  predicate IsCombiningMark(c: char)
  {
    '\U{0300}' <= c <= '\U{036F}'
  }

  const Grave: char := '\U{0300}'
  const Acute: char := '\U{0301}'
  const Circumflex: char := '\U{0302}'
  const Tilde: char := '\U{0303}'
  const Diaeresis: char := '\U{0308}'
  const RingAbove: char := '\U{030A}'
  const Cedilla: char := '\U{0327}'

  /**
   * The two-character canonical decomposition of an upper-case precomposed
   * letter at code point `k`, or the empty string when `k` has none.
   */
  function UpperPair(k: int): (r: string)
    ensures r == [] || (|r| == 2 && IsUpperAscii(r[0]) && IsCombiningMark(r[1]))
  {
    if 0xC0 <= k <= 0xC5 then ['A', [Grave, Acute, Circumflex, Tilde, Diaeresis, RingAbove][k - 0xC0]]
    else if k == 0xC7 then ['C', Cedilla]
    else if 0xC8 <= k <= 0xCB then ['E', [Grave, Acute, Circumflex, Diaeresis][k - 0xC8]]
    else if 0xCC <= k <= 0xCF then ['I', [Grave, Acute, Circumflex, Diaeresis][k - 0xCC]]
    else if k == 0xD1 then ['N', Tilde]
    else if 0xD2 <= k <= 0xD6 then ['O', [Grave, Acute, Circumflex, Tilde, Diaeresis][k - 0xD2]]
    else if 0xD9 <= k <= 0xDC then ['U', [Grave, Acute, Circumflex, Diaeresis][k - 0xD9]]
    else if k == 0xDD then ['Y', Acute]
    else []
  }

  /** The Latin-1 letters that have a canonical decomposition. */
  predicate IsPrecomposed(c: char)
  {
    var u := c as int;
    u == 0xFF
    || (0xC0 <= u <= 0xFD && u != 0xC6 && u != 0xD0 && u != 0xD7 && u != 0xD8 && u != 0xDE
        && u != 0xDF && u != 0xE6 && u != 0xF0 && u != 0xF7 && u != 0xF8)
  }

  /**
   * Canonical decomposition of one character: a precomposed Latin-1 letter
   * becomes its base letter (same case) and a combining mark; anything else
   * stays as it is.
   */
  function Decompose(c: char): (r: string)
    ensures |r| == 1 || |r| == 2
    ensures |r| == 1 ==> r[0] == c
    ensures |r| == 2 ==> IsAsciiLetter(r[0]) && IsCombiningMark(r[1])
    ensures |r| == 2 <==> IsPrecomposed(c)
  {
    var u := c as int;
    if u == 0xFF then ['y', Diaeresis]
    else if 0xC0 <= u <= 0xDF then
      (var p := UpperPair(u); if p == [] then [c] else p)
    else if 0xE0 <= u <= 0xFE then
      (var p := UpperPair(u - 0x20); if p == [] then [c] else [LowerChar(p[0]), p[1]])
    else [c]
  }

  /** `c` is left unchanged by canonical decomposition. */
  predicate IsDecomposed(c: char)
  {
    !IsPrecomposed(c)
  }

  /** Decomposition leaves a decomposed character as it is. */
  lemma DecomposeFixes(c: char)
    requires IsDecomposed(c)
    ensures Decompose(c) == [c]
  {
  }

  /** Base letters and combining marks do not decompose further. */
  lemma DecomposeParts(c: char)
    ensures forall i :: 0 <= i < |Decompose(c)| ==> IsDecomposed(Decompose(c)[i])
  {
  }

  /** Replaces each character `c` of `s` by the string `f(c)`. */
  function Expand(s: string, f: char -> string): (r: string)
  {
    if s == [] then [] else f(s[0]) + Expand(s[1..], f)
  }

  /** Expansion works character by character, so it distributes over concatenation. */
  lemma {:induction false} ExpandConcat(a: string, b: string, f: char -> string)
    ensures Expand(a + b, f) == Expand(a, f) + Expand(b, f)
  {
    if a == [] {
      assert a + b == b;
    } else {
      assert (a + b)[0] == a[0];
      assert (a + b)[1..] == a[1..] + b;
      ExpandConcat(a[1..], b, f);
    }
  }

  /** Decomposition never shortens a string and leaves only decomposed characters. */
  lemma {:induction false} DecomposeAll(s: string)
    ensures |Expand(s, Decompose)| >= |s|
    ensures forall i :: 0 <= i < |Expand(s, Decompose)| ==> IsDecomposed(Expand(s, Decompose)[i])
  {
    if s != [] {
      DecomposeAll(s[1..]);
      DecomposeParts(s[0]);
      var d, rest := Decompose(s[0]), Expand(s[1..], Decompose);
      assert forall i :: |d| <= i < |d + rest| ==> (d + rest)[i] == rest[i - |d|];
    }
  }

  /** `normalize("NFD")`: character-by-character canonical decomposition. */
  function Nfd(s: string): (r: string)
    ensures |r| >= |s|
    ensures forall i :: 0 <= i < |r| ==> IsDecomposed(r[i])
  {
    DecomposeAll(s);
    Expand(s, Decompose)
  }

  /** Decomposition works character by character: it distributes over concatenation. */
  lemma NfdConcat(a: string, b: string)
    ensures Nfd(a + b) == Nfd(a) + Nfd(b)
  {
    ExpandConcat(a, b, Decompose);
  }

  /** The NFD form of a single character is its own decomposition. */
  lemma NfdChar(c: char)
    ensures Nfd([c]) == Decompose(c)
  {
    assert [c][1..] == [];
    assert Expand([c], Decompose) == Decompose(c) + Expand([], Decompose);
  }

  /** A string whose characters are all decomposed is its own NFD form. */
  lemma {:induction false} NfdFixes(s: string)
    requires forall i :: 0 <= i < |s| ==> IsDecomposed(s[i])
    ensures Nfd(s) == s
  {
    if s != [] {
      NfdFixes(s[1..]);
      DecomposeFixes(s[0]);
      assert s == [s[0]] + s[1..];
    }
  }

  /** ASCII text is its own NFD form. */
  lemma NfdAscii(s: string)
    requires forall i :: 0 <= i < |s| ==> IsAscii(s[i])
    ensures Nfd(s) == s
  {
    NfdFixes(s);
  }

  /** The base letter of `c`: the first character of its decomposition, `c` itself when it has none. */
  function Base(c: char): (r: char)
    ensures IsPrecomposed(c) ==> IsAsciiLetter(r)
    ensures !IsPrecomposed(c) ==> r == c
  {
    Decompose(c)[0]
  }

  /** Every character replaced by its base letter: the text with its accents removed. */
  function Unaccented(s: string): (r: string)
    ensures |r| == |s|
    ensures forall i :: 0 <= i < |s| ==> r[i] == Base(s[i])
  {
    seq(|s|, i requires 0 <= i < |s| => Base(s[i]))
  }

  /** Removing accents works character by character. */
  lemma UnaccentedCons(c: char, t: string)
    ensures Unaccented([c] + t) == [Base(c)] + Unaccented(t)
  {
    assert forall i :: 0 <= i < |t| + 1 ==> Unaccented([c] + t)[i] == ([Base(c)] + Unaccented(t))[i];
  }

  /** The accented letters of Portuguese decompose into their base letter and the expected mark. */
  lemma DecomposePortuguese()
    ensures Decompose('\U{00C1}') == ['A', Acute] && Decompose('\U{00E1}') == ['a', Acute]
    ensures Decompose('\U{00C0}') == ['A', Grave] && Decompose('\U{00E0}') == ['a', Grave]
    ensures Decompose('\U{00C2}') == ['A', Circumflex] && Decompose('\U{00E2}') == ['a', Circumflex]
    ensures Decompose('\U{00C3}') == ['A', Tilde] && Decompose('\U{00E3}') == ['a', Tilde]
    ensures Decompose('\U{00C7}') == ['C', Cedilla] && Decompose('\U{00E7}') == ['c', Cedilla]
    ensures Decompose('\U{00C9}') == ['E', Acute] && Decompose('\U{00E9}') == ['e', Acute]
    ensures Decompose('\U{00CA}') == ['E', Circumflex] && Decompose('\U{00EA}') == ['e', Circumflex]
    ensures Decompose('\U{00CD}') == ['I', Acute] && Decompose('\U{00ED}') == ['i', Acute]
    ensures Decompose('\U{00D3}') == ['O', Acute] && Decompose('\U{00F3}') == ['o', Acute]
    ensures Decompose('\U{00D4}') == ['O', Circumflex] && Decompose('\U{00F4}') == ['o', Circumflex]
    ensures Decompose('\U{00D5}') == ['O', Tilde] && Decompose('\U{00F5}') == ['o', Tilde]
    ensures Decompose('\U{00DA}') == ['U', Acute] && Decompose('\U{00FA}') == ['u', Acute]
    ensures Decompose('\U{00DC}') == ['U', Diaeresis] && Decompose('\U{00FC}') == ['u', Diaeresis]
  {
  }
}
