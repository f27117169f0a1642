/**
 * The catalog builder (gerar_gifs_json.py): turns the folders under
 * `public/gifs` into the catalog `gifs.json`, one group per folder that
 * holds at least one GIF, each group's entries sorted by their cleaned-up
 * name. The directory listing is an input here.
 */
module GifBuilder {
  import opened Strings
  import opened Unicode
  import opened GifsJson
  import opened Sorting
  import CatalogSearch

  // ---------------------------------------------------------------------------
  // normalizar_nome
  // ---------------------------------------------------------------------------

  /** `s.encode("ascii", "ignore").decode()`: drops every non-ASCII character. */
  function AsciiOnly(s: string): (r: string)
    ensures |r| <= |s|
    ensures forall i :: 0 <= i < |r| ==> IsAscii(r[i])
    ensures (forall i :: 0 <= i < |s| ==> IsAscii(s[i])) ==> r == s
  {
    if s == [] then []
    else if IsAscii(s[|s| - 1]) then
      assert s == s[..|s| - 1] + [s[|s| - 1]];
      AsciiOnly(s[..|s| - 1]) + [s[|s| - 1]]
    else AsciiOnly(s[..|s| - 1])
  }

  /** No two adjacent spaces. */
  predicate NoSpacePair(s: string)
  {
    |s| < 2 || (!(s[0] == ' ' && s[1] == ' ') && NoSpacePair(s[1..]))
  }

  /** Two strings with spaces at the same places agree on having no pair of spaces. */
  lemma {:induction false} NoSpacePairSpaces(s: string, u: string)
    requires |s| == |u| && forall i :: 0 <= i < |s| ==> (s[i] == ' ' <==> u[i] == ' ')
    requires NoSpacePair(s)
    ensures NoSpacePair(u)
  {
    if |s| >= 2 {
      NoSpacePairSpaces(s[1..], u[1..]);
    }
  }

  /**
   * `s.replace("  ", " ")`: one left-to-right pass that turns each
   * non-overlapping pair of spaces into one space.
   */
  function CollapseSpacePairs(s: string): (r: string)
    ensures |r| <= |s|
    ensures NoSpacePair(s) ==> r == s
  {
    if |s| >= 2 && s[0] == ' ' && s[1] == ' ' then [' '] + CollapseSpacePairs(s[2..])
    else if s == [] then []
    else
      assert s == [s[0]] + s[1..];
      [s[0]] + CollapseSpacePairs(s[1..])
  }

  /** The ASCII filter works character by character: it distributes over concatenation. */
  lemma {:induction false} AsciiOnlyConcat(a: string, b: string)
    ensures AsciiOnly(a + b) == AsciiOnly(a) + AsciiOnly(b)
    decreases |b|
  {
    if b == [] {
      assert a + b == a;
    } else {
      var n := |b| - 1;
      assert (a + b)[..|a + b| - 1] == a + b[..n];
      assert (a + b)[|a + b| - 1] == b[n];
      AsciiOnlyConcat(a, b[..n]);
    }
  }

  /** A single character: kept when it is ASCII, dropped otherwise. */
  lemma AsciiOnlyChar(c: char)
    ensures AsciiOnly([c]) == if IsAscii(c) then [c] else []
  {
    assert [c][..0] == [];
  }

  /**
   * The pass works left to right, so text that does not end in a space
   * collapses independently of what follows it.
   */
  lemma {:induction false} CollapseConcat(a: string, b: string)
    requires a == [] || a[|a| - 1] != ' '
    ensures CollapseSpacePairs(a + b) == CollapseSpacePairs(a) + CollapseSpacePairs(b)
    decreases |a|
  {
    if a == [] {
      assert a + b == b;
    } else if |a| >= 2 && a[0] == ' ' && a[1] == ' ' {
      var t := a[2..];
      assert a == "  " + t;
      CollapseConcat(t, b);
      CollapseConcatPair(t, b);
    } else {
      var c, t := a[0], a[1..];
      assert a == [c] + t;
      CollapseConcat(t, b);
      CollapseConcatKeep(c, t, b);
    }
  }

  /** The inductive step of `CollapseConcat` when the left part starts with a pair of spaces. */
  lemma CollapseConcatPair(t: string, b: string)
    requires CollapseSpacePairs(t + b) == CollapseSpacePairs(t) + CollapseSpacePairs(b)
    ensures CollapseSpacePairs("  " + t + b) == CollapseSpacePairs("  " + t) + CollapseSpacePairs(b)
  {
    ConcatAssoc("  ", t, b);
    CollapsePair(t + b);
    CollapsePair(t);
    ConcatAssoc(" ", CollapseSpacePairs(t), CollapseSpacePairs(b));
  }

  /** The inductive step of `CollapseConcat` when the left part starts with a kept character. */
  lemma CollapseConcatKeep(c: char, t: string, b: string)
    requires !(c == ' ' && t != [] && t[0] == ' ')
    requires t == [] ==> c != ' '
    requires CollapseSpacePairs(t + b) == CollapseSpacePairs(t) + CollapseSpacePairs(b)
    ensures CollapseSpacePairs([c] + t + b) == CollapseSpacePairs([c] + t) + CollapseSpacePairs(b)
  {
    ConcatAssoc([c], t, b);
    assert t != [] ==> (t + b)[0] == t[0];
    CollapseCons(c, t + b);
    CollapseCons(c, t);
    ConcatAssoc([c], CollapseSpacePairs(t), CollapseSpacePairs(b));
  }

  /** A first character that does not open a pair of spaces is kept. */
  lemma CollapseCons(c: char, u: string)
    requires !(c == ' ' && u != [] && u[0] == ' ')
    ensures CollapseSpacePairs([c] + u) == [c] + CollapseSpacePairs(u)
  {
    var s := [c] + u;
    assert s[0] == c && s[1..] == u;
    assert |s| >= 2 ==> s[1] == u[0];
  }

  lemma ConcatAssoc(x: string, y: string, z: string)
    ensures x + (y + z) == (x + y) + z
  {
  }

  /** One step of the pass: a leading pair becomes one space, any other first character is kept. */
  lemma CollapseStep(s: string)
    requires s != []
    ensures |s| >= 2 && s[0] == ' ' && s[1] == ' ' ==> CollapseSpacePairs(s) == [' '] + CollapseSpacePairs(s[2..])
    ensures !(|s| >= 2 && s[0] == ' ' && s[1] == ' ') ==> CollapseSpacePairs(s) == [s[0]] + CollapseSpacePairs(s[1..])
  {
  }

  /** A pair of spaces after text that does not end in a space becomes one space: "a  b" gives "a b". */
  lemma CollapseDoubleSpace(a: string, b: string)
    requires a == [] || a[|a| - 1] != ' '
    ensures CollapseSpacePairs(a + "  " + b) == CollapseSpacePairs(a) + " " + CollapseSpacePairs(b)
  {
    var p := "  " + b;
    assert a + "  " + b == a + p;
    CollapseConcat(a, p);
    CollapsePair(b);
  }

  /** A leading pair of spaces becomes one space. */
  lemma CollapsePair(b: string)
    ensures CollapseSpacePairs("  " + b) == " " + CollapseSpacePairs(b)
  {
    var p := "  " + b;
    assert |p| >= 2 && p[0] == ' ' && p[1] == ' ';
    assert p[2..] == b;
  }

  /** ASCII only, with no `_` or `-`. */
  predicate Clean(s: string)
  {
    forall i :: 0 <= i < |s| ==> IsAscii(s[i]) && s[i] != '_' && s[i] != '-'
  }

  /** Collapsing space pairs introduces no new kind of character. */
  lemma {:induction false} CollapseKeepsClean(s: string)
    requires Clean(s)
    ensures Clean(CollapseSpacePairs(s))
    decreases |s|
  {
    if |s| >= 2 && s[0] == ' ' && s[1] == ' ' {
      assert Clean(s[2..]) by {
        forall i | 0 <= i < |s[2..]| ensures IsAscii(s[2..][i]) && s[2..][i] != '_' && s[2..][i] != '-' {
          assert s[2..][i] == s[i + 2];
        }
      }
      CollapseKeepsClean(s[2..]);
    } else if s != [] {
      assert Clean(s[1..]) by {
        forall i | 0 <= i < |s[1..]| ensures IsAscii(s[1..][i]) && s[1..][i] != '_' && s[1..][i] != '-' {
          assert s[1..][i] == s[i + 1];
        }
      }
      CollapseKeepsClean(s[1..]);
    }
  }

  /**
   * `normalizar_nome`: decompose, drop the non-ASCII characters (the marks
   * among them), turn `_` and `-` into spaces, collapse space pairs once,
   * lowercase and strip.
   */
  function NormalizeName(nome: string): (r: string)
    ensures Stripped(r)
  {
    CleanupShape(AsciiOnly(Nfd(nome)));
    Cleanup(AsciiOnly(Nfd(nome)))
  }

  /**
   * Decomposing text made of ASCII and accented Latin-1 letters and then
   * dropping the non-ASCII characters leaves each character's base letter.
   */
  lemma {:induction false} AsciiNfdUnaccents(s: string)
    requires forall i :: 0 <= i < |s| ==> IsPrecomposed(s[i]) || IsAscii(s[i])
    ensures AsciiOnly(Nfd(s)) == Unaccented(s)
  {
    if s != [] {
      var c, t := s[0], s[1..];
      assert Nfd(s) == Decompose(c) + Nfd(t) by {
        assert s == [c] + t;
        NfdConcat([c], t);
        NfdChar(c);
      }
      AsciiOnlyConcat(Decompose(c), Nfd(t));
      AsciiDecomposeBase(c);
      AsciiNfdUnaccents(t);
      UnaccentedCons(c, t);
    }
  }

  /** One character of `AsciiNfdUnaccents`: what survives of its decomposition is its base letter. */
  lemma AsciiDecomposeBase(c: char)
    requires IsPrecomposed(c) || IsAscii(c)
    ensures AsciiOnly(Decompose(c)) == [Base(c)]
  {
    var d := Decompose(c);
    if |d| == 2 {
      assert d == [d[0]] + [d[1]];
      AsciiOnlyConcat([d[0]], [d[1]]);
      AsciiOnlyChar(d[0]);
      AsciiOnlyChar(d[1]);
    } else {
      AsciiOnlyChar(c);
    }
  }

  /**
   * A name the later steps leave alone: ASCII or accented letters, no `_` or
   * `-`, no pair of spaces, no whitespace at either end.
   */
  predicate PlainName(s: string)
  {
    (forall i :: 0 <= i < |s| ==> IsPrecomposed(s[i]) || (IsAscii(s[i]) && s[i] != '_' && s[i] != '-'))
    && NoSpacePair(s)
    && (s == [] || (!IsPySpace(s[0]) && !IsPySpace(s[|s| - 1])))
  }

  /** ASCII text without `_` or `-`, without a pair of spaces and without whitespace at either end. */
  predicate PlainAscii(u: string)
  {
    (forall i :: 0 <= i < |u| ==> IsAscii(u[i]) && u[i] != '_' && u[i] != '-')
    && NoSpacePair(u)
    && (u == [] || (!IsPySpace(u[0]) && !IsPySpace(u[|u| - 1])))
  }

  /** Removing the accents of a plain name leaves plain ASCII. */
  lemma UnaccentedPlain(s: string)
    requires PlainName(s)
    ensures PlainAscii(Unaccented(s))
  {
    var u := Unaccented(s);
    NoSpacePairSpaces(s, u);
  }

  /** The later steps of `normalizar_nome` only lowercase plain ASCII. */
  lemma CleanupPlain(u: string)
    requires PlainAscii(u)
    ensures Cleanup(u) == LowerAscii(u)
  {
    assert ReplaceChar(u, '_', ' ') == u;
    assert ReplaceChar(u, '-', ' ') == u;
    assert CollapseSpacePairs(u) == u;
    var l := LowerAscii(u);
    if l != [] {
      assert l[0] == LowerChar(u[0]) && l[|l| - 1] == LowerChar(u[|u| - 1]);
    }
    TrimByFixes(l, PyBlanks);
  }

  /** `normalizar_nome` removes the accents of a plain name and lowercases it ("Supíno Reto" gives "supino reto"). */
  lemma NormalizeNameRemovesAccents(s: string)
    requires PlainName(s)
    ensures NormalizeName(s) == LowerAscii(Unaccented(s))
  {
    AsciiNfdUnaccents(s);
    UnaccentedPlain(s);
    CleanupPlain(Unaccented(s));
  }

  /** An accented letter on its own becomes its lower-case base letter ("É" gives "e"). */
  lemma NormalizeNameAccentedLetter(c: char)
    requires IsPrecomposed(c)
    ensures NormalizeName([c]) == [LowerChar(Base(c))]
  {
    NormalizeNameRemovesAccents([c]);
  }

  /** On a plain name the builder's `normalizar_nome` and the front end's `normalizar` agree. */
  lemma PlainNamesFoldAlike(s: string)
    requires PlainName(s)
    ensures NormalizeName(s) == CatalogSearch.Normalize(s)
  {
    NormalizeNameRemovesAccents(s);
    CatalogSearch.NormalizeRemovesAccents(s);
    assert CatalogSearch.SeparatorsToSpaces(Unaccented(s)) == Unaccented(s);
  }

  /** The steps of `normalizar_nome` after the ASCII filter. */
  function Cleanup(a: string): string
  {
    TrimBy(LowerAscii(CollapseSpacePairs(ReplaceChar(ReplaceChar(a, '_', ' '), '-', ' '))), PyBlanks)
  }

  /** No ASCII capital letters. */
  predicate LowerCase(s: string)
  {
    forall i :: 0 <= i < |s| ==> !IsUpperAscii(s[i])
  }

  /** The shape of a finished name: clean, lower-case and with no whitespace at either end. */
  predicate Stripped(r: string)
  {
    Clean(r) && LowerCase(r) && (r == [] || (!IsPySpace(r[0]) && !IsPySpace(r[|r| - 1])))
  }

  /** Stripping keeps a stretch of the input, so it keeps its kinds of character. */
  lemma StripKeepsClean(d: string)
    requires Clean(d) && LowerCase(d)
    ensures Stripped(TrimBy(d, PyBlanks))
  {
    TrimBySlice(d, PyBlanks);
    TrimByEnds(d, PyBlanks);
  }

  /** Turning `_` and `-` into spaces leaves ASCII text clean. */
  lemma ReplaceMakesClean(a: string)
    requires forall i :: 0 <= i < |a| ==> IsAscii(a[i])
    ensures Clean(ReplaceChar(ReplaceChar(a, '_', ' '), '-', ' '))
  {
    var b := ReplaceChar(a, '_', ' ');
    var c := ReplaceChar(b, '-', ' ');
    forall i | 0 <= i < |c| ensures IsAscii(c[i]) && c[i] != '_' && c[i] != '-' {
      assert b[i] != '_';
    }
  }

  /** Lowercasing clean text keeps it clean and leaves no capitals. */
  lemma LowerKeepsClean(c: string)
    requires Clean(c)
    ensures Clean(LowerAscii(c)) && LowerCase(LowerAscii(c))
  {
    var d := LowerAscii(c);
    forall i | 0 <= i < |d| ensures IsAscii(d[i]) && d[i] != '_' && d[i] != '-' && !IsUpperAscii(d[i]) {
      assert d[i] == LowerChar(c[i]);
      assert IsAscii(c[i]) && c[i] != '_' && c[i] != '-';
    }
  }

  /** Cleaning up ASCII text yields lower-case ASCII without `_`, `-` or surrounding whitespace. */
  lemma CleanupShape(a: string)
    requires forall i :: 0 <= i < |a| ==> IsAscii(a[i])
    ensures Stripped(Cleanup(a))
  {
    var b := ReplaceChar(ReplaceChar(a, '_', ' '), '-', ' ');
    ReplaceMakesClean(a);
    CollapseKeepsClean(b);
    var d := LowerAscii(CollapseSpacePairs(b));
    LowerKeepsClean(CollapseSpacePairs(b));
    StripKeepsClean(d);
  }

  /** Names the builder writes are left unchanged by the front end's `normalizar`. */
  lemma FrontEndKeepsBuilderNames(nome: string)
    ensures CatalogSearch.Normalize(NormalizeName(nome)) == NormalizeName(nome)
  {
    var r := NormalizeName(nome);
    assert CatalogSearch.Folded(r);
    CatalogSearch.NormalizeFixesFolded(r);
  }

  /** On ASCII input the decomposition and the ASCII filter do nothing. */
  lemma NormalizeNameAscii(nome: string)
    requires forall i :: 0 <= i < |nome| ==> IsAscii(nome[i])
    ensures NormalizeName(nome) == Cleanup(nome)
  {
    NfdAscii(nome);
  }

  /** `n` spaces. */
  function Spaces(n: nat): (r: string)
    ensures |r| == n && forall i :: 0 <= i < n ==> r[i] == ' '
  {
    seq(n, i => ' ')
  }

  /**
   * Only one pass: a run of `n` spaces becomes `ceil(n / 2)` spaces, so a
   * run of three or more separators still leaves a double space.
   */
  lemma {:induction false} CollapseSpaceRun(n: nat)
    ensures CollapseSpacePairs(Spaces(n)) == Spaces((n + 1) / 2)
  {
    if n >= 2 {
      assert Spaces(n)[2..] == Spaces(n - 2);
      CollapseSpaceRun(n - 2);
      assert [' '] + Spaces((n - 1) / 2) == Spaces((n + 1) / 2);
    } else if n == 1 {
      assert Spaces(1)[1..] == [];
    }
  }

  // ---------------------------------------------------------------------------
  // File names
  // ---------------------------------------------------------------------------

  /** The position of the last `.` in `s`, if any. */
  function LastDot(s: string): (r: int)
    ensures -1 <= r < |s|
    ensures r >= 0 ==> s[r] == '.'
    ensures forall i :: r < i < |s| ==> s[i] != '.'
  {
    if s == [] then -1
    else if s[|s| - 1] == '.' then |s| - 1
    else LastDot(s[..|s| - 1])
  }

  /**
   * `os.path.splitext(f)[0]`: `f` up to its last dot, unless everything
   * before that dot is dots too (a leading-dot name has no extension).
   */
  function Stem(f: string): (r: string)
    ensures r <= f
  {
    var dot := LastDot(f);
    if dot >= 0 && exists i :: 0 <= i < dot && f[i] != '.' then f[..dot] else f
  }

  /** `f.lower().endswith(".gif") and not f.startswith("._")`. */
  predicate IsGifName(f: string)
  {
    |f| >= 4 && LowerAscii(f[|f| - 4..]) == ".gif" && !("._" <= f)
  }

  /** A `.gif` file's stem is its name without the last four characters, unless the name is all dots before them. */
  lemma StemOfGif(f: string)
    requires IsGifName(f)
    ensures (exists i :: 0 <= i < |f| - 4 && f[i] != '.') ==> Stem(f) == f[..|f| - 4]
    ensures (forall i :: 0 <= i < |f| - 4 ==> f[i] == '.') ==> Stem(f) == f
  {
    assert f[|f| - 4] == '.' by {
      assert LowerAscii(f[|f| - 4..])[0] == LowerChar(f[|f| - 4]);
    }
    forall i | |f| - 4 < i < |f| ensures f[i] != '.' {
      assert LowerAscii(f[|f| - 4..])[i - (|f| - 4)] == LowerChar(f[i]);
    }
  }

  // ---------------------------------------------------------------------------
  // main
  // ---------------------------------------------------------------------------

  /** One name in `public/gifs`: whether it is a folder, and the names inside it. */
  datatype DirEntry = DirEntry(name: string, isDir: bool, files: seq<string>)

  /** The list comprehension `gifs`: the GIF files of a folder, in listing order. */
  function GifFiles(files: seq<string>): (r: seq<string>)
    ensures forall i :: 0 <= i < |r| ==> IsGifName(r[i]) && r[i] in files
    ensures forall f :: f in r <==> f in files && IsGifName(f)
  {
    if files == [] then []
    else
      var rest := GifFiles(files[..|files| - 1]);
      assert forall f :: f in files[..|files| - 1] ==> f in files;
      rest + (if IsGifName(files[|files| - 1]) then [files[|files| - 1]] else [])
  }

  /** The filter keeps the listing order: it distributes over concatenation. */
  lemma {:induction false} GifFilesConcat(a: seq<string>, b: seq<string>)
    ensures GifFiles(a + b) == GifFiles(a) + GifFiles(b)
    decreases |b|
  {
    if b == [] {
      assert a + b == a;
    } else {
      var n := |b| - 1;
      assert (a + b)[..|a + b| - 1] == a + b[..n];
      assert (a + b)[|a + b| - 1] == b[n];
      GifFilesConcat(a, b[..n]);
    }
  }

  /**
   * The entry written for GIF file `gif` of folder `categoria`; `normalize`
   * is the name clean-up, which `main` fixes to `NormalizeName`.
   */
  function EntryFor(categoria: string, gif: string, normalize: string -> string): Entry
  {
    Entry(normalize(Stem(gif)), "/gifs/" + categoria + "/" + gif)
  }

  /** The entries of a folder in file order, before sorting. */
  function EntriesOf(categoria: string, gifs: seq<string>, normalize: string -> string): (r: seq<Entry>)
    ensures |r| == |gifs|
  {
    if gifs == [] then []
    else EntriesOf(categoria, gifs[..|gifs| - 1], normalize) + [EntryFor(categoria, gifs[|gifs| - 1], normalize)]
  }

  /** Entry `i` is the one written for file `i`. */
  lemma {:induction false} EntriesOfAt(categoria: string, gifs: seq<string>, normalize: string -> string, i: nat)
    requires i < |gifs|
    ensures EntriesOf(categoria, gifs, normalize)[i] == EntryFor(categoria, gifs[i], normalize)
  {
    if i < |gifs| - 1 {
      EntriesOfAt(categoria, gifs[..|gifs| - 1], normalize, i);
    }
  }

  function NameOf(d: DirEntry): string { d.name }

  function NomeOf(e: Entry): string { e.nome }

  /** A folder with at least one GIF; other names are skipped. */
  predicate Qualifies(d: DirEntry)
  {
    d.isDir && GifFiles(d.files) != []
  }

  /** The group a qualifying folder contributes: its entries sorted by name. */
  function GroupFor(d: DirEntry, normalize: string -> string): Group
  {
    Group(d.name, SortBy(EntriesOf(d.name, GifFiles(d.files), normalize), NomeOf))
  }

  /** `[f(x) for x in xs if keep(x)]`, in the order of `xs`. */
  function KeepMap<A, B>(xs: seq<A>, keep: A -> bool, f: A -> B): (r: seq<B>)
    ensures |r| <= |xs|
  {
    if xs == [] then []
    else KeepMap(xs[..|xs| - 1], keep, f) + (if keep(xs[|xs| - 1]) then [f(xs[|xs| - 1])] else [])
  }

  /** The comprehension yields exactly the images of the kept elements. */
  lemma {:induction false} KeepMapMembers<A, B>(xs: seq<A>, keep: A -> bool, f: A -> B, y: B)
    ensures y in KeepMap(xs, keep, f) <==> exists x :: x in xs && keep(x) && y == f(x)
  {
    if xs != [] {
      var init, last := xs[..|xs| - 1], xs[|xs| - 1];
      KeepMapMembers(init, keep, f, y);
      assert xs == init + [last];
      if y in KeepMap(xs, keep, f) {
        if y in KeepMap(init, keep, f) {
          var x :| x in init && keep(x) && y == f(x);
          assert x in xs;
        } else {
          assert last in xs && keep(last) && y == f(last);
        }
      }
      if exists x :: x in xs && keep(x) && y == f(x) {
        var x :| x in xs && keep(x) && y == f(x);
        if x !in init {
          assert x == last;
        }
      }
    }
  }

  /** Every element of the comprehension is the image of an element of `xs`. */
  lemma {:induction false} KeepMapLast<A, B>(xs: seq<A>, keep: A -> bool, f: A -> B)
    ensures var r := KeepMap(xs, keep, f);
      r != [] ==> exists i :: 0 <= i < |xs| && r[|r| - 1] == f(xs[i])
  {
    if xs != [] {
      var init := xs[..|xs| - 1];
      KeepMapLast(init, keep, f);
      var r0 := KeepMap(init, keep, f);
      if !keep(xs[|xs| - 1]) && r0 != [] {
        var i :| 0 <= i < |init| && r0[|r0| - 1] == f(init[i]);
        assert xs[i] == init[i];
      }
    }
  }

  /** Keeping a key-sorted list's elements keeps them sorted when `f` preserves the key. */
  lemma {:induction false} KeepMapSorted<A, B>(xs: seq<A>, keep: A -> bool, f: A -> B, keyA: A -> string, keyB: B -> string)
    requires SortedBy(xs, keyA)
    requires forall x :: keyB(f(x)) == keyA(x)
    ensures SortedBy(KeepMap(xs, keep, f), keyB)
  {
    if xs != [] {
      var init, last := xs[..|xs| - 1], xs[|xs| - 1];
      SortedInit(xs, keyA);
      KeepMapSorted(init, keep, f, keyA, keyB);
      var before := KeepMap(init, keep, f);
      if keep(last) && before != [] {
        KeepMapLast(init, keep, f);
        var i :| 0 <= i < |init| && before[|before| - 1] == f(init[i]);
        assert xs[i] == init[i];
        SortedByPairs(xs, keyA, i, |xs| - 1);
        var after := before + [f(last)];
        forall j | 0 <= j < |after| - 1 ensures InOrderAt(after, keyB, j) {
          if j + 1 < |before| {
            assert after[j] == before[j] && after[j + 1] == before[j + 1];
            assert InOrderAt(before, keyB, j);
          }
        }
        assert KeepMap(xs, keep, f) == after;
      } else if !keep(last) {
        assert KeepMap(xs, keep, f) == before + [];
        assert before + [] == before;
      }
    }
  }

  /** `GroupFor` as a function value. */
  function GroupWith(normalize: string -> string): DirEntry -> Group
  {
    (d: DirEntry) => GroupFor(d, normalize)
  }

  /** The groups of the folders `cats`, in folder order. */
  function GroupsOf(cats: seq<DirEntry>, normalize: string -> string): seq<Group>
  {
    KeepMap(cats, Qualifies, GroupWith(normalize))
  }

  /** The catalog `main` writes for the listing of `public/gifs`, names cleaned up by `normalize`. */
  function CatalogOf(listing: seq<DirEntry>, normalize: string -> string): (r: Catalog)
    ensures SortedBy(r, GroupName)
  {
    GroupsOfOrdered(SortBy(listing, NameOf), normalize);
    GroupsOf(SortBy(listing, NameOf), normalize)
  }

  /**
   * The inner loop of `main`: one entry per GIF file, in file order, named
   * by `normalize` (which `main` fixes to `NormalizeName`).
   */
  method FolderEntries(categoria: string, gifs: seq<string>, normalize: string -> string) returns (lista: seq<Entry>)
    ensures lista == EntriesOf(categoria, gifs, normalize)
  {
    lista := [];
    var k := 0;
    while k < |gifs|
      invariant 0 <= k <= |gifs|
      invariant lista == EntriesOf(categoria, gifs[..k], normalize)
    {
      var gif := gifs[k];
      var nomeLimpo := Stem(gif);
      var nomeNormalizado := normalize(nomeLimpo);
      assert gifs[..k + 1][..k] == gifs[..k];
      lista := lista + [Entry(nomeNormalizado, "/gifs/" + categoria + "/" + gif)];
      k := k + 1;
    }
    assert gifs[..k] == gifs;
  }

  /** `main`: loops over the sorted folders and, in each, over its GIF files. */
  method BuildCatalog(listing: seq<DirEntry>) returns (resultado: Catalog)
    ensures resultado == CatalogOf(listing, NormalizeName)
  {
    var cats := SortBy(listing, NameOf);
    resultado := [];
    var g := 0;
    while g < |cats|
      invariant 0 <= g <= |cats|
      invariant resultado == GroupsOf(cats[..g], NormalizeName)
    {
      var categoria := cats[g];
      assert cats[..g + 1][..g] == cats[..g];
      if categoria.isDir {
        var lista := FolderEntries(categoria.name, GifFiles(categoria.files), NormalizeName);
        if lista != [] {
          resultado := resultado + [Group(categoria.name, SortBy(lista, NomeOf))];
        }
      }
      g := g + 1;
    }
    assert cats[..g] == cats;
  }

  /**
   * A group is in the catalog exactly when the listing has a folder of that
   * name with at least one GIF; its entries are that folder's GIFs, sorted by
   * name.
   */
  lemma GroupsOfMembers(cats: seq<DirEntry>, normalize: string -> string, grp: Group)
    ensures grp in GroupsOf(cats, normalize) <==> exists d :: d in cats && Qualifies(d) && grp == GroupFor(d, normalize)
  {
    KeepMapMembers(cats, Qualifies, GroupWith(normalize), grp);
  }

  /** Every group of the catalog is non-empty and sorted by name, and every entry is a GIF of that folder. */
  lemma CatalogGroupsWellFormed(listing: seq<DirEntry>, normalize: string -> string, g: nat)
    requires g < |CatalogOf(listing, normalize)|
    ensures var grp := CatalogOf(listing, normalize)[g];
      grp.entries != [] && SortedBy(grp.entries, NomeOf)
      && exists d :: d in listing && d.isDir && d.name == grp.name
           && multiset(grp.entries) == multiset(EntriesOf(d.name, GifFiles(d.files), normalize))
  {
    var cats := SortBy(listing, NameOf);
    var grp := CatalogOf(listing, normalize)[g];
    GroupsOfMembers(cats, normalize, grp);
    var d :| d in cats && Qualifies(d) && grp == GroupFor(d, normalize);
    SortByPermutes(listing, NameOf);
    SortByPermutes(EntriesOf(d.name, GifFiles(d.files), normalize), NomeOf);
    assert d in multiset(cats);
  }

  /** Every folder of the listing with at least one GIF has its group in the catalog. */
  lemma CatalogComplete(listing: seq<DirEntry>, normalize: string -> string, d: DirEntry)
    requires d in listing && Qualifies(d)
    ensures GroupFor(d, normalize) in CatalogOf(listing, normalize)
  {
    var cats := SortBy(listing, NameOf);
    SortByPermutes(listing, NameOf);
    assert d in multiset(listing);
    assert d in cats;
    GroupsOfMembers(cats, normalize, GroupFor(d, normalize));
  }

  /** Each entry's URL is `/gifs/<folder>/<file>` and its name the cleaned-up stem of that file. */
  lemma EntryShape(categoria: string, gifs: seq<string>, normalize: string -> string, e: Entry)
    requires e in multiset(EntriesOf(categoria, gifs, normalize))
    ensures exists i :: 0 <= i < |gifs| && e.url == "/gifs/" + categoria + "/" + gifs[i]
                        && e.nome == normalize(Stem(gifs[i]))
  {
    var r := EntriesOf(categoria, gifs, normalize);
    assert e in r;
    var i :| 0 <= i < |r| && r[i] == e;
    EntriesOfAt(categoria, gifs, normalize, i);
  }

  function GroupName(grp: Group): string { grp.name }

  /** The groups come out in folder-name order when the folders are sorted. */
  lemma GroupsOfOrdered(cats: seq<DirEntry>, normalize: string -> string)
    requires SortedBy(cats, NameOf)
    ensures SortedBy(GroupsOf(cats, normalize), GroupName)
  {
    forall d: DirEntry ensures GroupName(GroupWith(normalize)(d)) == NameOf(d) {
    }
    KeepMapSorted(cats, Qualifies, GroupWith(normalize), NameOf, GroupName);
  }
}
