/**
 * Exercise lookup in the front end (src/App.jsx): name folding (`normalizar`),
 * the interactive search over the catalog, and the image lookup used for
 * generated workouts (`procurarGif`).
 */
module CatalogSearch {
  import opened Wrappers
  import opened Strings
  import opened Unicode
  import opened GifsJson

  // ---------------------------------------------------------------------------
  // normalizar
  // ---------------------------------------------------------------------------

  /** Removes every combining diacritical mark (`replace(/[̀-ͯ]/g, "")`). */
  function StripMarks(s: string): (r: string)
    ensures |r| <= |s|
    ensures forall i :: 0 <= i < |r| ==> !IsCombiningMark(r[i]) && r[i] in s
    ensures (forall i :: 0 <= i < |s| ==> !IsCombiningMark(s[i])) ==> r == s
  {
    if s == [] then []
    else
      var rest := StripMarks(s[1..]);
      assert forall c :: c in s[1..] ==> c in s;
      if IsCombiningMark(s[0]) then rest
      else
        assert s == [s[0]] + s[1..];
        [s[0]] + rest
  }

  /** Mark removal works character by character: it distributes over concatenation. */
  lemma {:induction false} StripMarksConcat(a: string, b: string)
    ensures StripMarks(a + b) == StripMarks(a) + StripMarks(b)
  {
    if a == [] {
      assert a + b == b;
    } else {
      assert (a + b)[0] == a[0];
      assert (a + b)[1..] == a[1..] + b;
      StripMarksConcat(a[1..], b);
    }
  }

  /** A single character: a combining mark is dropped, anything else kept. */
  lemma StripMarksChar(c: char)
    ensures StripMarks([c]) == if IsCombiningMark(c) then [] else [c]
  {
    assert [c][1..] == [];
  }

  /**
   * Decomposing text that holds no combining mark and then dropping the marks
   * leaves each character's base letter: the accents are removed.
   */
  lemma {:induction false} StripNfdUnaccents(s: string)
    requires forall i :: 0 <= i < |s| ==> !IsCombiningMark(s[i])
    ensures StripMarks(Nfd(s)) == Unaccented(s)
  {
    if s != [] {
      var c, t := s[0], s[1..];
      assert s == [c] + t;
      StripNfdUnaccents(t);
      StripNfdUnaccentsCons(c, t);
    }
  }

  /** The inductive step of `StripNfdUnaccents`: one more leading character. */
  lemma StripNfdUnaccentsCons(c: char, t: string)
    requires !IsCombiningMark(c)
    requires StripMarks(Nfd(t)) == Unaccented(t)
    ensures StripMarks(Nfd([c] + t)) == Unaccented([c] + t)
  {
    assert Nfd([c] + t) == Decompose(c) + Nfd(t) by {
      NfdConcat([c], t);
      NfdChar(c);
    }
    StripMarksConcat(Decompose(c), Nfd(t));
    StripDecomposeBase(c);
    UnaccentedCons(c, t);
  }

  /** One character of `StripNfdUnaccents`: what survives of its decomposition is its base letter. */
  lemma StripDecomposeBase(c: char)
    requires !IsCombiningMark(c)
    ensures StripMarks(Decompose(c)) == [Base(c)]
  {
    var d := Decompose(c);
    if |d| == 2 {
      assert d == [d[0]] + [d[1]];
      StripMarksConcat([d[0]], [d[1]]);
      StripMarksChar(d[0]);
      StripMarksChar(d[1]);
    } else {
      StripMarksChar(c);
    }
  }

  /** Turns every underscore and hyphen into a space (`replace(/[_-]/g, " ")`). */
  function SeparatorsToSpaces(s: string): (r: string)
    ensures |r| == |s|
    ensures forall i :: 0 <= i < |s| ==> r[i] == (if s[i] == '_' || s[i] == '-' then ' ' else s[i])
  {
    seq(|s|, i requires 0 <= i < |s| => if s[i] == '_' || s[i] == '-' then ' ' else s[i])
  }

  /**
   * The normal form produced by `Normalize`: fully decomposed, no combining
   * marks, no underscores or hyphens, no capital ASCII letters.
   */
  predicate Folded(t: string)
  {
    forall i :: 0 <= i < |t| ==>
      IsDecomposed(t[i]) && !IsCombiningMark(t[i]) && t[i] != '_' && t[i] != '-' && !IsUpperAscii(t[i])
  }

  /**
   * `normalizar`: canonical decomposition, then the combining marks are
   * dropped, `_` and `-` become spaces, and the text is lowercased.
   */
  function Normalize(s: string): (r: string)
    ensures Folded(r)
  {
    var t := SeparatorsToSpaces(StripMarks(Nfd(s)));
    assert forall i :: 0 <= i < |t| ==> IsDecomposed(t[i]);
    LowerAscii(t)
  }

  /**
   * On text without stray combining marks, `normalizar` removes the accents
   * (each letter becomes its base letter), turns `_` and `-` into spaces and
   * lowercases: "Supíno_Reto" and "supino reto" fold alike.
   */
  lemma NormalizeRemovesAccents(s: string)
    requires forall i :: 0 <= i < |s| ==> !IsCombiningMark(s[i])
    ensures Normalize(s) == LowerAscii(SeparatorsToSpaces(Unaccented(s)))
  {
    StripNfdUnaccents(s);
  }

  /** An accented letter folds to its lower-case base letter ("É" to "e"). */
  lemma NormalizeAccentedLetter(c: char)
    requires IsPrecomposed(c)
    ensures Normalize([c]) == [LowerChar(Base(c))]
  {
    NormalizeRemovesAccents([c]);
  }

  /** `normalizar` works character by character: it distributes over concatenation. */
  lemma NormalizeConcat(a: string, b: string)
    ensures Normalize(a + b) == Normalize(a) + Normalize(b)
  {
    NfdConcat(a, b);
    StripMarksConcat(Nfd(a), Nfd(b));
    var x, y := StripMarks(Nfd(a)), StripMarks(Nfd(b));
    SeparatorsToSpacesConcat(x, y);
    LowerAsciiConcat(SeparatorsToSpaces(x), SeparatorsToSpaces(y));
  }

  /** Replacing separators works character by character. */
  lemma SeparatorsToSpacesConcat(x: string, y: string)
    ensures SeparatorsToSpaces(x + y) == SeparatorsToSpaces(x) + SeparatorsToSpaces(y)
  {
    assert forall i :: 0 <= i < |x + y| ==> SeparatorsToSpaces(x + y)[i] == (SeparatorsToSpaces(x) + SeparatorsToSpaces(y))[i];
  }

  /** Lowercasing works character by character. */
  lemma LowerAsciiConcat(x: string, y: string)
    ensures LowerAscii(x + y) == LowerAscii(x) + LowerAscii(y)
  {
    assert forall i :: 0 <= i < |x + y| ==> LowerAscii(x + y)[i] == (LowerAscii(x) + LowerAscii(y))[i];
  }

  /** A folded string is its own normal form. */
  lemma NormalizeFixesFolded(t: string)
    requires Folded(t)
    ensures Normalize(t) == t
  {
    NfdFixes(t);
    assert StripMarks(t) == t;
    assert SeparatorsToSpaces(t) == t;
    LowerAsciiFixes(t);
  }

  /** Normalising twice is the same as normalising once. */
  lemma NormalizeIdempotent(s: string)
    ensures Normalize(Normalize(s)) == Normalize(s)
  {
    NormalizeFixesFolded(Normalize(s));
  }

  /** On ASCII text `normalizar` only turns separators into spaces and lowercases. */
  lemma NormalizeAscii(s: string)
    requires forall i :: 0 <= i < |s| ==> IsAscii(s[i])
    ensures Normalize(s) == LowerAscii(SeparatorsToSpaces(s))
  {
    NfdAscii(s);
  }

  // ---------------------------------------------------------------------------
  // The search effect
  //
  // The search and the image lookup below take the name-folding function as a
  // parameter `fold`; the application passes `Normalize`.
  // ---------------------------------------------------------------------------

  /** One search result: its list key, group, image URL and name. */
  datatype Hit = Hit(key: string, grupo: string, file: string, nome: string)

  /** The result shown for entry `e` of group `grupo`, keyed `grupo::nome`. */
  function HitOf(grupo: string, e: Entry): Hit
  {
    Hit(grupo + "::" + e.nome, grupo, e.url, e.nome)
  }

  /** The search result list for one group: its matching entries, in list order. */
  function GroupHits(grupo: string, entries: seq<Entry>, q: string, fold: string -> string): seq<Hit>
  {
    if entries == [] then []
    else
      var e := entries[|entries| - 1];
      GroupHits(grupo, entries[..|entries| - 1], q, fold)
        + (if Contains(fold(e.nome), q) then [HitOf(grupo, e)] else [])
  }

  /** The search result list for a catalog: group after group, in key order. */
  function CatalogHits(catalog: Catalog, q: string, fold: string -> string): seq<Hit>
  {
    if catalog == [] then []
    else
      var g := catalog[|catalog| - 1];
      CatalogHits(catalog[..|catalog| - 1], q, fold) + GroupHits(g.name, g.entries, q, fold)
  }

  /** What the search list shows for the text `busca`. */
  function SearchResults(catalog: Catalog, busca: string, fold: string -> string): seq<Hit>
  {
    if TrimJs(busca) == [] then [] else CatalogHits(catalog, fold(busca), fold)
  }

  /** The search effect: nested loops pushing every matching entry onto `out`. */
  method Search(catalog: Catalog, busca: string, fold: string -> string) returns (out: seq<Hit>)
    ensures out == SearchResults(catalog, busca, fold)
  {
    if TrimJs(busca) == [] {
      return [];
    }
    var q := fold(busca);
    out := [];
    var g := 0;
    while g < |catalog|
      invariant 0 <= g <= |catalog|
      invariant out == CatalogHits(catalog[..g], q, fold)
    {
      var grupo := catalog[g].name;
      var lista := catalog[g].entries;
      var k := 0;
      while k < |lista|
        invariant 0 <= k <= |lista|
        invariant out == CatalogHits(catalog[..g], q, fold) + GroupHits(grupo, lista[..k], q, fold)
      {
        var ex := lista[k];
        if Contains(fold(ex.nome), q) {
          out := out + [HitOf(grupo, ex)];
        }
        assert lista[..k + 1][..k] == lista[..k];
        k := k + 1;
      }
      assert lista[..k] == lista;
      assert catalog[..g + 1][..g] == catalog[..g];
      g := g + 1;
    }
    assert catalog[..g] == catalog;
  }

  /** A blank (empty or all-whitespace) query shows nothing. */
  lemma SearchBlank(catalog: Catalog, busca: string, fold: string -> string)
    requires AllBy(busca, JsBlanks)
    ensures SearchResults(catalog, busca, fold) == []
  {
    TrimByEmpty(busca, JsBlanks);
  }

  /** Entry `k` of group `grupo` has a folded name containing `q`, and `h` is its result. */
  predicate HitAt(grupo: string, entries: seq<Entry>, k: int, q: string, fold: string -> string, h: Hit)
  {
    0 <= k < |entries| && Contains(fold(entries[k].nome), q) && h == HitOf(grupo, entries[k])
  }

  /** The results of one group are exactly its entries whose folded name contains `q`. */
  lemma {:induction false} GroupHitsMembership(grupo: string, entries: seq<Entry>, q: string, fold: string -> string, h: Hit)
    ensures h in GroupHits(grupo, entries, q, fold) <==> exists k :: HitAt(grupo, entries, k, q, fold, h)
    decreases |entries|
  {
    if entries != [] {
      var n := |entries| - 1;
      var init := entries[..n];
      var e := entries[n];
      var tail := if Contains(fold(e.nome), q) then [HitOf(grupo, e)] else [];
      assert GroupHits(grupo, entries, q, fold) == GroupHits(grupo, init, q, fold) + tail;
      GroupHitsMembership(grupo, init, q, fold, h);
      assert h in tail <==> HitAt(grupo, entries, n, q, fold, h);
      if exists k :: HitAt(grupo, init, k, q, fold, h) {
        var k :| HitAt(grupo, init, k, q, fold, h);
        assert init[k] == entries[k];
        assert HitAt(grupo, entries, k, q, fold, h);
      }
      if exists k :: HitAt(grupo, entries, k, q, fold, h) {
        var k :| HitAt(grupo, entries, k, q, fold, h);
        if k < n {
          assert init[k] == entries[k];
          assert HitAt(grupo, init, k, q, fold, h);
        }
      }
    }
  }

  /**
   * A result appears exactly when some entry of some group has a folded name
   * containing `q`; it is then keyed `grupo::nome` and carries that entry's URL.
   */
  lemma {:induction false} CatalogHitsMembership(catalog: Catalog, q: string, fold: string -> string, h: Hit)
    ensures h in CatalogHits(catalog, q, fold) <==>
      exists g, k :: 0 <= g < |catalog| && HitAt(catalog[g].name, catalog[g].entries, k, q, fold, h)
    decreases |catalog|
  {
    if catalog != [] {
      var n := |catalog| - 1;
      var init, last := catalog[..n], catalog[n];
      CatalogHitsMembership(init, q, fold, h);
      GroupHitsMembership(last.name, last.entries, q, fold, h);
      assert CatalogHits(catalog, q, fold) == CatalogHits(init, q, fold) + GroupHits(last.name, last.entries, q, fold);
      if h in CatalogHits(catalog, q, fold) {
        if h in CatalogHits(init, q, fold) {
          var g, k :| 0 <= g < n && HitAt(init[g].name, init[g].entries, k, q, fold, h);
          assert init[g] == catalog[g];
          assert 0 <= g < |catalog| && HitAt(catalog[g].name, catalog[g].entries, k, q, fold, h);
        } else {
          var k :| HitAt(last.name, last.entries, k, q, fold, h);
          assert 0 <= n < |catalog| && HitAt(catalog[n].name, catalog[n].entries, k, q, fold, h);
        }
      }
      if exists g, k :: 0 <= g < |catalog| && HitAt(catalog[g].name, catalog[g].entries, k, q, fold, h) {
        var g, k :| 0 <= g < |catalog| && HitAt(catalog[g].name, catalog[g].entries, k, q, fold, h);
        if g < n {
          assert init[g] == catalog[g];
          assert HitAt(init[g].name, init[g].entries, k, q, fold, h);
          assert h in CatalogHits(init, q, fold);
        } else {
          assert h in GroupHits(last.name, last.entries, q, fold);
        }
      }
    }
  }

  /** What the search shows for a non-blank query, stated without the result list's construction. */
  lemma SearchMembership(catalog: Catalog, busca: string, fold: string -> string, h: Hit)
    requires !AllBy(busca, JsBlanks)
    ensures h in SearchResults(catalog, busca, fold) <==>
      exists g, k :: 0 <= g < |catalog| && HitAt(catalog[g].name, catalog[g].entries, k, fold(busca), fold, h)
  {
    TrimByEmpty(busca, JsBlanks);
    CatalogHitsMembership(catalog, fold(busca), fold, h);
  }

  // ---------------------------------------------------------------------------
  // procurarGif
  // ---------------------------------------------------------------------------

  /** The predicate of `lista.find`: the folded name equals or contains the target. */
  predicate Matches(nome: string, alvo: string, fold: string -> string)
  {
    fold(nome) == alvo || Contains(fold(nome), alvo)
  }

  /** The equality test is subsumed by containment. */
  lemma MatchesIsContains(nome: string, alvo: string, fold: string -> string)
    ensures Matches(nome, alvo, fold) <==> Contains(fold(nome), alvo)
  {
    if fold(nome) == alvo {
      ContainsInfix([], alvo, []);
      assert [] + alvo + [] == alvo;
    }
  }

  /** `gifsMap[grupo]`: the position of the group with that key. */
  function GroupIndex(catalog: Catalog, grupo: string): (r: Option<nat>)
    ensures r.Some? ==> r.value < |catalog| && catalog[r.value].name == grupo
    ensures forall g :: 0 <= g < |catalog| && (r.None? || g < r.value) ==> catalog[g].name != grupo
  {
    if catalog == [] then None
    else if catalog[0].name == grupo then Some(0)
    else match GroupIndex(catalog[1..], grupo)
      case None => None
      case Some(g) => Some(g + 1)
  }

  /** `lista.find(...)`: the position of the first entry matching `alvo`. */
  function FirstMatch(entries: seq<Entry>, alvo: string, fold: string -> string): (r: Option<nat>)
    ensures r.Some? ==> r.value < |entries| && Matches(entries[r.value].nome, alvo, fold)
    ensures forall k :: 0 <= k < |entries| && (r.None? || k < r.value) ==> !Matches(entries[k].nome, alvo, fold)
  {
    if entries == [] then None
    else if Matches(entries[0].nome, alvo, fold) then Some(0)
    else match FirstMatch(entries[1..], alvo, fold)
      case None => None
      case Some(k) => Some(k + 1)
  }

  /** The first group, in key order, that has an entry matching `alvo`. */
  function FirstGroupWithMatch(catalog: Catalog, alvo: string, fold: string -> string): (r: Option<nat>)
    ensures r.Some? ==> r.value < |catalog| && FirstMatch(catalog[r.value].entries, alvo, fold).Some?
    ensures forall g :: 0 <= g < |catalog| && (r.None? || g < r.value) ==> FirstMatch(catalog[g].entries, alvo, fold).None?
  {
    if catalog == [] then None
    else if FirstMatch(catalog[0].entries, alvo, fold).Some? then Some(0)
    else match FirstGroupWithMatch(catalog[1..], alvo, fold)
      case None => None
      case Some(g) => Some(g + 1)
  }

  /** A group with a match after groups without one is the first group with a match. */
  lemma FirstGroupWithMatchAt(catalog: Catalog, alvo: string, fold: string -> string, g: nat)
    requires g < |catalog| && FirstMatch(catalog[g].entries, alvo, fold).Some?
    requires forall h :: 0 <= h < g ==> FirstMatch(catalog[h].entries, alvo, fold).None?
    ensures FirstGroupWithMatch(catalog, alvo, fold) == Some(g)
  {
  }

  /** The group named `grupo`, when `grupo` is non-empty and such a group exists. */
  function NamedGroup(catalog: Catalog, grupo: string): Option<nat>
  {
    if grupo == [] then None else GroupIndex(catalog, grupo)
  }

  /**
   * The members every plain object inherits from `Object.prototype`. When no
   * group has such a key, `gifsMap[grupo]` is that member: a function, or for
   * `__proto__` the prototype object itself, truthy either way and without
   * a `find` method.
   */
  const InheritedKeys: set<string> := {
    "constructor", "hasOwnProperty", "isPrototypeOf", "propertyIsEnumerable",
    "toLocaleString", "toString", "valueOf", "__defineGetter__",
    "__defineSetter__", "__lookupGetter__", "__lookupSetter__", "__proto__"
  }

  /** `gifsMap[grupo].find(...)` throws a TypeError: `grupo` names an inherited member, not a group. */
  predicate LookupThrows(catalog: Catalog, grupo: string)
  {
    grupo in InheritedKeys && GroupIndex(catalog, grupo).None?
  }

  /**
   * `procurarGif(nome, grupo)`: the URL of the first entry of group `grupo`
   * that matches; else the first matching entry of any group; else the first
   * URL of group `grupo`; else the first URL of the first group; else "".
   * `None` when the lookup in group `grupo` throws.
   */
  function GifFor(catalog: Catalog, nome: string, grupo: string, fold: string -> string): (r: Option<string>)
    ensures r.None? <==> LookupThrows(catalog, grupo)
    ensures r.Some? ==>
              (r.value == "" || exists g, k :: 0 <= g < |catalog| && 0 <= k < |catalog[g].entries|
                                                && r.value == catalog[g].entries[k].url)
    ensures catalog == [] && r.Some? ==> r.value == ""
  {
    var alvo := fold(nome);
    var named := NamedGroup(catalog, grupo);
    if LookupThrows(catalog, grupo) then None
    else if named.Some? && FirstMatch(catalog[named.value].entries, alvo, fold).Some? then
      Some(catalog[named.value].entries[FirstMatch(catalog[named.value].entries, alvo, fold).value].url)
    else if FirstGroupWithMatch(catalog, alvo, fold).Some? then
      var g := FirstGroupWithMatch(catalog, alvo, fold).value;
      Some(catalog[g].entries[FirstMatch(catalog[g].entries, alvo, fold).value].url)
    else if named.Some? && catalog[named.value].entries != [] then
      Some(catalog[named.value].entries[0].url)
    else if catalog != [] && catalog[0].entries != [] then
      Some(catalog[0].entries[0].url)
    else Some("")
  }

  /** `procurarGif` as written: a lookup in the named group, then a loop over all groups with an early return. */
  method FindGif(catalog: Catalog, nome: string, grupo: string, fold: string -> string) returns (url: Option<string>)
    ensures url == GifFor(catalog, nome, grupo, fold)
  {
    var alvo := fold(nome);
    var named := NamedGroup(catalog, grupo);
    if named.None? && grupo in InheritedKeys {
      return None;
    }
    if named.Some? {
      var hit := FirstMatch(catalog[named.value].entries, alvo, fold);
      if hit.Some? {
        return Some(catalog[named.value].entries[hit.value].url);
      }
    }
    var g := 0;
    while g < |catalog|
      invariant 0 <= g <= |catalog|
      invariant forall h :: 0 <= h < g ==> FirstMatch(catalog[h].entries, alvo, fold).None?
    {
      var hit := FirstMatch(catalog[g].entries, alvo, fold);
      if hit.Some? {
        FirstGroupWithMatchAt(catalog, alvo, fold, g);
        return Some(catalog[g].entries[hit.value].url);
      }
      g := g + 1;
    }
    assert FirstGroupWithMatch(catalog, alvo, fold).None?;
    if named.Some? && catalog[named.value].entries != [] {
      return Some(catalog[named.value].entries[0].url);
    }
    if catalog != [] && catalog[0].entries != [] {
      return Some(catalog[0].entries[0].url);
    }
    return Some("");
  }

  /** When the named group has a matching entry, the URL is that of its first matching entry. */
  lemma GifForPrefersNamedGroup(catalog: Catalog, nome: string, grupo: string, fold: string -> string, g: nat, k: nat)
    requires grupo != [] && g < |catalog| && catalog[g].name == grupo
    requires forall h :: 0 <= h < g ==> catalog[h].name != grupo
    requires k < |catalog[g].entries| && Contains(fold(catalog[g].entries[k].nome), fold(nome))
    ensures exists j :: 0 <= j <= k && GifFor(catalog, nome, grupo, fold) == Some(catalog[g].entries[j].url)
                        && Matches(catalog[g].entries[j].nome, fold(nome), fold)
                        && (forall i :: 0 <= i < j ==> !Matches(catalog[g].entries[i].nome, fold(nome), fold))
  {
    var alvo := fold(nome);
    MatchesIsContains(catalog[g].entries[k].nome, alvo, fold);
    assert GroupIndex(catalog, grupo) == Some(g);
    var j := FirstMatch(catalog[g].entries, alvo, fold).value;
    assert j <= k;
  }

  /**
   * When the named group has no match but some entry of any group matches,
   * the URL is that of the first matching entry of the first group, in key
   * order, that has one.
   */
  lemma GifForAnyMatch(catalog: Catalog, nome: string, grupo: string, fold: string -> string, g: nat, k: nat)
    requires g < |catalog| && k < |catalog[g].entries| && Contains(fold(catalog[g].entries[k].nome), fold(nome))
    requires NamedGroup(catalog, grupo).None?
      || FirstMatch(catalog[NamedGroup(catalog, grupo).value].entries, fold(nome), fold).None?
    ensures !LookupThrows(catalog, grupo) ==>
              exists g', k' :: 0 <= g' <= g && 0 <= k' < |catalog[g'].entries|
                             && Matches(catalog[g'].entries[k'].nome, fold(nome), fold)
                             && GifFor(catalog, nome, grupo, fold) == Some(catalog[g'].entries[k'].url)
                             && (forall h, j :: 0 <= h < g' && 0 <= j < |catalog[h].entries| ==>
                                   !Matches(catalog[h].entries[j].nome, fold(nome), fold))
                             && (forall j :: 0 <= j < k' ==> !Matches(catalog[g'].entries[j].nome, fold(nome), fold))
  {
    var alvo := fold(nome);
    MatchesIsContains(catalog[g].entries[k].nome, alvo, fold);
    assert FirstMatch(catalog[g].entries, alvo, fold).Some?;
    var g' := FirstGroupWithMatch(catalog, alvo, fold).value;
    var k' := FirstMatch(catalog[g'].entries, alvo, fold).value;
    assert g' <= g;
    forall h, j | 0 <= h < g' && 0 <= j < |catalog[h].entries|
      ensures !Matches(catalog[h].entries[j].nome, alvo, fold)
    {
      assert FirstMatch(catalog[h].entries, alvo, fold).None?;
    }
    assert !LookupThrows(catalog, grupo) ==> GifFor(catalog, nome, grupo, fold) == Some(catalog[g'].entries[k'].url);
  }

  /** With no match anywhere, the URL is the named group's first, else the first group's first, else "". */
  lemma GifForFallback(catalog: Catalog, nome: string, grupo: string, fold: string -> string)
    requires forall g, k :: 0 <= g < |catalog| && 0 <= k < |catalog[g].entries| ==>
      !Contains(fold(catalog[g].entries[k].nome), fold(nome))
    ensures var named := NamedGroup(catalog, grupo);
      GifFor(catalog, nome, grupo, fold) ==
        if LookupThrows(catalog, grupo) then None
        else if named.Some? && catalog[named.value].entries != [] then Some(catalog[named.value].entries[0].url)
        else if catalog != [] && catalog[0].entries != [] then Some(catalog[0].entries[0].url)
        else Some("")
  {
    var alvo := fold(nome);
    forall g, k | 0 <= g < |catalog| && 0 <= k < |catalog[g].entries|
      ensures !Matches(catalog[g].entries[k].nome, alvo, fold)
    {
      MatchesIsContains(catalog[g].entries[k].nome, alvo, fold);
    }
    var named := NamedGroup(catalog, grupo);
    if named.Some? {
      assert FirstMatch(catalog[named.value].entries, alvo, fold).None?;
    }
    assert FirstGroupWithMatch(catalog, alvo, fold).None?;
  }
}
