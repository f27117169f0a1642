/**
 * The workout being assembled in the front end (src/App.jsx): the ordered
 * list `selecionados` and the operations that replace it — adding a search
 * result, removing, editing one field, toggling the paired flag, moving an
 * item next to its neighbour, and rebuilding the list from a saved workout
 * or from a generated one.
 */
module Selection {
  import opened Wrappers
  import opened Strings
  import opened GifsJson
  import opened CatalogSearch

  /** One selected exercise. Fields the source leaves undefined are "". */
  datatype Exercise = Exercise(
    id: string, grupo: string, file: string, nome: string,
    reps: string, carga: string, conjugado: bool)

  /** The position of some item carrying `id`, if any. */
  predicate HasId(list: seq<Exercise>, id: string)
  {
    exists i :: 0 <= i < |list| && list[i].id == id
  }

  /** No two items share an id (the list's React keys are distinct). */
  predicate UniqueIds(list: seq<Exercise>)
  {
    forall i, j :: 0 <= i < j < |list| ==> list[i].id != list[j].id
  }

  // ---------------------------------------------------------------------------
  // adicionar
  // ---------------------------------------------------------------------------

  /** The id an added search result gets: `grupo::file`. */
  function IdOf(item: Hit): string
  {
    item.grupo + "::" + item.file
  }

  /** `selecionados.find(s => s.id === id)`: the first item with that id. */
  function FindId(list: seq<Exercise>, id: string): (r: Option<nat>)
    ensures r.Some? ==> r.value < |list| && list[r.value].id == id
    ensures r.None? <==> !HasId(list, id)
  {
    if list == [] then None
    else if list[0].id == id then Some(0)
    else match FindId(list[1..], id)
      case None =>
        assert forall i :: 1 <= i < |list| ==> list[i] == list[1..][i - 1];
        None
      case Some(k) => Some(k + 1)
  }

  /** The item `adicionar` appends: empty reps and load, not paired. */
  function Fresh(item: Hit): Exercise
  {
    Exercise(IdOf(item), item.grupo, item.file, item.nome, "", "", false)
  }

  /** `adicionar(item)`: appends the item unless its id is already listed. */
  function Add(list: seq<Exercise>, item: Hit): (r: seq<Exercise>)
    ensures HasId(list, IdOf(item)) ==> r == list
    ensures !HasId(list, IdOf(item)) ==>
              (|r| == |list| + 1 && r[..|list|] == list
               && r[|list|].id == IdOf(item) && r[|list|].grupo == item.grupo && r[|list|].file == item.file
               && r[|list|].nome == item.nome && r[|list|].reps == "" && r[|list|].carga == "" && !r[|list|].conjugado)
    ensures HasId(r, IdOf(item))
  {
    if FindId(list, IdOf(item)).Some? then list
    else
      var r := list + [Fresh(item)];
      assert r[|list|].id == IdOf(item);
      r
  }

  /** Adding keeps ids unique. */
  lemma AddKeepsUnique(list: seq<Exercise>, item: Hit)
    requires UniqueIds(list)
    ensures UniqueIds(Add(list, item))
  {
    var r := Add(list, item);
    if !HasId(list, IdOf(item)) {
      forall i, j | 0 <= i < j < |r| ensures r[i].id != r[j].id {
        if j == |list| {
          assert r[i] == list[i];
        } else {
          assert r[i] == list[i] && r[j] == list[j];
        }
      }
    }
  }

  /** Adding the same result twice is the same as adding it once. */
  lemma AddIdempotent(list: seq<Exercise>, item: Hit)
    ensures Add(Add(list, item), item) == Add(list, item)
  {
  }

  // ---------------------------------------------------------------------------
  // remover
  // ---------------------------------------------------------------------------

  /** `remover(id)`: keeps the items whose id differs, in order. */
  function Remove(list: seq<Exercise>, id: string): (r: seq<Exercise>)
    ensures |r| <= |list|
    ensures forall x :: x in r <==> x in list && x.id != id
  {
    if list == [] then []
    else
      assert forall x :: x in list <==> x == list[0] || x in list[1..];
      (if list[0].id == id then [] else [list[0]]) + Remove(list[1..], id)
  }

  /** Removal works item by item, so it keeps the relative order of what it keeps. */
  lemma {:induction false} RemoveConcat(a: seq<Exercise>, b: seq<Exercise>, id: string)
    ensures Remove(a + b, id) == Remove(a, id) + Remove(b, id)
  {
    if a == [] {
      assert a + b == b;
    } else {
      var x, t := a[0], a[1..];
      assert a == [x] + t;
      RemoveConcat(t, b, id);
      RemoveConcatCons(x, t, b, id);
    }
  }

  /** The inductive step of `RemoveConcat`: one more leading item. */
  lemma RemoveConcatCons(x: Exercise, t: seq<Exercise>, b: seq<Exercise>, id: string)
    requires Remove(t + b, id) == Remove(t, id) + Remove(b, id)
    ensures Remove([x] + t + b, id) == Remove([x] + t, id) + Remove(b, id)
  {
    var head: seq<Exercise> := if x.id == id then [] else [x];
    AppendAssoc([x], t, b);
    RemoveCons(x, t + b, id);
    RemoveCons(x, t, id);
    AppendAssoc(head, Remove(t, id), Remove(b, id));
  }

  /** One leading item is dropped when it has the id, and kept otherwise. */
  lemma RemoveCons(x: Exercise, t: seq<Exercise>, id: string)
    ensures Remove([x] + t, id) == (if x.id == id then [] else [x]) + Remove(t, id)
  {
    var l := [x] + t;
    assert l[0] == x && l[1..] == t;
  }

  lemma AppendAssoc<T>(a: seq<T>, b: seq<T>, c: seq<T>)
    ensures a + (b + c) == (a + b) + c
  {
  }

  /** Removing an id that is not listed changes nothing. */
  lemma {:induction false} RemoveAbsent(list: seq<Exercise>, id: string)
    requires !HasId(list, id)
    ensures Remove(list, id) == list
  {
    if list != [] {
      assert !HasId(list[1..], id) by {
        forall i | 0 <= i < |list[1..]| ensures list[1..][i].id != id {
          assert list[1..][i] == list[i + 1];
        }
      }
      RemoveAbsent(list[1..], id);
      assert list == [list[0]] + list[1..];
    }
  }

  /** Removing what was just added gives back the list before the addition. */
  lemma RemoveUndoesAdd(list: seq<Exercise>, item: Hit)
    requires !HasId(list, IdOf(item))
    ensures Remove(Add(list, item), IdOf(item)) == list
  {
    var n := Fresh(item);
    assert Add(list, item) == list + [n];
    RemoveConcat(list, [n], IdOf(item));
    RemoveAbsent(list, IdOf(item));
    assert [n][1..] == [];
  }

  /** Removal keeps ids unique. */
  lemma {:induction false} RemoveKeepsUnique(list: seq<Exercise>, id: string)
    requires UniqueIds(list)
    ensures UniqueIds(Remove(list, id))
  {
    if list != [] {
      var tail := list[1..];
      assert UniqueIds(tail) by {
        forall i, j | 0 <= i < j < |tail| ensures tail[i].id != tail[j].id {
          assert tail[i] == list[i + 1] && tail[j] == list[j + 1];
        }
      }
      RemoveKeepsUnique(tail, id);
      var rest := Remove(tail, id);
      if list[0].id != id {
        var r := [list[0]] + rest;
        forall i, j | 0 <= i < j < |r| ensures r[i].id != r[j].id {
          if i == 0 {
            var m :| 0 <= m < |tail| && tail[m] == r[j];
            assert list[m + 1] == r[j];
          } else {
            assert r[i] == rest[i - 1] && r[j] == rest[j - 1];
          }
        }
      }
    }
  }

  // ---------------------------------------------------------------------------
  // editarNome, editarReps, editarCarga, toggleConjugado
  // ---------------------------------------------------------------------------

  /** `editarNome(id, novo)`. */
  function EditName(list: seq<Exercise>, id: string, novo: string): (r: seq<Exercise>)
    ensures |r| == |list|
    ensures forall i :: 0 <= i < |r| ==>
      r[i].(nome := list[i].nome) == list[i] && r[i].nome == (if list[i].id == id then novo else list[i].nome)
  {
    seq(|list|, i requires 0 <= i < |list| => if list[i].id == id then list[i].(nome := novo) else list[i])
  }

  /** `editarReps(id, novo)`. */
  function EditReps(list: seq<Exercise>, id: string, novo: string): (r: seq<Exercise>)
    ensures |r| == |list|
    ensures forall i :: 0 <= i < |r| ==>
      r[i].(reps := list[i].reps) == list[i] && r[i].reps == (if list[i].id == id then novo else list[i].reps)
  {
    seq(|list|, i requires 0 <= i < |list| => if list[i].id == id then list[i].(reps := novo) else list[i])
  }

  /** `editarCarga(id, novo)`. */
  function EditLoad(list: seq<Exercise>, id: string, novo: string): (r: seq<Exercise>)
    ensures |r| == |list|
    ensures forall i :: 0 <= i < |r| ==>
      r[i].(carga := list[i].carga) == list[i] && r[i].carga == (if list[i].id == id then novo else list[i].carga)
  {
    seq(|list|, i requires 0 <= i < |list| => if list[i].id == id then list[i].(carga := novo) else list[i])
  }

  /** `toggleConjugado(id)`. */
  function TogglePaired(list: seq<Exercise>, id: string): (r: seq<Exercise>)
    ensures |r| == |list|
    ensures forall i :: 0 <= i < |r| ==>
      r[i].(conjugado := list[i].conjugado) == list[i]
      && (r[i].conjugado <==> (if list[i].id == id then !list[i].conjugado else list[i].conjugado))
  {
    seq(|list|, i requires 0 <= i < |list| => if list[i].id == id then list[i].(conjugado := !list[i].conjugado) else list[i])
  }

  /** Toggling twice restores the list. */
  lemma ToggleTwice(list: seq<Exercise>, id: string)
    ensures TogglePaired(TogglePaired(list, id), id) == list
  {
    var r := TogglePaired(TogglePaired(list, id), id);
    forall i | 0 <= i < |list| ensures r[i] == list[i] {
      assert TogglePaired(list, id)[i].id == list[i].id;
    }
  }

  /** A second edit of the same field overrides the first. */
  lemma EditsOverride(list: seq<Exercise>, id: string, a: string, b: string)
    ensures EditName(EditName(list, id, a), id, b) == EditName(list, id, b)
    ensures EditReps(EditReps(list, id, a), id, b) == EditReps(list, id, b)
    ensures EditLoad(EditLoad(list, id, a), id, b) == EditLoad(list, id, b)
  {
    var n1, n2 := EditName(EditName(list, id, a), id, b), EditName(list, id, b);
    forall i | 0 <= i < |list| ensures n1[i] == n2[i] {
      assert EditName(list, id, a)[i].id == list[i].id;
    }
    var r1, r2 := EditReps(EditReps(list, id, a), id, b), EditReps(list, id, b);
    forall i | 0 <= i < |list| ensures r1[i] == r2[i] {
      assert EditReps(list, id, a)[i].id == list[i].id;
    }
    var c1, c2 := EditLoad(EditLoad(list, id, a), id, b), EditLoad(list, id, b);
    forall i | 0 <= i < |list| ensures c1[i] == c2[i] {
      assert EditLoad(list, id, a)[i].id == list[i].id;
    }
  }

  /** With unique ids, an edit touches the one item carrying the id and nothing else. */
  lemma EditTouchesOneItem(list: seq<Exercise>, k: nat, novo: string)
    requires UniqueIds(list) && k < |list|
    ensures EditReps(list, list[k].id, novo) == list[k := list[k].(reps := novo)]
    ensures EditName(list, list[k].id, novo) == list[k := list[k].(nome := novo)]
    ensures EditLoad(list, list[k].id, novo) == list[k := list[k].(carga := novo)]
    ensures TogglePaired(list, list[k].id) == list[k := list[k].(conjugado := !list[k].conjugado)]
  {
    var id := list[k].id;
    assert forall i :: 0 <= i < |list| && i != k ==> list[i].id != id by {
      forall i | 0 <= i < |list| && i != k ensures list[i].id != id {
        if i < k { assert list[i].id != list[k].id; } else { assert list[k].id != list[i].id; }
      }
    }
  }

  /**
   * The workout view's `editarReps(idx, val)`: edits the reps of the item at
   * position `idx` through its id, and does nothing when there is no item
   * there or its id is empty.
   */
  function EditRepsAt(list: seq<Exercise>, idx: int, val: string): seq<Exercise>
  {
    if 0 <= idx < |list| && list[idx].id != "" then EditReps(list, list[idx].id, val) else list
  }

  /** The workout view's `editarCarga(idx, val)`, the same for the load. */
  function EditLoadAt(list: seq<Exercise>, idx: int, val: string): seq<Exercise>
  {
    if 0 <= idx < |list| && list[idx].id != "" then EditLoad(list, list[idx].id, val) else list
  }

  /** With unique ids, the positional edits change exactly the field of the item at that position. */
  lemma EditAtPosition(list: seq<Exercise>, idx: int, val: string)
    requires UniqueIds(list)
    ensures EditRepsAt(list, idx, val)
      == if 0 <= idx < |list| && list[idx].id != "" then list[idx := list[idx].(reps := val)] else list
    ensures EditLoadAt(list, idx, val)
      == if 0 <= idx < |list| && list[idx].id != "" then list[idx := list[idx].(carga := val)] else list
  {
    if 0 <= idx < |list| {
      EditTouchesOneItem(list, idx, val);
    }
  }

  // ---------------------------------------------------------------------------
  // mover
  // ---------------------------------------------------------------------------

  /** `s` with the items at `i` and `j` exchanged. */
  function Swap<T>(s: seq<T>, i: nat, j: nat): (r: seq<T>)
    requires i < |s| && j < |s|
    ensures |r| == |s|
  {
    seq(|s|, k requires 0 <= k < |s| => if k == i then s[j] else if k == j then s[i] else s[k])
  }

  /** Exchanging two items only reorders the list. */
  lemma SwapPermutes<T>(s: seq<T>, i: nat, j: nat)
    requires i < |s| && j < |s|
    ensures multiset(Swap(s, i, j)) == multiset(s)
  {
    assert Swap(s, i, j) == s[i := s[j]][j := s[i]];
  }

  /** What `mover(index, dir)` leaves in the list. */
  function Moved(p: seq<Exercise>, index: nat, dir: int): seq<Exercise>
    requires index < |p|
  {
    var alvo := index + dir;
    if alvo < 0 || alvo >= |p| then p else Swap(p, index, alvo)
  }

  /**
   * `mover(index, dir)`: copies the list into a fresh array and, when
   * `index + dir` is a position of it, swaps the two slots in place.
   */
  method Move(p: seq<Exercise>, index: nat, dir: int) returns (r: seq<Exercise>)
    requires index < |p|
    ensures r == Moved(p, index, dir)
    ensures multiset(r) == multiset(p)
  {
    var c := new Exercise[|p|](k requires 0 <= k < |p| => p[k]);
    var alvo := index + dir;
    if alvo < 0 || alvo >= c.Length {
      return c[..];
    }
    c[index], c[alvo] := c[alvo], c[index];
    r := c[..];
    SwapPermutes(p, index, alvo);
  }

  /** A move into range exchanges exactly the two items; any other move changes nothing. */
  lemma MovedExchanges(p: seq<Exercise>, index: nat, dir: int)
    requires index < |p|
    ensures |Moved(p, index, dir)| == |p|
    ensures 0 <= index + dir < |p| ==>
      Moved(p, index, dir)[index] == p[index + dir] && Moved(p, index, dir)[index + dir] == p[index]
      && forall k :: 0 <= k < |p| && k != index && k != index + dir ==> Moved(p, index, dir)[k] == p[k]
    ensures !(0 <= index + dir < |p|) ==> Moved(p, index, dir) == p
  {
  }

  /** Moving an item and moving it back restores the list. */
  lemma MoveBack(p: seq<Exercise>, index: nat, dir: int)
    requires index < |p| && 0 <= index + dir < |p|
    ensures Moved(Moved(p, index, dir), index + dir, -dir) == p
  {
    var q := Moved(p, index, dir);
    assert Moved(q, index + dir, -dir) == Swap(q, index + dir, index);
  }

  /** Moving keeps ids unique. */
  lemma MoveKeepsUnique(p: seq<Exercise>, index: nat, dir: int)
    requires index < |p| && UniqueIds(p)
    ensures UniqueIds(Moved(p, index, dir))
  {
    var alvo := index + dir;
    if 0 <= alvo < |p| {
      var r := Moved(p, index, dir);
      // position of each item of r in p
      var from := (k: int) => if k == index then alvo else if k == alvo then index else k;
      forall i, j | 0 <= i < j < |r| ensures r[i].id != r[j].id {
        assert r[i] == p[from(i)] && r[j] == p[from(j)];
        assert from(i) != from(j);
        if from(i) < from(j) {
          assert p[from(i)].id != p[from(j)].id;
        } else {
          assert p[from(j)].id != p[from(i)].id;
        }
      }
    }
  }

  // ---------------------------------------------------------------------------
  // Rebuilding the list: JSON values and JavaScript truthiness
  // ---------------------------------------------------------------------------

  /** A JSON value as far as its truthiness goes (`!!v`). */
  datatype Scalar = Undefined | Null | Bool(b: bool) | Number(n: int) | Text(s: string) | Compound

  predicate Truthy(v: Scalar)
  {
    match v
    case Undefined => false
    case Null => false
    case Bool(b) => b
    case Number(n) => n != 0
    case Text(s) => s != []
    case Compound => true
  }

  /** `a || b` on strings, with "" as the only falsy string. */
  function Or(a: string, b: string): (r: string)
    ensures r == a || r == b
    ensures r == [] ==> a == [] && b == []
  {
    if a != [] then a else b
  }

  /** `<text>-<n>`: the shape of the ids the rebuilds make up. */
  function Dashed(text: string, n: nat): string
  {
    text + "-" + Decimal(n)
  }

  /** The number after the last dash of a made-up id determines the id's tail, so different positions give different ids. */
  lemma DashedInjective(a: string, m: nat, b: string, n: nat)
    requires Dashed(a, m) == Dashed(b, n)
    ensures m == n && a == b
  {
    var s := Dashed(a, m);
    var dm, dn := Decimal(m), Decimal(n);
    assert s == a + "-" + dm == b + "-" + dn;
    // the dash before each numeral sits where the other side has a digit, unless both agree
    assert s[|a|] == '-' && s[|b|] == '-';
    assert |a| == |b|;
    assert dm == s[|a| + 1..] == dn;
    DecimalInjective(m, n);
    assert a == s[..|a|] == b;
  }

  // ---------------------------------------------------------------------------
  // aplicarTreinoSalvo
  // ---------------------------------------------------------------------------

  /** An item of a saved workout's list, as stored. Absent text fields are "". */
  datatype SavedItem = SavedItem(
    id: string, grupo: string, file: string, nome: string,
    reps: string, carga: string, conjugado: Scalar)

  /** A saved workout: the student-name spellings it may carry and its list (`None` when falsy). */
  datatype SavedWorkout = SavedWorkout(
    alunoNome: string, aluno_nome: string, aluno: string, treino: Option<seq<SavedItem>>)

  /** Item `idx` of a saved list once applied: the flag made boolean and a missing id made up. */
  function FromSaved(ex: SavedItem, idx: nat): (r: Exercise)
    ensures r.id != []
    ensures ex.id != [] ==> r.id == ex.id
    ensures ex.id == [] ==> r.id == Dashed(Or(ex.nome, "ex"), idx)
    ensures r.conjugado <==> Truthy(ex.conjugado)
    ensures r.grupo == ex.grupo && r.file == ex.file && r.nome == ex.nome && r.reps == ex.reps && r.carga == ex.carga
  {
    Exercise(Or(ex.id, Dashed(Or(ex.nome, "ex"), idx)), ex.grupo, ex.file, ex.nome, ex.reps, ex.carga, Truthy(ex.conjugado))
  }

  /** `(treino.treino || []).map(...)`. */
  function SavedList(treino: Option<seq<SavedItem>>): (r: seq<Exercise>)
    ensures treino.None? ==> r == []
    ensures treino.Some? ==>
              (|r| == |treino.value| && forall i :: 0 <= i < |r| ==> r[i] == FromSaved(treino.value[i], i))
  {
    match treino
    case None => []
    case Some(items) => seq(|items|, i requires 0 <= i < |items| => FromSaved(items[i], i))
  }

  /** The student name the form shows: the current one, else the first non-empty spelling in the workout. */
  function StudentName(curr: string, t: SavedWorkout): (r: string)
    ensures curr != [] ==> r == curr
    ensures curr == [] && t.alunoNome != [] ==> r == t.alunoNome
    ensures curr == [] && t.alunoNome == [] && t.aluno_nome != [] ==> r == t.aluno_nome
    ensures curr == [] && t.alunoNome == [] && t.aluno_nome == [] ==> r == t.aluno
    ensures r in {curr, t.alunoNome, t.aluno_nome, t.aluno}
    ensures r == [] <==> curr == [] && t.alunoNome == [] && t.aluno_nome == [] && t.aluno == []
  {
    Or(curr, Or(t.alunoNome, Or(t.aluno_nome, t.aluno)))
  }

  /**
   * `aplicarTreinoSalvo(treino)`: the new student name and list; a missing
   * workout leaves both as they are.
   */
  function ApplySaved(nomeAluno: string, selecionados: seq<Exercise>, treino: Option<SavedWorkout>): (r: (string, seq<Exercise>))
    ensures treino.None? ==> r == (nomeAluno, selecionados)
    ensures treino.Some? ==> r == (StudentName(nomeAluno, treino.value), SavedList(treino.value.treino))
  {
    match treino
    case None => (nomeAluno, selecionados)
    case Some(t) => (StudentName(nomeAluno, t), SavedList(t.treino))
  }

  /** The ids made up for saved items that have none are pairwise distinct. */
  lemma SavedDefaultIdsDistinct(items: seq<SavedItem>, i: nat, j: nat)
    requires i < j < |items| && items[i].id == [] && items[j].id == []
    ensures SavedList(Some(items))[i].id != SavedList(Some(items))[j].id
  {
    var r := SavedList(Some(items));
    if r[i].id == r[j].id {
      DashedInjective(Or(items[i].nome, "ex"), i, Or(items[j].nome, "ex"), j);
    }
  }

  // ---------------------------------------------------------------------------
  // gerarTreinoIA: mapping the generated list
  // ---------------------------------------------------------------------------

  /** One item of a generated workout. Absent text fields are "". */
  datatype GeneratedItem = GeneratedItem(nome: string, grupo: string, reps: string, carga: string, conjugado: Scalar)

  /** `data.treino`: an array of items, or anything else. */
  datatype Payload = Items(items: seq<GeneratedItem>) | NotArray

  /** `Array.isArray(data.treino) ? data.treino : []`. */
  function ItemsOf(p: Payload): (r: seq<GeneratedItem>)
    ensures p.NotArray? ==> r == []
    ensures p.Items? ==> r == p.items
  {
    if p.Items? then p.items else []
  }

  /**
   * Item `idx` of a generated list: default name and group, an image looked
   * up by name, an id from the clock; `None` when the image lookup throws.
   */
  function FromGenerated(catalog: Catalog, agora: nat, ex: GeneratedItem, idx: nat): (r: Option<Exercise>)
    ensures r.None? <==> LookupThrows(catalog, ex.grupo)
    ensures r.Some? ==> r.value.id == Dashed(Decimal(agora), idx)
    ensures r.Some? ==> r.value.nome == Or(ex.nome, "Exerc\U{ED}cio " + Decimal(idx + 1)) && r.value.nome != []
    ensures r.Some? ==> r.value.grupo == Or(ex.grupo, "Geral") && r.value.grupo != []
    ensures r.Some? ==> r.value.reps == ex.reps && r.value.carga == ex.carga
    ensures r.Some? ==> (r.value.conjugado <==> Truthy(ex.conjugado))
    ensures r.Some? ==> GifFor(catalog, ex.nome, ex.grupo, Normalize) == Some(r.value.file)
  {
    match GifFor(catalog, ex.nome, ex.grupo, Normalize)
    case None => None
    case Some(file) =>
      Some(Exercise(
        Dashed(Decimal(agora), idx), Or(ex.grupo, "Geral"), file,
        Or(ex.nome, "Exerc\U{ED}cio " + Decimal(idx + 1)), Or(ex.reps, ""), Or(ex.carga, ""), Truthy(ex.conjugado)))
  }

  /** Some item of `lista` names an inherited member as its group, so `procurarGif` throws on it. */
  predicate SomeLookupThrows(catalog: Catalog, lista: seq<GeneratedItem>)
  {
    exists i :: 0 <= i < |lista| && LookupThrows(catalog, lista[i].grupo)
  }

  /** `lista.map(...)` over the generated workout, taken at time `agora`; `None` when the map throws. */
  function GeneratedList(catalog: Catalog, agora: nat, data: Payload): (r: Option<seq<Exercise>>)
    ensures r.None? <==> SomeLookupThrows(catalog, ItemsOf(data))
    ensures r.Some? ==> |r.value| == |ItemsOf(data)|
    ensures r.Some? ==> forall i :: 0 <= i < |r.value| ==> FromGenerated(catalog, agora, ItemsOf(data)[i], i) == Some(r.value[i])
  {
    var lista := ItemsOf(data);
    if SomeLookupThrows(catalog, lista) then None
    else Some(seq(|lista|, i requires 0 <= i < |lista| => FromGenerated(catalog, agora, lista[i], i).value))
  }

  /** The message `gerarTreinoIA` shows when rebuilding the list throws. */
  const GenerateFailed: string := "N\U{E3}o foi poss\U{ED}vel gerar o treino. Verifique a API."

  /**
   * The end of `gerarTreinoIA` for an accepted reply: the new selection and
   * the error text (`erroIA`). A throwing lookup is caught: the selection is
   * kept and the error is shown.
   */
  function AfterGenerate(selecionados: seq<Exercise>, catalog: Catalog, agora: nat, data: Payload): (r: (seq<Exercise>, string))
    ensures SomeLookupThrows(catalog, ItemsOf(data)) ==> r == (selecionados, GenerateFailed)
    ensures !SomeLookupThrows(catalog, ItemsOf(data)) ==>
              r.1 == [] && |r.0| == |ItemsOf(data)|
              && forall i :: 0 <= i < |r.0| ==> FromGenerated(catalog, agora, ItemsOf(data)[i], i) == Some(r.0[i])
  {
    match GeneratedList(catalog, agora, data)
    case None => (selecionados, GenerateFailed)
    case Some(montados) => (montados, "")
  }

  /**
   * An item whose group is "toString", with no group of that name in the
   * catalog, makes `procurarGif` throw: the selection stays and the error shows.
   */
  lemma InheritedGroupKeepsSelection(selecionados: seq<Exercise>, catalog: Catalog, agora: nat, items: seq<GeneratedItem>, i: nat)
    requires i < |items| && items[i].grupo == "toString"
    requires forall g :: 0 <= g < |catalog| ==> catalog[g].name != "toString"
    ensures AfterGenerate(selecionados, catalog, agora, Items(items)) == (selecionados, GenerateFailed)
  {
    assert LookupThrows(catalog, items[i].grupo);
  }

  /** A reply without an array yields an empty list. */
  lemma GeneratedNotArray(catalog: Catalog, agora: nat)
    ensures GeneratedList(catalog, agora, NotArray) == Some([])
  {
  }

  /** The generated list's ids are unique. */
  lemma GeneratedIdsUnique(catalog: Catalog, agora: nat, data: Payload)
    requires GeneratedList(catalog, agora, data).Some?
    ensures UniqueIds(GeneratedList(catalog, agora, data).value)
  {
    var r := GeneratedList(catalog, agora, data).value;
    forall i, j | 0 <= i < j < |r| ensures r[i].id != r[j].id {
      if r[i].id == r[j].id {
        DashedInjective(Decimal(agora), i, Decimal(agora), j);
      }
    }
  }

  /** Every generated item's image is one the catalog holds, or "". */
  lemma GeneratedImagesFromCatalog(catalog: Catalog, agora: nat, data: Payload, i: nat)
    requires GeneratedList(catalog, agora, data).Some? && i < |GeneratedList(catalog, agora, data).value|
    ensures var f := GeneratedList(catalog, agora, data).value[i].file;
      f == "" || exists g, k :: 0 <= g < |catalog| && 0 <= k < |catalog[g].entries| && f == catalog[g].entries[k].url
  {
  }
}
