/**
 * The rows of the REST API's tables `alunos` and `treinos` (server.js), the
 * queries its handlers run on them, and the invariant every committed
 * transaction keeps.
 */
module ApiTables {
  import opened Wrappers
  import opened Strings

  /** A row of `alunos`. */
  datatype Student = Student(id: nat, nome: string, createdAt: nat)

  /**
   * A row of `treinos`: the student's id and the name given when saving, and
   * the exercise list, each element as its JSON text.
   */
  datatype Workout = Workout(id: nat, alunoId: nat, alunoNome: string, treino: seq<string>, createdAt: nat)

  /** A response: the `data` of `{ ok: true, data }`, or a status and `{ error }`. */
  datatype Reply<T> = Ok(data: T) | Fail(status: nat, error: string)

  /** The `treino` of a request body: a JSON array (its elements as JSON texts) or anything else. */
  datatype Body = JsonArray(items: seq<string>) | NotArray

  const NameRequired: string := "Nome obrigat\U{F3}rio"
  const NameTaken: string := "J\U{E1} existe aluno com esse nome"
  const StudentNotFound: string := "Aluno n\U{E3}o encontrado"
  const SaveStudentFailed: string := "Erro ao salvar aluno"
  const UpdateStudentFailed: string := "Erro ao atualizar aluno"
  const DeleteStudentFailed: string := "Erro ao excluir aluno"
  const BadWorkout: string := "Envie { aluno: string, treino: [] }"
  const SaveWorkoutFailed: string := "Erro ao salvar treino"
  const ListStudentsFailed: string := "Erro ao listar alunos"
  const ListWorkoutsFailed: string := "Erro ao listar treinos"

  // ---------------------------------------------------------------------------
  // Queries
  // ---------------------------------------------------------------------------

  /** `where <keep>`: the rows that satisfy `keep`, in table order. */
  function Where<T>(rows: seq<T>, keep: T -> bool): (r: seq<T>)
    ensures |r| <= |rows|
    ensures forall i :: 0 <= i < |r| ==> keep(r[i])
  {
    if rows == [] then []
    else Where(rows[..|rows| - 1], keep) + (if keep(rows[|rows| - 1]) then [rows[|rows| - 1]] else [])
  }

  /** A row is selected exactly when it is in the table and satisfies the condition. */
  lemma {:induction false} WhereMember<T>(rows: seq<T>, keep: T -> bool, x: T)
    ensures x in Where(rows, keep) <==> x in rows && keep(x)
  {
    if rows != [] {
      var init, last := rows[..|rows| - 1], rows[|rows| - 1];
      WhereMember(init, keep, x);
      assert rows == init + [last];
    }
  }

  /** Nothing is dropped exactly when every row satisfies the condition. */
  lemma {:induction false} WhereKeepsAll<T>(rows: seq<T>, keep: T -> bool)
    ensures |Where(rows, keep)| == |rows| <==> forall i :: 0 <= i < |rows| ==> keep(rows[i])
  {
    if rows != [] {
      var init := rows[..|rows| - 1];
      WhereKeepsAll(init, keep);
      assert forall i :: 0 <= i < |init| ==> init[i] == rows[i];
    }
  }

  /** `ok` holds between every row and every later row. */
  predicate Pairwise<T>(rows: seq<T>, ok: (T, T) -> bool)
  {
    forall i, j :: 0 <= i < j < |rows| ==> ok(rows[i], rows[j])
  }

  /** Selecting rows keeps their relative order, so it keeps every pairwise property. */
  lemma {:induction false} WherePairwise<T>(rows: seq<T>, keep: T -> bool, ok: (T, T) -> bool)
    requires Pairwise(rows, ok)
    ensures Pairwise(Where(rows, keep), ok)
  {
    if rows != [] {
      var init, last := rows[..|rows| - 1], rows[|rows| - 1];
      assert Pairwise(init, ok) by {
        forall i, j | 0 <= i < j < |init| ensures ok(init[i], init[j]) {
          assert init[i] == rows[i] && init[j] == rows[j];
        }
      }
      WherePairwise(init, keep, ok);
      var before := Where(init, keep);
      if keep(last) {
        var r := before + [last];
        forall i, j | 0 <= i < j < |r| ensures ok(r[i], r[j]) {
          if j == |before| {
            assert r[i] == before[i];
            assert before[i] in before;
            WhereMember(init, keep, before[i]);
            var k :| 0 <= k < |init| && init[k] == r[i];
            assert rows[k] == r[i];
          } else {
            assert r[i] == before[i] && r[j] == before[j];
          }
        }
      }
    }
  }

  /** `order by created_at desc` over rows kept in insertion order: the table reversed. */
  function NewestFirst<T>(rows: seq<T>): (r: seq<T>)
    ensures |r| == |rows|
    ensures forall i :: 0 <= i < |r| ==> r[i] == rows[|rows| - 1 - i]
  {
    seq(|rows|, i requires 0 <= i < |rows| => rows[|rows| - 1 - i])
  }

  /** Reversing lists the same rows and turns every pairwise relation around. */
  lemma NewestFirstReverses<T>(rows: seq<T>, ok: (T, T) -> bool)
    requires Pairwise(rows, ok)
    ensures multiset(NewestFirst(rows)) == multiset(rows)
    ensures forall i, j :: 0 <= i < j < |rows| ==> ok(NewestFirst(rows)[j], NewestFirst(rows)[i])
  {
    var r := NewestFirst(rows);
    if rows != [] {
      var init := rows[..|rows| - 1];
      NewestFirstReverses(init, ok);
      assert r == [rows[|rows| - 1]] + NewestFirst(init);
      assert rows == init + [rows[|rows| - 1]];
    }
  }

  predicate DifferentNames(a: Student, b: Student) { a.nome != b.nome }

  predicate DifferentStudentIds(a: Student, b: Student) { a.id != b.id }

  predicate StudentBefore(a: Student, b: Student) { a.createdAt < b.createdAt }

  predicate DifferentWorkoutIds(a: Workout, b: Workout) { a.id != b.id }

  predicate WorkoutBefore(a: Workout, b: Workout) { a.createdAt < b.createdAt }

  /** The `unique` constraint on `alunos.nome`. */
  predicate UniqueNames(alunos: seq<Student>)
  {
    Pairwise(alunos, DifferentNames)
  }

  /** A name as the handlers store it: trimmed and not empty. */
  predicate StoredName(nome: string)
  {
    nome != [] && TrimJs(nome) == nome
  }

  /** A trimmed name that is not empty is a stored name. */
  lemma TrimmedIsStored(nome: string)
    requires TrimJs(nome) != []
    ensures StoredName(TrimJs(nome))
  {
    TrimByIdempotent(nome, JsBlanks);
  }

  /** Some student row has id `id`. */
  predicate HasStudent(alunos: seq<Student>, id: nat)
  {
    exists s :: s in alunos && s.id == id
  }

  /** `select ... from alunos where nome = $1 limit 1`: the first row with that name. */
  function FindByName(alunos: seq<Student>, nome: string): (r: Option<nat>)
    ensures r.Some? ==> r.value < |alunos| && alunos[r.value].nome == nome
    ensures r.None? <==> forall k :: 0 <= k < |alunos| ==> alunos[k].nome != nome
  {
    if alunos == [] then None
    else if alunos[0].nome == nome then Some(0)
    else match FindByName(alunos[1..], nome)
      case None =>
        assert forall k :: 1 <= k < |alunos| ==> alunos[k] == alunos[1..][k - 1];
        None
      case Some(k) => Some(k + 1)
  }

  /** `where id = $1`: the first row with that id. */
  function FindById(alunos: seq<Student>, id: nat): (r: Option<nat>)
    ensures r.Some? ==> r.value < |alunos| && alunos[r.value].id == id
    ensures r.None? <==> !HasStudent(alunos, id)
  {
    if alunos == [] then None
    else if alunos[0].id == id then Some(0)
    else match FindById(alunos[1..], id)
      case None =>
        assert alunos == [alunos[0]] + alunos[1..];
        None
      case Some(k) => Some(k + 1)
  }

  /** `select id from alunos where nome = $1 and id <> $2` finds a row. */
  predicate TakenByOther(alunos: seq<Student>, nome: string, id: nat)
  {
    exists k :: 0 <= k < |alunos| && alunos[k].nome == nome && alunos[k].id != id
  }

  /** `update alunos set nome = $1` on the row at position `k`. */
  function Renamed(alunos: seq<Student>, k: nat, nome: string): seq<Student>
    requires k < |alunos|
  {
    alunos[k := alunos[k].(nome := nome)]
  }

  /** A rename the duplicate check lets through keeps the names unique. */
  lemma RenameKeepsNamesUnique(alunos: seq<Student>, k: nat, nome: string)
    requires UniqueNames(alunos) && Pairwise(alunos, DifferentStudentIds) && k < |alunos|
    requires !TakenByOther(alunos, nome, alunos[k].id)
    ensures UniqueNames(Renamed(alunos, k, nome))
  {
    var r := Renamed(alunos, k, nome);
    forall i, j | 0 <= i < j < |r| ensures DifferentNames(r[i], r[j]) {
      if i == k {
        assert DifferentStudentIds(alunos[i], alunos[j]);
      } else if j == k {
        assert DifferentStudentIds(alunos[i], alunos[j]);
      }
    }
  }

  /** A rename keeps every id, so it keeps every student a workout can point at. */
  lemma RenameKeepsIds(alunos: seq<Student>, k: nat, nome: string)
    requires k < |alunos|
    ensures forall id :: HasStudent(Renamed(alunos, k, nome), id) <==> HasStudent(alunos, id)
  {
    var r := Renamed(alunos, k, nome);
    forall id | HasStudent(alunos, id) ensures HasStudent(r, id) {
      var s :| s in alunos && s.id == id;
      var j :| 0 <= j < |alunos| && alunos[j] == s;
      assert r[j] in r && r[j].id == id;
    }
    forall id | HasStudent(r, id) ensures HasStudent(alunos, id) {
      var s :| s in r && s.id == id;
      var j :| 0 <= j < |r| && r[j] == s;
      assert alunos[j] in alunos && alunos[j].id == id;
    }
  }

  /** The condition `aluno_id <> $1`. */
  function NotOfStudent(id: nat): Workout -> bool
  {
    (w: Workout) => w.alunoId != id
  }

  /** The condition `id <> $1`. */
  function NotStudent(id: nat): Student -> bool
  {
    (s: Student) => s.id != id
  }

  /** The condition `aluno_nome = $1`. */
  function SavedUnder(nome: string): Workout -> bool
  {
    (w: Workout) => w.alunoNome == nome
  }

  /** `delete from treinos where aluno_id = $1` keeps these rows. */
  function WithoutWorkoutsOf(treinos: seq<Workout>, id: nat): seq<Workout>
  {
    Where(treinos, NotOfStudent(id))
  }

  /** `delete from alunos where id = $1` keeps these rows. */
  function WithoutStudent(alunos: seq<Student>, id: nat): seq<Student>
  {
    Where(alunos, NotStudent(id))
  }

  /** `where aluno_nome = $1`. */
  function WorkoutsNamed(treinos: seq<Workout>, nome: string): seq<Workout>
  {
    Where(treinos, SavedUnder(nome))
  }

  /** Deleting removes a row exactly when the student exists. */
  lemma DeleteCount(alunos: seq<Student>, id: nat)
    ensures |WithoutStudent(alunos, id)| == |alunos| <==> !HasStudent(alunos, id)
  {
    WhereKeepsAll(alunos, NotStudent(id));
    if HasStudent(alunos, id) {
      var s :| s in alunos && s.id == id;
      var j :| 0 <= j < |alunos| && alunos[j] == s;
    }
  }

  /** A workout is listed for `?aluno=<nome>` exactly when it was saved under that name. */
  lemma WorkoutsNamedMembers(treinos: seq<Workout>, nome: string, w: Workout)
    ensures w in WorkoutsNamed(treinos, nome) <==> w in treinos && w.alunoNome == nome
  {
    WhereMember(treinos, SavedUnder(nome), w);
  }

  // ---------------------------------------------------------------------------
  // The tables' invariant
  // ---------------------------------------------------------------------------

  /**
   * Names unique, trimmed and non-empty; ids unique and already handed out;
   * every workout points at an existing student; rows in insertion order
   * with increasing timestamps, all before `clock`.
   */
  predicate Consistent(alunos: seq<Student>, treinos: seq<Workout>, nextId: nat, clock: nat)
  {
    UniqueNames(alunos)
    && Pairwise(alunos, DifferentStudentIds) && Pairwise(alunos, StudentBefore)
    && Pairwise(treinos, DifferentWorkoutIds) && Pairwise(treinos, WorkoutBefore)
    && (forall s :: s in alunos ==> StoredName(s.nome) && s.id < nextId && s.createdAt < clock)
    && (forall w :: w in treinos ==> HasStudent(alunos, w.alunoId) && w.id < nextId && w.createdAt < clock)
  }

  /** Appending a row that relates to every earlier row keeps a pairwise property. */
  lemma PairwiseAppend<T>(rows: seq<T>, x: T, ok: (T, T) -> bool)
    requires Pairwise(rows, ok) && forall y :: y in rows ==> ok(y, x)
    ensures Pairwise(rows + [x], ok)
  {
    var r := rows + [x];
    forall i, j | 0 <= i < j < |r| ensures ok(r[i], r[j]) {
      assert r[i] == rows[i];
      if j < |rows| {
        assert r[j] == rows[j];
      }
    }
  }

  /** Inserting a student under a new, stored name with a fresh id and the current time. */
  lemma AddStudentConsistent(alunos: seq<Student>, treinos: seq<Workout>, nextId: nat, clock: nat, nome: string)
    requires Consistent(alunos, treinos, nextId, clock)
    requires StoredName(nome) && FindByName(alunos, nome).None?
    ensures Consistent(alunos + [Student(nextId, nome, clock)], treinos, nextId + 1, clock + 1)
  {
    var s := Student(nextId, nome, clock);
    var a := alunos + [s];
    PairwiseAppend(alunos, s, DifferentNames);
    PairwiseAppend(alunos, s, DifferentStudentIds);
    PairwiseAppend(alunos, s, StudentBefore);
    forall w | w in treinos ensures HasStudent(a, w.alunoId) {
      var t :| t in alunos && t.id == w.alunoId;
      assert t in a;
    }
  }

  /** Inserting a workout for an existing student with a fresh id and the current time. */
  lemma AddWorkoutConsistent(alunos: seq<Student>, treinos: seq<Workout>, nextId: nat, clock: nat, w: Workout)
    requires Consistent(alunos, treinos, nextId, clock + 1)
    requires HasStudent(alunos, w.alunoId) && w.id == nextId && w.createdAt == clock
    requires forall v :: v in treinos ==> v.createdAt < clock
    ensures Consistent(alunos, treinos + [w], nextId + 1, clock + 1)
  {
    PairwiseAppend(treinos, w, DifferentWorkoutIds);
    PairwiseAppend(treinos, w, WorkoutBefore);
  }

  /** POST /treinos for a known student: one workout row for it. */
  lemma SaveForKnownConsistent(alunos: seq<Student>, treinos: seq<Workout>, nextId: nat, clock: nat,
                               k: nat, nome: string, items: seq<string>)
    requires Consistent(alunos, treinos, nextId, clock) && k < |alunos|
    ensures Consistent(alunos, treinos + [Workout(nextId, alunos[k].id, nome, items, clock)], nextId + 1, clock + 1)
  {
    ConsistentLater(alunos, treinos, nextId, clock, nextId, clock + 1);
    assert alunos[k] in alunos;
    AddWorkoutConsistent(alunos, treinos, nextId, clock, Workout(nextId, alunos[k].id, nome, items, clock));
  }

  /** POST /treinos for a new name: one student row and one workout row for it. */
  lemma SaveForNewConsistent(alunos: seq<Student>, treinos: seq<Workout>, nextId: nat, clock: nat,
                             nome: string, items: seq<string>)
    requires Consistent(alunos, treinos, nextId, clock)
    requires StoredName(nome) && FindByName(alunos, nome).None?
    ensures var s := Student(nextId, nome, clock);
      Consistent(alunos + [s], treinos + [Workout(nextId + 1, nextId, nome, items, clock)], nextId + 2, clock + 1)
  {
    var s := Student(nextId, nome, clock);
    AddStudentConsistent(alunos, treinos, nextId, clock, nome);
    assert s in alunos + [s];
    AddWorkoutConsistent(alunos + [s], treinos, nextId + 1, clock, Workout(nextId + 1, nextId, nome, items, clock));
  }

  /** A later clock and a later id counter keep the invariant. */
  lemma ConsistentLater(alunos: seq<Student>, treinos: seq<Workout>, nextId: nat, clock: nat, nextId': nat, clock': nat)
    requires Consistent(alunos, treinos, nextId, clock) && nextId <= nextId' && clock <= clock'
    ensures Consistent(alunos, treinos, nextId', clock')
  {
  }

  /** A rename that passed the duplicate check, to a stored name. */
  lemma RenameConsistent(alunos: seq<Student>, treinos: seq<Workout>, nextId: nat, clock: nat, k: nat, nome: string)
    requires Consistent(alunos, treinos, nextId, clock) && k < |alunos|
    requires StoredName(nome) && !TakenByOther(alunos, nome, alunos[k].id)
    ensures Consistent(Renamed(alunos, k, nome), treinos, nextId, clock)
  {
    var r := Renamed(alunos, k, nome);
    RenameKeepsNamesUnique(alunos, k, nome);
    RenameKeepsIds(alunos, k, nome);
    forall s | s in r ensures StoredName(s.nome) && s.id < nextId && s.createdAt < clock {
      var j :| 0 <= j < |r| && r[j] == s;
      assert alunos[j] in alunos;
    }
    assert Pairwise(r, DifferentStudentIds) by {
      forall i, j | 0 <= i < j < |r| ensures DifferentStudentIds(r[i], r[j]) {
        assert DifferentStudentIds(alunos[i], alunos[j]);
      }
    }
    assert Pairwise(r, StudentBefore) by {
      forall i, j | 0 <= i < j < |r| ensures StudentBefore(r[i], r[j]) {
        assert StudentBefore(alunos[i], alunos[j]);
      }
    }
  }

  /** Deleting a student together with its workouts. */
  lemma DeleteConsistent(alunos: seq<Student>, treinos: seq<Workout>, nextId: nat, clock: nat, id: nat)
    requires Consistent(alunos, treinos, nextId, clock)
    ensures Consistent(WithoutStudent(alunos, id), WithoutWorkoutsOf(treinos, id), nextId, clock)
    ensures !HasStudent(WithoutStudent(alunos, id), id)
    ensures forall w :: w in WithoutWorkoutsOf(treinos, id) ==> w.alunoId != id
  {
    var a, t := WithoutStudent(alunos, id), WithoutWorkoutsOf(treinos, id);
    forall s | s in a ensures s in alunos {
      WhereMember(alunos, NotStudent(id), s);
    }
    forall w | w in t ensures w in treinos && w.alunoId != id {
      WhereMember(treinos, NotOfStudent(id), w);
    }
    WherePairwise(alunos, NotStudent(id), DifferentNames);
    WherePairwise(alunos, NotStudent(id), DifferentStudentIds);
    WherePairwise(alunos, NotStudent(id), StudentBefore);
    WherePairwise(treinos, NotOfStudent(id), DifferentWorkoutIds);
    WherePairwise(treinos, NotOfStudent(id), WorkoutBefore);
    forall w | w in t ensures HasStudent(a, w.alunoId) {
      var s :| s in alunos && s.id == w.alunoId;
      WhereMember(alunos, NotStudent(id), s);
    }
  }
}
