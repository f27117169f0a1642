/**
 * The REST API (server.js): the tables `alunos` and `treinos` and one method
 * per endpoint. Every handler runs as one transaction: it commits all of its
 * writes, or, when a query fails, rolls back and leaves both tables as they
 * were. `gen_random_uuid()` is a counter of fresh ids and `now()` a clock
 * that advances once per request that inserts; the rows one POST /treinos
 * inserts share one `created_at`, as `now()` is the transaction's start time.
 */
module ApiStore {
  import opened Wrappers
  import opened Strings
  import opened ApiTables
  import Selection

  class Store {
    /** The committed rows of `alunos`, in insertion order. */
    var alunos: seq<Student>
    /** The committed rows of `treinos`, in insertion order. */
    var treinos: seq<Workout>
    /** The next id `gen_random_uuid()` hands out. */
    var nextId: nat
    /** `now()` for the next writing transaction. */
    var clock: nat

    predicate Valid()
      reads this
    {
      Consistent(alunos, treinos, nextId, clock)
    }

    /** Empty tables. */
    constructor()
      ensures Valid() && alunos == [] && treinos == []
    {
      alunos, treinos, nextId, clock := [], [], 0, 0;
    }

    /** The tables are as they were before the handler ran (commit of nothing, or rollback). */
    twostate predicate Unchanged()
      reads this
    {
      alunos == old(alunos) && treinos == old(treinos) && nextId == old(nextId) && clock == old(clock)
    }

    /**
     * POST /alunos with body `{ nome }` (absent: ""); `fault` is the error a
     * query raises, if one does. An existing name answers with its row and
     * `existed: true`; a new one is inserted and answered with `existed: false`.
     */
    method CreateStudent(nome: string, fault: Option<string>) returns (reply: Reply<(Student, bool)>)
      requires Valid()
      modifies this
      ensures Valid()
      ensures treinos == old(treinos)
      ensures var n := TrimJs(nome);
        if n == [] then reply == Fail(400, NameRequired) && Unchanged()
        else if fault.Some? then reply == Fail(500, SaveStudentFailed) && Unchanged()
        else match FindByName(old(alunos), n)
          case Some(k) => reply == Ok((old(alunos)[k], true)) && Unchanged()
          case None =>
            (var s := Student(old(nextId), n, old(clock));
             reply == Ok((s, false))
             && alunos == old(alunos) + [s] && nextId == old(nextId) + 1 && clock == old(clock) + 1)
    {
      var n := TrimJs(nome);
      if n == [] {
        return Fail(400, NameRequired);
      }
      if fault.Some? {
        return Fail(500, SaveStudentFailed);
      }
      var found := FindByName(alunos, n);
      if found.Some? {
        return Ok((alunos[found.value], true));
      }
      TrimmedIsStored(nome);
      AddStudentConsistent(alunos, treinos, nextId, clock, n);
      var s := Student(nextId, n, clock);
      alunos, nextId, clock := alunos + [s], nextId + 1, clock + 1;
      reply := Ok((s, false));
    }

    /**
     * PUT /alunos/:id with body `{ nome }`. A name another student has is
     * refused; an unknown id is 404; otherwise only that student's name
     * changes. Workouts keep the name they were saved under.
     */
    method RenameStudent(id: nat, nome: string, fault: Option<string>) returns (reply: Reply<Student>)
      requires Valid()
      modifies this
      ensures Valid()
      ensures treinos == old(treinos) && nextId == old(nextId) && clock == old(clock)
      ensures var n := TrimJs(nome);
        if n == [] then reply == Fail(400, NameRequired) && Unchanged()
        else if fault.Some? then reply == Fail(500, UpdateStudentFailed) && Unchanged()
        else if TakenByOther(old(alunos), n, id) then reply == Fail(400, NameTaken) && Unchanged()
        else match FindById(old(alunos), id)
          case None => reply == Fail(404, StudentNotFound) && Unchanged()
          case Some(k) => alunos == Renamed(old(alunos), k, n) && reply == Ok(alunos[k])
    {
      var n := TrimJs(nome);
      if n == [] {
        return Fail(400, NameRequired);
      }
      if fault.Some? {
        return Fail(500, UpdateStudentFailed);
      }
      if TakenByOther(alunos, n, id) {
        return Fail(400, NameTaken);
      }
      var found := FindById(alunos, id);
      if found.None? {
        return Fail(404, StudentNotFound);
      }
      var k := found.value;
      TrimmedIsStored(nome);
      RenameConsistent(alunos, treinos, nextId, clock, k, n);
      alunos := Renamed(alunos, k, n);
      reply := Ok(alunos[k]);
    }

    /**
     * DELETE /alunos/:id: deletes the student's workouts, then the student;
     * 404 when no student row was deleted (the workout deletion still commits).
     */
    method DeleteStudent(id: nat, fault: Option<string>) returns (reply: Reply<()>)
      requires Valid()
      modifies this
      ensures Valid()
      ensures nextId == old(nextId) && clock == old(clock)
      ensures fault.Some? ==> reply == Fail(500, DeleteStudentFailed) && Unchanged()
      ensures fault.None? ==>
        (treinos == WithoutWorkoutsOf(old(treinos), id) && alunos == WithoutStudent(old(alunos), id)
         && reply == (if HasStudent(old(alunos), id) then Ok(()) else Fail(404, StudentNotFound))
         && !HasStudent(alunos, id) && forall w :: w in treinos ==> w.alunoId != id)
    {
      if fault.Some? {
        return Fail(500, DeleteStudentFailed);
      }
      DeleteConsistent(alunos, treinos, nextId, clock, id);
      DeleteCount(alunos, id);
      treinos := WithoutWorkoutsOf(treinos, id);
      var rest := WithoutStudent(alunos, id);
      var rowCount := |alunos| - |rest|;
      alunos := rest;
      if rowCount == 0 {
        reply := Fail(404, StudentNotFound);
      } else {
        reply := Ok(());
      }
    }

    /**
     * POST /treinos with body `{ aluno, treino }`: finds the student by the
     * trimmed name or creates it, then inserts one workout for it, under the
     * found or created row's id and name. Both rows of one request carry the
     * same `now()`.
     */
    method SaveWorkout(aluno: string, treino: Body, fault: Option<string>) returns (reply: Reply<Workout>)
      requires Valid()
      modifies this
      ensures Valid()
      ensures var n := TrimJs(aluno);
        if n == [] || treino == NotArray then reply == Fail(400, BadWorkout) && Unchanged()
        else if fault.Some? then
          reply == Fail(500, Selection.Or(fault.value, SaveWorkoutFailed)) && Unchanged()
        else match FindByName(old(alunos), n)
          case Some(k) =>
            (var w := Workout(old(nextId), old(alunos)[k].id, n, treino.items, old(clock));
             reply == Ok(w)
             && alunos == old(alunos) && treinos == old(treinos) + [w]
             && nextId == old(nextId) + 1 && clock == old(clock) + 1)
          case None =>
            (var s := Student(old(nextId), n, old(clock));
             var w := Workout(old(nextId) + 1, s.id, n, treino.items, old(clock));
             reply == Ok(w)
             && alunos == old(alunos) + [s] && treinos == old(treinos) + [w]
             && nextId == old(nextId) + 2 && clock == old(clock) + 1)
    {
      var n := TrimJs(aluno);
      if n == [] || treino == NotArray {
        return Fail(400, BadWorkout);
      }
      if fault.Some? {
        return Fail(500, Selection.Or(fault.value, SaveWorkoutFailed));
      }
      match FindByName(alunos, n) {
        case Some(k) =>
          var w := InsertWorkoutFor(k, n, treino.items);
          reply := Ok(w);
        case None =>
          TrimmedIsStored(aluno);
          var w := InsertStudentAndWorkout(n, treino.items);
          reply := Ok(w);
      }
    }

    /**
     * The writes of POST /treinos when the name `n` is row `k`'s: one workout
     * row under that student, committed.
     */
    method InsertWorkoutFor(k: nat, n: string, items: seq<string>) returns (w: Workout)
      requires Valid() && k < |alunos|
      modifies this
      ensures Valid()
      ensures w == Workout(old(nextId), old(alunos)[k].id, n, items, old(clock))
      ensures alunos == old(alunos) && treinos == old(treinos) + [w]
      ensures nextId == old(nextId) + 1 && clock == old(clock) + 1
    {
      w := Workout(nextId, alunos[k].id, n, items, clock);
      SaveForKnownConsistent(alunos, treinos, nextId, clock, k, n, items);
      treinos, nextId, clock := treinos + [w], nextId + 1, clock + 1;
    }

    /**
     * The writes of POST /treinos when no student is named `n`: the student
     * row, then one workout row under it, committed together.
     */
    method InsertStudentAndWorkout(n: string, items: seq<string>) returns (w: Workout)
      requires Valid() && StoredName(n) && FindByName(alunos, n).None?
      modifies this
      ensures Valid()
      ensures w == Workout(old(nextId) + 1, old(nextId), n, items, old(clock))
      ensures alunos == old(alunos) + [Student(old(nextId), n, old(clock))] && treinos == old(treinos) + [w]
      ensures nextId == old(nextId) + 2 && clock == old(clock) + 1
    {
      var s := Student(nextId, n, clock);
      w := Workout(nextId + 1, nextId, n, items, clock);
      SaveForNewConsistent(alunos, treinos, nextId, clock, n, items);
      alunos, treinos, nextId, clock := alunos + [s], treinos + [w], nextId + 2, clock + 1;
    }

    /** GET /alunos: every student, newest first. */
    method ListStudents(fault: Option<string>) returns (reply: Reply<seq<Student>>)
      requires Valid()
      ensures fault.Some? ==> reply == Fail(500, ListStudentsFailed)
      ensures fault.None? ==> reply == Ok(NewestFirst(alunos))
      ensures reply.Ok? ==>
        (multiset(reply.data) == multiset(alunos)
         && forall i, j :: 0 <= i < j < |reply.data| ==> reply.data[i].createdAt > reply.data[j].createdAt)
    {
      if fault.Some? {
        return Fail(500, ListStudentsFailed);
      }
      NewestFirstReverses(alunos, StudentBefore);
      reply := Ok(NewestFirst(alunos));
    }

    /**
     * GET /treinos, with `?aluno=` (absent: ""): the workouts saved under
     * that exact name, or all of them when it is empty, newest first.
     */
    method ListWorkouts(aluno: string, fault: Option<string>) returns (reply: Reply<seq<Workout>>)
      requires Valid()
      ensures fault.Some? ==> reply == Fail(500, ListWorkoutsFailed)
      ensures fault.None? ==> reply == Ok(NewestFirst(if aluno == [] then treinos else WorkoutsNamed(treinos, aluno)))
      ensures reply.Ok? ==>
        ((forall w :: w in reply.data <==> w in treinos && (aluno == [] || w.alunoNome == aluno))
         && forall i, j :: 0 <= i < j < |reply.data| ==> reply.data[i].createdAt > reply.data[j].createdAt)
    {
      if fault.Some? {
        return Fail(500, ListWorkoutsFailed);
      }
      var rows := treinos;
      if aluno != [] {
        rows := WorkoutsNamed(treinos, aluno);
        forall w ensures w in rows <==> w in treinos && w.alunoNome == aluno {
          WhereMember(treinos, SavedUnder(aluno), w);
        }
        WherePairwise(treinos, SavedUnder(aluno), WorkoutBefore);
      }
      NewestFirstReverses(rows, WorkoutBefore);
      assert forall w :: w in NewestFirst(rows) <==> w in multiset(rows);
      reply := Ok(NewestFirst(rows));
    }
  }
}
