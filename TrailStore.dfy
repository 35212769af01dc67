/**
 * The backend's trails resource: two tables,
 *   trails(id, name, description, createdAt) and
 *   modules(id, title, content, orderNum, trailId),
 * and the five route handlers over them (list, get, create, replace, delete).
 *
 * Each handler is one atomic step over in-memory tables. A table is a sequence
 * of rows in rowid order; `nextTrailId` and `nextModuleId` play the part of the
 * AUTOINCREMENT counters (an id is never handed out twice, even after a
 * delete); `clock` is a logical `createdAt` stamp that grows with every trail insert.
 */
module TrailStore {
  import opened JsText

  const NameRequired := "Nome da trilha é obrigatório"
  const TrailNotFound := "Trilha não encontrada"
  const TrailDeleted := "Trilha deletada com sucesso"
  const UntitledModule := "Módulo sem título"
  /** The driver's message when `UPDATE trails SET name = NULL` hits the NOT NULL constraint. */
  const NameNotNull := "SQLITE_CONSTRAINT: NOT NULL constraint failed: trails.name"

  datatype TrailRow = TrailRow(id: int, name: string, description: Option<string>, createdAt: nat)

  datatype ModuleRow = ModuleRow(id: int, title: string, content: Option<string>, orderNum: int, trailId: int)

  /** One element of a request body's `modules` array; a missing or null field is `None`. */
  datatype ModuleInput = ModuleInput(title: Option<string>, content: Option<string>)

  /** `{ ...trail, modules }`: a trail row with its module rows, as get and list return it. */
  datatype TrailView = TrailView(trail: TrailRow, modules: seq<ModuleRow>)

  /** `{ id, name, description, modules }`: what create and replace send back, the fields as submitted. */
  datatype TrailEcho = TrailEcho(id: int, name: Option<string>, description: Option<string>, modules: seq<ModuleInput>)

  /** An HTTP status with a JSON body, or an error status with `{error}` / `{message}`. */
  datatype Response<T> = Reply(status: int, body: T) | Fail(status: int, message: string)

  // ------------------------------------------------------------ row queries

  function TrailIds(trails: seq<TrailRow>): set<int> {
    set t | t in trails :: t.id
  }

  /** `SELECT * FROM trails WHERE id = ?` with `db.get`: the first matching row, if any. */
  function FindTrail(trails: seq<TrailRow>, id: int): (r: Option<TrailRow>)
    ensures r.Some? <==> id in TrailIds(trails)
    ensures r.Some? ==> r.value in trails && r.value.id == id
  {
    if trails == [] then None
    else if trails[0].id == id then Some(trails[0])
    else FindTrail(trails[1..], id)
  }

  /** `SELECT * FROM modules WHERE trailId = ?`, in rowid order. */
  function ModulesOf(modules: seq<ModuleRow>, trailId: int): (r: seq<ModuleRow>)
    ensures forall m :: m in r <==> m in modules && m.trailId == trailId
    ensures |r| <= |modules|
  {
    if modules == [] then []
    else (if modules[0].trailId == trailId then [modules[0]] else []) + ModulesOf(modules[1..], trailId)
  }

  /** `DELETE FROM modules WHERE trailId = ?`: the rows that stay. */
  function WithoutTrail(modules: seq<ModuleRow>, trailId: int): (r: seq<ModuleRow>)
    ensures forall m :: m in r <==> m in modules && m.trailId != trailId
    ensures |r| <= |modules|
  {
    if modules == [] then []
    else (if modules[0].trailId != trailId then [modules[0]] else []) + WithoutTrail(modules[1..], trailId)
  }

  /** `DELETE FROM trails WHERE id = ?`: the rows that stay. */
  function RemoveTrail(trails: seq<TrailRow>, id: int): (r: seq<TrailRow>)
    ensures forall t :: t in r <==> t in trails && t.id != id
    ensures |r| <= |trails|
  {
    if trails == [] then []
    else (if trails[0].id != id then [trails[0]] else []) + RemoveTrail(trails[1..], id)
  }

  /** `UPDATE trails SET name = ?, description = ? WHERE id = ?` */
  function UpdateTrail(trails: seq<TrailRow>, id: int, name: string, description: Option<string>): (r: seq<TrailRow>)
    ensures |r| == |trails|
    ensures forall i :: 0 <= i < |r| ==> r[i].id == trails[i].id && r[i].createdAt == trails[i].createdAt
    ensures forall i :: 0 <= i < |r| && trails[i].id != id ==> r[i] == trails[i]
    ensures forall i :: 0 <= i < |r| && trails[i].id == id ==> r[i].name == name && r[i].description == description
    ensures TrailIds(r) == TrailIds(trails)
  {
    var r := seq(|trails|, i requires 0 <= i < |trails| =>
      if trails[i].id == id then trails[i].(name := name, description := description) else trails[i]);
    SameIdsSameIdSet(trails, r);
    r
  }

  /** Two tables whose rows carry the same ids position by position hold the same set of ids. */
  lemma SameIdsSameIdSet(a: seq<TrailRow>, b: seq<TrailRow>)
    requires |a| == |b|
    requires forall i :: 0 <= i < |a| ==> a[i].id == b[i].id
    ensures TrailIds(a) == TrailIds(b)
  {
    forall x | x in TrailIds(a) ensures x in TrailIds(b) {
      var i :| 0 <= i < |a| && a[i].id == x;
      assert b[i] in b;
    }
    forall x | x in TrailIds(b) ensures x in TrailIds(a) {
      var i :| 0 <= i < |b| && b[i].id == x;
      assert a[i] in a;
    }
  }

  /** The row the prepared insert stores for the `k`-th (0-based) submitted module. */
  function StoredModule(input: ModuleInput, k: nat, trailId: int, id: int): (r: ModuleRow)
    ensures r.id == id && r.trailId == trailId && r.orderNum == k + 1
    ensures r.title != "" && (Truthy(input.title) ==> r.title == input.title.value)
    ensures !Truthy(input.title) ==> r.title == UntitledModule
    ensures r.content != Some("") && (Truthy(input.content) ==> r.content == input.content)
    ensures !Truthy(input.content) ==> r.content == None
  {
    ModuleRow(id, OrElse(input.title, UntitledModule), OrNull(input.content), k + 1, trailId)
  }

  /** The rows `modules.forEach((mod, i) => stmt.run(...))` appends, ids handed out from `firstId` on. */
  function NewModules(inputs: seq<ModuleInput>, trailId: int, firstId: int): (r: seq<ModuleRow>)
    ensures |r| == |inputs|
  {
    seq(|inputs|, k requires 0 <= k < |inputs| => StoredModule(inputs[k], k, trailId, firstId + k))
  }

  /** The module rows of one trail are numbered 1, 2, ... in the order they are stored. */
  predicate Dense(modules: seq<ModuleRow>) {
    forall i :: 0 <= i < |modules| ==> modules[i].orderNum == i + 1
  }

  /** `ORDER BY orderNum`: ascending, no ties. */
  predicate SortedByOrder(modules: seq<ModuleRow>) {
    forall i, j :: 0 <= i < j < |modules| ==> modules[i].orderNum < modules[j].orderNum
  }

  predicate ModuleIdsIncreasing(modules: seq<ModuleRow>) {
    forall i, j :: 0 <= i < j < |modules| ==> modules[i].id < modules[j].id
  }

  predicate TrailsIncreasing(trails: seq<TrailRow>) {
    forall i, j :: 0 <= i < j < |trails| ==> trails[i].id < trails[j].id && trails[i].createdAt < trails[j].createdAt
  }

  /** Every module row points at a trail row: no orphans. */
  predicate NoOrphans(trails: seq<TrailRow>, modules: seq<ModuleRow>) {
    forall m :: m in modules ==> m.trailId in TrailIds(trails)
  }

  // ------------------------------------------------------------ lemmas about the queries

  lemma DenseIsSorted(modules: seq<ModuleRow>)
    requires Dense(modules)
    ensures SortedByOrder(modules)
  {
  }

  lemma {:induction false} ModulesOfAppend(a: seq<ModuleRow>, b: seq<ModuleRow>, trailId: int)
    ensures ModulesOf(a + b, trailId) == ModulesOf(a, trailId) + ModulesOf(b, trailId)
  {
    if a == [] {
      assert a + b == b;
    } else {
      assert (a + b)[1..] == a[1..] + b;
      ModulesOfAppend(a[1..], b, trailId);
    }
  }

  lemma {:induction false} ModulesOfAll(modules: seq<ModuleRow>, trailId: int)
    requires forall m :: m in modules ==> m.trailId == trailId
    ensures ModulesOf(modules, trailId) == modules
  {
    if modules != [] {
      ModulesOfAll(modules[1..], trailId);
    }
  }

  lemma {:induction false} ModulesOfNone(modules: seq<ModuleRow>, trailId: int)
    requires forall m :: m in modules ==> m.trailId != trailId
    ensures ModulesOf(modules, trailId) == []
  {
    if modules != [] {
      ModulesOfNone(modules[1..], trailId);
    }
  }

  /** Deleting one trail's modules leaves every other trail's modules exactly as they were. */
  lemma {:induction false} ModulesOfWithoutTrail(modules: seq<ModuleRow>, removed: int, trailId: int)
    ensures ModulesOf(WithoutTrail(modules, removed), trailId) == if trailId == removed then [] else ModulesOf(modules, trailId)
  {
    if modules != [] {
      ModulesOfWithoutTrail(modules[1..], removed, trailId);
      var head := if modules[0].trailId != removed then [modules[0]] else [];
      ModulesOfAppend(head, WithoutTrail(modules[1..], removed), trailId);
    }
  }

  /** Every inserted row points at the trail it was inserted for. */
  lemma NewModulesPointAt(inputs: seq<ModuleInput>, trailId: int, firstId: int)
    ensures forall m :: m in NewModules(inputs, trailId, firstId) ==> m.trailId == trailId
  {
    var rows := NewModules(inputs, trailId, firstId);
    forall m | m in rows ensures m.trailId == trailId {
      var k :| 0 <= k < |rows| && rows[k] == m;
    }
  }

  /** The inserted rows are numbered 1..N in submission order. */
  lemma NewModulesDense(inputs: seq<ModuleInput>, trailId: int, firstId: int)
    ensures Dense(NewModules(inputs, trailId, firstId))
  {
  }

  /** The inserted rows are the trail's modules, numbered 1..N in submission order. */
  lemma NewModulesOfTrail(inputs: seq<ModuleInput>, trailId: int, firstId: int)
    ensures ModulesOf(NewModules(inputs, trailId, firstId), trailId) == NewModules(inputs, trailId, firstId)
    ensures Dense(NewModules(inputs, trailId, firstId))
  {
    NewModulesPointAt(inputs, trailId, firstId);
    ModulesOfAll(NewModules(inputs, trailId, firstId), trailId);
    NewModulesDense(inputs, trailId, firstId);
  }

  /** None of the inserted rows belongs to another trail. */
  lemma NewModulesOfOther(inputs: seq<ModuleInput>, trailId: int, firstId: int, other: int)
    requires other != trailId
    ensures ModulesOf(NewModules(inputs, trailId, firstId), other) == []
  {
    NewModulesPointAt(inputs, trailId, firstId);
    ModulesOfNone(NewModules(inputs, trailId, firstId), other);
  }

  /** Putting a row with a smaller id in front of increasing rows keeps them increasing. */
  lemma ConsKeepsIdOrder(m: ModuleRow, rest: seq<ModuleRow>)
    requires ModuleIdsIncreasing(rest)
    requires forall j :: 0 <= j < |rest| ==> m.id < rest[j].id
    ensures ModuleIdsIncreasing([m] + rest)
  {
    var r := [m] + rest;
    forall i, j | 0 <= i < j < |r| ensures r[i].id < r[j].id {
      assert r[j] == rest[j - 1];
      if i > 0 { assert r[i] == rest[i - 1]; }
    }
  }

  lemma {:induction false} WithoutTrailKeepsIdOrder(modules: seq<ModuleRow>, removed: int)
    requires ModuleIdsIncreasing(modules)
    ensures ModuleIdsIncreasing(WithoutTrail(modules, removed))
  {
    if modules != [] {
      var tail := modules[1..];
      assert ModuleIdsIncreasing(tail) by {
        forall i, j | 0 <= i < j < |tail| ensures tail[i].id < tail[j].id {
          assert tail[i] == modules[i + 1] && tail[j] == modules[j + 1];
        }
      }
      WithoutTrailKeepsIdOrder(tail, removed);
      var rest := WithoutTrail(tail, removed);
      if modules[0].trailId != removed {
        forall j | 0 <= j < |rest| ensures modules[0].id < rest[j].id {
          assert rest[j] in rest;
          var k :| 0 <= k < |tail| && tail[k] == rest[j];
          assert modules[k + 1] == rest[j];
        }
        ConsKeepsIdOrder(modules[0], rest);
        assert WithoutTrail(modules, removed) == [modules[0]] + rest;
      } else {
        assert WithoutTrail(modules, removed) == [] + rest;
      }
    }
  }

  /** Putting an older trail with a smaller id in front of increasing trails keeps them increasing. */
  lemma ConsKeepsTrailOrder(t: TrailRow, rest: seq<TrailRow>)
    requires TrailsIncreasing(rest)
    requires forall j :: 0 <= j < |rest| ==> t.id < rest[j].id && t.createdAt < rest[j].createdAt
    ensures TrailsIncreasing([t] + rest)
  {
    var r := [t] + rest;
    forall i, j | 0 <= i < j < |r| ensures r[i].id < r[j].id && r[i].createdAt < r[j].createdAt {
      assert r[j] == rest[j - 1];
      if i > 0 { assert r[i] == rest[i - 1]; }
    }
  }

  lemma {:induction false} RemoveTrailKeepsOrder(trails: seq<TrailRow>, id: int)
    requires TrailsIncreasing(trails)
    ensures TrailsIncreasing(RemoveTrail(trails, id))
  {
    if trails != [] {
      var tail := trails[1..];
      assert TrailsIncreasing(tail) by {
        forall i, j | 0 <= i < j < |tail| ensures tail[i].id < tail[j].id && tail[i].createdAt < tail[j].createdAt {
          assert tail[i] == trails[i + 1] && tail[j] == trails[j + 1];
        }
      }
      RemoveTrailKeepsOrder(tail, id);
      var rest := RemoveTrail(tail, id);
      if trails[0].id != id {
        forall j | 0 <= j < |rest| ensures trails[0].id < rest[j].id && trails[0].createdAt < rest[j].createdAt {
          assert rest[j] in rest;
          var k :| 0 <= k < |tail| && tail[k] == rest[j];
          assert trails[k + 1] == rest[j];
        }
        ConsKeepsTrailOrder(trails[0], rest);
        assert RemoveTrail(trails, id) == [trails[0]] + rest;
      } else {
        assert RemoveTrail(trails, id) == [] + rest;
      }
    }
  }

  /** The modules table after a replace of trail `id`: its rows deleted, the submitted ones appended. */
  function ReplacedModules(modules: seq<ModuleRow>, id: int, inputs: seq<ModuleInput>, firstId: int): seq<ModuleRow> {
    WithoutTrail(modules, id) + NewModules(inputs, id, firstId)
  }

  /** After a replace the trail's modules are exactly the submitted list, numbered 1..M. */
  lemma ReplaceSetsModules(modules: seq<ModuleRow>, id: int, inputs: seq<ModuleInput>, firstId: int)
    ensures ModulesOf(ReplacedModules(modules, id, inputs, firstId), id) == NewModules(inputs, id, firstId)
    ensures Dense(ModulesOf(ReplacedModules(modules, id, inputs, firstId), id))
  {
    ModulesOfAppend(WithoutTrail(modules, id), NewModules(inputs, id, firstId), id);
    ModulesOfWithoutTrail(modules, id, id);
    NewModulesOfTrail(inputs, id, firstId);
  }

  /** A replace leaves every other trail's modules as they were. */
  lemma ReplaceKeepsOthers(modules: seq<ModuleRow>, id: int, inputs: seq<ModuleInput>, firstId: int, other: int)
    requires other != id
    ensures ModulesOf(ReplacedModules(modules, id, inputs, firstId), other) == ModulesOf(modules, other)
  {
    ModulesOfAppend(WithoutTrail(modules, id), NewModules(inputs, id, firstId), other);
    ModulesOfWithoutTrail(modules, id, other);
    NewModulesOfOther(inputs, id, firstId, other);
  }

  /** The inserted rows carry the ids `firstId`, `firstId + 1`, ... handed out for them. */
  lemma NewModulesIds(inputs: seq<ModuleInput>, trailId: int, firstId: int)
    ensures forall m :: m in NewModules(inputs, trailId, firstId) ==> firstId <= m.id < firstId + |inputs|
  {
    var rows := NewModules(inputs, trailId, firstId);
    forall m | m in rows ensures firstId <= m.id < firstId + |inputs| {
      var k :| 0 <= k < |rows| && rows[k] == m;
    }
  }

  /** `mod.title || 'Módulo sem título'`: no inserted row has an empty title. */
  lemma NewModulesTitled(inputs: seq<ModuleInput>, trailId: int, firstId: int)
    ensures forall m :: m in NewModules(inputs, trailId, firstId) ==> m.title != ""
  {
    var rows := NewModules(inputs, trailId, firstId);
    forall m | m in rows ensures m.title != "" {
      var k :| 0 <= k < |rows| && rows[k] == m;
      assert m.title == OrElse(inputs[k].title, UntitledModule);
    }
  }

  /**
   * The ids a replaced trail's modules had are free afterwards: no row of the
   * new table, the trail's own new rows included, carries one of them.
   */
  lemma ReplaceFreesOldIds(modules: seq<ModuleRow>, id: int, inputs: seq<ModuleInput>, firstId: int)
    requires ModuleIdsIncreasing(modules)
    requires forall m :: m in modules ==> m.id < firstId
    ensures forall m, n :: m in ModulesOf(modules, id) && n in ReplacedModules(modules, id, inputs, firstId) ==> m.id != n.id
  {
    NewModulesIds(inputs, id, firstId);
    forall m, n | m in ModulesOf(modules, id) && n in WithoutTrail(modules, id) ensures m.id != n.id {
      var i :| 0 <= i < |modules| && modules[i] == m;
      var j :| 0 <= j < |modules| && modules[j] == n;
      assert i != j;
    }
  }

  /** What a delete does with the declared cascade: the trail's modules go, nobody else's, and no orphan is left. */
  lemma DeleteCascadeEffect(trails: seq<TrailRow>, modules: seq<ModuleRow>, id: int, other: int)
    requires NoOrphans(trails, modules)
    ensures NoOrphans(RemoveTrail(trails, id), WithoutTrail(modules, id))
    ensures ModulesOf(WithoutTrail(modules, id), id) == []
    ensures other != id ==> ModulesOf(WithoutTrail(modules, id), other) == ModulesOf(modules, other)
  {
    ModulesOfWithoutTrail(modules, id, id);
    ModulesOfWithoutTrail(modules, id, other);
    forall m | m in WithoutTrail(modules, id) ensures m.trailId in TrailIds(RemoveTrail(trails, id)) {
      var t :| t in trails && t.id == m.trailId;
      assert t in RemoveTrail(trails, id);
    }
  }

  /**
   * The delete as the code runs it on a stock SQLite connection: the table
   * declares ON DELETE CASCADE, but `PRAGMA foreign_keys = ON` is never
   * issued, so only the trail row goes and its modules stay behind.
   */
  function DeleteWithoutForeignKeys(trails: seq<TrailRow>, modules: seq<ModuleRow>, id: int): (r: (seq<TrailRow>, seq<ModuleRow>))
    ensures r.1 == modules
    ensures forall t :: t in r.0 <==> t in trails && t.id != id
  {
    (RemoveTrail(trails, id), modules)
  }

  /** One trail with one module, deleted without foreign-key enforcement, leaves an orphaned module. */
  lemma DeleteWithoutForeignKeysOrphans()
    ensures var trails := [TrailRow(1, "Math", None, 0)];
            var modules := [ModuleRow(1, "Algebra", None, 1, 1)];
            && NoOrphans(trails, modules)
            && !NoOrphans(DeleteWithoutForeignKeys(trails, modules, 1).0, DeleteWithoutForeignKeys(trails, modules, 1).1)
  {
    var trails := [TrailRow(1, "Math", None, 0)];
    var modules := [ModuleRow(1, "Algebra", None, 1, 1)];
    assert TrailIds(trails) == {1};
    var after := DeleteWithoutForeignKeys(trails, modules, 1);
    assert after.0 == [];
    assert modules[0] in after.1 && modules[0].trailId !in TrailIds(after.0);
  }

  // ------------------------------------------------------------ the tables' invariant

  /** Keys, AUTOINCREMENT counters, stamps, non-empty module titles, the foreign key, and dense `orderNum`s per trail. */
  ghost predicate TablesValid(trails: seq<TrailRow>, modules: seq<ModuleRow>, nextTrailId: int, nextModuleId: int, clock: nat) {
    && 1 <= nextTrailId && 1 <= nextModuleId
    && TrailsIncreasing(trails)
    && (forall t :: t in trails ==> 1 <= t.id < nextTrailId && t.createdAt < clock)
    && ModuleIdsIncreasing(modules)
    && (forall m :: m in modules ==> 1 <= m.id < nextModuleId)
    && (forall m :: m in modules ==> m.title != "")
    && NoOrphans(trails, modules)
    && (forall trailId :: Dense(ModulesOf(modules, trailId)))
  }

  /** The id AUTOINCREMENT hands out next belongs to no trail and no module row yet. */
  lemma FreshTrailHasNoModules(trails: seq<TrailRow>, modules: seq<ModuleRow>, nextTrailId: int, nextModuleId: int, clock: nat)
    requires TablesValid(trails, modules, nextTrailId, nextModuleId, clock)
    ensures nextTrailId !in TrailIds(trails)
    ensures forall m :: m in modules ==> m.trailId != nextTrailId
  {
    forall m | m in modules ensures m.trailId != nextTrailId {
      var t :| t in trails && t.id == m.trailId;
    }
  }

  /** Rows appended with ids from `firstId` on keep the module ids increasing. */
  lemma AppendKeepsIdOrder(modules: seq<ModuleRow>, inputs: seq<ModuleInput>, trailId: int, firstId: int)
    requires ModuleIdsIncreasing(modules)
    requires forall m :: m in modules ==> m.id < firstId
    ensures ModuleIdsIncreasing(modules + NewModules(inputs, trailId, firstId))
    ensures forall m :: m in NewModules(inputs, trailId, firstId) ==> firstId <= m.id < firstId + |inputs|
  {
    var rows := NewModules(inputs, trailId, firstId);
    var after := modules + rows;
    forall i, j | 0 <= i < j < |after| ensures after[i].id < after[j].id {
      if i < |modules| && j >= |modules| {
        assert modules[i] in modules;
        assert after[j] == rows[j - |modules|];
      }
    }
    NewModulesIds(inputs, trailId, firstId);
  }

  /** Before a create the new id has no modules; after it, the submitted ones, numbered 1..N. */
  lemma CreateSetsModules(modules: seq<ModuleRow>, trailId: int, inputs: seq<ModuleInput>, firstId: int)
    requires forall m :: m in modules ==> m.trailId != trailId
    ensures ModulesOf(modules + NewModules(inputs, trailId, firstId), trailId) == NewModules(inputs, trailId, firstId)
  {
    ModulesOfAppend(modules, NewModules(inputs, trailId, firstId), trailId);
    ModulesOfNone(modules, trailId);
    NewModulesOfTrail(inputs, trailId, firstId);
  }

  /** A create leaves every other trail's modules as they were. */
  lemma CreateKeepsOthers(modules: seq<ModuleRow>, trailId: int, inputs: seq<ModuleInput>, firstId: int, other: int)
    requires other != trailId
    ensures ModulesOf(modules + NewModules(inputs, trailId, firstId), other) == ModulesOf(modules, other)
  {
    ModulesOfAppend(modules, NewModules(inputs, trailId, firstId), other);
    NewModulesOfOther(inputs, trailId, firstId, other);
  }

  lemma CreateKeepsTablesValid(trails: seq<TrailRow>, modules: seq<ModuleRow>, trailId: int, nextModuleId: int, clock: nat,
                               name: string, description: Option<string>, inputs: seq<ModuleInput>)
    requires TablesValid(trails, modules, trailId, nextModuleId, clock)
    ensures TablesValid(trails + [TrailRow(trailId, name, description, clock)],
                        modules + NewModules(inputs, trailId, nextModuleId),
                        trailId + 1, nextModuleId + |inputs|, clock + 1)
  {
    var row := TrailRow(trailId, name, description, clock);
    var trails' := trails + [row];
    var rows := NewModules(inputs, trailId, nextModuleId);
    var modules' := modules + rows;
    forall i, j | 0 <= i < j < |trails'|
      ensures trails'[i].id < trails'[j].id && trails'[i].createdAt < trails'[j].createdAt
    {
      assert trails'[i] in trails;
    }
    AppendKeepsIdOrder(modules, inputs, trailId, nextModuleId);
    NewModulesTitled(inputs, trailId, nextModuleId);
    FreshTrailHasNoModules(trails, modules, trailId, nextModuleId, clock);
    NewModulesPointAt(inputs, trailId, nextModuleId);
    forall m | m in modules' ensures m.trailId in TrailIds(trails') {
      if m in modules {
        var t :| t in trails && t.id == m.trailId;
        assert t in trails';
      } else {
        assert row in trails';
      }
    }
    forall other ensures Dense(ModulesOf(modules', other)) {
      if other == trailId {
        CreateSetsModules(modules, trailId, inputs, nextModuleId);
        NewModulesOfTrail(inputs, trailId, nextModuleId);
      } else {
        CreateKeepsOthers(modules, trailId, inputs, nextModuleId, other);
      }
    }
  }

  lemma ReplaceKeepsTablesValid(trails: seq<TrailRow>, modules: seq<ModuleRow>, nextTrailId: int, nextModuleId: int, clock: nat,
                                id: int, name: string, description: Option<string>, inputs: seq<ModuleInput>)
    requires TablesValid(trails, modules, nextTrailId, nextModuleId, clock)
    requires id in TrailIds(trails)
    ensures TablesValid(UpdateTrail(trails, id, name, description), ReplacedModules(modules, id, inputs, nextModuleId),
                        nextTrailId, nextModuleId + |inputs|, clock)
  {
    var trails' := UpdateTrail(trails, id, name, description);
    var kept := WithoutTrail(modules, id);
    var rows := NewModules(inputs, id, nextModuleId);
    WithoutTrailKeepsIdOrder(modules, id);
    AppendKeepsIdOrder(kept, inputs, id, nextModuleId);
    NewModulesTitled(inputs, id, nextModuleId);
    NewModulesPointAt(inputs, id, nextModuleId);
    forall i, j | 0 <= i < j < |trails'|
      ensures trails'[i].id < trails'[j].id && trails'[i].createdAt < trails'[j].createdAt
    {
      assert trails'[i].id == trails[i].id && trails'[i].createdAt == trails[i].createdAt;
      assert trails'[j].id == trails[j].id && trails'[j].createdAt == trails[j].createdAt;
    }
    forall t | t in trails' ensures 1 <= t.id < nextTrailId && t.createdAt < clock {
      var i :| 0 <= i < |trails'| && trails'[i] == t;
      assert trails[i] in trails;
    }
    forall m: ModuleRow | m in kept + rows ensures m.trailId in TrailIds(trails') {
    }
    forall other ensures Dense(ModulesOf(kept + rows, other)) {
      if other == id {
        ReplaceSetsModules(modules, id, inputs, nextModuleId);
      } else {
        ReplaceKeepsOthers(modules, id, inputs, nextModuleId, other);
      }
    }
  }

  lemma DeleteKeepsTablesValid(trails: seq<TrailRow>, modules: seq<ModuleRow>, nextTrailId: int, nextModuleId: int, clock: nat, id: int)
    requires TablesValid(trails, modules, nextTrailId, nextModuleId, clock)
    ensures TablesValid(RemoveTrail(trails, id), WithoutTrail(modules, id), nextTrailId, nextModuleId, clock)
  {
    RemoveTrailKeepsOrder(trails, id);
    WithoutTrailKeepsIdOrder(modules, id);
    DeleteCascadeEffect(trails, modules, id, id);
    forall other ensures Dense(ModulesOf(WithoutTrail(modules, id), other)) {
      ModulesOfWithoutTrail(modules, id, other);
    }
  }

  /** One element of the list: `{ ...trail, modules: modules || [] }`, where a failed module query gives `[]`. */
  function ListedView(modules: seq<ModuleRow>, trail: TrailRow, failed: set<int>): (r: TrailView)
    ensures r.trail == trail
    ensures trail.id !in failed ==> forall m :: m in r.modules <==> m in modules && m.trailId == trail.id
    ensures trail.id in failed ==> r.modules == []
  {
    TrailView(trail, if trail.id in failed then [] else ModulesOf(modules, trail.id))
  }

  /** Every trail read from the end of the table backwards, each paired with its modules. */
  function Listing(modules: seq<ModuleRow>, trails: seq<TrailRow>, failed: set<int>): (r: seq<TrailView>)
    ensures |r| == |trails|
    ensures forall i :: 0 <= i < |r| ==> r[i].trail == trails[|trails| - 1 - i]
    ensures forall i :: 0 <= i < |r| ==> r[i] == ListedView(modules, r[i].trail, failed)
  {
    seq(|trails|, i requires 0 <= i < |trails| => ListedView(modules, trails[|trails| - 1 - i], failed))
  }

  /** The loop that answers `GET /api/trails`: the trails from the last row back, each with its modules. */
  method ReadListing(modules: seq<ModuleRow>, trails: seq<TrailRow>, failed: set<int>) returns (r: seq<TrailView>)
    ensures r == Listing(modules, trails, failed)
  {
    r := [];
    var k := |trails|;
    while k > 0
      invariant 0 <= k <= |trails|
      invariant r == Listing(modules, trails, failed)[..|trails| - k]
    {
      k := k - 1;
      r := r + [ListedView(modules, trails[k], failed)];
    }
  }

  /** Reading the trails table backwards lists the newest `createdAt` first. */
  lemma ListedNewestFirst(modules: seq<ModuleRow>, trails: seq<TrailRow>, failed: set<int>)
    requires TrailsIncreasing(trails)
    ensures forall i, j :: 0 <= i < j < |trails| ==>
              Listing(modules, trails, failed)[i].trail.createdAt > Listing(modules, trails, failed)[j].trail.createdAt
  {
    var r := Listing(modules, trails, failed);
    var n := |trails|;
    forall i, j | 0 <= i < j < n ensures r[i].trail.createdAt > r[j].trail.createdAt {
      assert r[i].trail == trails[n - 1 - i] && r[j].trail == trails[n - 1 - j];
    }
  }

  /** Each listed trail carries its modules in `orderNum` order, or `[]`. */
  lemma ListedModulesSorted(modules: seq<ModuleRow>, trails: seq<TrailRow>, failed: set<int>)
    requires forall trailId :: Dense(ModulesOf(modules, trailId))
    ensures forall i :: 0 <= i < |trails| ==> SortedByOrder(Listing(modules, trails, failed)[i].modules)
  {
    var r := Listing(modules, trails, failed);
    forall i | 0 <= i < |r| ensures SortedByOrder(r[i].modules) {
      if r[i].trail.id !in failed {
        DenseIsSorted(ModulesOf(modules, r[i].trail.id));
      }
    }
  }

  // ------------------------------------------------------------ the store

  class Store {
    var trails: seq<TrailRow>
    var modules: seq<ModuleRow>
    var nextTrailId: int
    var nextModuleId: int
    var clock: nat

    /** The tables' invariant: keys, AUTOINCREMENT counters, stamps, the foreign key, dense `orderNum`s. */
    ghost predicate Valid()
      reads this
    {
      TablesValid(trails, modules, nextTrailId, nextModuleId, clock)
    }

    /** `CREATE TABLE IF NOT EXISTS` on a fresh database: both tables empty. */
    constructor ()
      ensures Valid()
      ensures trails == [] && modules == []
      ensures nextTrailId == 1 && nextModuleId == 1 && clock == 0
    {
      trails, modules := [], [];
      nextTrailId, nextModuleId, clock := 1, 1, 0;
    }

    /** The prepared insert run once per submitted module, `orderNum` = 1-based position. */
    method InsertModules(inputs: seq<ModuleInput>, trailId: int)
      modifies this
      ensures modules == old(modules) + NewModules(inputs, trailId, old(nextModuleId))
      ensures nextModuleId == old(nextModuleId) + |inputs|
      ensures trails == old(trails) && nextTrailId == old(nextTrailId) && clock == old(clock)
    {
      var k := 0;
      while k < |inputs|
        invariant 0 <= k <= |inputs|
        invariant modules == old(modules) + NewModules(inputs[..k], trailId, old(nextModuleId))
        invariant nextModuleId == old(nextModuleId) + k
        invariant trails == old(trails) && nextTrailId == old(nextTrailId) && clock == old(clock)
      {
        var row := StoredModule(inputs[k], k, trailId, nextModuleId);
        assert NewModules(inputs[..k + 1], trailId, old(nextModuleId))
            == NewModules(inputs[..k], trailId, old(nextModuleId)) + [row];
        modules := modules + [row];
        nextModuleId := nextModuleId + 1;
        k := k + 1;
      }
      assert inputs[..k] == inputs;
    }

    /** POST /api/trails */
    method Create(name: Option<string>, description: Option<string>, inputs: seq<ModuleInput>)
      returns (r: Response<TrailEcho>)
      requires Valid()
      modifies this
      ensures Valid()
      ensures !Truthy(name) ==> r == Fail(400, NameRequired) && unchanged(this)
      ensures Truthy(name) ==>
        && r == Reply(201, TrailEcho(old(nextTrailId), name, description, inputs))
        && old(nextTrailId) !in TrailIds(old(trails))
        && trails == old(trails) + [TrailRow(old(nextTrailId), name.value, OrNull(description), old(clock))]
        && modules == old(modules) + NewModules(inputs, old(nextTrailId), old(nextModuleId))
        && nextTrailId == old(nextTrailId) + 1 && nextModuleId == old(nextModuleId) + |inputs| && clock == old(clock) + 1
        && ModulesOf(modules, old(nextTrailId)) == NewModules(inputs, old(nextTrailId), old(nextModuleId))
        && (forall other :: other != old(nextTrailId) ==> ModulesOf(modules, other) == ModulesOf(old(modules), other))
    {
      if !Truthy(name) {
        return Fail(400, NameRequired);
      }
      var trailId := nextTrailId;
      FreshTrailHasNoModules(trails, modules, nextTrailId, nextModuleId, clock);
      CreateSetsModules(modules, trailId, inputs, nextModuleId);
      trails := trails + [TrailRow(trailId, name.value, OrNull(description), clock)];
      nextTrailId := nextTrailId + 1;
      clock := clock + 1;
      ghost var before := modules;
      InsertModules(inputs, trailId);
      r := Reply(201, TrailEcho(trailId, name, description, inputs));

      CreateKeepsTablesValid(old(trails), before, trailId, old(nextModuleId), old(clock), name.value, OrNull(description), inputs);
      forall other | other != trailId ensures ModulesOf(modules, other) == ModulesOf(before, other) {
        CreateKeepsOthers(before, trailId, inputs, old(nextModuleId), other);
      }
    }

    /** PUT /api/trails/:id — replaces the name, the description and the whole module set. */
    method Replace(id: int, name: Option<string>, description: Option<string>, inputs: seq<ModuleInput>)
      returns (r: Response<TrailEcho>)
      requires Valid()
      modifies this
      ensures Valid()
      ensures id !in TrailIds(old(trails)) ==> r == Fail(404, TrailNotFound) && unchanged(this)
      ensures id in TrailIds(old(trails)) && name.None? ==> r == Fail(500, NameNotNull) && unchanged(this)
      ensures id in TrailIds(old(trails)) && name.Some? ==>
        && r == Reply(200, TrailEcho(id, name, description, inputs))
        && trails == UpdateTrail(old(trails), id, name.value, OrNull(description))
        && modules == WithoutTrail(old(modules), id) + NewModules(inputs, id, old(nextModuleId))
        && nextTrailId == old(nextTrailId) && nextModuleId == old(nextModuleId) + |inputs| && clock == old(clock)
        && ModulesOf(modules, id) == NewModules(inputs, id, old(nextModuleId))
        && (forall m, n :: m in ModulesOf(old(modules), id) && n in modules ==> m.id != n.id)
        && (forall other :: other != id ==> ModulesOf(modules, other) == ModulesOf(old(modules), other))
    {
      if id !in TrailIds(trails) {
        return Fail(404, TrailNotFound);
      }
      if name.None? {
        return Fail(500, NameNotNull);
      }
      ReplaceKeepsTablesValid(trails, modules, nextTrailId, nextModuleId, clock, id, name.value, OrNull(description), inputs);
      ReplaceSetsModules(modules, id, inputs, nextModuleId);
      ReplaceFreesOldIds(modules, id, inputs, nextModuleId);
      forall other | other != id
        ensures ModulesOf(ReplacedModules(old(modules), id, inputs, old(nextModuleId)), other) == ModulesOf(old(modules), other)
      {
        ReplaceKeepsOthers(old(modules), id, inputs, old(nextModuleId), other);
      }
      trails := UpdateTrail(trails, id, name.value, OrNull(description));
      modules := WithoutTrail(modules, id);
      InsertModules(inputs, id);
      r := Reply(200, TrailEcho(id, name, description, inputs));
    }

    /** DELETE /api/trails/:id — the trail and, by the declared ON DELETE CASCADE, its modules. */
    method Delete(id: int) returns (r: Response<string>)
      requires Valid()
      modifies this
      ensures Valid()
      ensures id !in TrailIds(old(trails)) ==> r == Fail(404, TrailNotFound) && unchanged(this)
      ensures id in TrailIds(old(trails)) ==>
        && r == Reply(200, TrailDeleted)
        && trails == RemoveTrail(old(trails), id)
        && modules == WithoutTrail(old(modules), id)
        && id !in TrailIds(trails) && ModulesOf(modules, id) == []
        && (forall other :: other != id ==> ModulesOf(modules, other) == ModulesOf(old(modules), other))
        && nextTrailId == old(nextTrailId) && nextModuleId == old(nextModuleId) && clock == old(clock)
    {
      if id !in TrailIds(trails) {
        return Fail(404, TrailNotFound);
      }
      DeleteKeepsTablesValid(trails, modules, nextTrailId, nextModuleId, clock, id);
      ModulesOfWithoutTrail(modules, id, id);
      forall other | other != id ensures ModulesOf(WithoutTrail(old(modules), id), other) == ModulesOf(old(modules), other) {
        ModulesOfWithoutTrail(old(modules), id, other);
      }
      trails := RemoveTrail(trails, id);
      modules := WithoutTrail(modules, id);
      r := Reply(200, TrailDeleted);
    }

    /** GET /api/trails/:id */
    method Get(id: int) returns (r: Response<TrailView>)
      requires Valid()
      ensures id !in TrailIds(trails) ==> r == Fail(404, TrailNotFound)
      ensures id in TrailIds(trails) ==>
        && r.Reply? && r.status == 200
        && r.body.trail in trails && r.body.trail.id == id
        && r.body.modules == ModulesOf(modules, id)
        && (forall m :: m in r.body.modules <==> m in modules && m.trailId == id)
        && (forall m :: m in r.body.modules ==> m.title != "")
        && SortedByOrder(r.body.modules)
        && (forall i :: 0 <= i < |r.body.modules| ==> r.body.modules[i].orderNum == i + 1)
    {
      var found := FindTrail(trails, id);
      if found.None? {
        return Fail(404, TrailNotFound);
      }
      var rows := ModulesOf(modules, id);
      DenseIsSorted(rows);
      r := Reply(200, TrailView(found.value, rows));
    }

    /**
     * GET /api/trails — every trail, newest first, each with its modules in
     * `orderNum` order; a trail whose module query failed (listed in `failed`)
     * carries `[]`.
     */
    method List(failed: set<int>) returns (r: seq<TrailView>)
      requires Valid()
      ensures |r| == |trails|
      ensures forall i :: 0 <= i < |r| ==> r[i] == ListedView(modules, trails[|trails| - 1 - i], failed)
      ensures forall i, j :: 0 <= i < j < |r| ==> r[i].trail.createdAt > r[j].trail.createdAt
      ensures forall i :: 0 <= i < |r| ==> SortedByOrder(r[i].modules)
    {
      r := ReadListing(modules, trails, failed);
      ListedNewestFirst(modules, trails, failed);
      ListedModulesSorted(modules, trails, failed);
    }
  }

  lemma NewModulesOne(input: ModuleInput, trailId: int, firstId: int)
    ensures NewModules([input], trailId, firstId) == [StoredModule(input, 0, trailId, firstId)]
  {
  }

  lemma TrailIdsOne(t: TrailRow)
    ensures TrailIds([t]) == {t.id}
  {
    assert t in [t];
  }

  /**
   * For any store, `POST /api/trails` followed by `GET /api/trails/:id` of the
   * id handed out reads back the submitted name, the description as stored,
   * and exactly the submitted modules as rows numbered 1..N. A create refused
   * for its name leaves that id unknown.
   */
  method CreateThenGet(store: Store, name: Option<string>, description: Option<string>, inputs: seq<ModuleInput>)
    returns (created: Response<TrailEcho>, fetched: Response<TrailView>)
    requires store.Valid()
    modifies store
    ensures store.Valid()
    ensures !Truthy(name) ==> created == Fail(400, NameRequired) && fetched == Fail(404, TrailNotFound)
    ensures Truthy(name) ==>
      && created.Reply? && created.status == 201 && created.body.id == old(store.nextTrailId)
      && fetched.Reply? && fetched.status == 200
      && fetched.body.trail == TrailRow(created.body.id, name.value, OrNull(description), old(store.clock))
      && fetched.body.modules == NewModules(inputs, created.body.id, old(store.nextModuleId))
  {
    var id := store.nextTrailId;
    FreshTrailHasNoModules(store.trails, store.modules, store.nextTrailId, store.nextModuleId, store.clock);
    ghost var before := store.trails;
    created := store.Create(name, description, inputs);
    fetched := store.Get(id);
    if Truthy(name) {
      var row := TrailRow(id, name.value, OrNull(description), old(store.clock));
      assert store.trails == before + [row];
      assert row in store.trails;
      assert fetched.body.trail in before + [row];
      assert fetched.body.trail !in before;
    }
  }

  /**
   * For any store and any trail in it, `PUT /api/trails/:id` followed by
   * `GET /api/trails/:id` reads back the new name and exactly the submitted
   * modules, none of them under an id the trail's old modules had.
   */
  method ReplaceThenGet(store: Store, id: int, name: string, description: Option<string>, inputs: seq<ModuleInput>)
    returns (replaced: Response<TrailEcho>, fetched: Response<TrailView>)
    requires store.Valid()
    requires id in TrailIds(store.trails)
    modifies store
    ensures store.Valid()
    ensures replaced == Reply(200, TrailEcho(id, Some(name), description, inputs))
    ensures fetched.Reply? && fetched.status == 200
    ensures fetched.body.trail.id == id && fetched.body.trail.name == name && fetched.body.trail.description == OrNull(description)
    ensures fetched.body.modules == NewModules(inputs, id, old(store.nextModuleId))
    ensures forall m, n :: m in ModulesOf(old(store.modules), id) && n in fetched.body.modules ==> m.id != n.id
  {
    replaced := store.Replace(id, Some(name), description, inputs);
    fetched := store.Get(id);
    var i :| 0 <= i < |store.trails| && store.trails[i] == fetched.body.trail;
  }

  /** A fresh database, then `POST /api/trails` for "Math" with the modules "Algebra" and "Geometry". */
  method CreateMath() returns (store: Store, created: Response<TrailEcho>)
    ensures fresh(store) && store.Valid()
    ensures created == Reply(201, TrailEcho(1, Some("Math"), None, [ModuleInput(Some("Algebra"), None), ModuleInput(Some("Geometry"), None)]))
    ensures store.trails == [TrailRow(1, "Math", None, 0)]
    ensures ModulesOf(store.modules, 1) == [ModuleRow(1, "Algebra", None, 1, 1), ModuleRow(2, "Geometry", None, 2, 1)]
    ensures store.nextTrailId == 2 && store.nextModuleId == 3 && store.clock == 1
  {
    store := new Store();
    var inputs := [ModuleInput(Some("Algebra"), None), ModuleInput(Some("Geometry"), None)];
    created := store.Create(Some("Math"), None, inputs);
    assert store.trails == [] + [TrailRow(1, "Math", None, 0)];
    var rows := NewModules(inputs, 1, 1);
    assert rows[0] == StoredModule(inputs[0], 0, 1, 1) && rows[1] == StoredModule(inputs[1], 1, 1, 2);
    assert rows == [ModuleRow(1, "Algebra", None, 1, 1), ModuleRow(2, "Geometry", None, 2, 1)];
  }

  /**
   * The first half of a client session: create "Math" with two modules, then
   * replace it with "Geometry" alone. "Algebra" is gone, and the new module
   * row gets the fresh id 3: the ids 1 and 2 of the deleted rows are not
   * handed out again.
   */
  method CreateThenReplace() returns (store: Store, replaced: Response<TrailEcho>)
    ensures fresh(store) && store.Valid()
    ensures replaced == Reply(200, TrailEcho(1, Some("Math"), None, [ModuleInput(Some("Geometry"), None)]))
    ensures store.trails == [TrailRow(1, "Math", None, 0)]
    ensures ModulesOf(store.modules, 1) == [ModuleRow(3, "Geometry", None, 1, 1)]
  {
    var created;
    store, created := CreateMath();
    var math := TrailRow(1, "Math", None, 0);
    TrailIdsOne(math);
    var geometry := ModuleInput(Some("Geometry"), None);
    replaced := store.Replace(1, Some("Math"), None, [geometry]);
    assert UpdateTrail([math], 1, "Math", None)[0] == math;
    assert store.trails == [math];
    NewModulesOne(geometry, 1, 3);
  }

  /**
   * The second half: read the replaced trail back (one module, "Geometry",
   * numbered 1), then delete an id that was never handed out.
   */
  method ReplaceScenario() returns (fetched: Response<TrailView>, missing: Response<string>)
    ensures fetched.Reply? && fetched.status == 200 && fetched.body.trail.name == "Math"
    ensures fetched.body.modules == [ModuleRow(3, "Geometry", None, 1, 1)]
    ensures missing == Fail(404, TrailNotFound)
  {
    var store, replaced := CreateThenReplace();
    var math := TrailRow(1, "Math", None, 0);
    TrailIdsOne(math);
    fetched := store.Get(1);
    assert fetched.body.trail == math;
    missing := store.Delete(2);
  }
}
