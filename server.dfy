/** The state-changing handlers of server.ts over the SQLite database. Each
    `db.transaction(...)` computes the new tables into locals and assigns the
    fields only when it completes, so a throw leaves the state as it was. */
module Server {
  import opened Basics
  import opened Tables
  import opened Reporting

  /** The row after `UPDATE users SET username = ?, [password = ?,]
      enterprise_name = ? WHERE id = ?`: the password column is written only
      when a truthy password was sent. */
  function Edited(u: User, username: string, password: Option<string>, enterpriseName: string,
                  hash: string -> string): (e: User)
    ensures e.id == u.id && e.role == u.role
    ensures e.username == username && e.enterpriseName == enterpriseName
    ensures Truthy(password) ==> e.password == hash(password.value)
    ensures !Truthy(password) ==> e.password == u.password
  {
    var pw := if Truthy(password) then hash(password.value) else u.password;
    u.(username := username, password := pw, enterpriseName := enterpriseName)
  }

  /** The UNIQUE constraint lets user `id` take `username`: no other row has it. */
  predicate UsernameFree(us: seq<User>, username: string, id: nat) {
    forall w :: w in us && w.username == username ==> w.id == id
  }

  /** The `for (const task of tasks)` INSERT loop shared by create and update.
      Row k gets the next AUTOINCREMENT id; a task without `target_value`
      makes `.toString()` throw, which aborts the transaction. */
  method InsertRows(uid: nat, defs: seq<TaskDef>, lastTaskId: nat) returns (ok: bool, rows: seq<Task>)
    ensures ok <==> AllTargetsGiven(defs)
    ensures ok ==> rows == NewTasks(lastTaskId + 1, uid, defs)
  {
    rows := [];
    var i := 0;
    while i < |defs|
      invariant 0 <= i <= |defs|
      invariant forall k :: 0 <= k < i ==> defs[k].targetValue.Some?
      invariant |rows| == i
      invariant forall k :: 0 <= k < i ==> rows[k] == NewTask(lastTaskId + 1 + k, uid, defs[k])
    {
      var d := defs[i];
      if d.targetValue.None? {
        assert d in defs;
        return false, rows;
      }
      rows := rows + [NewTask(lastTaskId + 1 + i, uid, d)];
      i := i + 1;
    }
    return true, rows;
  }

  /** What a committed create does to the task table: the new id was unused,
      the new user's tasks are exactly the submitted definitions, and every
      other user's tasks are untouched. */
  lemma CreateEffects(us: seq<User>, ts: seq<Task>, lastUserId: nat, lastTaskId: nat,
                      uid: nat, defs: seq<TaskDef>, ts': seq<Task>)
    requires TablesValid(us, ts, lastUserId, lastTaskId)
    requires uid == lastUserId + 1 && AllTargetsGiven(defs)
    requires ts' == ts + NewTasks(lastTaskId + 1, uid, defs)
    ensures uid !in UserIds(us)
    ensures Definitions(TasksOf(ts', uid)) == defs
    ensures forall v :: v != uid ==> TasksOf(ts', v) == TasksOf(ts, v)
  {
    var rows := NewTasks(lastTaskId + 1, uid, defs);
    forall t | t in ts ensures t.userId != uid {
      var w :| w in us && w.id == t.userId;
    }
    NoTasksToDelete(ts, uid);
    ReplaceTasks(ts, uid, rows);
    NewTasksRoundTrip(lastTaskId + 1, uid, defs);
  }

  /** What a committed update does to the tables: no other row has the
      user's id, the user's tasks become exactly the submitted definitions,
      and every other user's tasks are untouched. */
  lemma UpdateEffects(us: seq<User>, ts: seq<Task>, lastUserId: nat, lastTaskId: nat,
                      idx: nat, defs: seq<TaskDef>, ts': seq<Task>)
    requires TablesValid(us, ts, lastUserId, lastTaskId)
    requires idx < |us| && AllTargetsGiven(defs)
    requires ts' == TasksWithout(ts, us[idx].id) + NewTasks(lastTaskId + 1, us[idx].id, defs)
    ensures forall k :: 0 <= k < |us| && k != idx ==> us[k].id != us[idx].id
    ensures Definitions(TasksOf(ts', us[idx].id)) == defs
    ensures forall v :: v != us[idx].id ==> TasksOf(ts', v) == TasksOf(ts, v)
  {
    var uid := us[idx].id;
    var rows := NewTasks(lastTaskId + 1, uid, defs);
    forall k | 0 <= k < |us| && k != idx ensures us[k].id != uid {
      UserIdsDistinct(us, k, idx);
    }
    ReplaceTasks(ts, uid, rows);
    NewTasksRoundTrip(lastTaskId + 1, uid, defs);
  }

  /** Writing the row at `idx` changes exactly the row with that id. */
  lemma UserReplaced(us: seq<User>, idx: nat, u: User)
    requires idx < |us|
    requires forall k :: 0 <= k < |us| && k != idx ==> us[k].id != us[idx].id
    ensures |us[idx := u]| == |us|
    ensures forall k :: 0 <= k < |us| ==> us[idx := u][k] == if us[k].id == us[idx].id then u else us[k]
  {
  }

  class Database {
    /** The `users` and `tasks` tables in rowid order. */
    var users: seq<User>
    var tasks: seq<Task>
    /** `sqlite_sequence`: the last id AUTOINCREMENT handed out in each table. */
    var lastUserId: nat
    var lastTaskId: nat

    ghost predicate Valid()
      reads this
    {
      TablesValid(users, tasks, lastUserId, lastTaskId)
    }

    /** A fresh database after the boot step: the schema, and the account
        `admin` with password `admin` and enterprise name 系统管理员. */
    constructor (hash: string -> string)
      ensures Valid()
      ensures users == [User(1, "admin", hash("admin"), Admin, "系统管理员")]
      ensures tasks == [] && lastUserId == 1 && lastTaskId == 0
    {
      users := [User(1, "admin", hash("admin"), Admin, "系统管理员")];
      tasks := [];
      lastUserId := 1;
      lastTaskId := 0;
    }

    /** `POST /api/admin/accounts`: 400 when the username exists; otherwise one
        transaction inserts the enterprise user and its tasks, and answers 500
        when a task has no target. */
    method CreateAccount(username: string, password: string, enterpriseName: string,
                         defs: seq<TaskDef>, hash: string -> string) returns (r: Result<nat, Error>)
      requires Valid()
      modifies this
      ensures Valid()
      ensures FindByUsername(old(users), username).Some? ==> r == Err(UsernameTaken)
      ensures FindByUsername(old(users), username).None? && !AllTargetsGiven(defs) ==> r == Err(CreateFailed)
      ensures r.Err? ==> users == old(users) && tasks == old(tasks)
                         && lastUserId == old(lastUserId) && lastTaskId == old(lastTaskId)
      ensures r.Ok? <==> FindByUsername(old(users), username).None? && AllTargetsGiven(defs)
      ensures r.Ok? ==> r.value == old(lastUserId) + 1 && r.value !in UserIds(old(users))
      ensures r.Ok? ==> users == old(users) + [User(r.value, username, hash(password), Enterprise, enterpriseName)]
      ensures r.Ok? ==> lastUserId == r.value && lastTaskId == old(lastTaskId) + |defs|
      ensures r.Ok? ==> |tasks| == |old(tasks)| + |defs| && tasks[..|old(tasks)|] == old(tasks)
      ensures r.Ok? ==> forall k :: 0 <= k < |defs| ==> tasks[|old(tasks)| + k] == NewTask(old(lastTaskId) + 1 + k, r.value, defs[k])
      ensures r.Ok? ==> Definitions(TasksOf(tasks, r.value)) == defs
      ensures r.Ok? ==> forall v :: v != r.value ==> TasksOf(tasks, v) == TasksOf(old(tasks), v)
    {
      var us, ts, lastU, lastT := users, tasks, lastUserId, lastTaskId;
      if FindByUsername(us, username).Some? {
        return Err(UsernameTaken);
      }
      var hashed := hash(password);
      var userId := lastU + 1;
      var u := User(userId, username, hashed, Enterprise, enterpriseName);
      var ok, rows := InsertRows(userId, defs, lastT);
      if !ok {
        return Err(CreateFailed);
      }
      var us', ts' := us + [u], ts + rows;
      assert TablesValid(us', ts', userId, lastT + |defs|) by {
        InsertAccountValid(us, ts, lastU, lastT, u, defs);
      }
      CreateEffects(us, ts, lastU, lastT, userId, defs, ts');
      users, tasks := us', ts';
      lastUserId, lastTaskId := userId, lastT + |defs|;
      return Ok(userId);
    }

    /** `PUT /api/admin/accounts/:id`: one transaction updates the user row,
        fails when no row has the id (`changes === 0`) or the new username is
        another user's (UNIQUE), then replaces the user's whole task set. Every
        failure is a rollback and a 500. */
    method UpdateAccount(id: nat, username: string, password: Option<string>, enterpriseName: string,
                         defs: seq<TaskDef>, hash: string -> string) returns (r: Result<(), Error>)
      requires Valid()
      modifies this
      ensures Valid()
      ensures r.Ok? <==> id in UserIds(old(users)) && UsernameFree(old(users), username, id) && AllTargetsGiven(defs)
      ensures r.Err? ==> r.error == UpdateFailed
      ensures r.Err? ==> users == old(users) && tasks == old(tasks)
                         && lastUserId == old(lastUserId) && lastTaskId == old(lastTaskId)
      ensures r.Ok? ==> |users| == |old(users)|
      ensures r.Ok? ==> forall k :: 0 <= k < |users| ==>
                users[k] == if old(users)[k].id == id then Edited(old(users)[k], username, password, enterpriseName, hash)
                            else old(users)[k]
      ensures r.Ok? ==> lastUserId == old(lastUserId) && lastTaskId == old(lastTaskId) + |defs|
      ensures r.Ok? ==> var kept := TasksWithout(old(tasks), id);
                        |tasks| == |kept| + |defs| && tasks[..|kept|] == kept
      ensures r.Ok? ==> var kept := TasksWithout(old(tasks), id);
                        forall k :: 0 <= k < |defs| ==> tasks[|kept| + k] == NewTask(old(lastTaskId) + 1 + k, id, defs[k])
      ensures r.Ok? ==> Definitions(TasksOf(tasks, id)) == defs
      ensures r.Ok? ==> forall v :: v != id ==> TasksOf(tasks, v) == TasksOf(old(tasks), v)
    {
      var us, ts, lastT := users, tasks, lastTaskId;
      var found := UserIndex(us, id);
      if found.None? {
        return Err(UpdateFailed);
      }
      var idx := found.value;
      if !UsernameFree(us, username, id) {
        return Err(UpdateFailed);
      }
      var u := Edited(us[idx], username, password, enterpriseName, hash);
      var ok, rows := InsertRows(id, defs, lastT);
      if !ok {
        return Err(UpdateFailed);
      }
      var us', ts' := us[idx := u], TasksWithout(ts, id) + rows;
      assert TablesValid(us', ts', lastUserId, lastT + |defs|) by {
        ReplaceAccountValid(us, ts, lastUserId, lastT, idx, u, defs);
      }
      UpdateEffects(us, ts, lastUserId, lastT, idx, defs, ts');
      UserReplaced(us, idx, u);
      users, tasks := us', ts';
      lastTaskId := lastT + |defs|;
      return Ok(());
    }

    /** `POST /api/admin/accounts/:id/reset-password`: only that user's
        password hash changes; 404 when no row has the id. */
    method ResetPassword(id: nat, password: string, hash: string -> string) returns (r: Result<(), Error>)
      requires Valid()
      modifies this
      ensures Valid()
      ensures r.Ok? <==> id in UserIds(old(users))
      ensures r.Err? ==> r.error == AccountNotFound
      ensures |users| == |old(users)|
      ensures forall k :: 0 <= k < |users| ==>
                users[k] == if old(users)[k].id == id then old(users)[k].(password := hash(password)) else old(users)[k]
      ensures tasks == old(tasks) && lastUserId == old(lastUserId) && lastTaskId == old(lastTaskId)
    {
      var hashed := hash(password);
      var found := UserIndex(users, id);
      if found.None? {
        return Err(AccountNotFound);
      }
      var idx := found.value;
      forall k | 0 <= k < |users| && k != idx ensures users[k].id != id {
        UserIdsDistinct(users, k, idx);
      }
      EditUserValid(users, tasks, lastUserId, lastTaskId, idx, users[idx].(password := hashed));
      users := users[idx := users[idx].(password := hashed)];
      return Ok(());
    }

    /** `DELETE /api/admin/accounts/:id`: always succeeds; the cascade removes
        the user's tasks and nothing else. */
    method DeleteAccount(id: nat) returns (r: Result<(), Error>)
      requires Valid()
      modifies this
      ensures Valid()
      ensures r == Ok(())
      ensures users == UsersWithout(old(users), id) && tasks == TasksWithout(old(tasks), id)
      ensures lastUserId == old(lastUserId) && lastTaskId == old(lastTaskId)
      ensures id !in UserIds(users) && forall t :: t in tasks ==> t.userId != id
      ensures forall u :: u in old(users) && u.id != id ==> u in users
      ensures forall v :: v != id ==> TasksOf(tasks, v) == TasksOf(old(tasks), v)
    {
      forall v | v != id ensures TasksOf(TasksWithout(tasks, id), v) == TasksOf(tasks, v) {
        FilterNarrow(tasks, NotOwnedBy(id), OwnedBy(v));
      }
      RemoveAccountValid(users, tasks, lastUserId, lastTaskId, id);
      users, tasks := UsersWithout(users, id), TasksWithout(tasks, id);
      return Ok(());
    }

    /** `POST /api/client/save-all` for the authenticated `caller`: the items
        in order, each an owner-scoped UPDATE, in one transaction; an item
        without `actualValue` throws and rolls the whole batch back (500).
        `clock(i)` is the time the i-th UPDATE reads. */
    method SaveAll(caller: nat, items: seq<ReportItem>, files: seq<Upload>, clock: nat -> Timestamp) returns (r: Result<(), Error>)
      requires Valid()
      modifies this
      ensures Valid()
      ensures r.Ok? <==> AllValuesGiven(items)
      ensures r.Err? ==> r.error == SaveFailed && tasks == old(tasks)
      ensures r.Ok? ==> tasks == ApplyReport(old(tasks), caller, items, files, clock)
      ensures users == old(users) && lastUserId == old(lastUserId) && lastTaskId == old(lastTaskId)
    {
      var work := tasks;
      var i := 0;
      while i < |items|
        invariant 0 <= i <= |items|
        invariant AllValuesGiven(items[..i])
        invariant work == ApplyReport(tasks, caller, items[..i], files, clock)
      {
        var item := items[i];
        if item.actualValue.None? {
          assert item in items;
          return Err(SaveFailed);
        }
        var file := FindUpload(files, FileField(item.taskId));
        assert items[..i + 1][..i] == items[..i];
        assert AllValuesGiven(items[..i + 1]);
        work := ApplyUpdate(work, caller, item, file, clock(i));
        i := i + 1;
      }
      assert items[..i] == items;
      ReportValid(users, tasks, lastUserId, lastTaskId, caller, items, files, clock);
      tasks := work;
      return Ok(());
    }
  }
}
