/** The two tables of the SQLite database of server.ts, `users` and `tasks`,
    as sequences of rows in rowid order, with the integrity rules that the
    schema enforces (INTEGER PRIMARY KEY AUTOINCREMENT, UNIQUE username,
    FOREIGN KEY ... ON DELETE CASCADE), and the task-set operations that the
    account handlers perform on them. */
module Tables {
  import opened Basics

  /** `datetime('now')` values; their lexicographic order is chronological,
      so they are modelled as numbers. */
  type Timestamp = nat

  datatype Role = Admin | Enterprise

  datatype TargetType = Number | Boolean

  /** A row of `users`; `password` holds the bcrypt hash. */
  datatype User = User(id: nat, username: string, password: string, role: Role, enterpriseName: string)

  /** A row of `tasks`. The columns that a fresh INSERT leaves NULL are Options. */
  datatype Task = Task(
    id: nat,
    userId: nat,
    name: string,
    targetType: TargetType,
    targetValue: string,
    actualValue: Option<string>,
    attachmentName: Option<string>,
    attachmentPath: Option<string>,
    remarks: Option<string>,
    updatedAt: Option<Timestamp>)

  /** One element of the `tasks` array of a create or update request. A
      missing (`null`/`undefined`) `target_value` is None: `.toString()` on it
      throws inside the transaction. */
  datatype TaskDef = TaskDef(name: string, targetType: TargetType, targetValue: Option<string>)

  /** The error responses of the handlers. */
  datatype Error =
    | Unauthorized        // no bearer token
    | InvalidToken        // jwt.verify rejected the token
    | Forbidden           // authenticated, but not an admin
    | InvalidCredentials  // login: unknown user or wrong password
    | UsernameTaken       // create: the username exists
    | CreateFailed        // create: the transaction threw
    | UpdateFailed        // update: the transaction threw
    | AccountNotFound     // get-one and reset-password: no such id
    | EnterpriseNotFound  // enterprise detail: no such id
    | SaveFailed          // save-all: the transaction threw

  function StatusCode(e: Error): (code: nat)
    ensures code in {400, 401, 403, 404, 500}
  {
    match e
    case Unauthorized | InvalidToken | InvalidCredentials => 401
    case Forbidden => 403
    case UsernameTaken => 400
    case AccountNotFound | EnterpriseNotFound => 404
    case CreateFailed | UpdateFailed | SaveFailed => 500
  }

  // ---------------------------------------------------------------------------
  // Keys and row predicates

  function UserKey(u: User): int { u.id }

  function TaskKey(t: Task): int { t.id }

  function UserIds(us: seq<User>): set<nat> {
    set u | u in us :: u.id
  }

  function HasId(id: nat): User -> bool {
    (u: User) => u.id == id
  }

  function HasNotId(id: nat): User -> bool {
    (u: User) => u.id != id
  }

  function HasUsername(name: string): User -> bool {
    (u: User) => u.username == name
  }

  function OwnedBy(uid: nat): Task -> bool {
    (t: Task) => t.userId == uid
  }

  function NotOwnedBy(uid: nat): Task -> bool {
    (t: Task) => t.userId != uid
  }

  /** `SELECT ... FROM users WHERE id = ?`. */
  function FindUser(us: seq<User>, id: nat): (r: Option<User>)
    ensures r.None? <==> id !in UserIds(us)
    ensures r.Some? ==> r.value in us && r.value.id == id
  {
    Find(us, HasId(id))
  }

  /** The position of the row whose primary key is `id`: where an
      `UPDATE users ... WHERE id = ?` lands. */
  function UserIndex(us: seq<User>, id: nat): (r: Option<nat>)
    ensures r.None? <==> id !in UserIds(us)
    ensures r.Some? ==> r.value < |us| && us[r.value].id == id
  {
    if us == [] then None
    else if us[0].id == id then Some(0)
    else
      var r := UserIndex(us[1..], id);
      assert id in UserIds(us[1..]) ==> id in UserIds(us) by {
        if id in UserIds(us[1..]) {
          var w :| w in us[1..] && w.id == id;
          assert w in us;
        }
      }
      if r.None? then None else Some(r.value + 1)
  }

  /** `SELECT * FROM users WHERE username = ?`. */
  function FindByUsername(us: seq<User>, name: string): (r: Option<User>)
    ensures r.None? <==> forall u :: u in us ==> u.username != name
    ensures r.Some? ==> r.value in us && r.value.username == name
  {
    Find(us, HasUsername(name))
  }

  /** `SELECT * FROM tasks WHERE user_id = ?`, in rowid order. */
  function TasksOf(ts: seq<Task>, uid: nat): (r: seq<Task>)
    ensures forall t :: t in r <==> t in ts && t.userId == uid
  {
    Filter(ts, OwnedBy(uid))
  }

  /** The rows left by `DELETE FROM tasks WHERE user_id = ?`. */
  function TasksWithout(ts: seq<Task>, uid: nat): (r: seq<Task>)
    ensures forall t :: t in r <==> t in ts && t.userId != uid
  {
    Filter(ts, NotOwnedBy(uid))
  }

  /** The rows left by `DELETE FROM users WHERE id = ?`. */
  function UsersWithout(us: seq<User>, id: nat): (r: seq<User>)
    ensures forall u :: u in r <==> u in us && u.id != id
  {
    Filter(us, HasNotId(id))
  }

  // ---------------------------------------------------------------------------
  // Integrity of the two tables

  /** What the schema and AUTOINCREMENT guarantee: ids are positive, listed in
      increasing order and never above the last id handed out; usernames are
      unique; every task belongs to an existing user. */
  predicate TablesValid(us: seq<User>, ts: seq<Task>, lastUserId: nat, lastTaskId: nat) {
    && IncreasingBy(us, UserKey)
    && (forall u :: u in us ==> 1 <= u.id <= lastUserId)
    && IncreasingBy(ts, TaskKey)
    && (forall t :: t in ts ==> 1 <= t.id <= lastTaskId)
    && UniqueUsernames(us)
    && (forall t :: t in ts ==> t.userId in UserIds(us))
  }

  /** The UNIQUE constraint on `users.username`. */
  predicate UniqueUsernames(us: seq<User>) {
    forall i, j :: 0 <= i < j < |us| ==> us[i].username != us[j].username
  }

  lemma UsernamesDistinct(us: seq<User>, i: nat, j: nat)
    requires UniqueUsernames(us)
    requires i < |us| && j < |us| && i != j
    ensures us[i].username != us[j].username
  {
    if i < j {
      assert us[i].username != us[j].username;
    } else {
      assert us[j].username != us[i].username;
    }
  }

  /** Under the UNIQUE constraint a username names one row: the one that
      `SELECT * FROM users WHERE username = ?` returns. */
  lemma UsernameLookup(us: seq<User>, u: User)
    requires UniqueUsernames(us) && u in us
    ensures FindByUsername(us, u.username) == Some(u)
  {
    var r := FindByUsername(us, u.username).value;
    var i :| 0 <= i < |us| && us[i] == r;
    var j :| 0 <= j < |us| && us[j] == u;
    assert i == j;
  }

  /** In a valid table two positions hold two different user ids. */
  lemma UserIdsDistinct(us: seq<User>, i: nat, j: nat)
    requires IncreasingBy(us, UserKey)
    requires i < |us| && j < |us| && i != j
    ensures us[i].id != us[j].id
  {
    if i < j {
      assert UserKey(us[i]) < UserKey(us[j]);
    } else {
      assert UserKey(us[j]) < UserKey(us[i]);
    }
  }

  // ---------------------------------------------------------------------------
  // Task definitions and the rows inserted for them

  predicate AllTargetsGiven(defs: seq<TaskDef>) {
    forall d :: d in defs ==> d.targetValue.Some?
  }

  /** The row `INSERT INTO tasks (user_id, name, target_type, target_value)`
      creates: the other columns are NULL. */
  function NewTask(id: nat, uid: nat, d: TaskDef): (t: Task)
    requires d.targetValue.Some?
    ensures t.id == id && t.userId == uid
    ensures t.actualValue.None? && t.remarks.None? && t.updatedAt.None?
    ensures t.attachmentName.None? && t.attachmentPath.None?
  {
    Task(id, uid, d.name, d.targetType, d.targetValue.value, None, None, None, None, None)
  }

  /** The rows that the insert loop adds for `defs`, with ids handed out from `firstId`. */
  function NewTasks(firstId: nat, uid: nat, defs: seq<TaskDef>): (r: seq<Task>)
    requires AllTargetsGiven(defs)
    ensures |r| == |defs|
    ensures forall k :: 0 <= k < |r| ==> r[k] == NewTask(firstId + k, uid, defs[k])
  {
    seq(|defs|, k requires 0 <= k < |defs| => NewTask(firstId + k, uid, defs[k]))
  }

  /** The definition that `SELECT id, name, target_type, target_value` shows for a task. */
  function Definition(t: Task): TaskDef {
    TaskDef(t.name, t.targetType, Some(t.targetValue))
  }

  function Definitions(ts: seq<Task>): (r: seq<TaskDef>)
    ensures |r| == |ts|
  {
    seq(|ts|, k requires 0 <= k < |ts| => Definition(ts[k]))
  }

  /** Reading back the inserted rows gives the submitted definitions. */
  lemma NewTasksRoundTrip(firstId: nat, uid: nat, defs: seq<TaskDef>)
    requires AllTargetsGiven(defs)
    ensures Definitions(NewTasks(firstId, uid, defs)) == defs
  {
    var r := Definitions(NewTasks(firstId, uid, defs));
    forall k | 0 <= k < |defs| ensures r[k] == defs[k] {
      assert defs[k] in defs;
    }
  }

  /** Deleting a user's tasks and inserting `rows` for that user: the user's
      task list becomes `rows`, and every other user's task list is as before. */
  lemma {:induction false} ReplaceTasks(ts: seq<Task>, uid: nat, rows: seq<Task>)
    requires forall t :: t in rows ==> t.userId == uid
    ensures TasksOf(TasksWithout(ts, uid) + rows, uid) == rows
    ensures forall v :: v != uid ==> TasksOf(TasksWithout(ts, uid) + rows, v) == TasksOf(ts, v)
  {
    var kept := TasksWithout(ts, uid);
    FilterConcat(kept, rows, OwnedBy(uid));
    FilterNone(kept, OwnedBy(uid));
    FilterAll(rows, OwnedBy(uid));
    forall v | v != uid ensures TasksOf(kept + rows, v) == TasksOf(ts, v) {
      FilterConcat(kept, rows, OwnedBy(v));
      FilterNone(rows, OwnedBy(v));
      FilterNarrow(ts, NotOwnedBy(uid), OwnedBy(v));
    }
  }

  /** A user id that owns no task: deleting its tasks deletes nothing. */
  lemma NoTasksToDelete(ts: seq<Task>, uid: nat)
    requires forall t :: t in ts ==> t.userId != uid
    ensures TasksWithout(ts, uid) == ts
  {
    FilterAll(ts, NotOwnedBy(uid));
  }

  // ---------------------------------------------------------------------------
  // Integrity is preserved by every write

  /** Appending a user with the next id and an unused username. */
  lemma AppendUserValid(us: seq<User>, lastUserId: nat, u: User)
    requires IncreasingBy(us, UserKey) && forall w :: w in us ==> 1 <= w.id <= lastUserId
    requires forall i, j :: 0 <= i < j < |us| ==> us[i].username != us[j].username
    requires u.id == lastUserId + 1 && forall w :: w in us ==> w.username != u.username
    ensures IncreasingBy(us + [u], UserKey) && forall w :: w in us + [u] ==> 1 <= w.id <= lastUserId + 1
    ensures var us' := us + [u]; forall i, j :: 0 <= i < j < |us'| ==> us'[i].username != us'[j].username
    ensures UserIds(us + [u]) == UserIds(us) + {u.id}
  {
    var us' := us + [u];
    forall i, j | 0 <= i < j < |us'| ensures UserKey(us'[i]) < UserKey(us'[j]) && us'[i].username != us'[j].username {
      if j == |us| { assert us'[i] in us; } else { assert us'[i] == us[i] && us'[j] == us[j]; }
    }
  }

  /** Appending rows whose ids continue after `lastTaskId`. */
  lemma AppendTasksValid(ts: seq<Task>, lastTaskId: nat, rows: seq<Task>)
    requires IncreasingBy(ts, TaskKey) && forall t :: t in ts ==> 1 <= t.id <= lastTaskId
    requires forall k :: 0 <= k < |rows| ==> rows[k].id == lastTaskId + 1 + k
    ensures IncreasingBy(ts + rows, TaskKey)
    ensures forall t :: t in ts + rows ==> 1 <= t.id <= lastTaskId + |rows|
  {
    var ts' := ts + rows;
    forall i, j | 0 <= i < j < |ts'| ensures TaskKey(ts'[i]) < TaskKey(ts'[j]) {
      if j < |ts| {
        assert ts'[i] == ts[i] && ts'[j] == ts[j];
      } else if i < |ts| {
        assert ts'[i] == ts[i] && ts[i] in ts && ts'[j] == rows[j - |ts|];
      } else {
        assert ts'[i] == rows[i - |ts|] && ts'[j] == rows[j - |ts|];
      }
    }
    forall t | t in ts' ensures 1 <= t.id <= lastTaskId + |rows| {
      if t !in ts {
        var k :| 0 <= k < |rows| && rows[k] == t;
      }
    }
  }

  /** Inserting a fresh enterprise user with its tasks keeps the tables valid. */
  lemma InsertAccountValid(us: seq<User>, ts: seq<Task>, lastUserId: nat, lastTaskId: nat, u: User, defs: seq<TaskDef>)
    requires TablesValid(us, ts, lastUserId, lastTaskId)
    requires u.id == lastUserId + 1 && FindByUsername(us, u.username).None?
    requires AllTargetsGiven(defs)
    ensures TablesValid(us + [u], ts + NewTasks(lastTaskId + 1, u.id, defs), lastUserId + 1, lastTaskId + |defs|)
  {
    var rows := NewTasks(lastTaskId + 1, u.id, defs);
    AppendUserValid(us, lastUserId, u);
    AppendTasksValid(ts, lastTaskId, rows);
    assert forall t :: t in ts + rows ==> t.userId in UserIds(us + [u]) by {
      forall t | t in ts + rows ensures t.userId in UserIds(us + [u]) {
        if t !in ts {
          var k :| 0 <= k < |rows| && rows[k] == t;
        }
      }
    }
  }

  /** Replacing the profile of the user at `idx` by `u`, which keeps its id and
      takes no other user's username, keeps the users table valid. */
  lemma ReplaceUserValid(us: seq<User>, lastUserId: nat, idx: nat, u: User)
    requires IncreasingBy(us, UserKey) && (forall w :: w in us ==> 1 <= w.id <= lastUserId)
    requires UniqueUsernames(us)
    requires idx < |us| && u.id == us[idx].id
    requires forall w :: w in us && w.username == u.username ==> w.id == u.id
    ensures IncreasingBy(us[idx := u], UserKey) && (forall w :: w in us[idx := u] ==> 1 <= w.id <= lastUserId)
    ensures UniqueUsernames(us[idx := u])
    ensures UserIds(us[idx := u]) == UserIds(us)
  {
    var us' := us[idx := u];
    assert us[idx] in us;
    forall i, j | 0 <= i < j < |us'| ensures UserKey(us'[i]) < UserKey(us'[j]) {
      assert UserKey(us[i]) < UserKey(us[j]);
    }
    forall w | w in us' ensures 1 <= w.id <= lastUserId {
      var k :| 0 <= k < |us'| && us'[k] == w;
      assert k != idx ==> us[k] in us;
    }
    ReplaceUsernameUnique(us, idx, u);
    forall w | w in us ensures w.id in UserIds(us') {
      var k :| 0 <= k < |us| && us[k] == w;
      assert us'[k] in us';
    }
    forall w | w in us' ensures w.id in UserIds(us) {
      var k :| 0 <= k < |us'| && us'[k] == w;
      assert us[k] in us;
    }
  }

  /** The new username of the user at `idx` is taken by no other user. */
  lemma ReplaceUsernameUnique(us: seq<User>, idx: nat, u: User)
    requires IncreasingBy(us, UserKey) && UniqueUsernames(us)
    requires idx < |us| && u.id == us[idx].id
    requires forall w :: w in us && w.username == u.username ==> w.id == u.id
    ensures UniqueUsernames(us[idx := u])
  {
    var us' := us[idx := u];
    forall i, j | 0 <= i < j < |us'| ensures us'[i].username != us'[j].username {
      if i == idx {
        assert us[j] in us;
        UserIdsDistinct(us, i, j);
      } else if j == idx {
        assert us[i] in us;
        UserIdsDistinct(us, i, j);
      }
    }
  }

  /** Deleting the tasks of `uid` and appending `rows` with ids after
      `lastTaskId` keeps the task ids increasing and in range. */
  lemma ReplaceTasksValid(ts: seq<Task>, lastTaskId: nat, uid: nat, rows: seq<Task>)
    requires IncreasingBy(ts, TaskKey) && forall t :: t in ts ==> 1 <= t.id <= lastTaskId
    requires forall k :: 0 <= k < |rows| ==> rows[k].id == lastTaskId + 1 + k
    ensures IncreasingBy(TasksWithout(ts, uid) + rows, TaskKey)
    ensures forall t :: t in TasksWithout(ts, uid) + rows ==> 1 <= t.id <= lastTaskId + |rows|
  {
    var kept := TasksWithout(ts, uid);
    FilterOrdered(ts, NotOwnedBy(uid), TaskKey);
    AppendTasksValid(kept, lastTaskId, rows);
  }

  /** Editing one user's profile and replacing its tasks keeps the tables valid,
      provided the new username is not another user's. */
  lemma ReplaceAccountValid(us: seq<User>, ts: seq<Task>, lastUserId: nat, lastTaskId: nat, idx: nat, u: User, defs: seq<TaskDef>)
    requires TablesValid(us, ts, lastUserId, lastTaskId)
    requires idx < |us| && u.id == us[idx].id
    requires forall w :: w in us && w.username == u.username ==> w.id == u.id
    requires AllTargetsGiven(defs)
    ensures TablesValid(us[idx := u], TasksWithout(ts, u.id) + NewTasks(lastTaskId + 1, u.id, defs), lastUserId, lastTaskId + |defs|)
  {
    var kept: seq<Task>, rows: seq<Task> := TasksWithout(ts, u.id), NewTasks(lastTaskId + 1, u.id, defs);
    ReplaceUserValid(us, lastUserId, idx, u);
    ReplaceTasksValid(ts, lastTaskId, u.id, rows);
    assert us[idx] in us;
    assert forall t :: t in kept + rows ==> t.userId in UserIds(us[idx := u]) by {
      forall t | t in kept + rows ensures t.userId in UserIds(us) {
        if t !in kept {
          var k :| 0 <= k < |rows| && rows[k] == t;
        }
      }
    }
  }

  /** Deleting a user and (by the cascade) its tasks keeps the tables valid. */
  lemma RemoveAccountValid(us: seq<User>, ts: seq<Task>, lastUserId: nat, lastTaskId: nat, id: nat)
    requires TablesValid(us, ts, lastUserId, lastTaskId)
    ensures TablesValid(UsersWithout(us, id), TasksWithout(ts, id), lastUserId, lastTaskId)
  {
    var us', ts' := UsersWithout(us, id), TasksWithout(ts, id);
    FilterOrdered(us, HasNotId(id), UserKey);
    FilterOrdered(ts, NotOwnedBy(id), TaskKey);
    forall i, j | 0 <= i < j < |us'| ensures us'[i].username != us'[j].username {
      assert UserKey(us'[i]) < UserKey(us'[j]);
      assert us'[i] in us && us'[j] in us;
      var a :| 0 <= a < |us| && us[a] == us'[i];
      var b :| 0 <= b < |us| && us[b] == us'[j];
      UsernamesDistinct(us, a, b);
    }
    forall t | t in ts' ensures t.userId in UserIds(us') {
      var w :| w in us && w.id == t.userId;
      assert w in us';
    }
  }

  /** Changing only the password (or profile fields other than the id and
      username) of one user keeps the tables valid. */
  lemma EditUserValid(us: seq<User>, ts: seq<Task>, lastUserId: nat, lastTaskId: nat, idx: nat, u: User)
    requires TablesValid(us, ts, lastUserId, lastTaskId)
    requires idx < |us| && u.id == us[idx].id && u.username == us[idx].username
    ensures TablesValid(us[idx := u], ts, lastUserId, lastTaskId)
  {
    var us' := us[idx := u];
    assert us[idx] in us;
    forall i, j | 0 <= i < j < |us'| ensures UserKey(us'[i]) < UserKey(us'[j]) {
      assert UserKey(us[i]) < UserKey(us[j]);
    }
    forall w | w in us' ensures 1 <= w.id <= lastUserId {
      var k :| 0 <= k < |us'| && us'[k] == w;
      assert k != idx ==> us[k] in us;
    }
    forall i, j | 0 <= i < j < |us'| ensures us'[i].username != us'[j].username {
      assert us[i].username != us[j].username;
    }
    forall t | t in ts ensures t.userId in UserIds(us') {
      var w :| w in us && w.id == t.userId;
      var k :| 0 <= k < |us| && us[k] == w;
      assert us'[k] in us';
    }
  }
}
