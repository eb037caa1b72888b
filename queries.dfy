/** The read-only routes of server.ts: the paginated account list, one account
    for editing, the enterprise overview, one enterprise's detail, and a
    client's own task list. */
module Queries {
  import opened Basics
  import opened Tables

  /** `SELECT id, username, enterprise_name FROM users`. */
  datatype Account = Account(id: nat, username: string, enterpriseName: string)

  /** The `id, username, enterprise_name` columns of a user row; never the
      password hash. */
  function AccountOf(u: User): (a: Account)
    ensures a.id == u.id && a.username == u.username && a.enterpriseName == u.enterpriseName
  {
    Account(u.id, u.username, u.enterpriseName)
  }

  function IsEnterprise(u: User): bool {
    u.role == Enterprise
  }

  /** `... FROM users WHERE role = 'enterprise'`, in rowid order. */
  function EnterpriseUsers(us: seq<User>): (r: seq<User>)
    ensures forall u :: u in r <==> u in us && u.role == Enterprise
  {
    Filter(us, IsEnterprise)
  }

  // ---------------------------------------------------------------------------
  // GET /api/admin/accounts?page=

  const PageSize: nat := 10

  /** `parseInt(req.query.page) || 1`: a missing or unparsable page (NaN) and
      page 0 both become 1; any other integer, negative ones included, is kept. */
  function PageNumber(query: Option<int>): (page: int)
    ensures page != 0
    ensures query.None? || query.value == 0 ==> page == 1
    ensures query.Some? && query.value != 0 ==> page == query.value
  {
    if query.None? || query.value == 0 then 1 else query.value
  }

  /** `OFFSET (page - 1) * 10`; SQLite treats a negative offset as 0. */
  function PageOffset(page: int): (offset: nat)
    ensures page >= 1 ==> offset == (page - 1) * PageSize
    ensures page < 1 ==> offset == 0
  {
    if page < 1 then 0 else (page - 1) * PageSize
  }

  /** The response `{ accounts, total }`. */
  datatype AccountList = AccountList(accounts: seq<Account>, total: nat)

  /** One page of enterprise accounts (`LIMIT 10 OFFSET ...`) and the number
      of all enterprise accounts (`COUNT(*)`). */
  function ListAccounts(us: seq<User>, query: Option<int>): (r: AccountList)
    ensures r.total == |EnterpriseUsers(us)|
    ensures var offset := PageOffset(PageNumber(query));
            |r.accounts| == if offset < r.total then Min(PageSize, r.total - offset) else 0
    ensures var offset := PageOffset(PageNumber(query));
            forall k :: 0 <= k < |r.accounts| ==> r.accounts[k] == AccountOf(EnterpriseUsers(us)[offset + k])
  {
    var rows := EnterpriseUsers(us);
    var offset := PageOffset(PageNumber(query));
    var n := if offset < |rows| then Min(PageSize, |rows| - offset) else 0;
    AccountList(seq(n, k requires 0 <= k < n => AccountOf(rows[offset + k])), |rows|)
  }

  /** Only enterprise accounts are listed; the admin account never is. */
  lemma ListingHidesAdmins(us: seq<User>, query: Option<int>, a: Account)
    requires a in ListAccounts(us, query).accounts
    ensures exists u :: u in us && u.role == Enterprise && AccountOf(u) == a
  {
    var r := ListAccounts(us, query);
    var k :| 0 <= k < |r.accounts| && r.accounts[k] == a;
    var u := EnterpriseUsers(us)[PageOffset(PageNumber(query)) + k];
    assert u in EnterpriseUsers(us);
  }

  /** The i-th enterprise account is listed on page i / 10 + 1, at position i % 10. */
  lemma AccountOnItsPage(us: seq<User>, i: nat)
    requires i < |EnterpriseUsers(us)|
    ensures var r := ListAccounts(us, Some(i / PageSize + 1));
            i % PageSize < |r.accounts| && r.accounts[i % PageSize] == AccountOf(EnterpriseUsers(us)[i])
  {
    assert PageOffset(PageNumber(Some(i / PageSize + 1))) + i % PageSize == i;
  }

  /** With increasing ids, an account shows up on one page and at one
      position only: paging neither repeats nor skips an account. */
  lemma AccountOnOnePage(us: seq<User>, i: nat, page: int, k: nat)
    requires IncreasingBy(us, UserKey)
    requires i < |EnterpriseUsers(us)| && page >= 1
    requires k < |ListAccounts(us, Some(page)).accounts|
    requires ListAccounts(us, Some(page)).accounts[k] == AccountOf(EnterpriseUsers(us)[i])
    ensures page == i / PageSize + 1 && k == i % PageSize
  {
    var rows := EnterpriseUsers(us);
    FilterOrdered(us, IsEnterprise, UserKey);
    var j := (page - 1) * PageSize + k;
    assert AccountOf(rows[j]).id == AccountOf(rows[i]).id;
    IncreasingKeyInjective(rows, UserKey, i, j);
  }

  // ---------------------------------------------------------------------------
  // GET /api/admin/accounts/:id and GET /api/admin/enterprises/:id

  /** `SELECT id, name, target_type, target_value FROM tasks`. */
  datatype TaskSummary = TaskSummary(id: nat, name: string, targetType: TargetType, targetValue: string)

  function SummaryOf(t: Task): TaskSummary {
    TaskSummary(t.id, t.name, t.targetType, t.targetValue)
  }

  /** `{ ...user, tasks }` of the get-one route. */
  datatype AccountDetail = AccountDetail(account: Account, tasks: seq<TaskSummary>)

  /** `{ ...user, tasks }` of the enterprise-detail route: full task rows. */
  datatype EnterpriseDetail = EnterpriseDetail(account: Account, tasks: seq<Task>)

  /** The account with `id` (of any role), with its tasks' definitions; 404 otherwise. */
  function GetAccount(us: seq<User>, ts: seq<Task>, id: nat): (r: Result<AccountDetail, Error>)
    ensures r.Ok? <==> id in UserIds(us)
    ensures r.Err? ==> r.error == AccountNotFound
    ensures r.Ok? ==> r.value.account.id == id && exists u :: u in us && AccountOf(u) == r.value.account
    ensures r.Ok? ==> |r.value.tasks| == |TasksOf(ts, id)|
    ensures r.Ok? ==> forall k :: 0 <= k < |r.value.tasks| ==> r.value.tasks[k] == SummaryOf(TasksOf(ts, id)[k])
  {
    match FindUser(us, id)
    case None => Err(AccountNotFound)
    case Some(u) =>
      var own := TasksOf(ts, u.id);
      Ok(AccountDetail(AccountOf(u), seq(|own|, k requires 0 <= k < |own| => SummaryOf(own[k]))))
  }

  /** The account with `id` and every column of its tasks; 404 otherwise. */
  function GetEnterprise(us: seq<User>, ts: seq<Task>, id: nat): (r: Result<EnterpriseDetail, Error>)
    ensures r.Ok? <==> id in UserIds(us)
    ensures r.Err? ==> r.error == EnterpriseNotFound
    ensures r.Ok? ==> r.value.account.id == id && exists u :: u in us && AccountOf(u) == r.value.account
    ensures r.Ok? ==> forall t :: t in r.value.tasks <==> t in ts && t.userId == id
    ensures r.Ok? ==> r.value.tasks == TasksOf(ts, id)
    ensures r.Ok? && IncreasingBy(ts, TaskKey) ==> IncreasingBy(r.value.tasks, TaskKey)
  {
    assert IncreasingBy(ts, TaskKey) ==> IncreasingBy(TasksOf(ts, id), TaskKey) by {
      if IncreasingBy(ts, TaskKey) {
        FilterOrdered(ts, OwnedBy(id), TaskKey);
      }
    }
    match FindUser(us, id)
    case None => Err(EnterpriseNotFound)
    case Some(u) => Ok(EnterpriseDetail(AccountOf(u), TasksOf(ts, u.id)))
  }

  /** GET /api/client/tasks: the caller's rows, all of them and only them,
      in rowid order. */
  function ClientTasks(ts: seq<Task>, caller: nat): (r: seq<Task>)
    ensures forall t :: t in r <==> t in ts && t.userId == caller
    ensures IncreasingBy(ts, TaskKey) ==> IncreasingBy(r, TaskKey)
  {
    assert IncreasingBy(ts, TaskKey) ==> IncreasingBy(TasksOf(ts, caller), TaskKey) by {
      if IncreasingBy(ts, TaskKey) {
        FilterOrdered(ts, OwnedBy(caller), TaskKey);
      }
    }
    TasksOf(ts, caller)
  }

  // ---------------------------------------------------------------------------
  // GET /api/admin/enterprises

  /** `CASE WHEN COUNT(t.updated_at) > 0 THEN '已填报' ELSE '未填报' END`. */
  datatype ReportStatus = Reported | NotReported

  function StatusLabel(s: ReportStatus): string {
    match s
    case Reported => "已填报"
    case NotReported => "未填报"
  }

  datatype OverviewRow = OverviewRow(id: nat, username: string, enterpriseName: string,
                                     lastReportedAt: Option<Timestamp>, status: ReportStatus)

  function IsUpdated(t: Task): bool {
    t.updatedAt.Some?
  }

  /** `MAX(t.updated_at)` over a group; NULLs are ignored, an all-NULL group gives NULL. */
  function LatestUpdate(ts: seq<Task>): (m: Option<Timestamp>)
    ensures m.None? <==> forall t :: t in ts ==> t.updatedAt.None?
    ensures m.Some? ==> exists t :: t in ts && t.updatedAt == m
    ensures m.Some? ==> forall t :: t in ts && t.updatedAt.Some? ==> t.updatedAt.value <= m.value
  {
    if ts == [] then None
    else
      var m := LatestUpdate(ts[1..]);
      assert forall t :: t in ts[1..] ==> t in ts;
      assert ts[0] in ts;
      var head := ts[0].updatedAt;
      if head.None? then m
      else if m.None? || m.value <= head.value then head
      else m
  }

  /** `COUNT(t.updated_at)`: the rows whose report time is not NULL. */
  function ReportCount(ts: seq<Task>): (n: nat)
    ensures n <= |ts|
    ensures n > 0 <==> exists t :: t in ts && t.updatedAt.Some?
  {
    var f := Filter(ts, IsUpdated);
    assert |f| > 0 ==> f[0] in f;
    |f|
  }

  /** The row of one user's group in the LEFT JOIN. */
  function OverviewRowOf(u: User, ts: seq<Task>): (row: OverviewRow)
    ensures row.id == u.id && row.username == u.username && row.enterpriseName == u.enterpriseName
    ensures row.lastReportedAt == LatestUpdate(TasksOf(ts, u.id))
    ensures row.status == Reported <==> exists t :: t in ts && t.userId == u.id && t.updatedAt.Some?
  {
    var own := TasksOf(ts, u.id);
    ReportCountPositive(own);
    OverviewRow(u.id, u.username, u.enterpriseName, LatestUpdate(own),
                if ReportCount(own) > 0 then Reported else NotReported)
  }

  /** One row per enterprise user, grouped by `u.id`. */
  function Overview(us: seq<User>, ts: seq<Task>): (r: seq<OverviewRow>)
    ensures |r| == |EnterpriseUsers(us)|
    ensures forall k :: 0 <= k < |r| ==> r[k] == OverviewRowOf(EnterpriseUsers(us)[k], ts)
  {
    var es := EnterpriseUsers(us);
    seq(|es|, k requires 0 <= k < |es| => OverviewRowOf(es[k], ts))
  }

  /** Every enterprise user has a row in the overview. */
  lemma OverviewCoversEnterprises(us: seq<User>, ts: seq<Task>, u: User)
    requires u in us && u.role == Enterprise
    ensures exists k :: 0 <= k < |Overview(us, ts)| && Overview(us, ts)[k].id == u.id
  {
    var es := EnterpriseUsers(us);
    assert u in es;
    var k :| 0 <= k < |es| && es[k] == u;
    assert Overview(us, ts)[k].id == u.id;
  }

  /** Only enterprise users have a row in the overview: the admin has none. */
  lemma OverviewOnlyEnterprises(us: seq<User>, ts: seq<Task>, k: nat)
    requires k < |Overview(us, ts)|
    ensures exists u :: u in us && u.role == Enterprise && u.id == Overview(us, ts)[k].id
  {
    var u := EnterpriseUsers(us)[k];
    assert u in EnterpriseUsers(us);
    assert u.id == Overview(us, ts)[k].id;
  }

  lemma ReportCountPositive(ts: seq<Task>)
    ensures ReportCount(ts) > 0 <==> exists t :: t in ts && t.updatedAt.Some?
  {
  }

  /** A user's overview row says "reported" exactly when one of its tasks
      carries a report time; the last report time is present exactly then, and
      it is the latest report time among its tasks. */
  lemma OverviewStatus(us: seq<User>, ts: seq<Task>, k: nat)
    requires k < |Overview(us, ts)|
    ensures var row := Overview(us, ts)[k];
            && (row.status == Reported <==> exists t :: t in ts && t.userId == row.id && t.updatedAt.Some?)
            && (row.lastReportedAt.Some? <==> row.status == Reported)
            && (row.lastReportedAt.Some? ==> exists t :: t in ts && t.userId == row.id && t.updatedAt == row.lastReportedAt)
            && (forall t :: t in ts && t.userId == row.id && t.updatedAt.Some? ==>
                  row.lastReportedAt.Some? && t.updatedAt.value <= row.lastReportedAt.value)
  {
    var u := EnterpriseUsers(us)[k];
    var own := TasksOf(ts, u.id);
    var row := Overview(us, ts)[k];
    assert row == OverviewRowOf(u, ts);
    ReportCountPositive(own);
    assert (exists t :: t in ts && t.userId == row.id && t.updatedAt.Some?) <==> (exists t :: t in own && t.updatedAt.Some?);
    if row.lastReportedAt.Some? {
      var t :| t in own && t.updatedAt == row.lastReportedAt;
      assert t in ts && t.userId == row.id;
    }
  }
}
