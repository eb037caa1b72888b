/** The account management page (src/pages/AdminAccounts.tsx): the account
    form with its editable task list, and the pager of the account list.

    The form's task rows are objects. Adding or removing a task builds a new
    array of the same objects; editing a field copies the array and assigns
    the field of the shared object in place, so the class below keeps the
    rows as references and the field edits modify the row object. */
module AdminAccounts {
  import opened Basics
  import opened Tables
  import Queries

  /** One row of the task editor: `{ name, target_type, target_value }`. */
  class TaskRow {
    var name: string
    var targetType: TargetType
    var targetValue: string

    constructor (name: string, targetType: TargetType, targetValue: string)
      ensures this.name == name && this.targetType == targetType && this.targetValue == targetValue
    {
      this.name := name;
      this.targetType := targetType;
      this.targetValue := targetValue;
    }

    /** The task definition this row posts. */
    function Def(): (d: TaskDef)
      reads this
      ensures d.name == name && d.targetType == targetType && d.targetValue == Some(targetValue)
    {
      TaskDef(name, targetType, Some(targetValue))
    }
  }

  /** The default row `{ name: '', target_type: 'number', target_value: '' }`. */
  const DefaultDef: TaskDef := TaskDef("", Number, Some(""))

  /** The `editingAccount` object of the account modal. */
  class AccountForm {
    var id: Option<nat>
    var username: string
    var password: Option<string>
    var enterpriseName: string
    var tasks: seq<TaskRow>

    /** Every row of the list is a different object. */
    ghost predicate Valid()
      reads this
    {
      forall i, j :: 0 <= i < j < |tasks| ==> tasks[i] != tasks[j]
    }

    /** The task definitions the form posts, in list order. */
    function Defs(): (r: seq<TaskDef>)
      reads this, tasks
      ensures |r| == |tasks|
      ensures forall i :: 0 <= i < |tasks| ==> r[i] == tasks[i].Def()
      ensures AllTargetsGiven(r)
    {
      seq(|tasks|, i reads this, tasks requires 0 <= i < |tasks| => tasks[i].Def())
    }

    /** The "新增账号" button: an empty form with exactly one default task. */
    constructor NewAccount()
      ensures Valid()
      ensures id.None? && username == "" && password == Some("") && enterpriseName == ""
      ensures Defs() == [DefaultDef]
      ensures fresh(tasks[0])
    {
      var row := new TaskRow("", Number, "");
      id := None;
      username := "";
      password := Some("");
      enterpriseName := "";
      tasks := [row];
    }

    /** The edit button: the form holds the account as the server returned
        it, with no password field and one fresh row per task. */
    constructor Editing(detail: Queries.AccountDetail)
      ensures Valid()
      ensures id == Some(detail.account.id) && password.None?
      ensures username == detail.account.username && enterpriseName == detail.account.enterpriseName
      ensures |tasks| == |detail.tasks|
      ensures forall i :: 0 <= i < |tasks| ==>
                tasks[i].Def() == TaskDef(detail.tasks[i].name, detail.tasks[i].targetType, Some(detail.tasks[i].targetValue))
      ensures forall i :: 0 <= i < |tasks| ==> fresh(tasks[i])
    {
      var rows: seq<TaskRow> := [];
      var n := 0;
      while n < |detail.tasks|
        invariant 0 <= n <= |detail.tasks| && |rows| == n
        invariant forall i :: 0 <= i < n ==> fresh(rows[i])
        invariant forall i, j :: 0 <= i < j < n ==> rows[i] != rows[j]
        invariant forall i :: 0 <= i < n ==>
                    rows[i].Def() == TaskDef(detail.tasks[i].name, detail.tasks[i].targetType, Some(detail.tasks[i].targetValue))
      {
        var s := detail.tasks[n];
        var row := new TaskRow(s.name, s.targetType, s.targetValue);
        rows := rows + [row];
        n := n + 1;
      }
      id := Some(detail.account.id);
      username := detail.account.username;
      password := None;
      enterpriseName := detail.account.enterpriseName;
      tasks := rows;
    }

    /** "添加任务": a new default row after the existing ones. */
    method AddTask()
      requires Valid()
      modifies this
      ensures Valid()
      ensures id == old(id) && username == old(username) && password == old(password)
      ensures enterpriseName == old(enterpriseName)
      ensures |tasks| == |old(tasks)| + 1 && tasks[..|old(tasks)|] == old(tasks)
      ensures fresh(tasks[|old(tasks)|])
      ensures Defs() == old(Defs()) + [DefaultDef]
    {
      var row := new TaskRow("", Number, "");
      tasks := tasks + [row];
    }

    /** The remove button of row `idx`: disabled while one task remains,
        otherwise `tasks.filter((_, i) => i !== idx)`. */
    method RemoveTask(idx: nat)
      requires Valid()
      modifies this
      ensures Valid()
      ensures id == old(id) && username == old(username) && password == old(password)
      ensures enterpriseName == old(enterpriseName)
      ensures |old(tasks)| <= 1 ==> tasks == old(tasks)
      ensures |old(tasks)| > 1 ==> tasks == RemoveAt(old(tasks), idx)
      ensures |old(tasks)| > 1 ==> Defs() == RemoveAt(old(Defs()), idx)
      ensures |old(tasks)| >= 1 ==> |tasks| >= 1
    {
      if |tasks| > 1 {
        tasks := RemoveAt(tasks, idx);
      }
    }

    /** The task-name input of row `idx`. */
    method SetName(idx: nat, value: string)
      requires Valid() && idx < |tasks|
      modifies tasks[idx]
      ensures Valid()
      ensures Defs() == old(Defs())[idx := old(Defs()[idx]).(name := value)]
    {
      tasks[idx].name := value;
    }

    /** The type select of row `idx`: the target resets to `'是'` for a
        boolean task and to `''` for a number task. */
    method SetType(idx: nat, t: TargetType)
      requires Valid() && idx < |tasks|
      modifies tasks[idx]
      ensures Valid()
      ensures Defs() == old(Defs())[idx := old(Defs()[idx]).(targetType := t, targetValue := Some(if t == Boolean then "是" else ""))]
    {
      tasks[idx].targetType := t;
      tasks[idx].targetValue := if t == Boolean then "是" else "";
    }

    /** The target input (number) or select (boolean) of row `idx`. */
    method SetTarget(idx: nat, value: string)
      requires Valid() && idx < |tasks|
      modifies tasks[idx]
      ensures Valid()
      ensures Defs() == old(Defs())[idx := old(Defs()[idx]).(targetValue := Some(value))]
    {
      tasks[idx].targetValue := value;
    }
  }

  // ---------------------------------------------------------------------------
  // The pager of the account list

  /** The pager is shown only when there are more accounts than fit on one
      page of the server's listing. */
  function ShowPagination(total: nat): (r: bool)
    ensures r <==> Queries.PageSize < total
  {
    total > 10
  }

  /** "上一页" is disabled on page 1: exactly the page the server starts at
      the first account. */
  function PrevDisabled(page: int): (r: bool)
    ensures page >= 1 ==> (r <==> Queries.PageOffset(page) == 0)
  {
    page == 1
  }

  /** "下一页" is disabled once the next page of the server would start past
      the last account. */
  function NextDisabled(page: int, total: nat): (r: bool)
    ensures page >= 0 ==> (r <==> Queries.PageOffset(page + 1) >= total)
  {
    page * 10 >= total
  }

  /** `setPage(p => p - 1)` behind a button that is disabled on page 1. */
  function ClickPrev(page: int): (r: int)
    ensures r == page <==> PrevDisabled(page)
    ensures r != page ==> r == page - 1
    ensures page >= 1 ==> r >= 1
  {
    if PrevDisabled(page) then page else page - 1
  }

  /** `setPage(p => p + 1)` behind a button disabled on the last page. */
  function ClickNext(page: int, total: nat): (r: int)
    ensures r == page <==> NextDisabled(page, total)
    ensures r != page ==> r == page + 1
    ensures page >= 1 && r != page ==> Queries.PageOffset(r) < total
  {
    if NextDisabled(page, total) then page else page + 1
  }

  /** The pages the buttons can reach from page 1: page 1, or a page that
      starts inside the list. */
  function PagerValid(page: int, total: nat): (r: bool)
    ensures page == 1 ==> r
    ensures r ==> page >= 1
    ensures page > 1 ==> (r <==> Queries.PageOffset(page) < total)
  {
    page >= 1 && (page == 1 || (page - 1) * 10 < total)
  }

  /** Both buttons keep the pager on a reachable page. */
  lemma ClicksKeepPagerValid(page: int, total: nat)
    requires PagerValid(page, total)
    ensures PagerValid(ClickPrev(page), total) && PagerValid(ClickNext(page, total), total)
    ensures ClickPrev(page) <= page <= ClickNext(page, total)
  {
    if !PrevDisabled(page) {
      assert (page - 2) * 10 < (page - 1) * 10;
    }
  }

  /** "Next" is enabled exactly when the server's next page holds accounts:
      the page size of the buttons is the server's page size. */
  lemma NextEnabledIffNextPageNonEmpty(us: seq<User>, page: int)
    requires page >= 1
    ensures var total := Queries.ListAccounts(us, Some(page)).total;
            !NextDisabled(page, total) <==> |Queries.ListAccounts(us, Some(page + 1)).accounts| > 0
  {
    assert Queries.PageOffset(Queries.PageNumber(Some(page + 1))) == page * Queries.PageSize;
  }

  /** Every page the buttons reach, other than the first, lists accounts. */
  lemma ReachablePageNonEmpty(us: seq<User>, page: int)
    requires PagerValid(page, |Queries.EnterpriseUsers(us)|) && page > 1
    ensures |Queries.ListAccounts(us, Some(page)).accounts| > 0
  {
    assert Queries.PageOffset(Queries.PageNumber(Some(page))) == (page - 1) * Queries.PageSize;
  }

  /** The pager appears exactly when the accounts do not fit on page 1. */
  lemma PaginationWhenMoreThanOnePage(us: seq<User>)
    ensures var total := Queries.ListAccounts(us, None).total;
            ShowPagination(total) <==> |Queries.ListAccounts(us, Some(2)).accounts| > 0
  {
    assert Queries.PageOffset(Queries.PageNumber(Some(2))) == Queries.PageSize;
  }
}
