/** The task object that the pages receive as JSON: every column of a
    `tasks` row as the server sends it, plus the `attachments` list that the
    `Task` interface of src/types.ts declares. The server's rows have no such
    column, so for every row it sends the list is absent; conversely the
    interface does not declare the two attachment columns, which the JSON
    carries and no page reads. */
module TaskView {
  import opened Basics
  import opened Tables

  /** An element of `task.attachments`. */
  datatype Attachment = Attachment(id: nat, taskId: nat, name: string, path: string)

  datatype TaskView = TaskView(
    id: nat,
    userId: nat,
    name: string,
    targetType: TargetType,
    targetValue: string,
    actualValue: Option<string>,
    attachmentName: Option<string>,
    attachmentPath: Option<string>,
    attachments: Option<seq<Attachment>>,
    remarks: Option<string>,
    updatedAt: Option<Timestamp>)

  /** The JSON object `res.json(tasks)` produces for one row of `SELECT *
      FROM tasks`: every column, and no `attachments` field. */
  function FromRow(t: Task): (v: TaskView)
    ensures v.id == t.id && v.userId == t.userId && v.name == t.name
    ensures v.targetType == t.targetType && v.targetValue == t.targetValue && v.actualValue == t.actualValue
    ensures v.attachmentName == t.attachmentName && v.attachmentPath == t.attachmentPath
    ensures v.remarks == t.remarks && v.updatedAt == t.updatedAt
    ensures v.attachments.None?
  {
    TaskView(t.id, t.userId, t.name, t.targetType, t.targetValue, t.actualValue,
             t.attachmentName, t.attachmentPath, None, t.remarks, t.updatedAt)
  }

  function FromRows(ts: seq<Task>): (r: seq<TaskView>)
    ensures |r| == |ts|
    ensures forall k :: 0 <= k < |ts| ==> r[k] == FromRow(ts[k])
  {
    seq(|ts|, k requires 0 <= k < |ts| => FromRow(ts[k]))
  }

  /** The result of `calculateProgress`: an integer percentage, or NaN when
      the division involved an unparsable number. */
  datatype Progress = Percent(value: int) | NaN

  /** `Math.min(Math.round((actual / target) * 100), 100)` for a non-zero
      target: the ratio in percent rounded to the nearest integer, halves up,
      and capped at 100 but not bounded below. */
  function Scaled(actual: real, target: real): (p: int)
    requires target != 0.0
    ensures p <= 100
    ensures actual / target * 100.0 < 99.5 ==> p as real - 0.5 <= actual / target * 100.0 < p as real + 0.5
    ensures actual / target * 100.0 >= 99.5 ==> p == 100
  {
    Min(JsRound(actual / target * 100.0), 100)
  }

  /** The percentage reaches exactly 100 once the actual value meets a positive target ... */
  lemma ScaledFull(actual: real, target: real)
    requires 0.0 < target <= actual
    ensures Scaled(actual, target) == 100
  {
    assert actual / target >= 1.0;
    assert actual / target * 100.0 >= 100.0;
  }

  /** ... is never negative for a non-negative actual value and a positive target ... */
  lemma ScaledNonNegative(actual: real, target: real)
    requires 0.0 < target && 0.0 <= actual
    ensures 0 <= Scaled(actual, target)
  {
    assert actual / target >= 0.0;
  }

  /** ... but nothing stops a negative actual value from giving a negative
      percentage: -50 against a target of 100 shows -50%, while -0.4 rounds
      to 0. Ordinary values: 40 of 100 shows 40%, 99.6 of 100 rounds up to
      100%, 150 of 100 is capped at 100%. */
  lemma ScaledExamples()
    ensures Scaled(40.0, 100.0) == 40
    ensures Scaled(99.6, 100.0) == 100
    ensures Scaled(150.0, 100.0) == 100
    ensures Scaled(-50.0, 100.0) == -50
    ensures Scaled(-0.4, 100.0) == 0
  {
    assert 40.0 / 100.0 * 100.0 == 40.0;
    assert -50.0 / 100.0 * 100.0 == -50.0;
    assert -0.4 / 100.0 * 100.0 == -0.4;
  }

  /** For a fixed positive target, a larger actual value never gives a smaller percentage. */
  lemma ScaledMonotone(a1: real, a2: real, target: real)
    requires 0.0 < target && a1 <= a2
    ensures Scaled(a1, target) <= Scaled(a2, target)
  {
    assert a1 / target <= a2 / target by {
      assert a2 / target - a1 / target == (a2 - a1) / target;
    }
    JsRoundMonotone(a1 / target * 100.0, a2 / target * 100.0);
  }

  /** How a boolean value is displayed: `'是'` for `'是'`, `'否'` for anything else. */
  function YesNoLabel(v: string): (r: string)
    ensures r == "是" || r == "否"
    ensures r == "是" <==> v == "是"
  {
    if v == "是" then "是" else "否"
  }

  /** The target column: a number task shows its target as stored, a boolean
      task shows `'是'` or `'否'`. */
  function TargetLabel(t: TaskView): (r: string)
    ensures t.targetType == Number ==> r == t.targetValue
    ensures t.targetType == Boolean ==> r == YesNoLabel(t.targetValue)
  {
    if t.targetType == Number then t.targetValue else YesNoLabel(t.targetValue)
  }
}
