/** The administrator's view of one enterprise's tasks
    (src/pages/AdminEnterpriseDetail.tsx): the progress it shows for a task
    from the stored actual value, and how the value columns are displayed. */
module AdminEnterpriseDetail {
  import opened Basics
  import opened Tables
  import opened TaskView
  import ClientHome

  /** `calculateProgress` of the detail page. Unlike the report page it has
      no NaN guard for the actual value: `parse` is `parseFloat`, and None
      stands for NaN. */
  function CalculateProgress(task: TaskView, parse: string -> Option<real>): (p: Progress)
    ensures !Truthy(task.actualValue) ==> p == Percent(0)
    ensures task.targetType == Number && parse(task.targetValue) == Some(0.0) ==> p == Percent(0)
    ensures p.Percent? ==> p.value <= 100
    ensures p.NaN? <==> Truthy(task.actualValue) && task.targetType == Number && parse(task.targetValue) != Some(0.0)
                        && (parse(task.actualValue.value).None? || parse(task.targetValue).None?)
    ensures task.targetType == Boolean ==> (p == Percent(100) || p == Percent(0))
    ensures task.targetType == Boolean ==> (p == Percent(100) <==> Truthy(task.actualValue) && task.actualValue.value == task.targetValue)
    ensures Truthy(task.actualValue) && task.targetType == Number
            && parse(task.actualValue.value).Some? && parse(task.targetValue).Some? && parse(task.targetValue).value != 0.0
            ==> p == Percent(Scaled(parse(task.actualValue.value).value, parse(task.targetValue).value))
  {
    if !Truthy(task.actualValue) then Percent(0)
    else if task.targetType == Number then
      var actual := parse(task.actualValue.value);
      var target := parse(task.targetValue);
      if target == Some(0.0) then Percent(0)
      else if actual.None? || target.None? then NaN
      else Percent(Scaled(actual.value, target.value))
    else if task.actualValue.value == task.targetValue then Percent(100)
    else Percent(0)
  }

  /** For a reported task, the detail page shows the progress the enterprise
      saw on its report page when the page loaded, as long as the stored
      value is a boolean answer or a parsable number. */
  lemma AgreesWithReportPage(task: TaskView, parse: string -> Option<real>)
    requires Truthy(task.actualValue)
    requires task.targetType == Number ==> parse(task.actualValue.value).Some?
    ensures CalculateProgress(task, parse) == ClientHome.CalculateProgress(task, ClientHome.InitialEdit(task), parse)
  {
  }

  /** The two pages disagree on an unparsable number: the report page shows
      0% where the detail page shows NaN%. */
  lemma UnparsableActualDiffers(task: TaskView, parse: string -> Option<real>)
    requires Truthy(task.actualValue) && task.targetType == Number
    requires parse(task.actualValue.value).None?
    requires parse(task.targetValue).Some? && parse(task.targetValue) != Some(0.0)
    ensures ClientHome.CalculateProgress(task, ClientHome.InitialEdit(task), parse) == Percent(0)
    ensures CalculateProgress(task, parse) == NaN
  {
  }

  /** They also disagree on a boolean task with target `'否'` that was never
      reported: the report page starts it at `'否'` and shows 100%, the
      detail page shows 0%. */
  lemma UnreportedNoTargetDiffers(task: TaskView, parse: string -> Option<real>)
    requires task.targetType == Boolean && task.targetValue == "否" && !Truthy(task.actualValue)
    ensures ClientHome.CalculateProgress(task, ClientHome.InitialEdit(task), parse) == Percent(100)
    ensures CalculateProgress(task, parse) == Percent(0)
  {
    ClientHome.UnreportedNoTargetShowsFull(task, parse);
  }

  /** The actual-value column: `-` when nothing was reported, the number as
      stored, or `'是'`/`'否'` for a boolean task. */
  function ActualLabel(task: TaskView): (r: string)
    ensures !Truthy(task.actualValue) ==> r == "-"
    ensures Truthy(task.actualValue) && task.targetType == Number ==> r == task.actualValue.value
    ensures Truthy(task.actualValue) && task.targetType == Boolean ==> r == YesNoLabel(task.actualValue.value)
  {
    if !Truthy(task.actualValue) then "-"
    else if task.targetType == Number then task.actualValue.value
    else YesNoLabel(task.actualValue.value)
  }

  /** A boolean task whose target and answer both display as `'否'` can still
      show 0%: any stored answer other than `'是'` displays as `'否'`, but the
      progress compares the stored strings. */
  lemma BooleanLabelsCanMislead(parse: string -> Option<real>)
    ensures var task := TaskView(1, 2, "t", Boolean, "否", Some("no"), None, None, None, None, None);
            TargetLabel(task) == ActualLabel(task) == "否" && CalculateProgress(task, parse) == Percent(0)
  {
  }

  /** For a boolean task the page shows 100% exactly when both labels show
      the same answer, provided both stored strings are `'是'` or `'否'`. */
  lemma BooleanLabelsMatchProgress(task: TaskView, parse: string -> Option<real>)
    requires task.targetType == Boolean && Truthy(task.actualValue)
    requires task.targetValue == "是" || task.targetValue == "否"
    requires task.actualValue.value == "是" || task.actualValue.value == "否"
    ensures CalculateProgress(task, parse) == Percent(100) <==> TargetLabel(task) == ActualLabel(task)
  {
  }
}
