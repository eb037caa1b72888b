/** The enterprise user's report page (src/pages/ClientHome.tsx): the
    progress shown for each task, the `edits` record that holds the unsaved
    input per task id, the updates the inputs make to it, and the multipart
    payload `handleSaveAll` sends to `POST /api/client/save-all`. */
module ClientHome {
  import opened Basics
  import opened Tables
  import opened TaskView
  import Reporting

  /** A file picked in the browser (a `File` object), known by its name. */
  datatype File = File(name: string)

  /** The unsaved input for one task. */
  datatype Edit = Edit(actualValue: string, remarks: string, newFiles: seq<File>, deleteAttachmentIds: seq<nat>)

  /** `edits[task.id] || { actualValue: '', remarks: '', newFiles: [], deleteAttachmentIds: [] }`. */
  function EditFor(edits: map<nat, Edit>, id: nat): (e: Edit)
    ensures id in edits ==> e == edits[id]
    ensures id !in edits ==> e.actualValue == "" && e.remarks == "" && e.newFiles == [] && e.deleteAttachmentIds == []
  {
    if id in edits then edits[id] else Edit("", "", [], [])
  }

  // ---------------------------------------------------------------------------
  // calculateProgress

  /** The progress of `task` for the value being edited. `parse` is
      `parseFloat`: None stands for NaN. */
  function CalculateProgress(task: TaskView, edit: Edit, parse: string -> Option<real>): (p: Progress)
    ensures edit.actualValue == "" ==> p == Percent(0)
    ensures task.targetType == Number && (parse(edit.actualValue).None? || parse(task.targetValue) == Some(0.0)) ==> p == Percent(0)
    ensures p.Percent? ==> p.value <= 100
    ensures p.NaN? <==> task.targetType == Number && edit.actualValue != ""
                        && parse(edit.actualValue).Some? && parse(task.targetValue).None?
    ensures task.targetType == Boolean ==> (p == Percent(100) || p == Percent(0))
    ensures task.targetType == Boolean ==> (p == Percent(100) <==> edit.actualValue != "" && edit.actualValue == task.targetValue)
    ensures task.targetType == Number && edit.actualValue != ""
            && parse(edit.actualValue).Some? && parse(task.targetValue).Some? && parse(task.targetValue).value != 0.0
            ==> p == Percent(Scaled(parse(edit.actualValue).value, parse(task.targetValue).value))
  {
    var val := edit.actualValue;
    if val == "" then Percent(0)
    else if task.targetType == Number then
      var actual := parse(val);
      var target := parse(task.targetValue);
      if actual.None? || target == Some(0.0) then Percent(0)
      else if target.None? then NaN
      else Percent(Scaled(actual.value, target.value))
    else if val == task.targetValue then Percent(100)
    else Percent(0)
  }

  /** A number task whose actual value meets a positive target shows 100%. */
  lemma ProgressFull(task: TaskView, edit: Edit, parse: string -> Option<real>)
    requires task.targetType == Number && edit.actualValue != ""
    requires parse(edit.actualValue).Some? && parse(task.targetValue).Some?
    requires 0.0 < parse(task.targetValue).value <= parse(edit.actualValue).value
    ensures CalculateProgress(task, edit, parse) == Percent(100)
  {
    ScaledFull(parse(edit.actualValue).value, parse(task.targetValue).value);
  }

  /** Against a positive target, a non-negative actual value shows 0..100%. */
  lemma ProgressInRange(task: TaskView, edit: Edit, parse: string -> Option<real>)
    requires task.targetType == Number
    requires parse(task.targetValue).Some? && 0.0 < parse(task.targetValue).value
    requires parse(edit.actualValue).Some? ==> 0.0 <= parse(edit.actualValue).value
    ensures CalculateProgress(task, edit, parse).Percent?
    ensures 0 <= CalculateProgress(task, edit, parse).value <= 100
  {
    if edit.actualValue != "" && parse(edit.actualValue).Some? {
      ScaledNonNegative(parse(edit.actualValue).value, parse(task.targetValue).value);
    }
  }

  /** Against a fixed positive target, a larger actual value never shows
      less progress. */
  lemma ProgressMonotone(task: TaskView, e1: Edit, e2: Edit, parse: string -> Option<real>)
    requires task.targetType == Number
    requires parse(task.targetValue).Some? && 0.0 < parse(task.targetValue).value
    requires e1.actualValue != "" && e2.actualValue != ""
    requires parse(e1.actualValue).Some? && parse(e2.actualValue).Some?
    requires parse(e1.actualValue).value <= parse(e2.actualValue).value
    ensures CalculateProgress(task, e1, parse).Percent? && CalculateProgress(task, e2, parse).Percent?
    ensures CalculateProgress(task, e1, parse).value <= CalculateProgress(task, e2, parse).value
  {
    ScaledMonotone(parse(e1.actualValue).value, parse(e2.actualValue).value, parse(task.targetValue).value);
  }

  /** The lower bound is not enforced: a number task shows a negative
      percentage exactly when its ratio to a non-zero target is below -0.5%. */
  lemma ProgressNegative(task: TaskView, edit: Edit, parse: string -> Option<real>)
    requires task.targetType == Number && edit.actualValue != ""
    requires parse(edit.actualValue).Some? && parse(task.targetValue).Some? && parse(task.targetValue).value != 0.0
    ensures var p := CalculateProgress(task, edit, parse);
            p.Percent? && (p.value < 0 <==> parse(edit.actualValue).value / parse(task.targetValue).value * 100.0 < -0.5)
  {
  }

  // ---------------------------------------------------------------------------
  // fetchTasks: the initial edits

  /** The edit a task starts with: its stored value, or `'否'` for a boolean
      task and `''` for a number task; its remarks or `''`; no files. */
  function InitialEdit(t: TaskView): (e: Edit)
    ensures Truthy(t.actualValue) ==> e.actualValue == t.actualValue.value
    ensures !Truthy(t.actualValue) && t.targetType == Boolean ==> e.actualValue == "否"
    ensures !Truthy(t.actualValue) && t.targetType == Number ==> e.actualValue == ""
    ensures Truthy(t.remarks) ==> e.remarks == t.remarks.value
    ensures !Truthy(t.remarks) ==> e.remarks == ""
    ensures e.newFiles == [] && e.deleteAttachmentIds == []
  {
    Edit(if Truthy(t.actualValue) then t.actualValue.value else if t.targetType == Boolean then "否" else "",
         if Truthy(t.remarks) then t.remarks.value else "",
         [], [])
  }

  function TaskIds(ts: seq<TaskView>): set<nat> {
    set t | t in ts :: t.id
  }

  /** The `res.forEach` loop that fills `initialEdits`: one key per task id;
      when an id repeats, the later task's edit wins. */
  method FetchEdits(ts: seq<TaskView>) returns (edits: map<nat, Edit>)
    ensures edits.Keys == TaskIds(ts)
    ensures forall i :: 0 <= i < |ts| && (forall j :: i < j < |ts| ==> ts[j].id != ts[i].id) ==>
              edits[ts[i].id] == InitialEdit(ts[i])
  {
    edits := map[];
    var n := 0;
    while n < |ts|
      invariant 0 <= n <= |ts|
      invariant edits.Keys == TaskIds(ts[..n])
      invariant forall i :: 0 <= i < n && (forall j :: i < j < n ==> ts[j].id != ts[i].id) ==>
                  edits[ts[i].id] == InitialEdit(ts[i])
    {
      FetchStep(ts, n, edits);
      edits := edits[ts[n].id := InitialEdit(ts[n])];
      n := n + 1;
    }
    assert ts[..n] == ts;
  }

  /** One turn of the `forEach`: the task at `n` sets its id's edit. */
  lemma FetchStep(ts: seq<TaskView>, n: nat, before: map<nat, Edit>)
    requires n < |ts|
    requires before.Keys == TaskIds(ts[..n])
    requires forall i :: 0 <= i < n && (forall j :: i < j < n ==> ts[j].id != ts[i].id) ==>
               before[ts[i].id] == InitialEdit(ts[i])
    ensures var after := before[ts[n].id := InitialEdit(ts[n])];
            && after.Keys == TaskIds(ts[..n + 1])
            && forall i :: 0 <= i < n + 1 && (forall j :: i < j < n + 1 ==> ts[j].id != ts[i].id) ==>
                 after[ts[i].id] == InitialEdit(ts[i])
  {
    TaskIdsStep(ts, n);
    TaskIdsMember(ts, n);
    FetchValues(ts, n, before);
  }

  lemma TaskIdsMember(ts: seq<TaskView>, n: nat)
    requires n <= |ts|
    ensures forall i :: 0 <= i < n ==> ts[i].id in TaskIds(ts[..n])
  {
    forall i | 0 <= i < n ensures ts[i].id in TaskIds(ts[..n]) {
      assert ts[i] == ts[..n][i];
    }
  }

  lemma FetchValues(ts: seq<TaskView>, n: nat, before: map<nat, Edit>)
    requires n < |ts|
    requires forall i :: 0 <= i < n ==> ts[i].id in before
    requires forall i :: 0 <= i < n && (forall j :: i < j < n ==> ts[j].id != ts[i].id) ==>
               before[ts[i].id] == InitialEdit(ts[i])
    ensures var after := before[ts[n].id := InitialEdit(ts[n])];
            forall i :: 0 <= i < n + 1 && (forall j :: i < j < n + 1 ==> ts[j].id != ts[i].id) ==>
              ts[i].id in after && after[ts[i].id] == InitialEdit(ts[i])
  {
    var after := before[ts[n].id := InitialEdit(ts[n])];
    forall i | 0 <= i < n + 1 && (forall j :: i < j < n + 1 ==> ts[j].id != ts[i].id)
      ensures ts[i].id in after && after[ts[i].id] == InitialEdit(ts[i])
    {
      if i < n {
        assert ts[n].id != ts[i].id;
        assert forall j :: i < j < n ==> ts[j].id != ts[i].id;
        assert after[ts[i].id] == before[ts[i].id];
      }
    }
  }

  lemma TaskIdsStep(ts: seq<TaskView>, n: nat)
    requires n < |ts|
    ensures TaskIds(ts[..n + 1]) == TaskIds(ts[..n]) + {ts[n].id}
  {
    assert ts[..n + 1] == ts[..n] + [ts[n]];
  }

  /** The initial edit of a boolean task that was never reported is `'否'`,
      so a boolean task whose target is `'否'` shows 100% before anything
      was reported, while the admin detail page shows 0% for it. */
  lemma UnreportedNoTargetShowsFull(t: TaskView, parse: string -> Option<real>)
    requires t.targetType == Boolean && t.targetValue == "否" && !Truthy(t.actualValue)
    ensures CalculateProgress(t, InitialEdit(t), parse) == Percent(100)
  {
  }

  // ---------------------------------------------------------------------------
  // The existing-attachment list and the edit updates

  function AttachmentsOf(t: TaskView): seq<Attachment> {
    if t.attachments.Some? then t.attachments.value else []
  }

  function NotDeleted(ids: seq<nat>): Attachment -> bool {
    (a: Attachment) => a.id !in ids
  }

  /** `(task.attachments || []).filter(a => !edit.deleteAttachmentIds.includes(a.id))`. */
  function ExistingAttachments(t: TaskView, edit: Edit): (r: seq<Attachment>)
    ensures forall a :: a in r <==> a in AttachmentsOf(t) && a.id !in edit.deleteAttachmentIds
  {
    Filter(AttachmentsOf(t), NotDeleted(edit.deleteAttachmentIds))
  }

  /** Before anything is deleted, every attachment is listed, in its order. */
  lemma NothingDeletedShowsAll(t: TaskView, edit: Edit)
    requires edit.deleteAttachmentIds == []
    ensures ExistingAttachments(t, edit) == AttachmentsOf(t)
  {
    FilterAll(AttachmentsOf(t), NotDeleted(edit.deleteAttachmentIds));
  }

  /** The list keeps the task's attachments in their order: the shown
      attachments sit at strictly increasing positions of the task's list,
      and every attachment whose id was not deleted is among them. */
  lemma ExistingAttachmentsOrdered(t: TaskView, edit: Edit)
    ensures var all, shown := AttachmentsOf(t), ExistingAttachments(t, edit);
            exists idx: seq<nat> ::
              && |idx| == |shown|
              && (forall k :: 0 <= k < |idx| ==> idx[k] < |all| && shown[k] == all[idx[k]])
              && (forall k, l :: 0 <= k < l < |idx| ==> idx[k] < idx[l])
              && (forall i :: 0 <= i < |all| && all[i].id !in edit.deleteAttachmentIds ==> i in idx)
  {
    var all, keep := AttachmentsOf(t), NotDeleted(edit.deleteAttachmentIds);
    var shown := ExistingAttachments(t, edit);
    assert shown == Filter(all, keep);
    KeptPositionsSpec(all, keep);
    var idx := KeptPositions(all, keep);
    assert |idx| == |shown|;
    assert forall k :: 0 <= k < |idx| ==> idx[k] < |all| && shown[k] == all[idx[k]];
    assert forall k, l :: 0 <= k < l < |idx| ==> idx[k] < idx[l];
    forall i | 0 <= i < |all| && all[i].id !in edit.deleteAttachmentIds ensures i in idx {
      assert keep(all[i]);
    }
  }

  /** Attachments listed in increasing id order stay in that order. */
  lemma ExistingAttachmentsIncreasing(t: TaskView, edit: Edit)
    requires IncreasingBy(AttachmentsOf(t), (a: Attachment) => a.id as int)
    ensures IncreasingBy(ExistingAttachments(t, edit), (a: Attachment) => a.id as int)
  {
    FilterOrdered(AttachmentsOf(t), NotDeleted(edit.deleteAttachmentIds), (a: Attachment) => a.id as int);
  }

  /** The server never sends an `attachments` list, so a task loaded from it
      shows no existing attachment, whatever was deleted. */
  lemma ServerTasksShowNoAttachments(row: Task, edit: Edit)
    ensures ExistingAttachments(FromRow(row), edit) == []
  {
  }

  /** The only key whose edit differs is `id`, and the key set is unchanged. */
  predicate OnlyEdited(before: map<nat, Edit>, after: map<nat, Edit>, id: nat) {
    after.Keys == before.Keys && forall k :: k in before && k != id ==> after[k] == before[k]
  }

  /** The actual-value input and the 是/否 radio buttons. */
  function SetActualValue(edits: map<nat, Edit>, id: nat, value: string): (r: map<nat, Edit>)
    requires id in edits
    ensures OnlyEdited(edits, r, id)
    ensures r[id].actualValue == value
    ensures r[id].remarks == edits[id].remarks && r[id].newFiles == edits[id].newFiles
    ensures r[id].deleteAttachmentIds == edits[id].deleteAttachmentIds
  {
    edits[id := edits[id].(actualValue := value)]
  }

  /** The remarks text area. */
  function SetRemarks(edits: map<nat, Edit>, id: nat, remarks: string): (r: map<nat, Edit>)
    requires id in edits
    ensures OnlyEdited(edits, r, id)
    ensures r[id].remarks == remarks
    ensures r[id].actualValue == edits[id].actualValue && r[id].newFiles == edits[id].newFiles
    ensures r[id].deleteAttachmentIds == edits[id].deleteAttachmentIds
  {
    edits[id := edits[id].(remarks := remarks)]
  }

  /** The file input: the picked files are queued after those already queued. */
  function AddFiles(edits: map<nat, Edit>, id: nat, files: seq<File>): (r: map<nat, Edit>)
    requires id in edits
    ensures OnlyEdited(edits, r, id)
    ensures |r[id].newFiles| == |edits[id].newFiles| + |files|
    ensures r[id].newFiles[..|edits[id].newFiles|] == edits[id].newFiles
    ensures r[id].newFiles[|edits[id].newFiles|..] == files
    ensures r[id].actualValue == edits[id].actualValue && r[id].remarks == edits[id].remarks
    ensures r[id].deleteAttachmentIds == edits[id].deleteAttachmentIds
  {
    edits[id := edits[id].(newFiles := edits[id].newFiles + files)]
  }

  /** The remove button of the idx-th queued file. */
  function RemoveNewFile(edits: map<nat, Edit>, id: nat, idx: nat): (r: map<nat, Edit>)
    requires id in edits
    ensures OnlyEdited(edits, r, id)
    ensures idx < |edits[id].newFiles| ==> |r[id].newFiles| == |edits[id].newFiles| - 1
    ensures idx < |edits[id].newFiles| ==> forall k :: 0 <= k < |r[id].newFiles| ==>
              r[id].newFiles[k] == if k < idx then edits[id].newFiles[k] else edits[id].newFiles[k + 1]
    ensures idx >= |edits[id].newFiles| ==> r[id] == edits[id]
    ensures r[id].actualValue == edits[id].actualValue && r[id].remarks == edits[id].remarks
    ensures r[id].deleteAttachmentIds == edits[id].deleteAttachmentIds
  {
    edits[id := edits[id].(newFiles := RemoveAt(edits[id].newFiles, idx))]
  }

  /** The remove button of an existing attachment: its id is recorded. */
  function DeleteAttachment(edits: map<nat, Edit>, id: nat, attachmentId: nat): (r: map<nat, Edit>)
    requires id in edits
    ensures OnlyEdited(edits, r, id)
    ensures r[id].deleteAttachmentIds == edits[id].deleteAttachmentIds + [attachmentId]
    ensures r[id].actualValue == edits[id].actualValue && r[id].remarks == edits[id].remarks
    ensures r[id].newFiles == edits[id].newFiles
  {
    edits[id := edits[id].(deleteAttachmentIds := edits[id].deleteAttachmentIds + [attachmentId])]
  }

  /** After removing an attachment, the list shows what it showed before,
      in the same order, except the attachments with that id. */
  lemma DeleteAttachmentHides(t: TaskView, edits: map<nat, Edit>, attachmentId: nat)
    requires t.id in edits
    ensures var before := ExistingAttachments(t, edits[t.id]);
            var after := ExistingAttachments(t, DeleteAttachment(edits, t.id, attachmentId)[t.id]);
            after == Filter(before, (a: Attachment) => a.id != attachmentId)
  {
    var ids := edits[t.id].deleteAttachmentIds;
    var ids' := DeleteAttachment(edits, t.id, attachmentId)[t.id].deleteAttachmentIds;
    FilterAnd(AttachmentsOf(t), NotDeleted(ids), (a: Attachment) => a.id != attachmentId, NotDeleted(ids'));
  }

  // ---------------------------------------------------------------------------
  // handleSaveAll

  /** An element of the JSON `data` array. */
  datatype SubmitItem = SubmitItem(taskId: nat, actualValue: string, remarks: string, deleteAttachmentIds: seq<nat>)

  /** A part of the `FormData`: a queued file, or the JSON `data` array. */
  datatype FormPart = FilePart(field: string, file: File) | DataPart(items: seq<SubmitItem>)

  /** The client sends each file of task `id` in the form field `files_<id>`. */
  const ClientFilePrefix: string := "files_"

  function ClientFileField(taskId: nat): (field: string)
    ensures |field| > |ClientFilePrefix| && field[..|ClientFilePrefix|] == ClientFilePrefix
    ensures forall i :: |ClientFilePrefix| <= i < |field| ==> IsDigit(field[i])
    ensures DecimalValue(field[|ClientFilePrefix|..]) == taskId
  {
    DecimalRoundTrip(taskId);
    assert (ClientFilePrefix + DecimalString(taskId))[|ClientFilePrefix|..] == DecimalString(taskId);
    ClientFilePrefix + DecimalString(taskId)
  }

  /** The smallest key: `Object.entries` lists integer keys in ascending order. */
  ghost function SmallestKey(s: set<nat>): (m: nat)
    requires s != {}
    ensures m in s && forall x :: x in s ==> m <= x
  {
    var x :| x in s;
    if s == {x} then
      assert forall y :: y in s ==> y in {x};
      x
    else
      var y := SmallestKey(s - {x});
      assert forall z :: z in s ==> z == x || z in s - {x};
      if x <= y then x else y
  }

  /** The keys of `edits` in the order `Object.entries(edits)` lists them. */
  ghost function EntryOrder(s: set<nat>): (r: seq<nat>)
    ensures |r| == |s|
    ensures forall k :: k in r ==> k in s
    decreases |s|
  {
    if s == {} then []
    else
      var m := SmallestKey(s);
      [m] + EntryOrder(s - {m})
  }

  /** The entry order lists every key once, in ascending order. */
  lemma EntryOrderSorted(s: set<nat>)
    ensures forall k :: k in s ==> k in EntryOrder(s)
    ensures forall i, j :: 0 <= i < j < |EntryOrder(s)| ==> EntryOrder(s)[i] < EntryOrder(s)[j]
  {
    EntryOrderCovers(s);
    EntryOrderAscending(s);
  }

  lemma {:induction false} EntryOrderCovers(s: set<nat>)
    ensures forall k :: k in s ==> k in EntryOrder(s)
    decreases |s|
  {
    if s != {} {
      var m := SmallestKey(s);
      var rest := EntryOrder(s - {m});
      EntryOrderCovers(s - {m});
      assert EntryOrder(s) == [m] + rest;
      forall k | k in s ensures k in [m] + rest {
        if k != m {
          assert k in s - {m};
        }
      }
    }
  }

  lemma {:induction false} EntryOrderAscending(s: set<nat>)
    ensures forall i, j :: 0 <= i < j < |EntryOrder(s)| ==> EntryOrder(s)[i] < EntryOrder(s)[j]
    decreases |s|
  {
    if s != {} {
      var m := SmallestKey(s);
      var rest := EntryOrder(s - {m});
      EntryOrderAscending(s - {m});
      var r := [m] + rest;
      assert EntryOrder(s) == r;
      forall i, j | 0 <= i < j < |r| ensures r[i] < r[j] {
        assert r[j] == rest[j - 1] && rest[j - 1] in s - {m};
        if 0 < i {
          assert r[i] == rest[i - 1];
        }
      }
    }
  }

  /** Taking the smallest key first is how the entry order starts. */
  lemma EntryOrderStep(s: set<nat>, key: nat)
    requires key in s && forall j :: j in s ==> key <= j
    ensures EntryOrder(s) == [key] + EntryOrder(s - {key})
  {
    var m := SmallestKey(s);
    assert m <= key && key <= m;
  }

  /** `{ taskId: Number(taskId), actualValue, remarks, deleteAttachmentIds }`
      for the entry whose key is the string `String(id)`. */
  function SubmitOf(id: nat, e: Edit): (item: SubmitItem)
    ensures item.taskId == id
    ensures item.actualValue == e.actualValue && item.remarks == e.remarks
    ensures item.deleteAttachmentIds == e.deleteAttachmentIds
  {
    DecimalRoundTrip(id);
    SubmitItem(DecimalValue(DecimalString(id)), e.actualValue, e.remarks, e.deleteAttachmentIds)
  }

  /** The data items for the entries `keys`, in that order. */
  function SubmitItems(keys: seq<nat>, edits: map<nat, Edit>): (r: seq<SubmitItem>)
    requires forall k :: k in keys ==> k in edits
    ensures |r| == |keys|
    ensures forall i :: 0 <= i < |keys| ==> r[i] == SubmitOf(keys[i], edits[keys[i]])
  {
    if keys == [] then []
    else SubmitItems(keys[..|keys| - 1], edits) + [SubmitOf(keys[|keys| - 1], edits[keys[|keys| - 1]])]
  }

  /** The parts that `formData.append` adds for one task's queued files,
      all in the form field `field`. */
  function FileParts(field: string, files: seq<File>): (r: seq<FormPart>)
    ensures |r| == |files|
    ensures forall i :: 0 <= i < |files| ==> r[i] == FilePart(field, files[i])
  {
    seq(|files|, i requires 0 <= i < |files| => FilePart(field, files[i]))
  }

  /** The file parts for the entries `keys`, entry after entry, each task's
      files in the field `fieldOf(id)`: `ClientFileField` as shipped. */
  function AllFileParts(keys: seq<nat>, edits: map<nat, Edit>, fieldOf: nat -> string): seq<FormPart>
    requires forall k :: k in keys ==> k in edits
  {
    if keys == [] then []
    else
      var last := keys[|keys| - 1];
      AllFileParts(keys[..|keys| - 1], edits, fieldOf) + FileParts(fieldOf(last), edits[last].newFiles)
  }

  /** Adding one more file of a task adds one more part at the end. */
  lemma FilePartsSnoc(field: string, files: seq<File>, f: File)
    ensures FileParts(field, files + [f]) == FileParts(field, files) + [FilePart(field, f)]
  {
  }

  /** The inner `newFiles.forEach(file => formData.append(`files_${taskId}`, file))`. */
  method AppendFileParts(parts: seq<FormPart>, id: nat, files: seq<File>) returns (r: seq<FormPart>)
    ensures r == parts + FileParts(ClientFileField(id), files)
  {
    r := parts;
    var i := 0;
    while i < |files|
      invariant 0 <= i <= |files|
      invariant r == parts + FileParts(ClientFileField(id), files[..i])
    {
      assert files[..i + 1] == files[..i] + [files[i]];
      FilePartsSnoc(ClientFileField(id), files[..i], files[i]);
      r := r + [FilePart(ClientFileField(id), files[i])];
      i := i + 1;
    }
    assert files[..i] == files;
  }

  lemma ConcatAssoc<T>(a: seq<T>, b: seq<T>, c: seq<T>)
    ensures a + (b + c) == (a + b) + c
  {
  }

  /** One more entry adds its item and its file parts at the end. */
  lemma PayloadSnoc(done: seq<nat>, key: nat, edits: map<nat, Edit>)
    requires forall k :: k in done ==> k in edits
    requires key in edits
    ensures SubmitItems(done + [key], edits) == SubmitItems(done, edits) + [SubmitOf(key, edits[key])]
    ensures AllFileParts(done + [key], edits, ClientFileField) == AllFileParts(done, edits, ClientFileField) + FileParts(ClientFileField(key), edits[key].newFiles)
  {
    assert (done + [key])[..|done|] == done;
  }

  /** `handleSaveAll` up to the request: the `map` over `Object.entries(edits)`
      appends each queued file as a `files_<taskId>` part and returns one data
      item per entry; the JSON of the items is appended last as `data`. */
  method BuildSaveAll(edits: map<nat, Edit>) returns (items: seq<SubmitItem>, parts: seq<FormPart>)
    ensures items == SubmitItems(EntryOrder(edits.Keys), edits)
    ensures parts == AllFileParts(EntryOrder(edits.Keys), edits, ClientFileField) + [DataPart(items)]
  {
    ghost var order := EntryOrder(edits.Keys);
    var rest := edits.Keys;
    ghost var done: seq<nat> := [];
    items := [];
    var fileParts: seq<FormPart> := [];
    while rest != {}
      invariant rest <= edits.Keys
      invariant done + EntryOrder(rest) == order
      invariant forall k :: k in done ==> k in edits
      invariant items == SubmitItems(done, edits)
      invariant fileParts == AllFileParts(done, edits, ClientFileField)
      decreases |rest|
    {
      ghost var least := SmallestKey(rest);
      var key :| key in rest && forall j :: j in rest ==> key <= j;
      EntryOrderStep(rest, key);
      var edit := edits[key];
      fileParts := AppendFileParts(fileParts, key, edit.newFiles);
      items := items + [SubmitOf(key, edit)];
      PayloadSnoc(done, key, edits);
      ConcatAssoc(done, [key], EntryOrder(rest - {key}));
      done := done + [key];
      rest := rest - {key};
    }
    assert done == order;
    parts := fileParts + [DataPart(items)];
  }

  /** The data array has one item per entry, in ascending task-id order, and
      the item of a task carries that task's edit. */
  lemma PayloadOnePerTask(edits: map<nat, Edit>, items: seq<SubmitItem>)
    requires items == SubmitItems(EntryOrder(edits.Keys), edits)
    ensures |items| == |edits|
    ensures forall i, j :: 0 <= i < j < |items| ==> items[i].taskId < items[j].taskId
    ensures forall id :: id in edits <==> exists i :: 0 <= i < |items| && items[i].taskId == id
    ensures forall i :: 0 <= i < |items| ==> items[i].taskId in edits && items[i] == SubmitOf(items[i].taskId, edits[items[i].taskId])
  {
    var order := EntryOrder(edits.Keys);
    EntryOrderSorted(edits.Keys);
    assert |order| == |edits|;
    SortedItems(order, edits, items);
  }

  /** The items built from ascending keys that cover `edits`. */
  lemma SortedItems(order: seq<nat>, edits: map<nat, Edit>, items: seq<SubmitItem>)
    requires forall k :: k in order ==> k in edits
    requires forall k :: k in edits ==> k in order
    requires forall i, j :: 0 <= i < j < |order| ==> order[i] < order[j]
    requires items == SubmitItems(order, edits)
    ensures forall i, j :: 0 <= i < j < |items| ==> items[i].taskId < items[j].taskId
    ensures forall id :: id in edits <==> exists i :: 0 <= i < |items| && items[i].taskId == id
    ensures forall i :: 0 <= i < |items| ==> items[i].taskId in edits && items[i] == SubmitOf(items[i].taskId, edits[items[i].taskId])
  {
    forall i | 0 <= i < |items|
      ensures items[i].taskId == order[i] && order[i] in edits
    {
      assert order[i] in order;
    }
    forall id | id in edits ensures exists i :: 0 <= i < |items| && items[i].taskId == id {
      var i :| 0 <= i < |order| && order[i] == id;
      assert items[i].taskId == id;
    }
  }

  /** The number of parts whose form field is `field`. */
  function CountField(parts: seq<FormPart>, field: string): nat {
    if parts == [] then 0
    else CountField(parts[..|parts| - 1], field) + (if parts[|parts| - 1].FilePart? && parts[|parts| - 1].field == field then 1 else 0)
  }

  lemma {:induction false} CountFieldConcat(a: seq<FormPart>, b: seq<FormPart>, field: string)
    ensures CountField(a + b, field) == CountField(a, field) + CountField(b, field)
    decreases |b|
  {
    if b == [] {
      assert a + b == a;
    } else {
      assert (a + b)[..|a + b| - 1] == a + b[..|b| - 1];
      CountFieldConcat(a, b[..|b| - 1], field);
    }
  }

  lemma {:induction false} CountFileParts(sent: string, files: seq<File>, field: string)
    ensures CountField(FileParts(sent, files), field) == if field == sent then |files| else 0
    decreases |files|
  {
    if files != [] {
      var init := files[..|files| - 1];
      assert FileParts(sent, files)[..|files| - 1] == FileParts(sent, init);
      CountFileParts(sent, init, field);
    }
  }

  /** Every queued file of task `id` is sent exactly once in the field
      `files_<id>`, and no other file is sent in that field. */
  lemma {:induction false} FilePartsPerTask(keys: seq<nat>, edits: map<nat, Edit>, id: nat)
    requires forall k :: k in keys ==> k in edits
    requires forall i, j :: 0 <= i < j < |keys| ==> keys[i] < keys[j]
    ensures CountField(AllFileParts(keys, edits, ClientFileField), ClientFileField(id)) ==
              if id in keys then |edits[id].newFiles| else 0
    decreases |keys|
  {
    if keys != [] {
      var init, last := keys[..|keys| - 1], keys[|keys| - 1];
      FilePartsPerTask(init, edits, id);
      CountFieldConcat(AllFileParts(init, edits, ClientFileField), FileParts(ClientFileField(last), edits[last].newFiles), ClientFileField(id));
      CountFileParts(ClientFileField(last), edits[last].newFiles, ClientFileField(id));
      if ClientFileField(id) == ClientFileField(last) {
        assert DecimalString(id) == ClientFileField(id)[|ClientFilePrefix|..];
        assert DecimalString(last) == ClientFileField(last)[|ClientFilePrefix|..];
        DecimalInjective(id, last);
      }
      if id in init {
        var i :| 0 <= i < |init| && init[i] == id;
        assert keys[i] < keys[|keys| - 1];
      }
      assert id in keys <==> id in init || id == last;
    }
  }

  /** A submitted item as the server reads it: `actualValue` and `remarks`
      are always present; `deleteAttachmentIds` is not read. */
  function ServerItem(item: SubmitItem): (r: Reporting.ReportItem)
    ensures r.taskId == item.taskId && r.actualValue == Some(item.actualValue) && r.remarks == Some(item.remarks)
  {
    Reporting.ReportItem(item.taskId, Some(item.actualValue), Some(item.remarks))
  }

  function ServerItems(items: seq<SubmitItem>): (r: seq<Reporting.ReportItem>)
    ensures |r| == |items|
    ensures forall i :: 0 <= i < |items| ==> r[i] == ServerItem(items[i])
    ensures Reporting.AllValuesGiven(r)
  {
    seq(|items|, i requires 0 <= i < |items| => ServerItem(items[i]))
  }

  /** The field the client uses never equals the field the server looks
      for: `files_<a>` differs from `file_<b>` at the fifth character. */
  lemma ClientFieldNeverMatches(a: nat, b: nat)
    ensures ClientFileField(a) != Reporting.FileField(b)
  {
    var c, s := ClientFileField(a), Reporting.FileField(b);
    assert c[4] == 's' && s[4] == '_';
  }

  // ---------------------------------------------------------------------------
  // The request as the server receives it

  /** The upload that multer makes of a file part keeps its field and the
      client's file name. */
  predicate Carries(f: Reporting.Upload, part: FormPart) {
    part.FilePart? && f.fieldName == part.field && f.originalName == part.file.name
  }

  /** What multer's `upload.any()` hands the handler: one upload per file
      part, in part order, with the client's file name and a generated name on
      disk. The generated name is random, so `stored(i)` stands for the name
      given to the part at position `i`. */
  function Received(parts: seq<FormPart>, stored: nat -> string): (r: seq<Reporting.Upload>)
    ensures |r| <= |parts|
    ensures parts != [] && parts[|parts| - 1].DataPart? ==> r == Received(parts[..|parts| - 1], stored)
  {
    if parts == [] then []
    else
      var n := |parts| - 1;
      var init := Received(parts[..n], stored);
      if parts[n].FilePart? then init + [Reporting.Upload(parts[n].field, parts[n].file.name, stored(n))]
      else init
  }

  /** Every received upload comes from a file part. */
  lemma {:induction false} ReceivedFromParts(parts: seq<FormPart>, stored: nat -> string)
    ensures forall f :: f in Received(parts, stored) ==> exists part :: part in parts && Carries(f, part)
    decreases |parts|
  {
    if parts != [] {
      var n := |parts| - 1;
      ReceivedFromParts(parts[..n], stored);
      forall f | f in Received(parts[..n], stored) ensures exists part :: part in parts && Carries(f, part) {
        var part :| part in parts[..n] && Carries(f, part);
        assert part in parts;
      }
      assert parts[n] in parts;
    }
  }

  /** Every file part is received. */
  lemma {:induction false} PartsReceived(parts: seq<FormPart>, stored: nat -> string, part: FormPart)
    requires part in parts && part.FilePart?
    ensures exists f :: f in Received(parts, stored) && Carries(f, part)
    decreases |parts|
  {
    var n := |parts| - 1;
    if parts[n] != part {
      assert part in parts[..n];
      PartsReceived(parts[..n], stored, part);
    } else {
      var f := Reporting.Upload(part.field, part.file.name, stored(n));
      assert f in Received(parts, stored) && Carries(f, part);
    }
  }

  /** Every file part of the payload is a queued file of one of the entries,
      sent in that entry's field. */
  lemma {:induction false} FilePartsFromEntries(keys: seq<nat>, edits: map<nat, Edit>, fieldOf: nat -> string)
    requires forall k :: k in keys ==> k in edits
    ensures forall part :: part in AllFileParts(keys, edits, fieldOf) ==>
              part.FilePart? && exists k :: k in keys && part.field == fieldOf(k) && part.file in edits[k].newFiles
    decreases |keys|
  {
    if keys != [] {
      var init, last := keys[..|keys| - 1], keys[|keys| - 1];
      FilePartsFromEntries(init, edits, fieldOf);
      forall part | part in FileParts(fieldOf(last), edits[last].newFiles)
        ensures part.FilePart? && part.field == fieldOf(last) && part.file in edits[last].newFiles
      {
        var i :| 0 <= i < |edits[last].newFiles| && FileParts(fieldOf(last), edits[last].newFiles)[i] == part;
      }
      forall part | part in AllFileParts(init, edits, fieldOf)
        ensures part.FilePart? && exists k :: k in keys && part.field == fieldOf(k) && part.file in edits[k].newFiles
      {
        var k :| k in init && part.field == fieldOf(k) && part.file in edits[k].newFiles;
        assert k in keys;
      }
    }
  }

  /** Every queued file of an entry is among the file parts, in that entry's field. */
  lemma {:induction false} EntriesInFileParts(keys: seq<nat>, edits: map<nat, Edit>, fieldOf: nat -> string, key: nat, file: File)
    requires forall k :: k in keys ==> k in edits
    requires key in keys && file in edits[key].newFiles
    ensures FilePart(fieldOf(key), file) in AllFileParts(keys, edits, fieldOf)
    decreases |keys|
  {
    var init, last := keys[..|keys| - 1], keys[|keys| - 1];
    if key == last {
      var i :| 0 <= i < |edits[last].newFiles| && edits[last].newFiles[i] == file;
      assert FileParts(fieldOf(last), edits[last].newFiles)[i] == FilePart(fieldOf(key), file);
    } else {
      assert key in init;
      EntriesInFileParts(init, edits, fieldOf, key, file);
    }
  }

  /** Every upload the server receives from the payload is a queued file of
      one of the entries, in that entry's field. */
  lemma ReceivedFromEntries(keys: seq<nat>, edits: map<nat, Edit>, fieldOf: nat -> string,
                            items: seq<SubmitItem>, stored: nat -> string)
    requires forall k :: k in keys ==> k in edits
    ensures forall f :: f in Received(AllFileParts(keys, edits, fieldOf) + [DataPart(items)], stored) ==>
              exists k :: k in keys && f.fieldName == fieldOf(k) && File(f.originalName) in edits[k].newFiles
  {
    var fileParts := AllFileParts(keys, edits, fieldOf);
    var parts := fileParts + [DataPart(items)];
    assert parts[..|parts| - 1] == fileParts;
    ReceivedFromParts(fileParts, stored);
    FilePartsFromEntries(keys, edits, fieldOf);
    forall f | f in Received(parts, stored)
      ensures exists k :: k in keys && f.fieldName == fieldOf(k) && File(f.originalName) in edits[k].newFiles
    {
      var part :| part in fileParts && Carries(f, part);
      var k :| k in keys && part.field == fieldOf(k) && part.file in edits[k].newFiles;
      assert File(f.originalName) == part.file;
    }
  }

  /** Every queued file of an entry reaches the server in that entry's field. */
  lemma EntriesReceived(keys: seq<nat>, edits: map<nat, Edit>, fieldOf: nat -> string,
                        items: seq<SubmitItem>, stored: nat -> string, key: nat, file: File)
    requires forall k :: k in keys ==> k in edits
    requires key in keys && file in edits[key].newFiles
    ensures exists f :: f in Received(AllFileParts(keys, edits, fieldOf) + [DataPart(items)], stored) && f.fieldName == fieldOf(key)
  {
    var fileParts := AllFileParts(keys, edits, fieldOf);
    var parts := fileParts + [DataPart(items)];
    assert parts[..|parts| - 1] == fileParts;
    EntriesInFileParts(keys, edits, fieldOf, key, file);
    PartsReceived(fileParts, stored, FilePart(fieldOf(key), file));
  }

  /** As shipped, an upload from the report page never reaches a task: every
      file the server receives from `handleSaveAll` came in a `files_<id>`
      field, so save-all leaves every attachment column as it was. */
  lemma UploadsNeverAttach(ts: seq<Task>, caller: nat, edits: map<nat, Edit>, stored: nat -> string, clock: nat -> Timestamp)
    ensures var order := EntryOrder(edits.Keys);
            var items := SubmitItems(order, edits);
            var files := Received(AllFileParts(order, edits, ClientFileField) + [DataPart(items)], stored);
            var r := Reporting.ApplyReport(ts, caller, ServerItems(items), files, clock);
            forall k :: 0 <= k < |ts| ==> r[k].attachmentName == ts[k].attachmentName && r[k].attachmentPath == ts[k].attachmentPath
  {
    var order := EntryOrder(edits.Keys);
    var items := SubmitItems(order, edits);
    var files := Received(AllFileParts(order, edits, ClientFileField) + [DataPart(items)], stored);
    ReceivedFromEntries(order, edits, ClientFileField, items, stored);
    forall f | f in files ensures forall id: nat :: f.fieldName != Reporting.FileField(id) {
      var a :| a in order && f.fieldName == ClientFileField(a) && File(f.originalName) in edits[a].newFiles;
      forall id: nat ensures f.fieldName != Reporting.FileField(id) {
        ClientFieldNeverMatches(a, id);
      }
    }
    Reporting.ReportWithoutUploads(ts, caller, ServerItems(items), files, clock);
  }

  /** With the files sent in the field the server reads, `file_<id>`, the
      server finds an upload for a task with queued files, and it is one of
      that task's files. */
  lemma CorrectedUploadFound(edits: map<nat, Edit>, stored: nat -> string, id: nat)
    requires id in edits && edits[id].newFiles != []
    ensures var order := EntryOrder(edits.Keys);
            var files := Received(AllFileParts(order, edits, Reporting.FileField) + [DataPart(SubmitItems(order, edits))], stored);
            var found := Reporting.FindUpload(files, Reporting.FileField(id));
            found.Some? && File(found.value.originalName) in edits[id].newFiles
  {
    var order := EntryOrder(edits.Keys);
    var items := SubmitItems(order, edits);
    var files := Received(AllFileParts(order, edits, Reporting.FileField) + [DataPart(items)], stored);
    EntryOrderSorted(edits.Keys);
    assert edits[id].newFiles[0] in edits[id].newFiles;
    EntriesReceived(order, edits, Reporting.FileField, items, stored, id, edits[id].newFiles[0]);
    var found := Reporting.FindUpload(files, Reporting.FileField(id));
    ReceivedFromEntries(order, edits, Reporting.FileField, items, stored);
    var a :| a in order && found.value.fieldName == Reporting.FileField(a) && File(found.value.originalName) in edits[a].newFiles;
    Reporting.FileFieldInjective(a, id);
  }

  /** The last data item the server reads for an edited task carries that
      task's edit. */
  lemma LastItemIsEdit(edits: map<nat, Edit>, id: nat)
    requires id in edits
    ensures var server := ServerItems(SubmitItems(EntryOrder(edits.Keys), edits));
            var last := Reporting.LastItemFor(server, id);
            last.Some? && server[last.value] == ServerItem(SubmitOf(id, edits[id]))
  {
    var order := EntryOrder(edits.Keys);
    var items := SubmitItems(order, edits);
    var server := ServerItems(items);
    EntryOrderSorted(edits.Keys);
    var m :| 0 <= m < |order| && order[m] == id;
    assert server[m].taskId == id;
    var j := Reporting.LastItemFor(server, id).value;
    assert items[j] == SubmitOf(order[j], edits[order[j]]);
  }

  /** With the corrected field name, a task with queued files gets one of them
      as its attachment, along with the value and remarks of its edit. */
  lemma CorrectedFieldAttaches(ts: seq<Task>, caller: nat, edits: map<nat, Edit>, stored: nat -> string,
                               clock: nat -> Timestamp, k: nat)
    requires k < |ts| && ts[k].userId == caller
    requires ts[k].id in edits && edits[ts[k].id].newFiles != []
    ensures var order := EntryOrder(edits.Keys);
            var items := SubmitItems(order, edits);
            var files := Received(AllFileParts(order, edits, Reporting.FileField) + [DataPart(items)], stored);
            var found := Reporting.FindUpload(files, Reporting.FileField(ts[k].id));
            var r := Reporting.ApplyReport(ts, caller, ServerItems(items), files, clock)[k];
            && found.Some?
            && File(found.value.originalName) in edits[ts[k].id].newFiles
            && r.attachmentName == Some(found.value.originalName)
            && r.attachmentPath == Some(found.value.fileName)
            && r.actualValue == Some(edits[ts[k].id].actualValue)
            && r.remarks == Some(edits[ts[k].id].remarks)
  {
    var id := ts[k].id;
    var order := EntryOrder(edits.Keys);
    var items := SubmitItems(order, edits);
    var files := Received(AllFileParts(order, edits, Reporting.FileField) + [DataPart(items)], stored);
    var server := ServerItems(items);
    CorrectedUploadFound(edits, stored, id);
    LastItemIsEdit(edits, id);
    Reporting.ReportRow(ts, caller, server, files, clock, k);
  }
}
