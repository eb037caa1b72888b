/** What `POST /api/client/save-all` does to the `tasks` table (server.ts:249-280):
    one owner-scoped UPDATE per submitted item, applied in order inside one
    transaction. */
module Reporting {
  import opened Basics
  import opened Tables

  /** A file that multer's `upload.any()` accepted: the form field it came in,
      the client's file name, and the generated name on disk. */
  datatype Upload = Upload(fieldName: string, originalName: string, fileName: string)

  /** One element of the parsed `data` array, with the fields the handler reads.
      An absent `actualValue` is None: `.toString()` on it throws. */
  datatype ReportItem = ReportItem(taskId: nat, actualValue: Option<string>, remarks: Option<string>)

  /** The server looks for a file in the form field `file_<taskId>`. */
  const FileFieldPrefix: string := "file_"

  function FileField(taskId: nat): (field: string)
    ensures |field| > |FileFieldPrefix| && field[..|FileFieldPrefix|] == FileFieldPrefix
    ensures forall i :: |FileFieldPrefix| <= i < |field| ==> IsDigit(field[i])
    ensures DecimalValue(field[|FileFieldPrefix|..]) == taskId
  {
    DecimalRoundTrip(taskId);
    assert (FileFieldPrefix + DecimalString(taskId))[|FileFieldPrefix|..] == DecimalString(taskId);
    FileFieldPrefix + DecimalString(taskId)
  }

  /** Different tasks are looked up in different fields. */
  lemma FileFieldInjective(a: nat, b: nat)
    requires FileField(a) == FileField(b)
    ensures a == b
  {
  }

  function HasFieldName(field: string): Upload -> bool {
    (f: Upload) => f.fieldName == field
  }

  /** `files.find(f => f.fieldname === field)`. */
  function FindUpload(files: seq<Upload>, field: string): (r: Option<Upload>)
    ensures r.None? <==> forall f :: f in files ==> f.fieldName != field
    ensures r.Some? ==> r.value in files && r.value.fieldName == field
    ensures r.Some? ==> exists i :: 0 <= i < |files| && files[i] == r.value &&
                                    forall j :: 0 <= j < i ==> files[j].fieldName != field
  {
    Find(files, HasFieldName(field))
  }

  predicate AllValuesGiven(items: seq<ReportItem>) {
    forall it :: it in items ==> it.actualValue.Some?
  }

  /** `item.remarks || ''`. */
  function RemarksOrEmpty(remarks: Option<string>): (r: string)
    ensures remarks.Some? ==> r == remarks.value
    ensures remarks.None? ==> r == ""
  {
    if remarks.Some? then remarks.value else ""
  }

  /** The row after one of the two UPDATE statements: actual value, remarks and
      time always; the attachment columns only when a file was found. */
  function Reported(t: Task, item: ReportItem, file: Option<Upload>, now: Timestamp): (r: Task)
    requires item.actualValue.Some?
    ensures SameDefinition(r, t)
    ensures r.actualValue == item.actualValue && r.remarks == Some(RemarksOrEmpty(item.remarks))
    ensures r.updatedAt == Some(now)
    ensures file.Some? ==> r.attachmentName == Some(file.value.originalName) && r.attachmentPath == Some(file.value.fileName)
    ensures file.None? ==> r.attachmentName == t.attachmentName && r.attachmentPath == t.attachmentPath
  {
    var t' := t.(actualValue := Some(item.actualValue.value),
                 remarks := Some(RemarksOrEmpty(item.remarks)),
                 updatedAt := Some(now));
    if file.Some? then t'.(attachmentName := Some(file.value.originalName), attachmentPath := Some(file.value.fileName))
    else t'
  }

  /** `... WHERE id = ? AND user_id = ?`. */
  function Targets(t: Task, caller: nat, item: ReportItem): (r: bool)
    ensures r ==> t.userId == caller
    ensures r <==> t.id == item.taskId && t.userId == caller
  {
    t.id == item.taskId && t.userId == caller
  }

  /** One UPDATE statement over the whole table. */
  function ApplyUpdate(ts: seq<Task>, caller: nat, item: ReportItem, file: Option<Upload>, now: Timestamp): (r: seq<Task>)
    requires item.actualValue.Some?
    ensures |r| == |ts|
    ensures forall k :: 0 <= k < |ts| && (ts[k].userId != caller || ts[k].id != item.taskId) ==> r[k] == ts[k]
    ensures forall k :: 0 <= k < |ts| && ts[k].userId == caller && ts[k].id == item.taskId ==>
              r[k] == Reported(ts[k], item, file, now)
  {
    seq(|ts|, k requires 0 <= k < |ts| => if Targets(ts[k], caller, item) then Reported(ts[k], item, file, now) else ts[k])
  }

  /** The id, owner and definition of a row are not touched by a report. */
  predicate SameDefinition(t: Task, u: Task) {
    t.id == u.id && t.userId == u.userId && Definition(t) == Definition(u)
  }

  /** The transaction body: the items in order, each with the file found for it.
      Every UPDATE evaluates `datetime('now')` on its own, so item `j` is
      stamped with `clock(j)`, the clock as that statement reads it. */
  function ApplyReport(ts: seq<Task>, caller: nat, items: seq<ReportItem>, files: seq<Upload>, clock: nat -> Timestamp): (r: seq<Task>)
    requires AllValuesGiven(items)
    ensures |r| == |ts|
    ensures forall k :: 0 <= k < |r| ==> SameDefinition(r[k], ts[k])
    decreases |items|
  {
    if items == [] then ts
    else
      var last := items[|items| - 1];
      assert last in items;
      var prev := ApplyReport(ts, caller, items[..|items| - 1], files, clock);
      ApplyUpdate(prev, caller, last, FindUpload(files, FileField(last.taskId)), clock(|items| - 1))
  }

  /** The position of the last item that names `taskId`. */
  function LastItemFor(items: seq<ReportItem>, taskId: nat): (r: Option<nat>)
    ensures r.Some? ==> r.value < |items| && items[r.value].taskId == taskId
    ensures r.Some? ==> forall j :: r.value < j < |items| ==> items[j].taskId != taskId
    ensures r.None? ==> forall j :: 0 <= j < |items| ==> items[j].taskId != taskId
  {
    if items == [] then None
    else if items[|items| - 1].taskId == taskId then Some(|items| - 1)
    else LastItemFor(items[..|items| - 1], taskId)
  }

  /** A later report of the same task with the same file overrides an earlier one. */
  lemma ReportedTwice(t: Task, a: ReportItem, b: ReportItem, file: Option<Upload>, first: Timestamp, second: Timestamp)
    requires a.actualValue.Some? && b.actualValue.Some?
    ensures Reported(Reported(t, a, file, first), b, file, second) == Reported(t, b, file, second)
  {
  }

  /** The reference description of save-all, row by row: a row changes only
      when it belongs to the caller and some item names it; it then carries
      the last such item's value and remarks, the time its statement read, and
      the file uploaded as `file_<id>` if there was one. */
  lemma {:induction false} ReportRow(ts: seq<Task>, caller: nat, items: seq<ReportItem>, files: seq<Upload>, clock: nat -> Timestamp, k: nat)
    requires AllValuesGiven(items) && k < |ts|
    ensures var r := ApplyReport(ts, caller, items, files, clock);
            var last := LastItemFor(items, ts[k].id);
            r[k] == if ts[k].userId == caller && last.Some?
                    then Reported(ts[k], items[last.value], FindUpload(files, FileField(ts[k].id)), clock(last.value))
                    else ts[k]
    decreases |items|
  {
    if items != [] {
      var init, item := items[..|items| - 1], items[|items| - 1];
      assert item in items;
      assert AllValuesGiven(init) by {
        forall it | it in init ensures it.actualValue.Some? {
          assert it in items;
        }
      }
      ReportRow(ts, caller, init, files, clock, k);
      var prev := ApplyReport(ts, caller, init, files, clock);
      assert SameDefinition(prev[k], ts[k]);
      var file := FindUpload(files, FileField(item.taskId));
      if Targets(prev[k], caller, item) {
        var j := LastItemFor(init, ts[k].id);
        if ts[k].userId == caller && j.Some? {
          assert items[j.value] == init[j.value];
          ReportedTwice(ts[k], init[j.value], item, file, clock(j.value), clock(|items| - 1));
        }
      } else if ts[k].userId == caller {
        assert item.taskId != ts[k].id;
        assert LastItemFor(items, ts[k].id) == LastItemFor(init, ts[k].id);
        var j := LastItemFor(init, ts[k].id);
        if j.Some? {
          assert items[j.value] == init[j.value];
        }
      }
    }
  }

  /** Tenant isolation: rows of other users are left exactly as they were. */
  lemma ReportIsolation(ts: seq<Task>, caller: nat, items: seq<ReportItem>, files: seq<Upload>, clock: nat -> Timestamp, k: nat)
    requires AllValuesGiven(items) && k < |ts| && ts[k].userId != caller
    ensures ApplyReport(ts, caller, items, files, clock)[k] == ts[k]
  {
    ReportRow(ts, caller, items, files, clock, k);
  }

  /** A row of the caller that an item names gets that item's value, its
      remarks or `''`, and the time the last such item's statement read. */
  lemma ReportWritesValue(ts: seq<Task>, caller: nat, items: seq<ReportItem>, files: seq<Upload>, clock: nat -> Timestamp, k: nat, j: nat)
    requires AllValuesGiven(items) && k < |ts| && ts[k].userId == caller
    requires j < |items| && items[j].taskId == ts[k].id
    requires forall i :: j < i < |items| ==> items[i].taskId != ts[k].id
    ensures var r := ApplyReport(ts, caller, items, files, clock)[k];
            && items[j].actualValue.Some?
            && r.actualValue == Some(items[j].actualValue.value)
            && r.remarks == Some(if items[j].remarks.Some? then items[j].remarks.value else "")
            && r.updatedAt == Some(clock(j))
  {
    assert items[j] in items;
    ReportRow(ts, caller, items, files, clock, k);
    var last := LastItemFor(items, ts[k].id);
    assert last == Some(j);
  }

  /** The attachment columns change only when a file named `file_<id>` was
      uploaded; otherwise they keep their previous values. */
  lemma ReportKeepsAttachment(ts: seq<Task>, caller: nat, items: seq<ReportItem>, files: seq<Upload>, clock: nat -> Timestamp, k: nat)
    requires AllValuesGiven(items) && k < |ts|
    requires FindUpload(files, FileField(ts[k].id)).None?
    ensures ApplyReport(ts, caller, items, files, clock)[k].attachmentName == ts[k].attachmentName
    ensures ApplyReport(ts, caller, items, files, clock)[k].attachmentPath == ts[k].attachmentPath
  {
    ReportRow(ts, caller, items, files, clock, k);
  }

  /** With no upload in any `file_<id>` field, no attachment column changes. */
  lemma ReportWithoutUploads(ts: seq<Task>, caller: nat, items: seq<ReportItem>, files: seq<Upload>, clock: nat -> Timestamp)
    requires AllValuesGiven(items)
    requires forall f :: f in files ==> forall id: nat :: f.fieldName != FileField(id)
    ensures var r := ApplyReport(ts, caller, items, files, clock);
            forall k :: 0 <= k < |ts| ==> r[k].attachmentName == ts[k].attachmentName && r[k].attachmentPath == ts[k].attachmentPath
  {
    forall k | 0 <= k < |ts|
      ensures ApplyReport(ts, caller, items, files, clock)[k].attachmentName == ts[k].attachmentName
      ensures ApplyReport(ts, caller, items, files, clock)[k].attachmentPath == ts[k].attachmentPath
    {
      ReportKeepsAttachment(ts, caller, items, files, clock, k);
    }
  }

  /** A report keeps the tables valid: ids and owners do not change. */
  lemma ReportValid(us: seq<User>, ts: seq<Task>, lastUserId: nat, lastTaskId: nat,
                    caller: nat, items: seq<ReportItem>, files: seq<Upload>, clock: nat -> Timestamp)
    requires TablesValid(us, ts, lastUserId, lastTaskId) && AllValuesGiven(items)
    ensures TablesValid(us, ApplyReport(ts, caller, items, files, clock), lastUserId, lastTaskId)
  {
    var r := ApplyReport(ts, caller, items, files, clock);
    forall i, j | 0 <= i < j < |r| ensures TaskKey(r[i]) < TaskKey(r[j]) {
      assert SameDefinition(r[i], ts[i]) && SameDefinition(r[j], ts[j]);
      assert TaskKey(ts[i]) < TaskKey(ts[j]);
    }
    forall t | t in r ensures 1 <= t.id <= lastTaskId && t.userId in UserIds(us) {
      var k :| 0 <= k < |r| && r[k] == t;
      assert SameDefinition(r[k], ts[k]) && ts[k] in ts;
    }
  }
}
