/** The data side of task export (src/lib/export.ts): the status and
    priority labels, the conversion of a task to a flat export row, and the
    status/date filter applied before any file is produced. Rendering of
    dates in the `ja-JP` locale and the parsing of timestamps are
    parameters. */
module Export {
  import opened Js

  /** The fields of a task the export reads (src/types/database.ts). The
      status and priority are kept as strings because the label functions
      pass unknown values through. */
  datatype Task = Task(
    id: string,
    projectId: string,
    title: string,
    description: Option<string>,
    status: string,
    priority: string,
    assigneeId: Option<string>,
    createdBy: string,
    createdAt: string,
    updatedAt: string,
    dueDate: Option<string>,
    completedAt: Option<string>,
    tags: seq<string>)

  datatype ExportTaskData = ExportTaskData(
    id: string,
    projectId: string,
    title: string,
    description: string,
    status: string,
    priority: string,
    assignee: string,
    createdBy: string,
    createdAt: string,
    updatedAt: string,
    dueDate: string,
    completedAt: string,
    tags: string)

  datatype DateRange = DateRange(start: string, end: string)

  datatype ExportOptions = ExportOptions(includeCompleted: bool, includeArchived: bool, dateRange: Option<DateRange>)

  const StatusLabels: map<string, string> := map["done" := "完了", "in_progress" := "進行中", "todo" := "未着手", "archived" := "アーカイブ"]

  const PriorityLabels: map<string, string> := map["urgent" := "緊急", "high" := "高", "medium" := "中", "low" := "低"]

  /** The Japanese label of a status; any other value is returned as is. */
  function StatusLabel(status: string): (r: string)
    ensures status in StatusLabels ==> r == StatusLabels[status]
    ensures status !in StatusLabels ==> r == status
  {
    match status
    case "done" => "完了"
    case "in_progress" => "進行中"
    case "todo" => "未着手"
    case "archived" => "アーカイブ"
    case _ => status
  }

  /** The Japanese label of a priority; any other value is returned as is. */
  function PriorityLabel(priority: string): (r: string)
    ensures priority in PriorityLabels ==> r == PriorityLabels[priority]
    ensures priority !in PriorityLabels ==> r == priority
  {
    match priority
    case "urgent" => "緊急"
    case "high" => "高"
    case "medium" => "中"
    case "low" => "低"
    case _ => priority
  }

  /** The four statuses get four different labels, so the label of a
      known status tells the status back. */
  lemma {:induction false} StatusLabelsDistinct(a: string, b: string)
    requires a in StatusLabels && b in StatusLabels && a != b
    ensures StatusLabel(a) != StatusLabel(b)
  {
    assert StatusLabels["done"][0] == '完' && StatusLabels["in_progress"][0] == '進';
    assert StatusLabels["todo"][0] == '未' && StatusLabels["archived"][0] == 'ア';
  }

  lemma {:induction false} PriorityLabelsDistinct(a: string, b: string)
    requires a in PriorityLabels && b in PriorityLabels && a != b
    ensures PriorityLabel(a) != PriorityLabel(b)
  {
    assert PriorityLabels["urgent"][0] == '緊' && PriorityLabels["high"][0] == '高';
    assert PriorityLabels["medium"][0] == '中' && PriorityLabels["low"][0] == '低';
  }

  /** `date ? new Date(date).toLocaleDateString('ja-JP') : '-'`, with the
      locale rendering given as `localeDate`. */
  function DateString(date: Option<string>, localeDate: string -> string): (r: string)
    ensures date.None? || date.value == "" ==> r == "-"
    ensures date.Some? && date.value != "" ==> r == localeDate(date.value)
  {
    if date.Some? && date.value != "" then localeDate(date.value) else "-"
  }

  /** `a || fallback` on an optional string: the fallback for a missing or
      empty value. */
  function OrElse(s: Option<string>, fallback: string): (r: string)
    ensures s.Some? && s.value != "" ==> r == s.value
    ensures s.None? || s.value == "" ==> r == fallback
  {
    if s.Some? && s.value != "" then s.value else fallback
  }

  /** `parts.join(', ')`. */
  function JoinTags(parts: seq<string>): (r: string)
    ensures parts == [] ==> r == ""
    ensures |parts| == 1 ==> r == parts[0]
    ensures |r| == TotalLength(parts) + (if parts == [] then 0 else 2 * (|parts| - 1))
  {
    if parts == [] then ""
    else if |parts| == 1 then parts[0]
    else parts[0] + ", " + JoinTags(parts[1..])
  }

  function TotalLength(parts: seq<string>): nat
  {
    if parts == [] then 0 else |parts[0]| + TotalLength(parts[1..])
  }

  /** Joining from the other end: one more tag adds ", " and the tag after
      the join of the others. With the empty and one-tag cases this fixes
      the join completely. */
  lemma {:induction false} JoinTagsSnoc(parts: seq<string>, p: string)
    requires parts != []
    ensures JoinTags(parts + [p]) == JoinTags(parts) + ", " + p
  {
    var whole := parts + [p];
    assert whole[0] == parts[0] && whole[1..] == parts[1..] + [p];
    if |parts| > 1 {
      JoinTagsSnoc(parts[1..], p);
    }
  }

  /** The export row of a task: identifiers and title copied, an absent
      description as '', an absent assignee as '-', labels for status and
      priority, dates rendered or '-', tags joined with ', '. */
  function ConvertTask(task: Task, localeDate: string -> string): (row: ExportTaskData)
    ensures row.id == task.id && row.projectId == task.projectId
    ensures row.title == task.title && row.createdBy == task.createdBy
    ensures task.description.Some? && task.description.value != "" ==> row.description == task.description.value
    ensures task.description.None? || task.description.value == "" ==> row.description == ""
    ensures task.assigneeId.Some? && task.assigneeId.value != "" ==> row.assignee == task.assigneeId.value
    ensures task.assigneeId.None? || task.assigneeId.value == "" ==> row.assignee == "-"
    ensures task.createdAt != "" ==> row.createdAt == localeDate(task.createdAt)
    ensures task.createdAt == "" ==> row.createdAt == "-"
    ensures task.updatedAt != "" ==> row.updatedAt == localeDate(task.updatedAt)
    ensures task.updatedAt == "" ==> row.updatedAt == "-"
    ensures task.dueDate.Some? && task.dueDate.value != "" ==> row.dueDate == localeDate(task.dueDate.value)
    ensures task.dueDate.None? || task.dueDate.value == "" ==> row.dueDate == "-"
    ensures task.completedAt.Some? && task.completedAt.value != "" ==> row.completedAt == localeDate(task.completedAt.value)
    ensures task.completedAt.None? || task.completedAt.value == "" ==> row.completedAt == "-"
    ensures task.status in StatusLabels ==> row.status == StatusLabels[task.status]
    ensures task.status !in StatusLabels ==> row.status == task.status
    ensures task.priority in PriorityLabels ==> row.priority == PriorityLabels[task.priority]
    ensures task.priority !in PriorityLabels ==> row.priority == task.priority
    ensures row.tags == JoinTags(task.tags)
  {
    ExportTaskData(
      task.id,
      task.projectId,
      task.title,
      OrElse(task.description, ""),
      StatusLabel(task.status),
      PriorityLabel(task.priority),
      OrElse(task.assigneeId, "-"),
      task.createdBy,
      DateString(Some(task.createdAt), localeDate),
      DateString(Some(task.updatedAt), localeDate),
      DateString(task.dueDate, localeDate),
      DateString(task.completedAt, localeDate),
      JoinTags(task.tags))
  }

  /** `new Date(a) >= new Date(start) && new Date(a) <= new Date(end)` with
      `time` standing for the parse to a time value; an unparsable date
      (`NaN`) fails every comparison. */
  predicate InRange(at: string, range: DateRange, time: string -> Option<int>)
  {
    time(at).Some? && time(range.start).Some? && time(range.end).Some?
    && time(range.start).value <= time(at).value <= time(range.end).value
  }

  function NotDone(): Task -> bool { (t: Task) => t.status != "done" }

  function NotArchived(): Task -> bool { (t: Task) => t.status != "archived" }

  function CreatedIn(range: DateRange, time: string -> Option<int>): Task -> bool
  {
    (t: Task) => InRange(t.createdAt, range, time)
  }

  /** `getFilteredTasks`: up to three successive filters on a copy. */
  function FilteredTasks(tasks: seq<Task>, options: ExportOptions, time: string -> Option<int>): (r: seq<Task>)
  {
    var afterDone := if !options.includeCompleted then Filter(tasks, NotDone()) else tasks;
    var afterArchived := if !options.includeArchived then Filter(afterDone, NotArchived()) else afterDone;
    if options.dateRange.Some? then Filter(afterArchived, CreatedIn(options.dateRange.value, time)) else afterArchived
  }

  /** Whether a single task survives the export filter. */
  predicate Exported(t: Task, options: ExportOptions, time: string -> Option<int>)
  {
    (options.includeCompleted || t.status != "done")
    && (options.includeArchived || t.status != "archived")
    && (options.dateRange.Some? ==> InRange(t.createdAt, options.dateRange.value, time))
  }

  function ExportedBy(options: ExportOptions, time: string -> Option<int>): Task -> bool
  {
    t => Exported(t, options, time)
  }

  /** Filtering twice is filtering once by both tests. */
  lemma {:induction false} FilterFilter(s: seq<Task>, p: Task -> bool, q: Task -> bool, pq: Task -> bool)
    requires forall t :: pq(t) == (p(t) && q(t))
    ensures Filter(Filter(s, p), q) == Filter(s, pq)
  {
    if s != [] {
      FilterFilter(s[1..], p, q, pq);
      if p(s[0]) {
        assert ([s[0]] + Filter(s[1..], p))[1..] == Filter(s[1..], p);
      }
    }
  }

  /** The chain of filters keeps exactly the tasks that pass each test on
      its own, in their original order. */
  lemma {:induction false} FilteredTasksExact(tasks: seq<Task>, options: ExportOptions, time: string -> Option<int>)
    ensures FilteredTasks(tasks, options, time) == Filter(tasks, ExportedBy(options, time))
  {
    var done: Task -> bool := (t: Task) => options.includeCompleted || t.status != "done";
    var arch: Task -> bool := (t: Task) => (options.includeCompleted || t.status != "done") && (options.includeArchived || t.status != "archived");
    var afterDone := if !options.includeCompleted then Filter(tasks, NotDone()) else tasks;
    assert afterDone == Filter(tasks, done) by {
      if options.includeCompleted {
        FilterAll(tasks, done);
      } else {
        FilterFilter(tasks, done, done, NotDone());
        FilterAll(Filter(tasks, done), done);
      }
    }
    var afterArchived := if !options.includeArchived then Filter(afterDone, NotArchived()) else afterDone;
    assert afterArchived == Filter(tasks, arch) by {
      if options.includeArchived {
        FilterFilter(tasks, done, done, arch);
        FilterAll(Filter(tasks, done), done);
      } else {
        FilterFilter(tasks, done, NotArchived(), arch);
      }
    }
    if options.dateRange.Some? {
      FilterFilter(tasks, arch, CreatedIn(options.dateRange.value, time), ExportedBy(options, time));
    } else {
      FilterFilter(tasks, arch, arch, ExportedBy(options, time));
      FilterAll(Filter(tasks, arch), arch);
    }
  }

  /** What the filter promises: an order-preserving subsequence of the
      input; no done task without `includeCompleted`, no archived task
      without `includeArchived`, only tasks created inside the range when
      one is given; every task passing these tests is kept; and with both
      flags set and no range the input comes back whole. */
  lemma {:induction false} FilteredTasksSpec(tasks: seq<Task>, options: ExportOptions, time: string -> Option<int>)
    ensures IsSubsequence(FilteredTasks(tasks, options, time), tasks)
    ensures forall t | t in FilteredTasks(tasks, options, time) ::
      (options.includeCompleted || t.status != "done")
      && (options.includeArchived || t.status != "archived")
      && (options.dateRange.Some? ==> InRange(t.createdAt, options.dateRange.value, time))
    ensures forall t | t in tasks && Exported(t, options, time) :: t in FilteredTasks(tasks, options, time)
    ensures options.includeCompleted && options.includeArchived && options.dateRange.None? ==>
      FilteredTasks(tasks, options, time) == tasks
  {
    var r := FilteredTasks(tasks, options, time);
    FilteredTasksExact(tasks, options, time);
    FilterIsSubsequence(tasks, ExportedBy(options, time));
    forall t | t in r ensures Exported(t, options, time) {
      var i :| 0 <= i < |r| && r[i] == t;
    }
    forall t | t in tasks && Exported(t, options, time) ensures t in r {
      var i :| 0 <= i < |tasks| && tasks[i] == t;
    }
  }
}
