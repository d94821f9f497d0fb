/** The task table of src/state.rs: one progress record and an optional
    finished document per task id. The lock around the table only
    serialises the calls, so the table is a class over a map whose methods
    take effect one at a time. */
module TaskState {
  import opened Wrappers
  import opened Strings

  datatype TaskStatus = Rendering | Recognizing | Translating | Generating | Complete | Error

  datatype TaskProgress = TaskProgress(status: TaskStatus, currentPage: nat, totalPages: nat, message: string)

  datatype TaskData = TaskData(progress: TaskProgress, pdfData: Option<seq<byte>>)

  /** `is_done`: the task has finished, successfully or not. */
  predicate IsDone(p: TaskProgress) {
    p.status == Complete || p.status == Error
  }

  /** The record `create_task` stores. */
  const Initial: TaskData := TaskData(TaskProgress(Rendering, 0, 0, "正在渲染 PDF..."), None)

  /** The status setters, each with its arguments. */
  datatype Setter =
    | ToRendering(total: nat)
    | ToRecognizing(current: nat, total: nat)
    | ToTranslating(current: nat, total: nat)
    | ToGenerating
    | ToComplete(data: seq<byte>)
    | ToError(msg: string)

  /** The status a setter moves its task to. */
  function StatusOf(s: Setter): TaskStatus {
    match s
    case ToRendering(_) => Rendering
    case ToRecognizing(_, _) => Recognizing
    case ToTranslating(_, _) => Translating
    case ToGenerating => Generating
    case ToComplete(_) => Complete
    case ToError(_) => Error
  }

  /** What a setter does to the record of a task it finds. */
  function Applied(t: TaskData, s: Setter): TaskData {
    var p := t.progress;
    match s
    case ToRendering(total) =>
      t.(progress := p.(status := Rendering, totalPages := total,
                        message := "正在渲染 PDF (" + Dec(total) + " 页)..."))
    case ToRecognizing(current, total) =>
      t.(progress := p.(status := Recognizing, currentPage := current, totalPages := total,
                        message := "正在识别第 " + Dec(current) + " 页 (共 " + Dec(total) + " 页)..."))
    case ToTranslating(current, total) =>
      t.(progress := p.(status := Translating, currentPage := current, totalPages := total,
                        message := "正在翻译第 " + Dec(current) + " 页 (共 " + Dec(total) + " 页)..."))
    case ToGenerating =>
      t.(progress := p.(status := Generating, message := "正在生成 PDF..."))
    case ToComplete(data) =>
      TaskData(p.(status := Complete, message := "翻译完成！"), Some(data))
    case ToError(msg) =>
      t.(progress := p.(status := Error, message := msg))
  }

  /** A setter on the table: the task's record is changed if the id is
      present, and the table is left as it was otherwise; no other entry
      changes and no entry is added or removed. */
  function Set(tasks: map<string, TaskData>, id: string, s: Setter): (r: map<string, TaskData>)
    ensures r.Keys == tasks.Keys
    ensures id !in tasks ==> r == tasks
    ensures forall k :: k in tasks && k != id ==> r[k] == tasks[k]
    ensures id in tasks ==> r[id] == Applied(tasks[id], s)
  {
    if id in tasks then tasks[id := Applied(tasks[id], s)] else tasks
  }

  /** A setter moves its task to its own status, and the task counts as
      done exactly after `set_complete` or `set_error`. */
  lemma AppliedStatus(t: TaskData, s: Setter)
    ensures Applied(t, s).progress.status == StatusOf(s)
    ensures IsDone(Applied(t, s).progress) <==> s.ToComplete? || s.ToError?
  {
  }

  /** `set_rendering` records the page count and keeps the current page;
      `set_recognizing` and `set_translating` record both; the other
      setters keep both counters. */
  lemma AppliedPages(t: TaskData, s: Setter)
    ensures s.ToRendering? ==>
      Applied(t, s).progress.totalPages == s.total
      && Applied(t, s).progress.currentPage == t.progress.currentPage
    ensures (s.ToRecognizing? || s.ToTranslating?) ==>
      Applied(t, s).progress.currentPage == s.current
      && Applied(t, s).progress.totalPages == s.total
    ensures (s.ToGenerating? || s.ToComplete? || s.ToError?) ==>
      Applied(t, s).progress.currentPage == t.progress.currentPage
      && Applied(t, s).progress.totalPages == t.progress.totalPages
  {
  }

  /** Only `set_complete` touches the stored document: it stores the one
      it is given. `set_error` stores its message exactly as given. */
  lemma AppliedDocument(t: TaskData, s: Setter)
    ensures s.ToComplete? ==> Applied(t, s).pdfData == Some(s.data)
    ensures !s.ToComplete? ==> Applied(t, s).pdfData == t.pdfData
    ensures s.ToError? ==> Applied(t, s).progress.message == s.msg
  {
  }

  /** `get_progress` on a table. */
  function ProgressOf(tasks: map<string, TaskData>, id: string): (r: Option<TaskProgress>)
    ensures r.Some? <==> id in tasks
    ensures r.Some? ==> r.value == tasks[id].progress
  {
    if id in tasks then Some(tasks[id].progress) else None
  }

  /** `get_pdf_data` on a table: there is a document only for a task that
      stored one. */
  function PdfDataOf(tasks: map<string, TaskData>, id: string): (r: Option<seq<byte>>)
    ensures r.Some? <==> id in tasks && tasks[id].pdfData.Some?
    ensures r.Some? ==> r == tasks[id].pdfData
  {
    if id in tasks then tasks[id].pdfData else None
  }

  /** After `set_complete(id, data)` on a present task, `get_pdf_data(id)`
      returns that data and `get_progress(id)` reports a finished task; a
      later setter other than `set_complete` keeps the document. */
  lemma CompleteThenFetch(tasks: map<string, TaskData>, id: string, data: seq<byte>, s: Setter)
    requires id in tasks
    ensures PdfDataOf(Set(tasks, id, ToComplete(data)), id) == Some(data)
    ensures IsDone(ProgressOf(Set(tasks, id, ToComplete(data)), id).value)
    ensures !s.ToComplete? ==> PdfDataOf(Set(Set(tasks, id, ToComplete(data)), id, s), id) == Some(data)
  {
    AppliedDocument(tasks[id], ToComplete(data));
    AppliedDocument(Applied(tasks[id], ToComplete(data)), s);
  }

  /** A freshly created task is being rendered, has no counters and no
      document, whatever the id held before. */
  lemma CreatedTask(tasks: map<string, TaskData>, id: string)
    ensures ProgressOf(tasks[id := Initial], id) == Some(TaskProgress(Rendering, 0, 0, "正在渲染 PDF..."))
    ensures PdfDataOf(tasks[id := Initial], id) == None
    ensures !IsDone(ProgressOf(tasks[id := Initial], id).value)
  {
  }

  /** The shared table (`AppState`, without its configuration). */
  class AppState {
    var tasks: map<string, TaskData>

    constructor ()
      ensures tasks == map[]
    {
      tasks := map[];
    }

    /** `create_task`: a fresh record, replacing any existing one. */
    method CreateTask(id: string)
      modifies this
      ensures tasks == old(tasks)[id := Initial]
    {
      tasks := tasks[id := Initial];
    }

    method SetRendering(id: string, totalPages: nat)
      modifies this
      ensures tasks == Set(old(tasks), id, ToRendering(totalPages))
    {
      if id in tasks {
        tasks := tasks[id := Applied(tasks[id], ToRendering(totalPages))];
      }
    }

    method SetRecognizing(id: string, current: nat, total: nat)
      modifies this
      ensures tasks == Set(old(tasks), id, ToRecognizing(current, total))
    {
      if id in tasks {
        tasks := tasks[id := Applied(tasks[id], ToRecognizing(current, total))];
      }
    }

    method SetTranslating(id: string, current: nat, total: nat)
      modifies this
      ensures tasks == Set(old(tasks), id, ToTranslating(current, total))
    {
      if id in tasks {
        tasks := tasks[id := Applied(tasks[id], ToTranslating(current, total))];
      }
    }

    method SetGenerating(id: string)
      modifies this
      ensures tasks == Set(old(tasks), id, ToGenerating)
    {
      if id in tasks {
        tasks := tasks[id := Applied(tasks[id], ToGenerating)];
      }
    }

    method SetComplete(id: string, pdfData: seq<byte>)
      modifies this
      ensures tasks == Set(old(tasks), id, ToComplete(pdfData))
    {
      if id in tasks {
        tasks := tasks[id := Applied(tasks[id], ToComplete(pdfData))];
      }
    }

    method SetError(id: string, error: string)
      modifies this
      ensures tasks == Set(old(tasks), id, ToError(error))
    {
      if id in tasks {
        tasks := tasks[id := Applied(tasks[id], ToError(error))];
      }
    }

    /** `get_progress`: a copy of the task's progress, if the id is known. */
    function GetProgress(id: string): (r: Option<TaskProgress>)
      reads this
      ensures r == ProgressOf(tasks, id)
      ensures r.Some? <==> id in tasks
      ensures r.Some? ==> r.value == tasks[id].progress
    {
      ProgressOf(tasks, id)
    }

    /** `get_pdf_data`: the stored document, if the task has one. */
    function GetPdfData(id: string): (r: Option<seq<byte>>)
      reads this
      ensures r == PdfDataOf(tasks, id)
      ensures r.Some? <==> id in tasks && tasks[id].pdfData.Some?
      ensures r.Some? ==> r == tasks[id].pdfData
    {
      PdfDataOf(tasks, id)
    }
  }
}
