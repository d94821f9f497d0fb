/** The sequential control logic of src/main.rs: `upload`'s checks and its
    concurrency slot, the batch scheduler `process_pages_parallel`, the
    collection of its results in `process_pdf_parallel`, and the retry
    path `process_retry`. Concurrency is abstracted: the units of a phase
    complete in a join order given as input, and every read of the task's
    cancellation flag is answered by an input function indexed by the
    number of reads made before it. */
module Pipeline {
  import opened Wrappers
  import opened Strings
  import opened Seqs
  import opened TaskState
  import PdfWriter
  import PdfDocument

  // ---------------------------------------------------------------------
  // The registry of running tasks
  // ---------------------------------------------------------------------

  /** The slot counter and the retry markers that `main.rs` uses. Their
      implementation is not part of this model: the counter admits at most
      `limit` running tasks, and `finishRetries` records every call of
      `finish_retry`. */
  class Registry {
    const limit: nat
    var active: nat
    var retrying: set<string>
    ghost var finishRetries: seq<string>

    constructor (limit: nat)
      ensures this.limit == limit && active == 0 && retrying == {} && finishRetries == []
    {
      this.limit := limit;
      active := 0;
      retrying := {};
      finishRetries := [];
    }

    /** `try_acquire_task_slot`: takes a slot if one is free. */
    method TryAcquireSlot() returns (ok: bool)
      modifies this
      ensures ok <==> old(active) < limit
      ensures active == old(active) + (if ok then 1 else 0)
      ensures retrying == old(retrying) && finishRetries == old(finishRetries)
    {
      ok := active < limit;
      if ok {
        active := active + 1;
      }
    }

    /** `release_task_slot`: gives back a slot its caller holds. */
    method ReleaseSlot()
      requires active > 0
      modifies this
      ensures active == old(active) - 1
      ensures retrying == old(retrying) && finishRetries == old(finishRetries)
    {
      active := active - 1;
    }

    /** `finish_retry`: the task is no longer being retried. */
    method FinishRetry(id: string)
      modifies this
      ensures retrying == old(retrying) - {id}
      ensures finishRetries == old(finishRetries) + [id]
      ensures active == old(active)
    {
      retrying := retrying - {id};
      finishRetries := finishRetries + [id];
    }
  }

  /** The guard a processing task holds: dropping it, on whichever path the
      task ends, releases the task's slot. */
  class TaskGuard {
    const registry: Registry

    constructor (registry: Registry)
      ensures this.registry == registry
    {
      this.registry := registry;
    }

    method Drop()
      requires registry.active > 0
      modifies registry
      ensures registry.active == old(registry.active) - 1
      ensures registry.retrying == old(registry.retrying)
      ensures registry.finishRetries == old(registry.finishRetries)
    {
      registry.ReleaseSlot();
    }
  }

  // ---------------------------------------------------------------------
  // upload
  // ---------------------------------------------------------------------

  const MaxFileSize: nat := 50 * 1024 * 1024

  /** The bytes `%PDF`. */
  const PdfMagic: seq<byte> := [0x25, 0x50, 0x44, 0x46]

  /** The checks `upload` makes on the file's bytes: at most 50 MiB, and
      starting with `%PDF`. */
  function CheckUpload(data: seq<byte>): (r: Result<(), string>)
    ensures r.Ok? <==> |data| <= MaxFileSize && |data| >= 4 && data[..4] == PdfMagic
    ensures |data| > MaxFileSize ==> r == Err("文件过大，最大支持 50MB")
    ensures |data| <= MaxFileSize && r.Err? ==> r == Err("无效的 PDF 文件")
  {
    if |data| > MaxFileSize then Err("文件过大，最大支持 50MB")
    else if |data| < 4 || data[..4] != PdfMagic then Err("无效的 PDF 文件")
    else Ok(())
  }

  /** A document the writer renders passes the upload checks whenever it
      is within the size limit: it starts with `%PDF`. */
  lemma RenderedUploadAccepted(streams: seq<string>)
    requires |PdfDocument.Document(streams)| <= MaxFileSize
    ensures CheckUpload(PdfDocument.Document(streams)).Ok?
  {
    PdfDocument.DocumentMagic(streams);
  }

  /** A multipart field: its name, its file name and its bytes, or the
      error reading them. */
  datatype Field = Field(name: Option<string>, fileName: Option<string>, data: Result<seq<byte>, string>)

  /** An error answer: an HTTP status code and a message. */
  datatype Rejection = Rejection(code: nat, msg: string)

  /** The first field named `file`, or the error that ends the multipart
      stream before it; `None` when the stream ends without one. */
  function FirstFile(fields: seq<Result<Field, string>>): (r: Result<Option<Field>, string>)
    ensures r == Ok(None) ==> forall i :: 0 <= i < |fields| ==> fields[i].Ok? && fields[i].value.name != Some("file")
    decreases |fields|
  {
    if fields == [] then Ok(None)
    else match fields[0]
      case Err(e) => Err(e)
      case Ok(f) => if f.name == Some("file") then Ok(Some(f)) else FirstFile(fields[1..])
  }

  /** The file field passed the checks, so `upload` creates the task. */
  predicate Accepted(fields: seq<Result<Field, string>>) {
    var first := FirstFile(fields);
    first.Ok? && first.value.Some? && first.value.value.data.Ok?
    && CheckUpload(first.value.value.data.value).Ok?
  }

  /** The answer of `upload` once it holds a slot. */
  function Admission(fields: seq<Result<Field, string>>, saveError: Option<string>, taskId: string): (r: Result<string, Rejection>)
    ensures r.Ok? <==> Accepted(fields) && saveError.None?
    ensures r.Ok? ==> r.value == taskId
    ensures r.Err? ==> r.error.code == 400 || (r.error.code == 500 && Accepted(fields))
  {
    match FirstFile(fields)
    case Err(e) => Err(Rejection(400, "Multipart error: " + e))
    case Ok(None) => Err(Rejection(400, "No file uploaded"))
    case Ok(Some(f)) =>
      match f.data
      case Err(e) => Err(Rejection(400, "Read error: " + e))
      case Ok(data) =>
        match CheckUpload(data)
        case Err(m) => Err(Rejection(400, m))
        case Ok(_) =>
          if saveError.Some? then Err(Rejection(500, "保存文件失败: " + saveError.value))
          else Ok(taskId)
  }

  /** The answer when every slot is taken. */
  function Busy(limit: nat): Rejection {
    Rejection(429, "服务繁忙，当前已有 " + Dec(limit) + " 个任务在处理，请稍后重试")
  }

  /** `upload`. `fields` are the multipart stream's results in order,
      `taskId` the fresh id and `saveError` the outcome of saving the input
      to disk. An accepted upload keeps its slot for the processing task
      it spawns, whose guard gives it back; every rejection after the slot
      was taken gives it back before answering. */
  method Upload(registry: Registry, app: AppState, fields: seq<Result<Field, string>>,
                taskId: string, saveError: Option<string>)
    returns (r: Result<string, Rejection>)
    modifies registry, app
    ensures old(registry.active) >= registry.limit ==>
      r == Err(Busy(registry.limit)) && registry.active == old(registry.active)
    ensures old(registry.active) < registry.limit ==> r == Admission(fields, saveError, taskId)
    ensures registry.active == old(registry.active) + (if r.Ok? then 1 else 0)
    ensures app.tasks == if old(registry.active) < registry.limit && Accepted(fields)
                         then old(app.tasks)[taskId := Initial] else old(app.tasks)
    ensures registry.retrying == old(registry.retrying)
  {
    var ok := registry.TryAcquireSlot();
    if !ok {
      return Err(Busy(registry.limit));
    }
    var i := 0;
    while i < |fields|
      invariant 0 <= i <= |fields|
      invariant FirstFile(fields) == FirstFile(fields[i..])
      invariant registry.active == old(registry.active) + 1
      invariant registry.retrying == old(registry.retrying)
      invariant app.tasks == old(app.tasks)
    {
      assert fields[i..][1..] == fields[i + 1..];
      match fields[i] {
        case Err(e) =>
          registry.ReleaseSlot();
          return Err(Rejection(400, "Multipart error: " + e));
        case Ok(f) =>
          if f.name == Some("file") {
            match f.data {
              case Err(e) =>
                registry.ReleaseSlot();
                return Err(Rejection(400, "Read error: " + e));
              case Ok(data) =>
                if |data| > MaxFileSize {
                  registry.ReleaseSlot();
                  return Err(Rejection(400, "文件过大，最大支持 50MB"));
                }
                if |data| < 4 || data[..4] != PdfMagic {
                  registry.ReleaseSlot();
                  return Err(Rejection(400, "无效的 PDF 文件"));
                }
                app.CreateTask(taskId);
                if saveError.Some? {
                  registry.ReleaseSlot();
                  return Err(Rejection(500, "保存文件失败: " + saveError.value));
                }
                return Ok(taskId);
            }
          }
      }
      i := i + 1;
    }
    registry.ReleaseSlot();
    return Err(Rejection(400, "No file uploaded"));
  }

  // ---------------------------------------------------------------------
  // process_pages_parallel
  // ---------------------------------------------------------------------

  const BatchSize: nat := 3

  const Cancelled: string := "任务已取消"

  /** A unit's answer: the page number and its text, or an error. */
  type PageResult = Result<(nat, string), string>

  /** `order` lists each of the positions `0..n` at least once, and no
      other: the order in which the `n` units of a phase complete. */
  predicate IsOrder(order: seq<nat>, n: nat) {
    && |order| == n
    && (forall j :: 0 <= j < n ==> order[j] < n)
    && (forall k :: 0 <= k < n ==> k in order)
  }

  /** The OCR unit of page `p`: it gives up if the task was cancelled when
      it started, otherwise it recognises the page (`ocr(p)`, the text of
      the image, the extracted text or nothing). */
  function OcrUnit(p: nat, cancelled: bool, ocr: nat -> Result<string, string>): (r: PageResult)
    ensures r.Ok? <==> !cancelled && ocr(p).Ok?
    ensures r.Ok? ==> r.value == (p, ocr(p).value)
    ensures r.Err? && cancelled ==> r.error == Cancelled
    ensures r.Err? && !cancelled ==> r.error == OcrFailure(p, ocr(p).error)
  {
    if cancelled then Err(Cancelled)
    else match ocr(p)
      case Ok(t) => Ok((p, t))
      case Err(e) => Err(OcrFailure(p, e))
  }

  /** The message of a failed recognition of page `p`. */
  function OcrFailure(p: nat, e: string): string {
    "第 " + Dec(p) + " 页 OCR 失败: " + e
  }

  /** The message of a failed translation of page `p`. */
  function TranslateFailure(p: nat, e: string): string {
    "第 " + Dec(p) + " 页翻译失败: " + e
  }

  /** The translation unit of page `p` with recognised text `text`:
      `translate(p, text)` is `translate_text`'s answer for it. */
  function TranslateUnit(p: nat, text: string, cancelled: bool,
                         translate: (nat, string) -> Result<string, string>): (r: PageResult)
    ensures r.Ok? <==> !cancelled && translate(p, text).Ok?
    ensures r.Ok? ==> r.value == (p, translate(p, text).value)
    ensures r.Err? && cancelled ==> r.error == Cancelled
    ensures r.Err? && !cancelled ==> r.error == TranslateFailure(p, translate(p, text).error)
  {
    if cancelled then Err(Cancelled)
    else match translate(p, text)
      case Ok(t) => Ok((p, t))
      case Err(e) => Err(TranslateFailure(p, e))
  }

  /** A result of the whole pipeline for page `r.0`: its OCR succeeded and
      `r.1` is the translation of the recognised text. */
  predicate Translated(r: (nat, string), ocr: nat -> Result<string, string>,
                       translate: (nat, string) -> Result<string, string>) {
    ocr(r.0).Ok? && translate(r.0, ocr(r.0).value) == Ok(r.1)
  }

  /** Page `p` fails in the pipeline with message `e`: its recognition
      failed, or it was recognised and its translation failed. */
  predicate UnitFailed(p: nat, e: string, ocr: nat -> Result<string, string>,
                       translate: (nat, string) -> Result<string, string>) {
    || (ocr(p).Err? && e == OcrFailure(p, ocr(p).error))
    || (ocr(p).Ok? && translate(p, ocr(p).value).Err? &&
        e == TranslateFailure(p, translate(p, ocr(p).value).error))
  }

  /** Every page of `pages` is recognised and translated successfully. */
  predicate AllSucceed(pages: seq<nat>, ocr: nat -> Result<string, string>,
                       translate: (nat, string) -> Result<string, string>) {
    forall p :: p in pages ==> ocr(p).Ok? && translate(p, ocr(p).value).Ok?
  }

  /** Why a run of units may stop with error `e`: it is the cancellation
      message and one of the flag reads `lo` to `hi - 1` answered true,
      or it is the failure message of one of the pages. */
  predicate StopReason(e: string, pages: seq<nat>, ocr: nat -> Result<string, string>,
                       translate: (nat, string) -> Result<string, string>,
                       cancel: nat -> bool, lo: nat, hi: nat) {
    || (e == Cancelled && exists k :: lo <= k < hi && cancel(k))
    || (exists p :: p in pages && UnitFailed(p, e, ocr, translate))
  }

  /** One phase of a batch. The units are spawned in the order of `jobs`,
      each reading the cancellation flag as it starts (reads `start` to
      `start + |jobs| - 1`); they complete in the order `order`, and the
      join loop reads the flag again before looking at each completed
      unit. The loop stops at the first cancellation or failed unit. */
  method JoinPhase<J>(jobs: seq<J>, order: seq<nat>, unit: (J, bool) -> PageResult,
                      cancel: nat -> bool, start: nat)
    returns (oks: seq<(nat, string)>, err: Option<string>, checks: nat)
    requires IsOrder(order, |jobs|)
    ensures |oks| <= |jobs|
    ensures err.None? ==> |oks| == |jobs|
    ensures forall j :: 0 <= j < |oks| ==>
      unit(jobs[order[j]], cancel(start + order[j])) == Ok(oks[j]) && !cancel(start + |jobs| + j)
    ensures err.Some? ==> (
      && |oks| < |jobs|
      && var j := |oks|;
         if cancel(start + |jobs| + j) then err.value == Cancelled
         else unit(jobs[order[j]], cancel(start + order[j])) == Err(err.value))
    ensures checks == start + |jobs| + |oks| + (if err.Some? then 1 else 0)
  {
    oks := [];
    err := None;
    checks := start + |jobs|;
    var j := 0;
    while j < |jobs|
      invariant 0 <= j <= |jobs| && |oks| == j
      invariant checks == start + |jobs| + j
      invariant forall i :: 0 <= i < j ==>
        unit(jobs[order[i]], cancel(start + order[i])) == Ok(oks[i]) && !cancel(start + |jobs| + i)
    {
      var res := unit(jobs[order[j]], cancel(start + order[j]));
      var stop := cancel(checks);
      checks := checks + 1;
      if stop {
        err := Some(Cancelled);
        return;
      }
      match res {
        case Ok(r) =>
          oks := oks + [r];
        case Err(e) =>
          err := Some(e);
          return;
      }
      j := j + 1;
    }
  }

  /** Whether the results hold no error. */
  predicate NoError(all: seq<PageResult>) {
    forall i :: 0 <= i < |all| ==> all[i].Ok?
  }

  /** Batch `b` of `pages`: the three pages from position `3 * b`, or the
      pages left when fewer remain. */
  function Batch(pages: seq<nat>, b: nat): (r: seq<nat>)
    requires BatchSize * b < |pages|
    ensures 1 <= |r| <= BatchSize
  {
    var pos := BatchSize * b;
    pages[pos..if |pages| - pos <= BatchSize then |pages| else pos + BatchSize]
  }

  /** The batches are the chunks of `pages` into runs of three, in order. */
  lemma {:induction false} BatchIsChunk(pages: seq<nat>, b: nat)
    requires BatchSize * b < |pages|
    ensures b < |Chunks(pages, BatchSize)| && Chunks(pages, BatchSize)[b] == Batch(pages, b)
    decreases b
  {
    if b == 0 {
      if |pages| > BatchSize {
        assert Chunks(pages, BatchSize) == [pages[..BatchSize]] + Chunks(pages[BatchSize..], BatchSize);
      }
    } else {
      var rest := pages[BatchSize..];
      assert Chunks(pages, BatchSize) == [pages[..BatchSize]] + Chunks(rest, BatchSize);
      BatchIsChunk(rest, b - 1);
      var pos := BatchSize * (b - 1);
      assert BatchSize * b == pos + BatchSize;
      var e := if |rest| - pos <= BatchSize then |rest| else pos + BatchSize;
      DropSlice(pages, BatchSize, pos, e);
      assert Batch(rest, b - 1) == rest[pos..e];
    }
  }

  /** The join orders fit the batches `pages` is cut into. */
  ghost predicate OrdersFit(pages: seq<nat>, ocrOrder: nat -> seq<nat>, trOrder: nat -> seq<nat>) {
    forall b: nat :: BatchSize * b < |pages| ==>
      IsOrder(ocrOrder(b), |Batch(pages, b)|) && IsOrder(trOrder(b), |Batch(pages, b)|)
  }

  /** A batch whose two phases both completed yields exactly one result
      per page of the batch. */
  lemma BatchCovered(batch: seq<nat>, ocrOrder: seq<nat>, trOrder: seq<nat>,
                     ocrOks: seq<(nat, string)>, trOks: seq<(nat, string)>)
    requires IsOrder(ocrOrder, |batch|) && |ocrOks| == |batch|
    requires IsOrder(trOrder, |ocrOks|) && |trOks| == |ocrOks|
    requires forall j :: 0 <= j < |ocrOks| ==> ocrOks[j].0 == batch[ocrOrder[j]]
    requires forall j :: 0 <= j < |trOks| ==> trOks[j].0 == ocrOks[trOrder[j]].0
    ensures forall j :: 0 <= j < |trOks| ==> trOks[j].0 in batch
    ensures forall p :: p in batch ==> exists j :: 0 <= j < |trOks| && trOks[j].0 == p
  {
    forall p | p in batch
      ensures exists j :: 0 <= j < |trOks| && trOks[j].0 == p
    {
      var k :| 0 <= k < |batch| && batch[k] == p;
      assert k in ocrOrder;
      var j1 :| 0 <= j1 < |ocrOrder| && ocrOrder[j1] == k;
      assert j1 in trOrder;
      var j2 :| 0 <= j2 < |trOrder| && trOrder[j2] == j1;
      assert trOks[j2].0 == p;
    }
  }

  /** The recognition phase of a batch stopped at its `j`-th joined unit
      with error `e`: the error is the cancellation seen by one of the
      reads from `start` on, or the recognition failure of a page of the
      batch, and the latter whenever none of those reads answers true. */
  lemma OcrStop(batch: seq<nat>, ocrOrder: seq<nat>, ocr: nat -> Result<string, string>,
                translate: (nat, string) -> Result<string, string>, cancel: nat -> bool,
                start: nat, j: nat, e: string)
    requires IsOrder(ocrOrder, |batch|) && j < |batch|
    requires if cancel(start + |batch| + j) then e == Cancelled
             else OcrUnit(batch[ocrOrder[j]], cancel(start + ocrOrder[j]), ocr) == Err(e)
    ensures StopReason(e, batch, ocr, translate, cancel, start, start + |batch| + j + 1)
    ensures e != Cancelled ==> exists q :: q in batch && ocr(q).Err? && e == OcrFailure(q, ocr(q).error)
    ensures (forall k :: start <= k <= start + |batch| + j ==> !cancel(k)) ==>
      exists q :: q in batch && ocr(q).Err? && e == OcrFailure(q, ocr(q).error)
  {
    var p := batch[ocrOrder[j]];
    if !cancel(start + |batch| + j) && !cancel(start + ocrOrder[j]) {
      assert ocr(p).Err? && e == OcrFailure(p, ocr(p).error);
      assert UnitFailed(p, e, ocr, translate);
    }
  }

  /** One batch: its pages are all recognised, then, only if every
      recognition succeeded, all translated. `done` are the translated
      results in the order they were joined, `err` the error that stopped
      the batch, and `translated` whether the translation phase ran. */
  method RunBatch(batch: seq<nat>, ocrOrder: seq<nat>, trOrder: seq<nat>,
                  ocr: nat -> Result<string, string>, translate: (nat, string) -> Result<string, string>,
                  cancel: nat -> bool, start: nat)
    returns (done: seq<(nat, string)>, err: Option<string>, checks: nat, ghost translated: bool)
    requires IsOrder(ocrOrder, |batch|) && IsOrder(trOrder, |batch|)
    ensures forall j :: 0 <= j < |done| ==> done[j].0 in batch && Translated(done[j], ocr, translate)
    ensures err.None? ==> |done| == |batch|
    ensures err.None? ==> forall p :: p in batch ==> exists j :: 0 <= j < |done| && done[j].0 == p
    ensures translated ==> forall q :: q in batch ==> ocr(q).Ok?
    ensures !translated ==> done == [] && err.Some?
    ensures checks >= start
    ensures err.Some? ==> |done| < |batch|
    ensures err.Some? ==> StopReason(err.value, batch, ocr, translate, cancel, start, checks)
    ensures AllSucceed(batch, ocr, translate) && (forall k :: start <= k < checks ==> !cancel(k)) ==> err.None?
    ensures err.Some? && err.value != Cancelled && (exists q :: q in batch && ocr(q).Err?) ==>
      done == [] && exists q :: q in batch && ocr(q).Err? && err.value == OcrFailure(q, ocr(q).error)
    ensures (exists q :: q in batch && ocr(q).Err?) && (forall k :: start <= k < checks ==> !cancel(k)) ==>
      && !translated && done == [] && err.Some?
      && exists q :: q in batch && ocr(q).Err? && err.value == OcrFailure(q, ocr(q).error)
  {
    var ocrOks, ocrErr, r1 := JoinPhase(batch, ocrOrder, (p, c) => OcrUnit(p, c, ocr), cancel, start);
    if ocrErr.Some? {
      OcrStop(batch, ocrOrder, ocr, translate, cancel, start, |ocrOks|, ocrErr.value);
      return [], ocrErr, r1, false;
    }
    forall j | 0 <= j < |ocrOks|
      ensures ocrOks[j].0 == batch[ocrOrder[j]] && ocr(ocrOks[j].0) == Ok(ocrOks[j].1)
    {
      assert OcrUnit(batch[ocrOrder[j]], cancel(start + ocrOrder[j]), ocr) == Ok(ocrOks[j]);
    }
    forall q | q in batch
      ensures ocr(q).Ok?
    {
      var k :| 0 <= k < |batch| && batch[k] == q;
      assert k in ocrOrder;
      var j :| 0 <= j < |ocrOks| && ocrOrder[j] == k;
    }
    assert !exists q :: q in batch && ocr(q).Err?;
    translated := true;
    done, err, checks := TranslatePhase(batch, ocrOrder, trOrder, ocrOks, ocr, translate, cancel, r1);
    if err.Some? {
      StopReasonWiden(err.value, batch, batch, ocr, translate, cancel, r1, checks, start);
    }
  }

  /** The translation phase of a batch whose pages were all recognised:
      `recognised` holds the recognition results in the order they were
      joined. The units are spawned over `recognised`, each reading the
      flag as it starts, and joined in the order `trOrder`. */
  method TranslatePhase(batch: seq<nat>, ocrOrder: seq<nat>, trOrder: seq<nat>, recognised: seq<(nat, string)>,
                        ocr: nat -> Result<string, string>, translate: (nat, string) -> Result<string, string>,
                        cancel: nat -> bool, start: nat)
    returns (done: seq<(nat, string)>, err: Option<string>, checks: nat)
    requires IsOrder(ocrOrder, |batch|) && IsOrder(trOrder, |batch|) && |recognised| == |batch|
    requires forall j :: 0 <= j < |recognised| ==>
      recognised[j].0 == batch[ocrOrder[j]] && ocr(recognised[j].0) == Ok(recognised[j].1)
    ensures forall j :: 0 <= j < |done| ==> done[j].0 in batch && Translated(done[j], ocr, translate)
    ensures err.None? ==> |done| == |batch|
    ensures err.None? ==> forall p :: p in batch ==> exists j :: 0 <= j < |done| && done[j].0 == p
    ensures err.Some? ==> |done| < |batch|
    ensures checks >= start
    ensures err.Some? ==> StopReason(err.value, batch, ocr, translate, cancel, start, checks)
    ensures AllSucceed(batch, ocr, translate) && (forall k :: start <= k < checks ==> !cancel(k)) ==> err.None?
  {
    var trOks, trErr, r2 := JoinPhase(recognised, trOrder,
      (x: (nat, string), c) => TranslateUnit(x.0, x.1, c, translate), cancel, start);
    forall j | 0 <= j < |trOks|
      ensures trOks[j].0 in batch && Translated(trOks[j], ocr, translate)
    {
      var x := recognised[trOrder[j]];
      assert x == (x.0, ocr(x.0).value);
    }
    if trErr.None? {
      BatchCovered(batch, ocrOrder, trOrder, recognised, trOks);
    } else {
      var j := |trOks|;
      var x := recognised[trOrder[j]];
      assert x.0 in batch && x == (x.0, ocr(x.0).value);
      if !cancel(start + |recognised| + j) && !cancel(start + trOrder[j]) {
        assert UnitFailed(x.0, trErr.value, ocr, translate);
      }
    }
    return trOks, trErr, r2;
  }

  /** One pass of the loop of `process_pages_parallel` over batch `b`: the
      cancellation check at the loop head (read `start`), then the batch.
      `pushed` is what the pass appends to the results, and `stopped`
      whether the loop ends after it. */
  method NextBatch(pages: seq<nat>, b: nat, ocrOrder: seq<nat>, trOrder: seq<nat>,
                   ocr: nat -> Result<string, string>, translate: (nat, string) -> Result<string, string>,
                   cancel: nat -> bool, start: nat)
    returns (pushed: seq<PageResult>, next: nat, stopped: bool, ghost translated: bool)
    requires BatchSize * b < |pages|
    requires IsOrder(ocrOrder, |Batch(pages, b)|) && IsOrder(trOrder, |Batch(pages, b)|)
    ensures next > start
    ensures cancel(start) ==> stopped && pushed == [Err(Cancelled)] && !translated
    ensures stopped <==> !NoError(pushed)
    ensures forall i :: 0 <= i < |pushed| - 1 ==> pushed[i].Ok?
    ensures forall i :: 0 <= i < |pushed| && pushed[i].Ok? ==>
      pushed[i].value.0 in Batch(pages, b) && Translated(pushed[i].value, ocr, translate)
    ensures !stopped ==> |pushed| == |Batch(pages, b)|
    ensures !stopped ==> forall p :: p in Batch(pages, b) ==> exists i :: 0 <= i < |pushed| && pushed[i].value.0 == p
    ensures stopped ==> StopReason(pushed[|pushed| - 1].error, Batch(pages, b), ocr, translate, cancel, start, next)
    ensures translated ==> forall q :: q in Batch(pages, b) ==> ocr(q).Ok?
    ensures !translated ==> stopped
    ensures |pushed| <= |Batch(pages, b)|
    ensures (exists q :: q in Batch(pages, b) && ocr(q).Err?) && (forall k :: start <= k < next ==> !cancel(k)) ==>
      && stopped && !translated && |pushed| == 1
      && exists q :: q in Batch(pages, b) && ocr(q).Err? && pushed[0] == Err(OcrFailure(q, ocr(q).error))
  {
    if cancel(start) {
      pushed := [Err(Cancelled)];
      assert !pushed[0].Ok?;
      assert StopReason(Cancelled, Batch(pages, b), ocr, translate, cancel, start, start + 1);
      return pushed, start + 1, true, false;
    }
    var batch := Batch(pages, b);
    var done, err;
    done, err, next, translated := RunBatch(batch, ocrOrder, trOrder, ocr, translate, cancel, start + 1);
    if err.Some? {
      pushed := Oks(done) + [Err(err.value)];
      assert !pushed[|pushed| - 1].Ok?;
      stopped := true;
      assert StopReason(err.value, batch, ocr, translate, cancel, start, next) by {
        StopReasonWiden(err.value, batch, batch, ocr, translate, cancel, start + 1, next, start);
      }
    } else {
      pushed := Oks(done);
      stopped := false;
      forall p | p in batch
        ensures exists i :: 0 <= i < |pushed| && pushed[i].value.0 == p
      {
        var j :| 0 <= j < |done| && done[j].0 == p;
        assert pushed[j].value.0 == p;
      }
    }
  }

  /** `process_pages_parallel`: the pages are processed batch by batch,
      each batch the next three pages in input order, and the translated
      results are pushed in the order they are joined. The loop stops at a
      cancellation seen at the head of a batch or inside one, or at the
      first failed unit, and pushes that error last. `translatedBatches`
      lists the batches whose translation phase ran, and `heads` the
      reads of the flag made at the loop head, one per batch begun. */
  method ProcessPagesParallel(pages: seq<nat>, ocr: nat -> Result<string, string>,
                              translate: (nat, string) -> Result<string, string>,
                              ocrOrder: nat -> seq<nat>, trOrder: nat -> seq<nat>, cancel: nat -> bool)
    returns (all: seq<PageResult>, checks: nat, ghost translatedBatches: seq<seq<nat>>, ghost heads: seq<nat>)
    requires OrdersFit(pages, ocrOrder, trOrder)
    ensures Scheduled(pages, all, checks, heads, translatedBatches, ocr, translate, cancel)
  {
    all := [];
    checks := 0;
    translatedBatches := [];
    heads := [];
    var pos := 0;
    var b := 0;
    var ended := false;
    while pos < |pages|
      invariant !ended
      invariant Progress(pages, pos, b, all, checks, heads, translatedBatches, ocr, translate, cancel)
    {
      var end := if |pages| - pos <= BatchSize then |pages| else pos + BatchSize;
      assert pages[pos..end] == Batch(pages, b);
      var pushed, next, stopped, translated := NextBatch(pages, b, ocrOrder(b), trOrder(b), ocr, translate, cancel, checks);
      if stopped {
        StopPass(pages, pos, b, all, checks, heads, translatedBatches, ocr, translate, cancel,
                 pushed, next, translated);
        all, checks, heads := all + pushed, next, heads + [checks];
        translatedBatches := translatedBatches + (if translated then [Batch(pages, b)] else []);
        ended := true;
        break;
      }
      PushPass(pages, pos, b, all, checks, heads, translatedBatches, ocr, translate, cancel,
               pushed, next, end);
      all, checks, heads := all + pushed, next, heads + [checks];
      translatedBatches := translatedBatches + [Batch(pages, b)];
      pos, b := end, b + 1;
    }
    if !ended {
      DonePass(pages, pos, b, all, checks, heads, translatedBatches, ocr, translate, cancel);
    }
  }

  /** What the loop of `process_pages_parallel` keeps: the first `pos`
      pages (the first `b` batches) are done, each with exactly one
      translated result, no loop-head read answered true, and no read was
      made before the first loop head. */
  ghost predicate Progress(pages: seq<nat>, pos: nat, b: nat, all: seq<PageResult>, checks: nat,
                           heads: seq<nat>, translatedBatches: seq<seq<nat>>,
                           ocr: nat -> Result<string, string>, translate: (nat, string) -> Result<string, string>,
                           cancel: nat -> bool) {
    && pos <= |pages| && b == |translatedBatches| && b == |heads|
    && (b > 0 ==> heads[0] == 0) && (pos > 0 ==> b > 0) && (pos == 0 ==> checks == 0)
    && HeadsBefore(heads, |pages|, checks)
    && (forall c :: 0 <= c < |heads| ==> !cancel(heads[c]))
    && (pos < |pages| ==> pos == BatchSize * b)
    && |all| == pos && NoError(all)
    && (forall i :: 0 <= i < |all| ==> all[i].value.0 in pages[..pos] && Translated(all[i].value, ocr, translate))
    && (forall p :: p in pages[..pos] ==> exists i :: 0 <= i < |all| && all[i].value.0 == p)
    && TranslatedInOrder(pages, translatedBatches, ocr)
  }

  /** The promises of `process_pages_parallel` about a finished run. */
  ghost predicate Scheduled(pages: seq<nat>, all: seq<PageResult>, checks: nat,
                            heads: seq<nat>, translatedBatches: seq<seq<nat>>,
                            ocr: nat -> Result<string, string>, translate: (nat, string) -> Result<string, string>,
                            cancel: nat -> bool) {
    && (forall i :: 0 <= i < |all| - 1 ==> all[i].Ok?)
    && (forall i :: 0 <= i < |all| && all[i].Ok? ==> all[i].value.0 in pages && Translated(all[i].value, ocr, translate))
    && (NoError(all) ==> |all| == |pages|)
    && (NoError(all) ==> forall p :: p in pages ==> exists i :: 0 <= i < |all| && all[i].value.0 == p)
    && (all != [] && all[|all| - 1].Err? ==> StopReason(all[|all| - 1].error, pages, ocr, translate, cancel, 0, checks))
    && (AllSucceed(pages, ocr, translate) && (forall k :: 0 <= k < checks ==> !cancel(k)) ==> NoError(all))
    && (pages != [] && cancel(0) ==> all == [Err(Cancelled)])
    && TranslatedInOrder(pages, translatedBatches, ocr)
    && (pages != [] ==> |heads| > 0 && heads[0] == 0)
    && HeadsBefore(heads, |pages|, checks)
    && (forall c :: 0 <= c < |heads| - 1 ==> !cancel(heads[c]))
    && (|heads| > 0 && cancel(heads[|heads| - 1]) ==>
          |all| == BatchSize * (|heads| - 1) + 1 && all[|all| - 1] == Err(Cancelled))
    && StoppedInLastBatch(pages, all, checks, heads, ocr, translate, cancel)
  }

  /** A run that ends in an error was stopped by the last batch it began,
      number `|heads| - 1`, and no batch started after it: every earlier
      batch completed and gave one success per page, the successes after
      them are pages of that batch (fewer than all of them), and the error
      is a reason to stop within that batch and the reads from its loop
      head on. When a page of that batch fails recognition and none of
      those reads answers true, the error is that recognition failure and
      nothing of the batch comes before it. */
  ghost predicate StoppedInLastBatch(pages: seq<nat>, all: seq<PageResult>, checks: nat, heads: seq<nat>,
                                     ocr: nat -> Result<string, string>,
                                     translate: (nat, string) -> Result<string, string>, cancel: nat -> bool) {
    all != [] && all[|all| - 1].Err? ==>
      |heads| > 0 &&
      var last := |heads| - 1;
      var from := BatchSize * last;
      && from < |pages| && from < |all| && |all| <= from + |Batch(pages, last)|
      && (forall i :: 0 <= i < from ==> all[i].Ok? && all[i].value.0 in pages[..from])
      && (forall p :: p in pages[..from] ==> exists i :: 0 <= i < from && all[i].Ok? && all[i].value.0 == p)
      && (forall i :: from <= i < |all| - 1 ==> all[i].Ok? && all[i].value.0 in Batch(pages, last))
      && StopReason(all[|all| - 1].error, Batch(pages, last), ocr, translate, cancel, heads[last], checks)
      && ((exists q :: q in Batch(pages, last) && ocr(q).Err?) && (forall k :: heads[last] <= k < checks ==> !cancel(k)) ==>
            |all| == from + 1 && exists q :: q in Batch(pages, last) && ocr(q).Err? && all[from] == Err(OcrFailure(q, ocr(q).error)))
  }

  /** A finished run in which no read of the flag answered true: it has
      no error exactly when every page succeeds, and otherwise its one
      error is last and is the failure message of one of the pages. */
  lemma ScheduledOutcome(pages: seq<nat>, all: seq<PageResult>, checks: nat,
                         heads: seq<nat>, translatedBatches: seq<seq<nat>>,
                         ocr: nat -> Result<string, string>, translate: (nat, string) -> Result<string, string>,
                         cancel: nat -> bool)
    requires Scheduled(pages, all, checks, heads, translatedBatches, ocr, translate, cancel)
    requires forall k :: 0 <= k < checks ==> !cancel(k)
    ensures NoError(all) <==> AllSucceed(pages, ocr, translate)
    ensures !NoError(all) ==>
      FirstError(all, |all| - 1) && exists p :: p in pages && UnitFailed(p, all[|all| - 1].error, ocr, translate)
  {
    if NoError(all) {
      CompletedResults(pages, all, checks, heads, translatedBatches, ocr, translate, cancel);
    }
  }

  /** The first-error short-circuit: when a page of batch `c` fails and no
      read of the flag answers true, the run ends in an error and no batch
      after `c` is begun, so no result of a later page is pushed. */
  lemma NoBatchAfterFailure(pages: seq<nat>, all: seq<PageResult>, checks: nat,
                            heads: seq<nat>, translatedBatches: seq<seq<nat>>,
                            ocr: nat -> Result<string, string>, translate: (nat, string) -> Result<string, string>,
                            cancel: nat -> bool, c: nat, q: nat)
    requires Scheduled(pages, all, checks, heads, translatedBatches, ocr, translate, cancel)
    requires forall k :: 0 <= k < checks ==> !cancel(k)
    requires BatchSize * c < |pages| && q in Batch(pages, c)
    requires !(ocr(q).Ok? && translate(q, ocr(q).value).Ok?)
    ensures all != [] && all[|all| - 1].Err?
    ensures |heads| <= c + 1 && |all| <= BatchSize * (c + 1)
  {
    ScheduledOutcome(pages, all, checks, heads, translatedBatches, ocr, translate, cancel);
    assert !NoError(all);
    FailedBatchIsLast(pages, all, checks, heads, ocr, translate, cancel, c, q);
  }

  /** In a run that stopped in its last batch and whose successes are all
      translated pages, a page of batch `c` that fails lies in no batch
      before the last one. */
  lemma FailedBatchIsLast(pages: seq<nat>, all: seq<PageResult>, checks: nat, heads: seq<nat>,
                          ocr: nat -> Result<string, string>, translate: (nat, string) -> Result<string, string>,
                          cancel: nat -> bool, c: nat, q: nat)
    requires all != [] && all[|all| - 1].Err?
    requires StoppedInLastBatch(pages, all, checks, heads, ocr, translate, cancel)
    requires forall i :: 0 <= i < |all| && all[i].Ok? ==> Translated(all[i].value, ocr, translate)
    requires BatchSize * c < |pages| && q in Batch(pages, c)
    requires !(ocr(q).Ok? && translate(q, ocr(q).value).Ok?)
    ensures |heads| <= c + 1 && |all| <= BatchSize * (c + 1)
  {
    var j :| 0 <= j < |Batch(pages, c)| && Batch(pages, c)[j] == q;
    assert pages[BatchSize * c + j] == q;
    EarlierPagesSucceed(pages, all, checks, heads, ocr, translate, cancel);
  }

  /** In a run that stopped in its last batch and whose successes are all
      translated pages, every page of the batches before the last one was
      recognised and translated. */
  lemma EarlierPagesSucceed(pages: seq<nat>, all: seq<PageResult>, checks: nat, heads: seq<nat>,
                            ocr: nat -> Result<string, string>, translate: (nat, string) -> Result<string, string>,
                            cancel: nat -> bool)
    requires all != [] && all[|all| - 1].Err?
    requires StoppedInLastBatch(pages, all, checks, heads, ocr, translate, cancel)
    requires forall i :: 0 <= i < |all| && all[i].Ok? ==> Translated(all[i].value, ocr, translate)
    ensures |heads| > 0 && BatchSize * (|heads| - 1) < |pages|
    ensures forall k :: 0 <= k < BatchSize * (|heads| - 1) ==>
      ocr(pages[k]).Ok? && translate(pages[k], ocr(pages[k]).value).Ok?
  {
    var from := BatchSize * (|heads| - 1);
    forall k | 0 <= k < from
      ensures ocr(pages[k]).Ok? && translate(pages[k], ocr(pages[k]).value).Ok?
    {
      assert pages[..from][k] == pages[k] && pages[k] in pages[..from];
      var i :| 0 <= i < from && all[i].Ok? && all[i].value.0 == pages[k];
      assert Translated(all[i].value, ocr, translate);
    }
  }

  /** Collecting a finished run that nobody cancelled, with its pages
      numbered in range, decides the task: the first error is recorded,
      and a run without error completes. */
  lemma CollectDecides(pages: seq<nat>, all: seq<PageResult>, checks: nat,
                       heads: seq<nat>, translatedBatches: seq<seq<nat>>,
                       ocr: nat -> Result<string, string>, translate: (nat, string) -> Result<string, string>,
                       cancel: nat -> bool, outcome: Outcome)
    requires Scheduled(pages, all, checks, heads, translatedBatches, ocr, translate, cancel)
    requires (forall k :: !cancel(k)) && forall p :: p in pages ==> 1 <= p <= |pages|
    requires forall i :: !cancel(checks) && FirstError(all, i) && NumberedBefore(all, i, |pages|) ==>
      outcome == Failed(all[i].error)
    requires !cancel(checks) && !cancel(checks + 1) && NoError(all) && NumberedBefore(all, |all|, |pages|) ==>
      outcome == Completed
    ensures Decided(pages, outcome, ocr, translate)
  {
    ScheduledOutcome(pages, all, checks, heads, translatedBatches, ocr, translate, cancel);
    NumberedResults(pages, all, checks, heads, translatedBatches, ocr, translate, cancel, |pages|);
    assert !cancel(checks) && !cancel(checks + 1);
    if !NoError(all) {
      assert NumberedBefore(all, |all| - 1, |pages|);
    }
  }

  /** Merging a finished run that nobody cancelled decides the task. */
  lemma MergeDecides(pages: seq<nat>, all: seq<PageResult>, checks: nat,
                     heads: seq<nat>, translatedBatches: seq<seq<nat>>,
                     ocr: nat -> Result<string, string>, translate: (nat, string) -> Result<string, string>,
                     cancel: nat -> bool, outcome: Outcome)
    requires Scheduled(pages, all, checks, heads, translatedBatches, ocr, translate, cancel)
    requires forall k :: !cancel(k)
    requires forall i :: !cancel(checks) && FirstError(all, i) ==> outcome == Failed(all[i].error)
    requires !cancel(checks) && !cancel(checks + 1) && NoError(all) ==> outcome == Completed
    ensures Decided(pages, outcome, ocr, translate)
  {
    ScheduledOutcome(pages, all, checks, heads, translatedBatches, ocr, translate, cancel);
    assert !cancel(checks) && !cancel(checks + 1);
  }

  /** A finished run without error recognised and translated every page. */
  lemma CompletedResults(pages: seq<nat>, all: seq<PageResult>, checks: nat,
                         heads: seq<nat>, translatedBatches: seq<seq<nat>>,
                         ocr: nat -> Result<string, string>, translate: (nat, string) -> Result<string, string>,
                         cancel: nat -> bool)
    requires Scheduled(pages, all, checks, heads, translatedBatches, ocr, translate, cancel)
    requires NoError(all)
    ensures AllSucceed(pages, ocr, translate)
  {
    forall p | p in pages
      ensures ocr(p).Ok? && translate(p, ocr(p).value).Ok?
    {
      var i :| 0 <= i < |all| && all[i].value.0 == p;
      assert Translated(all[i].value, ocr, translate);
    }
  }

  /** The successes of a finished run carry page numbers of its pages. */
  lemma NumberedResults(pages: seq<nat>, all: seq<PageResult>, checks: nat,
                        heads: seq<nat>, translatedBatches: seq<seq<nat>>,
                        ocr: nat -> Result<string, string>, translate: (nat, string) -> Result<string, string>,
                        cancel: nat -> bool, total: nat)
    requires Scheduled(pages, all, checks, heads, translatedBatches, ocr, translate, cancel)
    requires forall p :: p in pages ==> 1 <= p <= total
    ensures NumberedBefore(all, |all|, total)
  {
  }

  /** A pass that completes its batch keeps the loop's progress. */
  lemma PushPass(pages: seq<nat>, pos: nat, b: nat, all: seq<PageResult>, checks: nat,
                 heads: seq<nat>, translatedBatches: seq<seq<nat>>,
                 ocr: nat -> Result<string, string>, translate: (nat, string) -> Result<string, string>,
                 cancel: nat -> bool, pushed: seq<PageResult>, next: nat, end: nat)
    requires Progress(pages, pos, b, all, checks, heads, translatedBatches, ocr, translate, cancel)
    requires pos < |pages| && end == (if |pages| - pos <= BatchSize then |pages| else pos + BatchSize)
    requires next > checks && !cancel(checks)
    requires NoError(pushed) && |pushed| == |Batch(pages, b)|
    requires forall i :: 0 <= i < |pushed| ==> pushed[i].value.0 in Batch(pages, b) && Translated(pushed[i].value, ocr, translate)
    requires forall p :: p in Batch(pages, b) ==> exists i :: 0 <= i < |pushed| && pushed[i].value.0 == p
    requires forall q :: q in Batch(pages, b) ==> ocr(q).Ok?
    ensures Progress(pages, end, b + 1, all + pushed, next, heads + [checks],
                     translatedBatches + [Batch(pages, b)], ocr, translate, cancel)
  {
    assert pages[pos..end] == Batch(pages, b);
    HeadsPush(heads, |pages|, checks, next);
    TranslatedSnoc(pages, translatedBatches, ocr);
    PushBatch(pages, pos, end, all, pushed, all + pushed);
    var all' := all + pushed;
    forall i | 0 <= i < |all'|
      ensures Translated(all'[i].value, ocr, translate)
    {
      if i >= |all| {
        assert all'[i] == pushed[i - |all|];
      }
    }
  }

  /** A pass that stops the loop leaves a finished run. */
  lemma StopPass(pages: seq<nat>, pos: nat, b: nat, all: seq<PageResult>, checks: nat,
                 heads: seq<nat>, translatedBatches: seq<seq<nat>>,
                 ocr: nat -> Result<string, string>, translate: (nat, string) -> Result<string, string>,
                 cancel: nat -> bool, pushed: seq<PageResult>, next: nat, translated: bool)
    requires Progress(pages, pos, b, all, checks, heads, translatedBatches, ocr, translate, cancel)
    requires pos < |pages| && next > checks
    requires pushed != [] && pushed[|pushed| - 1].Err?
    requires cancel(checks) ==> pushed == [Err(Cancelled)] && !translated
    requires forall i :: 0 <= i < |pushed| - 1 ==> pushed[i].Ok?
    requires forall i :: 0 <= i < |pushed| && pushed[i].Ok? ==>
      pushed[i].value.0 in Batch(pages, b) && Translated(pushed[i].value, ocr, translate)
    requires StopReason(pushed[|pushed| - 1].error, Batch(pages, b), ocr, translate, cancel, checks, next)
    requires translated ==> forall q :: q in Batch(pages, b) ==> ocr(q).Ok?
    requires |pushed| <= |Batch(pages, b)|
    requires (exists q :: q in Batch(pages, b) && ocr(q).Err?) && (forall k :: checks <= k < next ==> !cancel(k)) ==>
      |pushed| == 1 && exists q :: q in Batch(pages, b) && ocr(q).Err? && pushed[0] == Err(OcrFailure(q, ocr(q).error))
    ensures Scheduled(pages, all + pushed, next, heads + [checks],
                      translatedBatches + (if translated then [Batch(pages, b)] else []), ocr, translate, cancel)
  {
    var end := if |pages| - pos <= BatchSize then |pages| else pos + BatchSize;
    assert pages[pos..end] == Batch(pages, b);
    HeadsPush(heads, |pages|, checks, next);
    if translated {
      TranslatedSnoc(pages, translatedBatches, ocr);
    } else {
      assert translatedBatches + [] == translatedBatches;
    }
    StopReasonWiden(pushed[|pushed| - 1].error, Batch(pages, b), pages, ocr, translate, cancel, checks, next, 0);
    EndWithError(pages, pos, end, all, pushed, ocr, translate, cancel, next);
    StopInBatch(pages, pos, b, all, pushed, checks, next, heads, ocr, translate, cancel);
  }

  /** The results of a pass that stops the loop, after those of the
      completed batches, stop the run in that pass's batch. */
  lemma StopInBatch(pages: seq<nat>, pos: nat, b: nat, all: seq<PageResult>, pushed: seq<PageResult>,
                    checks: nat, next: nat, heads: seq<nat>,
                    ocr: nat -> Result<string, string>, translate: (nat, string) -> Result<string, string>,
                    cancel: nat -> bool)
    requires pos < |pages| && pos == BatchSize * b && |heads| == b && |all| == pos
    requires forall i :: 0 <= i < |all| ==> all[i].Ok? && all[i].value.0 in pages[..pos]
    requires forall p :: p in pages[..pos] ==> exists i :: 0 <= i < |all| && all[i].value.0 == p
    requires pushed != [] && pushed[|pushed| - 1].Err? && |pushed| <= |Batch(pages, b)|
    requires forall i :: 0 <= i < |pushed| - 1 ==> pushed[i].Ok? && pushed[i].value.0 in Batch(pages, b)
    requires StopReason(pushed[|pushed| - 1].error, Batch(pages, b), ocr, translate, cancel, checks, next)
    requires (exists q :: q in Batch(pages, b) && ocr(q).Err?) && (forall k :: checks <= k < next ==> !cancel(k)) ==>
      |pushed| == 1 && exists q :: q in Batch(pages, b) && ocr(q).Err? && pushed[0] == Err(OcrFailure(q, ocr(q).error))
    ensures StoppedInLastBatch(pages, all + pushed, next, heads + [checks], ocr, translate, cancel)
  {
    var all', heads' := all + pushed, heads + [checks];
    assert heads'[|heads'| - 1] == checks;
    assert all'[|all'| - 1] == pushed[|pushed| - 1];
    forall i | 0 <= i < pos
      ensures all'[i] == all[i]
    {
    }
    forall i | pos <= i < |all'| - 1
      ensures all'[i].Ok? && all'[i].value.0 in Batch(pages, b)
    {
      assert all'[i] == pushed[i - pos];
    }
    if |pushed| == 1 {
      assert all'[pos] == pushed[0];
    }
  }

  /** A loop that ran out of pages leaves a finished run. */
  lemma DonePass(pages: seq<nat>, pos: nat, b: nat, all: seq<PageResult>, checks: nat,
                 heads: seq<nat>, translatedBatches: seq<seq<nat>>,
                 ocr: nat -> Result<string, string>, translate: (nat, string) -> Result<string, string>,
                 cancel: nat -> bool)
    requires Progress(pages, pos, b, all, checks, heads, translatedBatches, ocr, translate, cancel)
    requires pos >= |pages|
    ensures Scheduled(pages, all, checks, heads, translatedBatches, ocr, translate, cancel)
  {
    assert pages[..pos] == pages;
  }

  /** When every page succeeds and no read of the flag answers true,
      nothing is a reason to stop. */
  lemma NoStopReason(e: string, pages: seq<nat>, ocr: nat -> Result<string, string>,
                     translate: (nat, string) -> Result<string, string>,
                     cancel: nat -> bool, lo: nat, hi: nat)
    requires StopReason(e, pages, ocr, translate, cancel, lo, hi)
    ensures !AllSucceed(pages, ocr, translate) || exists k :: lo <= k < hi && cancel(k)
  {
  }

  /** Each of the loop-head reads `heads` belongs to a batch of the `n`
      pages and was made before read `checks`. */
  ghost predicate HeadsBefore(heads: seq<nat>, n: nat, checks: nat) {
    forall c :: 0 <= c < |heads| ==> BatchSize * c < n && heads[c] < checks
  }

  /** The read at the head of the next batch extends the loop-head reads. */
  lemma HeadsPush(heads: seq<nat>, n: nat, h: nat, checks: nat)
    requires HeadsBefore(heads, n, h) && BatchSize * |heads| < n && h < checks
    ensures HeadsBefore(heads + [h], n, checks)
  {
  }

  /** A reason to stop within some pages and reads is one within more
      pages and an earlier first read. */
  lemma StopReasonWiden(e: string, batch: seq<nat>, pages: seq<nat>, ocr: nat -> Result<string, string>,
                        translate: (nat, string) -> Result<string, string>,
                        cancel: nat -> bool, lo: nat, hi: nat, from: nat)
    requires forall p :: p in batch ==> p in pages
    requires from <= lo && StopReason(e, batch, ocr, translate, cancel, lo, hi)
    ensures StopReason(e, pages, ocr, translate, cancel, from, hi)
  {
  }

  /** The results of a completed phase, as pushed. */
  function Oks(done: seq<(nat, string)>): (r: seq<PageResult>)
    ensures |r| == |done| && forall j :: 0 <= j < |done| ==> r[j] == Ok(done[j])
  {
    seq(|done|, j requires 0 <= j < |done| => Ok(done[j]))
  }

  /** The batches whose translation phase ran are the first batches of
      `pages`, and every page of each was recognised successfully. */
  ghost predicate TranslatedInOrder(pages: seq<nat>, batches: seq<seq<nat>>, ocr: nat -> Result<string, string>) {
    forall c :: 0 <= c < |batches| ==>
      && BatchSize * c < |pages| && batches[c] == Batch(pages, c)
      && forall q :: q in batches[c] ==> ocr(q).Ok?
  }

  /** The next batch, once translated, extends the translated prefix. */
  lemma TranslatedSnoc(pages: seq<nat>, batches: seq<seq<nat>>, ocr: nat -> Result<string, string>)
    requires TranslatedInOrder(pages, batches, ocr)
    requires BatchSize * |batches| < |pages|
    requires forall q :: q in Batch(pages, |batches|) ==> ocr(q).Ok?
    ensures TranslatedInOrder(pages, batches + [Batch(pages, |batches|)], ocr)
  {
    var next := batches + [Batch(pages, |batches|)];
    forall c | 0 <= c < |next|
      ensures BatchSize * c < |pages| && next[c] == Batch(pages, c)
    {
      if c < |batches| {
        assert next[c] == batches[c];
      }
    }
  }

  /** A batch that ends in an error: the results before it and the ones
      it pushed are all successes, and the error is last. */
  lemma EndWithError(pages: seq<nat>, pos: nat, end: nat, before: seq<PageResult>, pushed: seq<PageResult>,
                     ocr: nat -> Result<string, string>, translate: (nat, string) -> Result<string, string>,
                     cancel: nat -> bool, checks: nat)
    requires pos <= end <= |pages| && pushed != [] && pushed[|pushed| - 1].Err?
    requires StopReason(pushed[|pushed| - 1].error, pages, ocr, translate, cancel, 0, checks)
    requires forall i :: 0 <= i < |before| ==>
      before[i].Ok? && before[i].value.0 in pages[..pos] && Translated(before[i].value, ocr, translate)
    requires forall i :: 0 <= i < |pushed| - 1 ==> pushed[i].Ok?
    requires forall i :: 0 <= i < |pushed| && pushed[i].Ok? ==>
      pushed[i].value.0 in pages[pos..end] && Translated(pushed[i].value, ocr, translate)
    ensures var all := before + pushed;
      && (forall i :: 0 <= i < |all| - 1 ==> all[i].Ok?)
      && (forall i :: 0 <= i < |all| && all[i].Ok? ==> all[i].value.0 in pages && Translated(all[i].value, ocr, translate))
      && !NoError(all) && all[|all| - 1] == pushed[|pushed| - 1]
      && StopReason(all[|all| - 1].error, pages, ocr, translate, cancel, 0, checks)
      && (AllSucceed(pages, ocr, translate) && (forall k :: 0 <= k < checks ==> !cancel(k)) ==> NoError(all))
  {
    NoStopReason(pushed[|pushed| - 1].error, pages, ocr, translate, cancel, 0, checks);
    var all := before + pushed;
    assert !all[|all| - 1].Ok?;
    forall i | 0 <= i < |all| - 1
      ensures all[i].Ok? && all[i].value.0 in pages && Translated(all[i].value, ocr, translate)
    {
      if i < |before| {
        assert all[i] == before[i];
        assert pages[..pos] <= pages;
      } else {
        var j := i - |before|;
        assert all[i] == pushed[j];
        var k :| pos <= k < end && pages[k] == pushed[j].value.0;
      }
    }
  }

  /** Appending a completed batch's results keeps every page accounted for. */
  lemma PushBatch(pages: seq<nat>, pos: nat, end: nat, before: seq<PageResult>,
                  pushed: seq<PageResult>, all: seq<PageResult>)
    requires pos <= end <= |pages| && |pushed| == end - pos && |before| == pos
    requires all == before + pushed && NoError(pushed)
    requires forall i :: 0 <= i < |before| ==> before[i].Ok? && before[i].value.0 in pages[..pos]
    requires forall p :: p in pages[..pos] ==> exists i :: 0 <= i < |before| && before[i].Ok? && before[i].value.0 == p
    requires forall j :: 0 <= j < |pushed| ==> pushed[j].value.0 in pages[pos..end]
    requires forall p :: p in pages[pos..end] ==> exists j :: 0 <= j < |pushed| && pushed[j].value.0 == p
    ensures NoError(all) && |all| == end
    ensures forall i :: 0 <= i < |all| ==> all[i].value.0 in pages[..end]
    ensures forall p :: p in pages[..end] ==> exists i :: 0 <= i < |all| && all[i].value.0 == p
  {
    assert pages[..end] == pages[..pos] + pages[pos..end];
    forall p | p in pages[..end]
      ensures exists i :: 0 <= i < |all| && all[i].value.0 == p
    {
      if p in pages[..pos] {
        var i :| 0 <= i < |before| && before[i].Ok? && before[i].value.0 == p;
        assert all[i] == before[i];
      } else {
        var j :| 0 <= j < |pushed| && pushed[j].value.0 == p;
        assert all[pos + j] == pushed[j];
      }
    }
    forall i | 0 <= i < |all|
      ensures all[i].Ok? && all[i].value.0 in pages[..end]
    {
      if i < pos {
        assert all[i] == before[i];
      } else {
        assert all[i] == pushed[i - pos];
      }
    }
  }

  // ---------------------------------------------------------------------
  // The collection loop of process_pdf_parallel
  // ---------------------------------------------------------------------

  /** What the collection loop computes: each `Ok((p, t))` puts `t` at
      index `p - 1`, the first error stops the loop and is returned, and a
      page number outside `1..=total` panics (an index out of range, or a
      subtraction below zero for page 0). */
  function Collect(results: seq<PageResult>, texts: seq<Option<string>>)
    : Run<(seq<Option<string>>, Option<string>)>
    decreases |results|
  {
    if results == [] then Returns((texts, None))
    else match results[0]
      case Err(e) => Returns((texts, Some(e)))
      case Ok((p, t)) =>
        if p == 0 || p > |texts| then Panics
        else Collect(results[1..], texts[p - 1 := Some(t)])
  }

  /** The collection loop of `process_pdf_parallel`, filling its vector of
      `total` slots in place. */
  method CollectResults(results: seq<PageResult>, total: nat)
    returns (r: Run<(seq<Option<string>>, Option<string>)>)
    ensures r == Collect(results, seq(total, _ => None))
    ensures r.Returns? ==> |r.value.0| == total
  {
    var texts := new Option<string>[total](_ => None);
    ghost var initial: seq<Option<string>> := seq(total, _ => None);
    assert texts[..] == initial;
    var error: Option<string> := None;
    var i := 0;
    while i < |results|
      invariant 0 <= i <= |results|
      invariant Collect(results, initial) == Collect(results[i..], texts[..])
    {
      assert results[i..][1..] == results[i + 1..];
      match results[i] {
        case Err(e) =>
          error := Some(e);
          break;
        case Ok((p, t)) =>
          if p == 0 || p > total {
            return Panics;
          }
          texts[p - 1] := Some(t);
      }
      i := i + 1;
    }
    r := Returns((texts[..], error));
    CollectLength(results, initial);
  }

  lemma {:induction false} CollectLength(results: seq<PageResult>, texts: seq<Option<string>>)
    ensures Collect(results, texts).Returns? ==> |Collect(results, texts).value.0| == |texts|
    decreases |results|
  {
    if results != [] && results[0].Ok? {
      var (p, t) := results[0].value;
      if 0 < p <= |texts| {
        CollectLength(results[1..], texts[p - 1 := Some(t)]);
      }
    }
  }

  /** No result is an error, every page number is in `1..=total`, and no
      page number occurs twice. */
  predicate WellNumbered(results: seq<PageResult>, total: nat) {
    && NoError(results)
    && (forall i :: 0 <= i < |results| ==> 1 <= results[i].value.0 <= total)
    && (forall i, j :: 0 <= i < j < |results| ==> results[i].value.0 != results[j].value.0)
  }

  /** Where each text goes: a page present in the results gets its text,
      every other slot keeps what it held. */
  lemma {:induction false} CollectPlaces(results: seq<PageResult>, texts: seq<Option<string>>)
    requires WellNumbered(results, |texts|)
    ensures Collect(results, texts).Returns?
    ensures |Collect(results, texts).value.0| == |texts|
    ensures Collect(results, texts).value.1 == None
    ensures forall q, t :: 0 <= q < |texts| && Ok((q + 1, t)) in results ==>
      Collect(results, texts).value.0[q] == Some(t)
    ensures forall q :: 0 <= q < |texts| && (forall i :: 0 <= i < |results| ==> results[i].value.0 != q + 1) ==>
      Collect(results, texts).value.0[q] == texts[q]
    decreases |results|
  {
    CollectLength(results, texts);
    if results != [] {
      var (p, t) := results[0].value;
      var rest := results[1..];
      var next := texts[p - 1 := Some(t)];
      assert WellNumbered(rest, |next|) by {
        forall i, j | 0 <= i < j < |rest| ensures rest[i].value.0 != rest[j].value.0 {
          assert rest[i] == results[i + 1] && rest[j] == results[j + 1];
        }
      }
      CollectPlaces(rest, next);
      CollectLength(rest, next);
      forall q, t' | 0 <= q < |texts| && Ok((q + 1, t')) in results
        ensures Collect(results, texts).value.0[q] == Some(t')
      {
        var k :| 0 <= k < |results| && results[k] == Ok((q + 1, t'));
        if k == 0 {
          forall i | 0 <= i < |rest| ensures rest[i].value.0 != q + 1 {
            assert rest[i] == results[i + 1];
          }
        } else {
          assert rest[k - 1] == results[k];
        }
      }
      forall q | 0 <= q < |texts| && (forall i :: 0 <= i < |results| ==> results[i].value.0 != q + 1)
        ensures Collect(results, texts).value.0[q] == texts[q]
      {
        assert results[0].value.0 != q + 1;
        forall i | 0 <= i < |rest| ensures rest[i].value.0 != q + 1 {
          assert rest[i] == results[i + 1];
        }
      }
    }
  }

  /** With distinct page numbers in range and no error, slot `q` holds `t`
      exactly when `Ok((q + 1, t))` is among the results, so the vector
      does not depend on the order in which the results arrived. */
  lemma CollectOrderFree(results1: seq<PageResult>, results2: seq<PageResult>, total: nat)
    requires WellNumbered(results1, total) && WellNumbered(results2, total)
    requires multiset(results1) == multiset(results2)
    ensures Collect(results1, seq(total, _ => None)) == Collect(results2, seq(total, _ => None))
  {
    var none: seq<Option<string>> := seq(total, _ => None);
    CollectPlaces(results1, none);
    CollectPlaces(results2, none);
    var v1 := Collect(results1, none).value.0;
    var v2 := Collect(results2, none).value.0;
    forall q | 0 <= q < total
      ensures v1[q] == v2[q]
    {
      if exists i :: 0 <= i < |results1| && results1[i].value.0 == q + 1 {
        var i :| 0 <= i < |results1| && results1[i].value.0 == q + 1;
        var x := results1[i];
        assert x in multiset(results2);
        assert x in results2 && x in results1;
        assert x == Ok((q + 1, x.value.1));
        assert Ok((q + 1, x.value.1)) in results1 && Ok((q + 1, x.value.1)) in results2;
        assert v1[q] == Some(x.value.1);
        assert v2[q] == Some(x.value.1);
      } else {
        forall j | 0 <= j < |results2| ensures results2[j].value.0 != q + 1 {
          var y := results2[j];
          assert y in multiset(results1);
          assert y in results1;
        }
        assert v1[q] == none[q];
        assert v2[q] == none[q];
      }
    }
    assert v1 == v2;
  }

  // ---------------------------------------------------------------------
  // process_pdf_parallel and process_retry
  // ---------------------------------------------------------------------

  /** How a processing task ended: the document was stored, an error was
      recorded with the message given, the task was found cancelled, or
      the collection loop panicked. */
  datatype Outcome = Completed | Failed(msg: string) | Stopped | Panicked

  /** The document `generate_pdf` makes of the stored page texts. */
  function Generated(stored: seq<string>): seq<byte> {
    PdfDocument.Document(PdfWriter.PreparedPages(PdfDocument.Accumulated(stored)))
  }

  /** Only the record of task `id` may have changed. */
  ghost predicate OnlyTask(before: map<string, TaskData>, after: map<string, TaskData>, id: string) {
    && after.Keys == before.Keys
    && forall k :: k in before && k != id ==> after[k] == before[k]
  }

  /** What a processing task leaves in the table: only its own record
      changed; a failure is recorded as an error with its message, and a
      completion as a finished task holding the generated document. */
  ghost predicate Ended(before: map<string, TaskData>, after: map<string, TaskData>, id: string,
                        outcome: Outcome, stored: seq<string>) {
    && OnlyTask(before, after, id)
    && (outcome.Failed? && id in after ==>
          after[id].progress.status == Error && after[id].progress.message == outcome.msg)
    && (outcome == Completed && id in after ==>
          after[id].progress.status == Complete && after[id].pdfData == Some(Generated(stored)))
  }

  /** A setter touches only its own task, and changes compose. */
  lemma SetOnlyTask(before: map<string, TaskData>, mid: map<string, TaskData>, id: string, s: Setter)
    requires OnlyTask(before, mid, id)
    ensures OnlyTask(before, Set(mid, id, s), id)
  {
  }

  /** A task that stops, or ends with nothing recorded, has only touched
      its own record. */
  lemma EndedQuietly(before: map<string, TaskData>, after: map<string, TaskData>, id: string, stored: seq<string>)
    requires OnlyTask(before, after, id)
    ensures Ended(before, after, id, Stopped, stored) && Ended(before, after, id, Panicked, stored)
  {
  }

  /** `set_error` with the failure's message ends the task as failed. */
  lemma EndedFailed(before: map<string, TaskData>, mid: map<string, TaskData>, id: string, msg: string, stored: seq<string>)
    requires OnlyTask(before, mid, id)
    ensures Ended(before, Set(mid, id, ToError(msg)), id, Failed(msg), stored)
  {
    if id in mid {
      AppliedStatus(mid[id], ToError(msg));
      AppliedDocument(mid[id], ToError(msg));
    }
  }

  /** An ending that follows changes to the task's own record only. */
  lemma EndedAfter(before: map<string, TaskData>, mid: map<string, TaskData>, after: map<string, TaskData>,
                   id: string, outcome: Outcome, stored: seq<string>)
    requires OnlyTask(before, mid, id) && Ended(mid, after, id, outcome, stored)
    ensures Ended(before, after, id, outcome, stored)
  {
  }

  /** The last steps both processing paths share: the stored translations
      are loaded (`stored`), the task is marked as generating, and the
      generated document is stored with the task. */
  method Finish(app: AppState, id: string, stored: seq<string>)
    modifies app
    ensures app.tasks == Set(Set(old(app.tasks), id, ToGenerating), id, ToComplete(Generated(stored)))
    ensures Ended(old(app.tasks), app.tasks, id, Completed, stored)
  {
    app.SetGenerating(id);
    var pdf := PdfDocument.GeneratePdf(stored);
    EndedCompleted(old(app.tasks), id, pdf.value);
    app.SetComplete(id, pdf.value);
  }

  /** Marking the task as generating and then storing a document leaves
      a finished task holding that document. */
  lemma EndedCompleted(before: map<string, TaskData>, id: string, doc: seq<byte>)
    ensures var after := Set(Set(before, id, ToGenerating), id, ToComplete(doc));
      && OnlyTask(before, after, id)
      && (id in after ==> after[id].progress.status == Complete && after[id].pdfData == Some(doc))
  {
    var mid := Set(before, id, ToGenerating);
    if id in before {
      AppliedStatus(mid[id], ToComplete(doc));
      AppliedDocument(mid[id], ToComplete(doc));
    }
  }

  /** The part of `process_pdf_parallel` after the pages were processed:
      the cancellation check, the collection loop, the second
      cancellation check and the generation. `checks` cancellation reads
      were made before. */
  method CollectAndFinish(app: AppState, id: string, results: seq<PageResult>, total: nat,
                          cancel: nat -> bool, checks: nat, stored: seq<string>)
    returns (outcome: Outcome)
    modifies app
    ensures Ended(old(app.tasks), app.tasks, id, outcome, stored)
    ensures outcome.Failed? ==> Err(outcome.msg) in results
    ensures NumberedBefore(results, |results|, total) ==> outcome != Panicked
    ensures outcome == Completed ==> NoError(results) && !cancel(checks) && !cancel(checks + 1)
    ensures forall i :: !cancel(checks) && FirstError(results, i) && NumberedBefore(results, i, total) ==>
      outcome == Failed(results[i].error)
    ensures !cancel(checks) && !cancel(checks + 1) && NoError(results) && NumberedBefore(results, |results|, total) ==>
      outcome == Completed
  {
    if cancel(checks) {
      EndedQuietly(app.tasks, app.tasks, id, stored);
      return Stopped;
    }
    var collected := CollectResults(results, total);
    ghost var none: seq<Option<string>> := seq(total, _ => None);
    forall i | FirstError(results, i) && NumberedBefore(results, i, total)
      ensures collected.Returns? && collected.value.1 == Some(results[i].error)
    {
      CollectFirstError(results, none, i);
    }
    if collected.Panics? {
      assert !NumberedBefore(results, |results|, total) by {
        if NumberedBefore(results, |results|, total) {
          CollectInRange(results, none);
        }
      }
      EndedQuietly(app.tasks, app.tasks, id, stored);
      return Panicked;
    }
    var error := collected.value.1;
    if NoError(results) && NumberedBefore(results, |results|, total) {
      CollectClean(results, none);
    }
    if error.Some? {
      CollectError(results, none);
      EndedFailed(app.tasks, app.tasks, id, error.value, stored);
      app.SetError(id, error.value);
      return Failed(error.value);
    }
    CollectNoError(results, seq(total, _ => None));
    if cancel(checks + 1) {
      EndedQuietly(app.tasks, app.tasks, id, stored);
      return Stopped;
    }
    Finish(app, id, stored);
    return Completed;
  }

  /** The error the collection loop stops at is one of the results. */
  lemma {:induction false} CollectError(results: seq<PageResult>, texts: seq<Option<string>>)
    requires Collect(results, texts).Returns? && Collect(results, texts).value.1.Some?
    ensures Err(Collect(results, texts).value.1.value) in results
    decreases |results|
  {
    if results[0].Ok? {
      var (p, t) := results[0].value;
      CollectError(results[1..], texts[p - 1 := Some(t)]);
      assert results == [results[0]] + results[1..];
    }
  }

  /** With every page number in range the collection loop does not panic. */
  lemma {:induction false} CollectInRange(results: seq<PageResult>, texts: seq<Option<string>>)
    requires NumberedBefore(results, |results|, |texts|)
    ensures Collect(results, texts).Returns?
    decreases |results|
  {
    if results != [] && results[0].Ok? {
      var (p, t) := results[0].value;
      NumberedTail(results, |results|, |texts|);
      CollectInRange(results[1..], texts[p - 1 := Some(t)]);
    }
  }

  /** `results[i]` is the first error among the results. */
  predicate FirstError(results: seq<PageResult>, i: int) {
    0 <= i < |results| && results[i].Err? && forall j :: 0 <= j < i ==> results[j].Ok?
  }

  /** Every success among the first `n` results has a page number in
      `1..=total`. */
  predicate NumberedBefore(results: seq<PageResult>, n: int, total: nat) {
    forall j :: 0 <= j < n && j < |results| && results[j].Ok? ==> 1 <= results[j].value.0 <= total
  }

  lemma NumberedTail(results: seq<PageResult>, n: int, total: nat)
    requires results != [] && NumberedBefore(results, n, total)
    ensures NumberedBefore(results[1..], n - 1, total)
  {
    forall j | 0 <= j < n - 1 && j < |results| - 1 && results[1..][j].Ok?
      ensures 1 <= results[1..][j].value.0 <= total
    {
      assert results[1..][j] == results[j + 1];
    }
  }

  /** The collection loop stops at the first error and reports it, when
      the successes before it are numbered in range. */
  lemma {:induction false} CollectFirstError(results: seq<PageResult>, texts: seq<Option<string>>, i: nat)
    requires FirstError(results, i) && NumberedBefore(results, i, |texts|)
    ensures Collect(results, texts).Returns? && Collect(results, texts).value.1 == Some(results[i].error)
    decreases i
  {
    if i > 0 {
      var (p, t) := results[0].value;
      NumberedTail(results, i, |texts|);
      assert FirstError(results[1..], i - 1) by {
        forall j | 0 <= j < i - 1 ensures results[1..][j].Ok? {
          assert results[1..][j] == results[j + 1];
        }
      }
      CollectFirstError(results[1..], texts[p - 1 := Some(t)], i - 1);
    }
  }

  /** A collection of successes numbered in range ends without an error:
      the converse of `CollectNoError`. */
  lemma {:induction false} CollectClean(results: seq<PageResult>, texts: seq<Option<string>>)
    requires NoError(results) && NumberedBefore(results, |results|, |texts|)
    ensures Collect(results, texts).Returns? && Collect(results, texts).value.1 == None
    decreases |results|
  {
    if results != [] {
      var (p, t) := results[0].value;
      NumberedTail(results, |results|, |texts|);
      assert NoError(results[1..]) by {
        forall j | 0 <= j < |results| - 1 ensures results[1..][j].Ok? {
          assert results[1..][j] == results[j + 1];
        }
      }
      CollectClean(results[1..], texts[p - 1 := Some(t)]);
    }
  }

  /** A collection that ends without an error met no error. */
  lemma {:induction false} CollectNoError(results: seq<PageResult>, texts: seq<Option<string>>)
    requires Collect(results, texts).Returns? && Collect(results, texts).value.1.None?
    ensures NoError(results)
    decreases |results|
  {
    if results != [] {
      var (p, t) := results[0].value;
      var rest := results[1..];
      CollectNoError(rest, texts[p - 1 := Some(t)]);
      forall i | 0 <= i < |results| ensures results[i].Ok? {
        if i > 0 {
          assert results[i] == rest[i - 1];
        }
      }
    }
  }

  /** The body of `process_pdf_parallel`, between taking the guard and
      dropping it. */
  method RunPdfTask(app: AppState, id: string, rendered: Result<seq<nat>, string>,
                    ocr: nat -> Result<string, string>, translate: (nat, string) -> Result<string, string>,
                    ocrOrder: nat -> seq<nat>, trOrder: nat -> seq<nat>, cancel: nat -> bool,
                    stored: seq<string>)
    returns (outcome: Outcome)
    requires rendered.Ok? ==> OrdersFit(rendered.value, ocrOrder, trOrder)
    modifies app
    ensures Ended(old(app.tasks), app.tasks, id, outcome, stored)
    ensures rendered.Err? ==> outcome == Failed("PDF 处理失败: " + rendered.error)
    ensures rendered == Ok([]) ==> outcome == Failed("PDF 没有页面")
    ensures rendered.Ok? && (forall p :: p in rendered.value ==> 1 <= p <= |rendered.value|) ==> outcome != Panicked
    ensures outcome == Completed ==> rendered.Ok? && forall p :: p in rendered.value ==>
      ocr(p).Ok? && translate(p, ocr(p).value).Ok?
    ensures rendered.Ok? && rendered.value != [] && (forall k :: !cancel(k)) &&
            (forall p :: p in rendered.value ==> 1 <= p <= |rendered.value|) ==>
            Decided(rendered.value, outcome, ocr, translate)
  {
    ghost var start := app.tasks;
    if rendered.Err? {
      EndedFailed(app.tasks, app.tasks, id, "PDF 处理失败: " + rendered.error, stored);
      app.SetError(id, "PDF 处理失败: " + rendered.error);
      return Failed("PDF 处理失败: " + rendered.error);
    }
    var pages := rendered.value;
    var total := |pages|;
    if total == 0 {
      EndedFailed(app.tasks, app.tasks, id, "PDF 没有页面", stored);
      app.SetError(id, "PDF 没有页面");
      return Failed("PDF 没有页面");
    }
    SetOnlyTask(app.tasks, app.tasks, id, ToRendering(total));
    app.SetRendering(id, total);
    ghost var mid := app.tasks;
    outcome := ProcessAndCollect(app, id, pages, ocr, translate, ocrOrder, trOrder, cancel, stored);
    EndedAfter(start, mid, app.tasks, id, outcome, stored);
  }

  /** How a task over `pages` ends when no read of its cancellation flag
      answers true: it completes exactly when every page is recognised
      and translated, and otherwise fails with the message of a page that
      failed. */
  predicate Decided(pages: seq<nat>, outcome: Outcome, ocr: nat -> Result<string, string>,
                    translate: (nat, string) -> Result<string, string>) {
    && (outcome == Completed <==> AllSucceed(pages, ocr, translate))
    && (outcome != Completed ==>
          outcome.Failed? && exists p :: p in pages && UnitFailed(p, outcome.msg, ocr, translate))
  }

  /** The part of `process_pdf_parallel` after `set_rendering`: the pages
      are processed, then collected, and the task ends. */
  method ProcessAndCollect(app: AppState, id: string, pages: seq<nat>,
                           ocr: nat -> Result<string, string>, translate: (nat, string) -> Result<string, string>,
                           ocrOrder: nat -> seq<nat>, trOrder: nat -> seq<nat>, cancel: nat -> bool,
                           stored: seq<string>)
    returns (outcome: Outcome)
    requires OrdersFit(pages, ocrOrder, trOrder)
    modifies app
    ensures Ended(old(app.tasks), app.tasks, id, outcome, stored)
    ensures (forall p :: p in pages ==> 1 <= p <= |pages|) ==> outcome != Panicked
    ensures outcome == Completed ==> AllSucceed(pages, ocr, translate)
    ensures (forall k :: !cancel(k)) && (forall p :: p in pages ==> 1 <= p <= |pages|) ==>
            Decided(pages, outcome, ocr, translate)
  {
    var results, checks, batches, heads := ProcessPagesParallel(pages, ocr, translate, ocrOrder, trOrder, cancel);
    if forall p :: p in pages ==> 1 <= p <= |pages| {
      NumberedResults(pages, results, checks, heads, batches, ocr, translate, cancel, |pages|);
    }
    outcome := CollectAndFinish(app, id, results, |pages|, cancel, checks, stored);
    if outcome == Completed {
      CompletedResults(pages, results, checks, heads, batches, ocr, translate, cancel);
    }
    if (forall k :: !cancel(k)) && (forall p :: p in pages ==> 1 <= p <= |pages|) {
      CollectDecides(pages, results, checks, heads, batches, ocr, translate, cancel, outcome);
    }
  }

  /** `process_pdf_parallel`. `rendered` is the page list the renderer
      produced (or its error), `cancel` answers the reads of the task's
      cancellation flag in order, and `stored` is what
      `load_all_translated_pages` reads back. The guard gives the task's
      slot back when the task ends, on every path. */
  method ProcessPdfParallel(registry: Registry, app: AppState, id: string,
                            rendered: Result<seq<nat>, string>,
                            ocr: nat -> Result<string, string>, translate: (nat, string) -> Result<string, string>,
                            ocrOrder: nat -> seq<nat>, trOrder: nat -> seq<nat>, cancel: nat -> bool,
                            stored: seq<string>)
    returns (outcome: Outcome)
    requires registry.active > 0
    requires rendered.Ok? ==> OrdersFit(rendered.value, ocrOrder, trOrder)
    modifies registry, app
    ensures registry.active == old(registry.active) - 1
    ensures registry.retrying == old(registry.retrying)
    ensures Ended(old(app.tasks), app.tasks, id, outcome, stored)
    ensures rendered.Err? ==> outcome == Failed("PDF 处理失败: " + rendered.error)
    ensures rendered == Ok([]) ==> outcome == Failed("PDF 没有页面")
    ensures rendered.Ok? && rendered.value != [] && (forall k :: !cancel(k)) &&
            (forall p :: p in rendered.value ==> 1 <= p <= |rendered.value|) ==>
            Decided(rendered.value, outcome, ocr, translate)
  {
    var guard := new TaskGuard(registry);
    outcome := RunPdfTask(app, id, rendered, ocr, translate, ocrOrder, trOrder, cancel, stored);
    guard.Drop();
  }

  /** The pages of a retry that still need work: those without a stored
      translation (`onDisk`), in their original order. */
  function PendingPages(pages: seq<nat>, onDisk: nat -> bool): (r: seq<nat>)
    ensures |r| <= |pages|
    decreases |pages|
  {
    if pages == [] then []
    else
      var last := pages[|pages| - 1];
      PendingPages(pages[..|pages| - 1], onDisk) + (if onDisk(last) then [] else [last])
  }

  /** A page is pending exactly when it is one of the pages and has no
      translated checkpoint. */
  lemma {:induction false} PendingMembers(pages: seq<nat>, onDisk: nat -> bool)
    ensures forall p :: p in PendingPages(pages, onDisk) <==> p in pages && !onDisk(p)
    decreases |pages|
  {
    if pages != [] {
      var init, x := pages[..|pages| - 1], pages[|pages| - 1];
      assert pages == init + [x];
      PendingMembers(init, onDisk);
    }
  }

  lemma PendingSnoc(s: seq<nat>, x: nat, onDisk: nat -> bool)
    ensures PendingPages(s + [x], onDisk) == PendingPages(s, onDisk) + (if onDisk(x) then [] else [x])
  {
    assert (s + [x])[..|s|] == s;
  }

  /** Filtering distributes over concatenation, so the pending pages keep
      their relative order. */
  lemma {:induction false} PendingAppend(a: seq<nat>, b: seq<nat>, onDisk: nat -> bool)
    ensures PendingPages(a + b, onDisk) == PendingPages(a, onDisk) + PendingPages(b, onDisk)
    decreases |b|
  {
    if b == [] {
      assert a + b == a;
    } else {
      var init, x := b[..|b| - 1], b[|b| - 1];
      assert b == init + [x];
      assert a + b == (a + init) + [x];
      PendingSnoc(a + init, x, onDisk);
      PendingSnoc(init, x, onDisk);
      PendingAppend(a, init, onDisk);
    }
  }

  /** With nothing stored, every page is pending, in order. */
  lemma {:induction false} PendingAll(pages: seq<nat>, onDisk: nat -> bool)
    requires forall i :: 0 <= i < |pages| ==> !onDisk(pages[i])
    ensures PendingPages(pages, onDisk) == pages
    decreases |pages|
  {
    if pages != [] {
      var init, x := pages[..|pages| - 1], pages[|pages| - 1];
      assert pages == init + [x];
      assert forall i :: 0 <= i < |init| ==> init[i] == pages[i];
      PendingAll(init, onDisk);
      PendingSnoc(init, x, onDisk);
    }
  }

  /** The part of `process_retry` after the pending pages were processed:
      the cancellation check, the loop that looks for the first error, the
      second cancellation check and the generation, each exit calling
      `finish_retry`. */
  method MergeAndFinish(registry: Registry, app: AppState, id: string, results: seq<PageResult>,
                        cancel: nat -> bool, checks: nat, stored: seq<string>)
    returns (outcome: Outcome)
    modifies registry, app
    ensures registry.active == old(registry.active)
    ensures registry.retrying == old(registry.retrying) - {id}
    ensures registry.finishRetries == old(registry.finishRetries) + [id]
    ensures Ended(old(app.tasks), app.tasks, id, outcome, stored)
    ensures outcome != Panicked
    ensures outcome.Failed? ==> Err(outcome.msg) in results
    ensures outcome == Completed ==> NoError(results) && !cancel(checks) && !cancel(checks + 1)
    ensures forall i :: !cancel(checks) && FirstError(results, i) ==> outcome == Failed(results[i].error)
    ensures !cancel(checks) && !cancel(checks + 1) && NoError(results) ==> outcome == Completed
  {
    if cancel(checks) {
      EndedQuietly(app.tasks, app.tasks, id, stored);
      registry.FinishRetry(id);
      return Stopped;
    }
    var i := 0;
    while i < |results|
      invariant 0 <= i <= |results|
      invariant forall j :: 0 <= j < i ==> results[j].Ok?
    {
      if results[i].Err? {
        EndedFailed(app.tasks, app.tasks, id, results[i].error, stored);
        app.SetError(id, results[i].error);
        registry.FinishRetry(id);
        return Failed(results[i].error);
      }
      i := i + 1;
    }
    if cancel(checks + 1) {
      EndedQuietly(app.tasks, app.tasks, id, stored);
      registry.FinishRetry(id);
      return Stopped;
    }
    Finish(app, id, stored);
    registry.FinishRetry(id);
    return Completed;
  }

  /** The body of `process_retry`, between taking the guard and dropping
      it. `processed` are the pages handed to the batch scheduler. */
  method RunRetryTask(registry: Registry, app: AppState, id: string,
                      rendered: Result<seq<nat>, string>, onDisk: nat -> bool,
                      ocr: nat -> Result<string, string>, translate: (nat, string) -> Result<string, string>,
                      ocrOrder: nat -> seq<nat>, trOrder: nat -> seq<nat>, cancel: nat -> bool,
                      stored: seq<string>)
    returns (outcome: Outcome, processed: seq<nat>)
    requires rendered.Ok? ==> OrdersFit(PendingPages(rendered.value, onDisk), ocrOrder, trOrder)
    modifies registry, app
    ensures registry.active == old(registry.active)
    ensures registry.retrying == old(registry.retrying) - {id}
    ensures registry.finishRetries == old(registry.finishRetries) + [id]
    ensures Ended(old(app.tasks), app.tasks, id, outcome, stored)
    ensures outcome != Panicked
    ensures rendered.Err? ==> outcome == Failed("PDF 处理失败: " + rendered.error) && processed == []
    ensures rendered == Ok([]) ==> outcome == Failed("PDF 没有页面") && processed == []
    ensures rendered.Ok? && rendered.value != [] ==> processed == PendingPages(rendered.value, onDisk)
    ensures rendered.Ok? && rendered.value != [] && processed == [] ==> outcome == Completed
    ensures outcome == Completed ==> forall p :: p in processed ==> ocr(p).Ok? && translate(p, ocr(p).value).Ok?
    ensures rendered.Ok? && rendered.value != [] && (forall k :: !cancel(k)) ==>
            Decided(processed, outcome, ocr, translate)
  {
    processed := [];
    if rendered.Err? {
      EndedFailed(app.tasks, app.tasks, id, "PDF 处理失败: " + rendered.error, stored);
      app.SetError(id, "PDF 处理失败: " + rendered.error);
      registry.FinishRetry(id);
      return Failed("PDF 处理失败: " + rendered.error), [];
    }
    var pages := rendered.value;
    if |pages| == 0 {
      EndedFailed(app.tasks, app.tasks, id, "PDF 没有页面", stored);
      app.SetError(id, "PDF 没有页面");
      registry.FinishRetry(id);
      return Failed("PDF 没有页面"), [];
    }
    processed := PendingPages(pages, onDisk);
    if processed == [] {
      NothingPending(ocr, translate);
      Finish(app, id, stored);
      registry.FinishRetry(id);
      return Completed, processed;
    }
    outcome := ProcessAndMerge(registry, app, id, processed, ocr, translate, ocrOrder, trOrder, cancel, stored);
  }

  /** A task with no pages to process is decided by completing. */
  lemma NothingPending(ocr: nat -> Result<string, string>, translate: (nat, string) -> Result<string, string>)
    ensures Decided([], Completed, ocr, translate)
  {
  }

  /** The part of `process_retry` after the pending pages were found: they
      are processed, the results are merged, and the task ends. */
  method ProcessAndMerge(registry: Registry, app: AppState, id: string, processed: seq<nat>,
                         ocr: nat -> Result<string, string>, translate: (nat, string) -> Result<string, string>,
                         ocrOrder: nat -> seq<nat>, trOrder: nat -> seq<nat>, cancel: nat -> bool,
                         stored: seq<string>)
    returns (outcome: Outcome)
    requires OrdersFit(processed, ocrOrder, trOrder)
    modifies registry, app
    ensures registry.active == old(registry.active)
    ensures registry.retrying == old(registry.retrying) - {id}
    ensures registry.finishRetries == old(registry.finishRetries) + [id]
    ensures Ended(old(app.tasks), app.tasks, id, outcome, stored)
    ensures outcome != Panicked
    ensures outcome == Completed ==> AllSucceed(processed, ocr, translate)
    ensures (forall k :: !cancel(k)) ==> Decided(processed, outcome, ocr, translate)
  {
    var results, checks, batches, heads := ProcessPagesParallel(processed, ocr, translate, ocrOrder, trOrder, cancel);
    outcome := MergeAndFinish(registry, app, id, results, cancel, checks, stored);
    if outcome == Completed {
      CompletedResults(processed, results, checks, heads, batches, ocr, translate, cancel);
    }
    if forall k :: !cancel(k) {
      MergeDecides(processed, results, checks, heads, batches, ocr, translate, cancel, outcome);
    }
  }

  /** `process_retry`: the task's pages are re-rendered, the ones without a
      stored translation are processed, and the document is generated
      from what is stored. Every path calls `finish_retry` exactly once,
      and the guard gives the slot back when the task ends. */
  method ProcessRetry(registry: Registry, app: AppState, id: string,
                      rendered: Result<seq<nat>, string>, onDisk: nat -> bool,
                      ocr: nat -> Result<string, string>, translate: (nat, string) -> Result<string, string>,
                      ocrOrder: nat -> seq<nat>, trOrder: nat -> seq<nat>, cancel: nat -> bool,
                      stored: seq<string>)
    returns (outcome: Outcome, processed: seq<nat>)
    requires registry.active > 0
    requires rendered.Ok? ==> OrdersFit(PendingPages(rendered.value, onDisk), ocrOrder, trOrder)
    modifies registry, app
    ensures registry.active == old(registry.active) - 1
    ensures registry.finishRetries == old(registry.finishRetries) + [id]
    ensures id !in registry.retrying
    ensures Ended(old(app.tasks), app.tasks, id, outcome, stored)
    ensures rendered.Err? ==> outcome == Failed("PDF 处理失败: " + rendered.error) && processed == []
    ensures rendered == Ok([]) ==> outcome == Failed("PDF 没有页面") && processed == []
    ensures rendered.Ok? && rendered.value != [] ==> processed == PendingPages(rendered.value, onDisk)
    ensures rendered.Ok? && rendered.value != [] && processed == [] ==> outcome == Completed
    ensures rendered.Ok? && rendered.value != [] && (forall k :: !cancel(k)) ==>
            Decided(processed, outcome, ocr, translate)
  {
    var guard := new TaskGuard(registry);
    outcome, processed := RunRetryTask(registry, app, id, rendered, onDisk, ocr, translate,
                                       ocrOrder, trOrder, cancel, stored);
    guard.Drop();
  }
}
