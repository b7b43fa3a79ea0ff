/** The downloads table of api.py as values: the record, the progress
    events the fetch engine reports, and what each handler computes from
    the table. The class in service.dfy applies these to its state. */
module Jobs {
  import opened Wrappers
  import Utf8
  import Base64

  const Downloading := "Downloading"
  const Completed := "Completed"
  /** The engine's label for a finished transfer. */
  const Finished := "finished"
  const DefaultExt := "mp4"
  const UnknownTitle := "Unknown Title"
  const TempFolder := "temp_downloads"

  /** One row of the `downloads` table; its id is the key it is stored under.
      `title` is None until a successful fetch writes it. */
  datatype Job = Job(url: string, fileName: string, status: string, percent: real, title: Option<string>)

  type Table = map<string, Job>

  /** A progress report from the fetch engine: its status label and the
      optional `downloaded_bytes` and `total_bytes` entries. */
  datatype ProgressEvent = ProgressEvent(status: string, downloadedBytes: Option<nat>, totalBytes: Option<nat>)

  /** How the fetch ended: the info it returned (with its optional `ext`
      and `title` entries), or an exception. */
  datatype FetchOutcome = Fetched(ext: Option<string>, title: Option<string>) | FetchFailed

  datatype HttpError = HttpError(status: nat, detail: string)

  /** The percentage the hook stores for a non-finished event. A missing or
      zero `total_bytes` gives 0; a positive total with no `downloaded_bytes`
      divides None, which raises (None here). */
  function Percent(e: ProgressEvent): (r: Option<real>)
    ensures (e.totalBytes.None? || e.totalBytes == Some(0)) ==> r == Some(0.0)
    ensures e.totalBytes.Some? && e.totalBytes.value > 0 ==> (r.None? <==> e.downloadedBytes.None?)
    ensures r.Some? && e.totalBytes.Some? && e.totalBytes.value > 0 ==>
              r.value * e.totalBytes.value as real == e.downloadedBytes.value as real * 100.0
  {
    match e.totalBytes
    case None => Some(0.0)
    case Some(total) =>
      if total == 0 then Some(0.0)
      else if e.downloadedBytes.None? then None
      else Some(e.downloadedBytes.value as real / total as real * 100.0)
  }

  /** What a call of the progress hook leaves behind: the updated table, or
      an exception raised before anything was written. */
  datatype HookResult = Updated(table: Table) | Raised

  /** `progress_hook`: a finished event sets the status to Completed; any
      other event stores its label and percentage. Updating an id that is
      not in the table changes no row. */
  function ApplyProgress(t: Table, id: string, e: ProgressEvent): (r: HookResult)
    ensures r.Raised? <==> e.status != Finished && Percent(e).None?
    ensures r.Updated? ==> r.table.Keys == t.Keys
    ensures r.Updated? ==> forall k :: k in t && k != id ==> r.table[k] == t[k]
    ensures r.Updated? && id in t ==>
              && r.table[id].url == t[id].url
              && r.table[id].fileName == t[id].fileName
              && r.table[id].title == t[id].title
    ensures r.Updated? && id in t && e.status == Finished ==>
              r.table[id].status == Completed && r.table[id].percent == t[id].percent
    ensures r.Updated? && id in t && e.status != Finished ==>
              r.table[id].status == e.status && Some(r.table[id].percent) == Percent(e)
  {
    if e.status == Finished then
      Updated(if id in t then t[id := t[id].(status := Completed)] else t)
    else match Percent(e)
      case None => Raised
      case Some(p) => Updated(if id in t then t[id := t[id].(status := e.status, percent := p)] else t)
  }

  /** The table after the engine has called the hook with `events` in order,
      and whether one of those calls raised (which stops the fetch). */
  datatype HookRun = HookRun(table: Table, raised: bool)

  function RunHooks(t: Table, id: string, events: seq<ProgressEvent>): (r: HookRun)
    ensures r.table.Keys == t.Keys
    ensures forall k :: k in t && k != id ==> r.table[k] == t[k]
    ensures id in t ==>
              && r.table[id].url == t[id].url
              && r.table[id].fileName == t[id].fileName
              && r.table[id].title == t[id].title
    ensures r.raised <==> exists i :: 0 <= i < |events| && ApplyProgress(t, id, events[i]).Raised?
    decreases |events|
  {
    if events == [] then HookRun(t, false)
    else match ApplyProgress(t, id, events[0])
      case Raised => HookRun(t, true)
      case Updated(t1) =>
        var r := RunHooks(t1, id, events[1..]);
        assert forall i :: 1 <= i < |events| ==> events[i] == events[1..][i - 1];
        r
  }

  /** The name the fetched file is saved under: the id and the reported
      extension, mp4 when none is reported. */
  function FileNameFor(id: string, ext: Option<string>): (r: string)
    ensures |r| > |id| && r[..|id|] == id && r[|id|] == '.'
    ensures ext.Some? ==> r[|id| + 1..] == ext.value
    ensures ext.None? ==> r[|id| + 1..] == "mp4"
  {
    id + "." + ext.GetOr(DefaultExt)
  }

  /** `download_video` after the engine returns: on success record the file
      name and title, then (in the `finally` branch) mark the job Completed,
      whether or not the fetch succeeded. */
  function Finalise(t: Table, id: string, outcome: FetchOutcome, raised: bool): (r: Table)
    ensures r.Keys == t.Keys
    ensures forall k :: k in t && k != id ==> r[k] == t[k]
    ensures id in t ==> r[id].status == Completed && r[id].url == t[id].url && r[id].percent == t[id].percent
    ensures id in t && !raised && outcome.Fetched? ==>
              r[id].fileName == FileNameFor(id, outcome.ext) && r[id].title == Some(outcome.title.GetOr(UnknownTitle))
    ensures id in t && (raised || outcome.FetchFailed?) ==>
              r[id].fileName == t[id].fileName && r[id].title == t[id].title
  {
    var t1 :=
      if !raised && outcome.Fetched? && id in t
      then t[id := t[id].(fileName := FileNameFor(id, outcome.ext), title := Some(outcome.title.GetOr(UnknownTitle)))]
      else t;
    if id in t1 then t1[id := t1[id].(status := Completed)] else t1
  }

  /** The whole background fetch: the progress events, then finalisation. */
  function FetchResult(t: Table, id: string, events: seq<ProgressEvent>, outcome: FetchOutcome): (r: Table)
    ensures r.Keys == t.Keys
    ensures forall k :: k in t && k != id ==> r[k] == t[k]
    ensures id in t ==> r[id].status == Completed && r[id].percent == RunHooks(t, id, events).table[id].percent
  {
    var run := RunHooks(t, id, events);
    Finalise(run.table, id, outcome, run.raised)
  }

  /** Reply of `get_progress`. */
  datatype ProgressReply =
    | Progress(url: string, status: string, percent: real, title: Option<string>)
    | NoProgress

  function GetProgress(t: Table, id: string): (r: ProgressReply)
    ensures r.NoProgress? <==> id !in t
    ensures r.Progress? ==>
              r == Progress(t[id].url, t[id].status, t[id].percent, t[id].title)
  {
    if id in t then Progress(t[id].url, t[id].status, t[id].percent, t[id].title)
    else NoProgress
  }

  /** The display id: the UTF-8 bytes of the id in Base64. */
  function EncodeId(id: string): (r: string)
    ensures DecodeId(r) == Some(id)
  {
    Base64.RoundTrip(Utf8.Encode(id));
    Utf8.RoundTrip(id);
    Base64.Encode(Utf8.Encode(id))
  }

  /** Recover an id from its display form. */
  function DecodeId(s: string): Option<string> {
    match Base64.Decode(s)
    case None => None
    case Some(bytes) => Utf8.Decode(bytes)
  }

  /** One entry of the `list_files` reply. */
  datatype FileInfo = FileInfo(fileNameEncoded: string, originalFileName: string, id: string, title: Option<string>, url: string)

  datatype ListReply = Files(files: seq<FileInfo>) | NoFiles

  /** The entry of record `j` stored under `id`. */
  function InfoOf(id: string, j: Job): (r: FileInfo)
    ensures r.id == id && r.originalFileName == j.fileName && r.title == j.title && r.url == j.url
    ensures DecodeId(r.fileNameEncoded) == Some(id)
  {
    FileInfo(EncodeId(id), j.fileName, id, j.title, j.url)
  }

  function CompletedIds(t: Table): set<string> {
    set k | k in t && t[k].status == Completed
  }

  /** A correct `list_files` reply for `t`: every Completed record exactly
      once, in some order, or the "no files" reply when there is none. */
  ghost predicate IsListing(t: Table, r: ListReply) {
    if CompletedIds(t) == {} then r == NoFiles
    else r.Files? && ListsExactly(t, r.files, CompletedIds(t))
  }

  /** `out` lists the records of `t` whose ids are `done`, each exactly once. */
  ghost predicate ListsExactly(t: Table, out: seq<FileInfo>, done: set<string>) {
    && (forall i :: 0 <= i < |out| ==> out[i].id in done && out[i].id in t && out[i] == InfoOf(out[i].id, t[out[i].id]))
    && (forall k :: k in done ==> exists i :: 0 <= i < |out| && out[i].id == k)
    && (forall i, j :: 0 <= i < j < |out| ==> out[i].id != out[j].id)
  }

  lemma ListsExactlyAppend(t: Table, out: seq<FileInfo>, done: set<string>, k: string)
    requires ListsExactly(t, out, done) && k in t && k !in done
    ensures ListsExactly(t, out + [InfoOf(k, t[k])], done + {k})
  {
    var out' := out + [InfoOf(k, t[k])];
    assert out'[|out|].id == k;
    forall j | j in done + {k}
      ensures exists i :: 0 <= i < |out'| && out'[i].id == j
    {
      if j != k {
        var i :| 0 <= i < |out| && out[i].id == j;
        assert out'[i].id == j;
      }
    }
  }

  /** The file in the temp folder a record names, if it is a regular file
      there: joining the folder with "" names the folder itself. */
  predicate IsFile(files: set<string>, name: string) {
    name != "" && name in files
  }

  /** What `download_file` streams: the path and the attachment file name. */
  datatype Served = Served(path: string, downloadName: string)

  /** The 404 raised for a missing record or file is caught by the generic
      handler and re-raised as a 500 whose detail embeds it. */
  const ServeError := HttpError(500, "Internal Server Error: 404: File not found")
  const DeleteError := HttpError(500, "Internal Server Error")

  function ServeFile(t: Table, files: set<string>, id: string): (r: Result<Served, HttpError>)
    ensures r.Ok? <==> id in t && IsFile(files, t[id].fileName)
    ensures r.Ok? ==>
              r.value.downloadName == t[id].fileName && r.value.path == TempFolder + "/" + t[id].fileName
    ensures r.Err? ==> r.error == ServeError
  {
    if id !in t || !IsFile(files, t[id].fileName) then Err(ServeError)
    else Ok(Served(TempFolder + "/" + t[id].fileName, t[id].fileName))
  }
}

/** Properties of the handlers that relate several calls. */
module JobLemmas {
  import opened Wrappers
  import Utf8
  import Base64
  import opened Jobs

  /** Replaying a progress event leaves the table as one delivery did. */
  lemma ProgressIdempotent(t: Table, id: string, e: ProgressEvent)
    requires ApplyProgress(t, id, e).Updated?
    ensures ApplyProgress(ApplyProgress(t, id, e).table, id, e) == ApplyProgress(t, id, e)
  {
    var t1 := ApplyProgress(t, id, e).table;
    if id in t {
      assert t1[id := t1[id]] == t1;
    }
  }

  /** Delivering one more event: a run that raised stays as it was; otherwise
      the hook is applied to the table the earlier events left. */
  lemma {:induction false} RunHooksSnoc(t: Table, id: string, events: seq<ProgressEvent>, e: ProgressEvent)
    ensures var run := RunHooks(t, id, events);
            RunHooks(t, id, events + [e]) ==
              if run.raised then run
              else match ApplyProgress(run.table, id, e)
                case Raised => HookRun(run.table, true)
                case Updated(t2) => HookRun(t2, false)
    decreases |events|
  {
    if events == [] {
      assert events + [e] == [e];
      assert [e][1..] == [];
    } else {
      assert (events + [e])[0] == events[0];
      assert (events + [e])[1..] == events[1..] + [e];
      match ApplyProgress(t, id, events[0])
      case Raised =>
      case Updated(t1) =>
        RunHooksSnoc(t1, id, events[1..], e);
    }
  }

  /** After a run that did not raise, the job holds what the last event wrote:
      Completed (percent kept) for a finished event, else its label and percentage. */
  lemma LastEventWins(t: Table, id: string, events: seq<ProgressEvent>, e: ProgressEvent)
    requires id in t
    ensures var before := RunHooks(t, id, events);
            var after := RunHooks(t, id, events + [e]);
            !after.raised ==>
              && (e.status == Finished ==> after.table[id].status == Completed && after.table[id].percent == before.table[id].percent)
              && (e.status != Finished ==> after.table[id].status == e.status && Some(after.table[id].percent) == Percent(e))
  {
    RunHooksSnoc(t, id, events, e);
    StepEffect(RunHooks(t, id, events), RunHooks(t, id, events + [e]), id, e);
  }

  lemma StepEffect(run: HookRun, after: HookRun, id: string, e: ProgressEvent)
    requires id in run.table
    requires after == if run.raised then run
              else match ApplyProgress(run.table, id, e)
                case Raised => HookRun(run.table, true)
                case Updated(t2) => HookRun(t2, false)
    ensures !after.raised ==>
              && (e.status == Finished ==> after.table[id].status == Completed && after.table[id].percent == run.table[id].percent)
              && (e.status != Finished ==> after.table[id].status == e.status && Some(after.table[id].percent) == Percent(e))
  {
  }

  /** "finished" is not terminal: a later event of another label replaces
      the Completed status it wrote. */
  lemma FinishedNotTerminal(t: Table, id: string, e: ProgressEvent)
    requires id in t && e.status != Finished && Percent(e).Some?
    ensures ApplyProgress(t, id, ProgressEvent(Finished, None, None)).Updated?
    ensures var t1 := ApplyProgress(t, id, ProgressEvent(Finished, None, None)).table;
            t1[id].status == Completed && ApplyProgress(t1, id, e).table[id].status == e.status
  {
  }

  /** Whatever the events and the outcome, the background fetch leaves the
      job Completed; only a fetch that returned without a hook raising
      writes the file name and title, and no other record changes. */
  lemma FetchEndsCompleted(t: Table, id: string, events: seq<ProgressEvent>, outcome: FetchOutcome)
    requires id in t
    ensures var r := FetchResult(t, id, events, outcome);
            && r.Keys == t.Keys
            && (forall k :: k in t && k != id ==> r[k] == t[k])
            && r[id].status == Completed
            && r[id].url == t[id].url
    ensures var r := FetchResult(t, id, events, outcome);
            var ok := outcome.Fetched? && !RunHooks(t, id, events).raised;
            && (ok ==> r[id].fileName == FileNameFor(id, outcome.ext)
                       && r[id].title == Some(outcome.title.GetOr(UnknownTitle)))
            && (!ok ==> r[id].fileName == t[id].fileName && r[id].title == t[id].title)
  {
  }

  /** A fetch that returned, and left its file in the folder, can be served. */
  lemma FetchedFileIsServed(t: Table, files: set<string>, id: string, events: seq<ProgressEvent>,
                            ext: Option<string>, title: Option<string>)
    requires id in t && !RunHooks(t, id, events).raised && FileNameFor(id, ext) in files
    ensures ServeFile(FetchResult(t, id, events, Fetched(ext, title)), files, id)
         == Ok(Served(TempFolder + "/" + FileNameFor(id, ext), FileNameFor(id, ext)))
  {
    FetchEndsCompleted(t, id, events, Fetched(ext, title));
  }

  /** A job deleted while its fetch ran is not brought back: every update
      of the fetch matches no row. */
  lemma FetchOfUnknownId(t: Table, id: string, events: seq<ProgressEvent>, outcome: FetchOutcome)
    requires id !in t
    ensures FetchResult(t, id, events, outcome) == t
  {
    var run := RunHooks(t, id, events);
    assert run.table == t;
  }

  /** The saved file name starts with the id, so files of distinct jobs whose
      ids have the same length (as uuid4 strings do) never collide. */
  lemma FileNamesDistinct(id1: string, id2: string, ext1: Option<string>, ext2: Option<string>)
    requires |id1| == |id2| && id1 != id2
    ensures FileNameFor(id1, ext1) != FileNameFor(id2, ext2)
  {
    assert FileNameFor(id1, ext1)[..|id1|] == id1;
    assert FileNameFor(id2, ext2)[..|id2|] == id2;
  }

  lemma DisplayIdInjective(id1: string, id2: string)
    requires EncodeId(id1) == EncodeId(id2)
    ensures id1 == id2
  {
    assert DecodeId(EncodeId(id1)) == Some(id1);
  }

  /** A listing is "no files" exactly when no record is Completed, and
      otherwise holds one entry per Completed record. */
  lemma ListingShape(t: Table, r: ListReply)
    requires IsListing(t, r)
    ensures r.NoFiles? <==> CompletedIds(t) == {}
    ensures r.Files? ==> |r.files| == |CompletedIds(t)|
  {
    if r.Files? {
      var ids := set i | 0 <= i < |r.files| :: r.files[i].id;
      assert ids == CompletedIds(t);
      DistinctIdsCount(r.files);
    }
  }

  lemma {:induction false} DistinctIdsCount(fs: seq<FileInfo>)
    requires forall i, j :: 0 <= i < j < |fs| ==> fs[i].id != fs[j].id
    ensures |set i | 0 <= i < |fs| :: fs[i].id| == |fs|
  {
    if fs != [] {
      var last := |fs| - 1;
      DistinctIdsCount(fs[..last]);
      var front := set i | 0 <= i < last :: fs[..last][i].id;
      var all := set i | 0 <= i < |fs| :: fs[i].id;
      assert all == front + {fs[last].id};
      assert fs[last].id !in front;
    }
  }

  /** After a fetch of a listed record's job, it appears in every listing. */
  lemma FetchedJobIsListed(t: Table, id: string, events: seq<ProgressEvent>, outcome: FetchOutcome, r: ListReply)
    requires id in t
    requires IsListing(FetchResult(t, id, events, outcome), r)
    ensures r.Files?
    ensures exists i :: 0 <= i < |r.files| && r.files[i].id == id && r.files[i].fileNameEncoded == EncodeId(id)
  {
    var t1 := FetchResult(t, id, events, outcome);
    FetchEndsCompleted(t, id, events, outcome);
    assert id in CompletedIds(t1);
  }

  /** An empty table (after clearing) lists as "no files available". */
  lemma EmptyTableListing(r: ListReply)
    ensures IsListing(map[], r) <==> r == NoFiles
  {
    assert CompletedIds(map[]) == {};
  }

  /** Every listed entry's display id decodes to that entry's id. */
  lemma ListedIdsDecode(t: Table, r: ListReply, i: nat)
    requires IsListing(t, r) && r.Files? && i < |r.files|
    ensures DecodeId(r.files[i].fileNameEncoded) == Some(r.files[i].id)
  {
    assert r.files[i] == InfoOf(r.files[i].id, t[r.files[i].id]);
  }
}
