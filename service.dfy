/** The API's shared state, the `downloads` table and the temp folder, and
    one method per handler, each run as one atomic step. */
module Service {
  import opened Wrappers
  import opened Jobs

  /** Reply of the create endpoint. */
  datatype Started = Started(message: string, downloadId: string)

  class DownloadService {
    /** The `downloads` table, keyed by id. */
    var jobs: Table
    /** Names of the regular files in the temp folder. */
    var files: set<string>

    /** A directory entry never has an empty name. */
    ghost predicate Valid()
      reads this
    {
      "" !in files
    }

    /** The service over a table and a folder as they stand at startup. */
    constructor (table: Table, folder: set<string>)
      requires "" !in folder
      ensures Valid() && jobs == table && files == folder
    {
      jobs := table;
      files := folder;
    }

    /** `download_video_endpoint`: insert a fresh record with the column
        defaults (percent 0, no title) and report its id. The fetch itself is
        run afterwards, by `DownloadVideo`. */
    method CreateDownload(url: string, id: string) returns (reply: Started)
      requires Valid() && id !in jobs
      modifies this
      ensures Valid() && files == old(files)
      ensures jobs.Keys == old(jobs).Keys + {id}
      ensures forall k :: k in old(jobs) ==> jobs[k] == old(jobs)[k]
      ensures jobs[id] == Job(url, "", Downloading, 0.0, None)
      ensures reply == Started("Download started", id)
    {
      jobs := jobs[id := Job(url, "", Downloading, 0.0, None)];
      reply := Started("Download started", id);
    }

    /** `progress_hook`; `raised` is true when computing the percentage
        raised, in which case nothing is written. */
    method ProgressHook(id: string, e: ProgressEvent) returns (raised: bool)
      requires Valid()
      modifies this
      ensures Valid() && files == old(files)
      ensures raised <==> ApplyProgress(old(jobs), id, e).Raised?
      ensures jobs == if raised then old(jobs) else ApplyProgress(old(jobs), id, e).table
    {
      match ApplyProgress(jobs, id, e)
      case Raised => raised := true;
      case Updated(t) => jobs, raised := t, false;
    }

    /** `download_video`: the engine calls the hook for each event in turn
        until one raises (which aborts the fetch), then finalisation records
        the outcome and marks the job Completed. `produced` are the files the
        engine left in the temp folder. */
    method DownloadVideo(id: string, events: seq<ProgressEvent>, outcome: FetchOutcome, produced: set<string>)
      requires Valid() && "" !in produced
      modifies this
      ensures Valid()
      ensures jobs == FetchResult(old(jobs), id, events, outcome)
      ensures files == old(files) + produced
    {
      var i, raised := 0, false;
      while i < |events| && !raised
        invariant 0 <= i <= |events|
        invariant Valid() && files == old(files)
        invariant !raised ==> RunHooks(old(jobs), id, events) == RunHooks(jobs, id, events[i..])
        invariant raised ==> RunHooks(old(jobs), id, events) == HookRun(jobs, true)
        decreases |events| - i
      {
        ghost var before := jobs;
        raised := ProgressHook(id, events[i]);
        assert events[i..][1..] == events[i + 1..];
        if raised {
          assert RunHooks(before, id, events[i..]) == HookRun(before, true);
        }
        i := i + 1;
      }
      assert !raised ==> events[i..] == [];
      jobs := Finalise(jobs, id, outcome, raised);
      files := files + produced;
    }

    /** `list_files`: one entry per Completed record, in the order the query
        yields them (unspecified here), or "no files" when there is none. */
    method ListFiles() returns (r: ListReply)
      ensures IsListing(jobs, r)
    {
      var pending := CompletedIds(jobs);
      if pending == {} {
        return NoFiles;
      }
      var out: seq<FileInfo> := [];
      ghost var done: set<string> := {};
      while pending != {}
        invariant pending + done == CompletedIds(jobs) && pending !! done
        invariant ListsExactly(jobs, out, done)
        decreases pending
      {
        var k :| k in pending;
        ListsExactlyAppend(jobs, out, done, k);
        out := out + [InfoOf(k, jobs[k])];
        pending, done := pending - {k}, done + {k};
      }
      r := Files(out);
    }

    /** `delete_file`: remove the record's file, when it is one, and the
        record. An unknown id is an error that changes nothing. */
    method DeleteFile(id: string) returns (r: Result<string, HttpError>)
      requires Valid()
      modifies this
      ensures Valid()
      ensures id !in old(jobs) ==> r == Err(DeleteError) && jobs == old(jobs) && files == old(files)
      ensures id in old(jobs) ==>
                && r == Ok("File deleted successfully")
                && jobs == old(jobs) - {id}
                && files == old(files) - {old(jobs)[id].fileName}
      ensures GetProgress(jobs, id) == NoProgress && ServeFile(jobs, files, id).Err?
    {
      if id !in jobs {
        return Err(DeleteError);
      }
      var name := jobs[id].fileName;
      if IsFile(files, name) {
        files := files - {name};
      }
      jobs := jobs - {id};
      r := Ok("File deleted successfully");
    }

    /** `clear_all_downloads`: remove every regular file the folder lists,
        then every record, whatever its status. */
    method ClearAllDownloads() returns (message: string)
      requires Valid()
      modifies this
      ensures Valid() && jobs == map[] && files == {}
      ensures message == "All downloads and records cleared successfully"
    {
      var listing := files;
      while listing != {}
        invariant Valid() && files == listing
        decreases listing
      {
        var name :| name in listing;
        if IsFile(files, name) {
          files := files - {name};
        }
        listing := listing - {name};
      }
      jobs := map[];
      message := "All downloads and records cleared successfully";
    }
  }

  /** A client's view of one job, from submission to clearing: the replies
      follow from the handlers' contracts alone. */
  method ClientScenario(url: string)
  {
    var svc := new DownloadService(map[], {});
    var id := "J";
    var started := svc.CreateDownload(url, id);
    assert GetProgress(svc.jobs, id) == Progress(url, Downloading, 0.0, None);

    var raised := svc.ProgressHook(id, ProgressEvent("downloading", Some(50), Some(100)));
    assert !raised && svc.jobs[id].status == "downloading" && svc.jobs[id].percent == 50.0;
    raised := svc.ProgressHook(id, ProgressEvent(Finished, None, None));
    assert svc.jobs[id].status == Completed && svc.jobs[id].percent == 50.0;

    svc.DownloadVideo(id, [], Fetched(Some("webm"), None), {"J.webm"});
    assert svc.jobs[id] == Job(url, "J.webm", Completed, 50.0, Some(UnknownTitle));
    assert svc.files == {"J.webm"} && IsFile(svc.files, "J.webm");
    assert TempFolder + "/" + "J.webm" == "temp_downloads/J.webm";
    assert ServeFile(svc.jobs, svc.files, id) == Ok(Served("temp_downloads/J.webm", "J.webm"));

    var deleted := svc.DeleteFile(id);
    assert deleted.Ok? && svc.files == {};
    assert ServeFile(svc.jobs, svc.files, id).Err?;
    deleted := svc.DeleteFile(id);
    assert deleted == Err(DeleteError);

    var message := svc.ClearAllDownloads();
    var listing := svc.ListFiles();
    assert CompletedIds(svc.jobs) == {};
    assert listing == NoFiles;
  }
}
