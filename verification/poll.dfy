/** `pollVideoStatus` (`src-main/services/api.ts`): one poll of a video
    task. The records are keyed by task id (the store's lookup and update
    by task id); `downloads` is the registry of in-flight downloads, each
    entry standing for the outcome its promise settles with. Whether a
    file is on disk, the status request and the download are oracles. */
module Poll {
  import opened Wrappers
  import opened Payloads
  import opened Status
  import Store
  import Endpoint
  import Filenames

  type Records = map<string, Store.Generation>

  datatype State = State(records: Records, downloads: map<string, Result<string, string>>)

  /** `fs.statSync(p)` names a non-empty regular file (false when it
      throws). */
  type FileOk = string -> bool

  /** The download of a URL under a file name: the local path, or the
      message of the error it rejects with. */
  type Download = (string, string) -> Result<string, string>

  /** `updateGenerationByTaskId`: the record of that task takes the patch;
      an unknown task id writes nothing. */
  function UpdateByTaskId(records: Records, taskId: string, p: Store.Patch, now: nat): (r: Records)
    ensures r.Keys == records.Keys
    ensures forall k :: k in records && k != taskId ==> r[k] == records[k]
    ensures taskId in records ==> r[taskId] == Store.ApplyPatch(records[taskId], p, now)
  {
    if taskId in records then records[taskId := Store.ApplyPatch(records[taskId], p, now)]
    else records
  }

  /** A completed record whose `result_path` names a non-empty file. */
  predicate OnDisk(g: Store.Generation, fileOk: FileOk) {
    && g.job.status == "completed"
    && g.job.resultPath.Some? && g.job.resultPath.value != []
    && fileOk(g.job.resultPath.value)
  }

  predicate Persisted(records: Records, taskId: string, fileOk: FileOk) {
    taskId in records && OnDisk(records[taskId], fileOk)
  }

  /** What `pollVideoStatus` resolves with; `None` is a field left out. */
  datatype PollResult = PollResult(
    status: string,
    progress: Option<int>,
    videoUrl: Option<string>,
    localPath: Option<string>,
    error: Option<string>)

  const DownloadFailedPrefix: string := "Download failed: "
  /** The message returned to the caller when the download fails. */
  const DownloadFailedNotice: string := "\U{4E0B}\U{8F7D}\U{5931}\U{8D25}: "
  /** The message written when the provider reports a failure without one. */
  const GenerationFailed: string := "\U{89C6}\U{9891}\U{751F}\U{6210}\U{5931}\U{8D25}"

  /** The two candidate status endpoints, tried in order. */
  function StatusPaths(taskId: string): (r: seq<string>)
    ensures |r| == 2
  {
    ["/videos/" + taskId, "/video/" + taskId]
  }

  /** `value || undefined`. */
  function OrUndefined(v: Option<string>): (r: Option<string>)
    ensures r.Some? <==> v.Some? && v.value != []
    ensures r.Some? ==> r == v
  {
    if v.Some? && v.value != [] then v else None
  }

  /** `g?.prompt || g?.storyboard || g?.system_context || ''`. */
  function NameText(records: Records, taskId: string): string {
    if taskId !in records then []
    else
      var q := records[taskId].request;
      if q.prompt != [] then q.prompt
      else if q.storyboard.Some? && q.storyboard.value != [] then q.storyboard.value
      else q.systemContext.GetOr([])
  }

  /** The body of a fresh download promise: a file already on disk for a
      completed record is reused, otherwise the video is downloaded under
      `getVideoFilename`. */
  function FreshDownload(records: Records, taskId: string, url: string, clock: Filenames.LocalTime,
                         fileOk: FileOk, download: Download): (r: Result<string, string>)
    ensures Persisted(records, taskId, fileOk) ==> r == Success(records[taskId].job.resultPath.value)
  {
    if Persisted(records, taskId, fileOk) then Success(records[taskId].job.resultPath.value)
    else download(url, Filenames.VideoFilename(NameText(records, taskId), taskId, clock))
  }

  /** The fields written on every successful status reply. */
  function Observed(status: string, reply: StatusReply): Store.Patch {
    Store.NoChange.(status := Some(status), progress := Some(reply.progress),
                    apiResponse := Some(Polled(reply)))
  }

  function DownloadedPatch(url: string, path: string, reply: StatusReply): Store.Patch {
    Store.NoChange.(status := Some("completed"), progress := Some(100), resultUrl := Some(url),
                    resultPath := Some(path), apiResponse := Some(Polled(reply)))
  }

  function FailedPatch(message: string, reply: StatusReply): Store.Patch {
    Store.NoChange.(status := Some("failed"), errorMessage := Some(message),
                    apiResponse := Some(Polled(reply)))
  }

  /** `result.error || '视频生成失败'`. */
  function FailureMessage(reply: StatusReply): (r: string)
    ensures r != []
    ensures reply.error != [] ==> r == reply.error
    ensures reply.error == [] ==> r == GenerationFailed
  {
    if reply.error != [] then reply.error else GenerationFailed
  }

  /** Where a poll stands once its status is written: settled, or awaiting
      the download promise registered for the task, whose value is
      `outcome`. */
  datatype Step =
    | Done(state: State, result: PollResult)
    | Awaiting(state: State, url: string, reply: StatusReply, outcome: Result<string, string>)

  /** The part of a poll from the status reply up to its `await p`: the
      mapped status is written, and a completed reply with a URL joins the
      task's in-flight download or registers a fresh one. */
  function Begin(s: State, taskId: string, now: nat, clock: Filenames.LocalTime,
                 fileOk: FileOk, download: Download, reply: StatusReply): (r: Step)
    ensures r.state.records.Keys == s.records.Keys
    ensures r.Awaiting? <==> Decide(reply) == "completed" && VideoUrlOf(reply) != []
    ensures r.Awaiting? ==> r.state.downloads == s.downloads[taskId := r.outcome] && r.url == VideoUrlOf(reply)
    ensures r.Awaiting? && taskId in s.downloads ==> r.outcome == s.downloads[taskId]
    ensures r.Done? ==> r.state.downloads == s.downloads
    ensures r.Done? ==> r.result.status == "failed" || r.result.status == MapStatus(reply.status)
  {
    var url := VideoUrlOf(reply);
    var status := Decide(reply);
    var records := UpdateByTaskId(s.records, taskId, Observed(status, reply), now);
    if status == "completed" && url != [] then
      var outcome :=
        if taskId in s.downloads then s.downloads[taskId]
        else FreshDownload(records, taskId, url, clock, fileOk, download);
      Awaiting(State(records, s.downloads[taskId := outcome]), url, reply, outcome)
    else if status == "failed" then
      var message := FailureMessage(reply);
      Done(State(UpdateByTaskId(records, taskId, FailedPatch(message, reply), now), s.downloads),
           PollResult("failed", None, None, None, Some(message)))
    else
      Done(State(records, s.downloads), PollResult(status, Some(reply.progress), None, None, None))
  }

  /** The part of a poll after its `await p` settled with `outcome`: the
      promise's `finally` has dropped the registry entry, and the record is
      marked downloaded or failed. */
  function Finish(s: State, taskId: string, now: nat, url: string, reply: StatusReply,
                  outcome: Result<string, string>): (r: (State, PollResult))
    ensures r.0.records.Keys == s.records.Keys
    ensures r.0.downloads == s.downloads - {taskId}
    ensures r.1.status == "completed" <==> outcome.Success?
    ensures r.1.status == "completed" || r.1.status == "failed"
  {
    var downloads := s.downloads - {taskId};
    if outcome.Success? then
      (State(UpdateByTaskId(s.records, taskId, DownloadedPatch(url, outcome.value, reply), now), downloads),
       PollResult("completed", Some(100), Some(url), Some(outcome.value), None))
    else
      (State(UpdateByTaskId(s.records, taskId, FailedPatch(DownloadFailedPrefix + outcome.error, reply), now), downloads),
       PollResult("failed", Some(reply.progress), Some(url), None, Some(DownloadFailedNotice + outcome.error)))
  }

  /** The part of a poll after the status reply arrived, with nothing
      running in between its two steps. */
  function Settle(s: State, taskId: string, now: nat, clock: Filenames.LocalTime,
                  fileOk: FileOk, download: Download, reply: StatusReply): (r: (State, PollResult))
    ensures r.0.records.Keys == s.records.Keys
    ensures r.0.downloads == s.downloads || r.0.downloads == s.downloads - {taskId}
    ensures r.1.status == "completed" || r.1.status == "failed" || r.1.status == MapStatus(reply.status)
  {
    var b := Begin(s, taskId, now, clock, fileOk, download, reply);
    if b.Done? then (b.state, b.result)
    else
      DropUpdated(s.downloads, taskId, b.outcome);
      Finish(b.state, taskId, now, b.url, b.reply, b.outcome)
  }

  /** Registering an entry and dropping it again leaves the other entries. */
  lemma DropUpdated(m: map<string, Result<string, string>>, k: string, v: Result<string, string>)
    ensures m[k := v] - {k} == m - {k}
  {
  }

  /** Registering the entry already there changes nothing. */
  lemma UpdateSame(m: map<string, Result<string, string>>, k: string)
    requires k in m
    ensures m[k := m[k]] == m
  {
  }

  /** `pollVideoStatus(taskId)`; `now` and `clock` are the database and
      local clocks, `fetch` sends one status request. */
  function PollVideo(s: State, taskId: string, now: nat, clock: Filenames.LocalTime,
                     fileOk: FileOk, fetch: Endpoint.Send<StatusReply>, download: Download)
    : (r: (State, PollResult))
    ensures r.0.records.Keys == s.records.Keys
    ensures r.0.downloads == s.downloads || r.0.downloads == s.downloads - {taskId}
    ensures r.1.status != "completed" && r.1.status != "failed" && r.1.status != "error" ==>
      var reply := Endpoint.Fallback(StatusPaths(taskId), fetch);
      reply.Success? && r.1.status == MapStatus(reply.value.status)
  {
    if Persisted(s.records, taskId, fileOk) then
      var g := s.records[taskId];
      (s, PollResult("completed", Some(100), OrUndefined(g.job.resultUrl), g.job.resultPath, None))
    else
      var reply := Endpoint.Fallback(StatusPaths(taskId), fetch);
      if reply.Failure? then (s, PollResult("error", None, None, None, Some(reply.error.GetOr([]))))
      else Settle(s, taskId, now, clock, fileOk, download, reply.value)
  }

  // ---------------------------------------------------------------------
  // Properties

  /** A completed record with its file on disk is answered from the record:
      neither the network nor the downloader is consulted, and nothing is
      written. */
  lemma PersistedShortCircuits(s: State, taskId: string, now: nat, clock: Filenames.LocalTime,
                               fileOk: FileOk, fetch: Endpoint.Send<StatusReply>, fetch': Endpoint.Send<StatusReply>,
                               download: Download, download': Download)
    requires Persisted(s.records, taskId, fileOk)
    ensures var r := PollVideo(s, taskId, now, clock, fileOk, fetch, download);
      && r == PollVideo(s, taskId, now, clock, fileOk, fetch', download')
      && r.0 == s
      && r.1.status == "completed" && r.1.progress == Some(100)
      && r.1.localPath == s.records[taskId].job.resultPath
  {
  }

  /** A status request that throws ends the poll with `error` and its
      message, writing nothing. */
  lemma FetchErrorWritesNothing(s: State, taskId: string, now: nat, clock: Filenames.LocalTime,
                                fileOk: FileOk, fetch: Endpoint.Send<StatusReply>, download: Download)
    requires !Persisted(s.records, taskId, fileOk)
    requires Endpoint.Fallback(StatusPaths(taskId), fetch).Failure?
    ensures var r := PollVideo(s, taskId, now, clock, fileOk, fetch, download);
      && r.0 == s && r.1.status == "error"
      && r.1.error == Some(Endpoint.Fallback(StatusPaths(taskId), fetch).error.GetOr([]))
  {
  }

  /** The status reply the poll goes on with. */
  predicate Replied(s: State, taskId: string, fileOk: FileOk, fetch: Endpoint.Send<StatusReply>, reply: StatusReply) {
    !Persisted(s.records, taskId, fileOk) && Endpoint.Fallback(StatusPaths(taskId), fetch) == Success(reply)
  }

  /** Whenever the poll reaches the download, its registry entry is gone
      afterwards, and every other entry is untouched. */
  lemma DownloadEntryRemoved(s: State, taskId: string, now: nat, clock: Filenames.LocalTime,
                             fileOk: FileOk, fetch: Endpoint.Send<StatusReply>, download: Download, reply: StatusReply)
    requires Replied(s, taskId, fileOk, fetch, reply)
    requires Decide(reply) == "completed" && VideoUrlOf(reply) != []
    ensures PollVideo(s, taskId, now, clock, fileOk, fetch, download).0.downloads == s.downloads - {taskId}
  {
    var b := Begin(s, taskId, now, clock, fileOk, download, reply);
    DropUpdated(s.downloads, taskId, b.outcome);
    assert Settle(s, taskId, now, clock, fileOk, download, reply)
      == Finish(b.state, taskId, now, b.url, b.reply, b.outcome);
  }

  /** A poll that finds a download in flight joins it: the downloader is
      not called, and the poll settles with the entry's outcome. */
  lemma JoinsInFlightDownload(s: State, taskId: string, now: nat, clock: Filenames.LocalTime,
                              fileOk: FileOk, fetch: Endpoint.Send<StatusReply>,
                              download: Download, download': Download, reply: StatusReply)
    requires Replied(s, taskId, fileOk, fetch, reply)
    requires Decide(reply) == "completed" && VideoUrlOf(reply) != []
    requires taskId in s.downloads
    ensures var r := PollVideo(s, taskId, now, clock, fileOk, fetch, download);
      && r == PollVideo(s, taskId, now, clock, fileOk, fetch, download')
      && (s.downloads[taskId].Success? ==> r.1.localPath == Some(s.downloads[taskId].value))
      && (s.downloads[taskId].Failure? ==>
            r.1.error == Some(DownloadFailedNotice + s.downloads[taskId].error))
  {
  }

  /** Two polls of one task interleaved at their `await`: the second finds
      the entry the first registered and awaits the same promise, whatever
      its own downloader would have done, so both settle with one outcome:
      one download for the two polls. */
  lemma InterleavedPollsShareDownload(s: State, taskId: string, now: nat, now': nat,
                                      clock: Filenames.LocalTime, clock': Filenames.LocalTime, fileOk: FileOk,
                                      download: Download, download': Download, reply: StatusReply, reply': StatusReply)
    requires Decide(reply) == "completed" && VideoUrlOf(reply) != []
    requires Decide(reply') == "completed" && VideoUrlOf(reply') != []
    ensures var first := Begin(s, taskId, now, clock, fileOk, download, reply);
      var second := Begin(first.state, taskId, now', clock', fileOk, download', reply');
      && first.Awaiting? && second.Awaiting?
      && second.outcome == first.outcome
      && second.state.downloads == first.state.downloads
      && (taskId !in s.downloads ==>
            first.outcome == FreshDownload(first.state.records, taskId, VideoUrlOf(reply), clock, fileOk, download))
  {
    var first := Begin(s, taskId, now, clock, fileOk, download, reply);
    var second := Begin(first.state, taskId, now', clock', fileOk, download', reply');
    assert taskId in first.state.downloads && first.state.downloads[taskId] == first.outcome;
    UpdateSame(first.state.downloads, taskId);
  }

  /** The two interleaved polls return the same local path, or the same
      download error, whichever finishes first. */
  lemma InterleavedPollsAgree(s: State, taskId: string, now: nat, now': nat, later: nat, later': nat,
                              clock: Filenames.LocalTime, clock': Filenames.LocalTime, fileOk: FileOk,
                              download: Download, download': Download, reply: StatusReply, reply': StatusReply)
    requires Decide(reply) == "completed" && VideoUrlOf(reply) != []
    requires Decide(reply') == "completed" && VideoUrlOf(reply') != []
    ensures var first := Begin(s, taskId, now, clock, fileOk, download, reply);
      var second := Begin(first.state, taskId, now', clock', fileOk, download', reply');
      var done1 := Finish(second.state, taskId, later, first.url, first.reply, first.outcome);
      var done2 := Finish(done1.0, taskId, later', second.url, second.reply, second.outcome);
      && done1.1.localPath == done2.1.localPath
      && (first.outcome.Failure? ==> done1.1.error == done2.1.error == Some(DownloadFailedNotice + first.outcome.error))
      && taskId !in done2.0.downloads
  {
    InterleavedPollsShareDownload(s, taskId, now, now', clock, clock', fileOk, download, download', reply, reply');
  }

  /** The mapped status is written before the download starts, so a record
      that was not yet completed but already has its file on disk is
      reused by the fresh download instead of fetched again. */
  lemma StatusWrittenBeforeDownload(s: State, taskId: string, now: nat, clock: Filenames.LocalTime,
                                    fileOk: FileOk, fetch: Endpoint.Send<StatusReply>,
                                    download: Download, download': Download, reply: StatusReply)
    requires Replied(s, taskId, fileOk, fetch, reply)
    requires Decide(reply) == "completed" && VideoUrlOf(reply) != []
    requires taskId !in s.downloads && taskId in s.records
    requires var j := s.records[taskId].job;
      j.resultPath.Some? && j.resultPath.value != [] && fileOk(j.resultPath.value)
    ensures var r := PollVideo(s, taskId, now, clock, fileOk, fetch, download);
      && r == PollVideo(s, taskId, now, clock, fileOk, fetch, download')
      && r.1.localPath == s.records[taskId].job.resultPath
  {
    var records := UpdateByTaskId(s.records, taskId, Observed(Decide(reply), reply), now);
    assert Persisted(records, taskId, fileOk);
  }

  /** A download that succeeds leaves the record completed at 100 with the
      URL and the local path. */
  lemma DownloadSucceeds(s: State, taskId: string, now: nat, clock: Filenames.LocalTime,
                         fileOk: FileOk, fetch: Endpoint.Send<StatusReply>, download: Download,
                         reply: StatusReply, path: string)
    requires Replied(s, taskId, fileOk, fetch, reply)
    requires Decide(reply) == "completed" && VideoUrlOf(reply) != []
    requires taskId in s.records
    requires (if taskId in s.downloads then s.downloads[taskId]
              else FreshDownload(UpdateByTaskId(s.records, taskId, Observed("completed", reply), now),
                                 taskId, VideoUrlOf(reply), clock, fileOk, download)) == Success(path)
    ensures var r := PollVideo(s, taskId, now, clock, fileOk, fetch, download);
      var j := r.0.records[taskId].job;
      && r.1 == PollResult("completed", Some(100), Some(VideoUrlOf(reply)), Some(path), None)
      && j.status == "completed" && j.progress == 100
      && j.resultUrl == Some(VideoUrlOf(reply)) && j.resultPath == Some(path)
  {
  }

  /** A download that fails marks the record failed with
      `Download failed: <message>` and returns the failure to the caller. */
  lemma DownloadFails(s: State, taskId: string, now: nat, clock: Filenames.LocalTime,
                      fileOk: FileOk, fetch: Endpoint.Send<StatusReply>, download: Download,
                      reply: StatusReply, message: string)
    requires Replied(s, taskId, fileOk, fetch, reply)
    requires Decide(reply) == "completed" && VideoUrlOf(reply) != []
    requires taskId in s.records
    requires (if taskId in s.downloads then s.downloads[taskId]
              else FreshDownload(UpdateByTaskId(s.records, taskId, Observed("completed", reply), now),
                                 taskId, VideoUrlOf(reply), clock, fileOk, download)) == Failure(message)
    ensures var r := PollVideo(s, taskId, now, clock, fileOk, fetch, download);
      var j := r.0.records[taskId].job;
      && r.1.status == "failed" && r.1.error == Some(DownloadFailedNotice + message)
      && j.status == "failed" && j.errorMessage == Some(DownloadFailedPrefix + message)
  {
  }

  /** A provider failure marks the record failed with the provider's error,
      or the default message, and returns that message. */
  lemma ProviderFailure(s: State, taskId: string, now: nat, clock: Filenames.LocalTime,
                        fileOk: FileOk, fetch: Endpoint.Send<StatusReply>, download: Download, reply: StatusReply)
    requires Replied(s, taskId, fileOk, fetch, reply)
    requires IsFailedWord(reply.status)
    requires taskId in s.records
    ensures var r := PollVideo(s, taskId, now, clock, fileOk, fetch, download);
      var j := r.0.records[taskId].job;
      && r.1 == PollResult("failed", None, None, None, Some(FailureMessage(reply)))
      && j.status == "failed" && j.errorMessage == Some(FailureMessage(reply))
      && r.0.downloads == s.downloads
  {
  }

  /** A reply mapped to `completed` without any URL is written as completed
      and returned as such, but nothing is downloaded and `result_path`
      keeps whatever it held. */
  lemma CompletedWithoutUrl(s: State, taskId: string, now: nat, clock: Filenames.LocalTime,
                            fileOk: FileOk, fetch: Endpoint.Send<StatusReply>, download: Download, reply: StatusReply)
    requires Replied(s, taskId, fileOk, fetch, reply)
    requires IsCompletedWord(reply.status) && VideoUrlOf(reply) == []
    requires taskId in s.records
    ensures var r := PollVideo(s, taskId, now, clock, fileOk, fetch, download);
      var j := r.0.records[taskId].job;
      && r.1 == PollResult("completed", Some(reply.progress), None, None, None)
      && j.status == "completed" && j.resultPath == s.records[taskId].job.resultPath
      && r.0.downloads == s.downloads
  {
  }

  /** Any other reply is written with its status, progress and payload and
      returned as it is; nothing else happens. */
  lemma StillRunning(s: State, taskId: string, now: nat, clock: Filenames.LocalTime,
                     fileOk: FileOk, fetch: Endpoint.Send<StatusReply>, download: Download, reply: StatusReply)
    requires Replied(s, taskId, fileOk, fetch, reply)
    requires Decide(reply) != "completed" && Decide(reply) != "failed"
    requires taskId in s.records
    ensures var r := PollVideo(s, taskId, now, clock, fileOk, fetch, download);
      var j := r.0.records[taskId].job;
      && r.1 == PollResult(MapStatus(reply.status), Some(reply.progress), None, None, None)
      && j.status == MapStatus(reply.status) && j.progress == reply.progress
      && j.apiResponse == Some(Polled(reply))
      && r.0.downloads == s.downloads
  {
  }
}
