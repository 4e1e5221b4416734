/** The background poller registry of `src-main/services/api.ts`: the task
    ids that have a running timer. Timers, their period and the
    interleaving of ticks are left out; the registry's states and its
    transitions are what is modelled. */
module Pollers {
  import Payloads
  import Endpoint
  import Filenames
  import Poll
  import Store
  import Requests
  import Wrappers

  /** The keys of `activeVideoPollers`. */
  type Registry = set<string>

  /** `ensureBackgroundVideoPolling`: an empty or already registered task id
      changes nothing; any other is added. */
  function Ensure(r: Registry, taskId: string): (r': Registry)
    ensures taskId == [] ==> r' == r
    ensures taskId != [] ==> r' == r + {taskId}
  {
    if taskId == [] || taskId in r then r else r + {taskId}
  }

  /** `generateVideo` with the polling it starts: the submission of
      `Requests.GenerateVideo`, then `ensureBackgroundVideoPolling` with the
      reply's task id. A failed submission, or a reply without a task id,
      registers nothing. */
  function GenerateVideo(reg: Registry, t: Store.Table, p: Requests.VideoParams, id: string,
                         created: nat, nowMs: nat, updated: nat, hex: string, post: Requests.Post)
    : (r: (Registry, Store.Table, Wrappers.Result<Requests.Started, string>))
    ensures (r.1, r.2) == Requests.GenerateVideo(t, p, id, created, nowMs, updated, hex, post)
    ensures r.2.Success? && r.2.value.taskId.Some? ==> r.0 == reg + {r.2.value.taskId.value}
    ensures !(r.2.Success? && r.2.value.taskId.Some?) ==> r.0 == reg
  {
    var submitted := Requests.GenerateVideo(t, p, id, created, nowMs, updated, hex, post);
    var res := submitted.1;
    var reg' := if res.Success? && res.value.taskId.Some? then Ensure(reg, res.value.taskId.value) else reg;
    (reg', submitted.0, res)
  }

  /** A submission accepted with a task id leaves that task polled, and the
      new row carries the same task id, so the timer watches the row it
      belongs to. */
  lemma SubmitStartsPolling(reg: Registry, t: Store.Table, p: Requests.VideoParams, id: string,
                            created: nat, nowMs: nat, updated: nat, hex: string, post: Requests.Post)
    requires Store.UniqueIds(t) && !Store.HasId(t, id)
    requires var reply := Requests.VideoReply(p, nowMs, hex, post);
      reply.Success? && Requests.TaskIdOf(reply.value).Some?
    ensures var r := GenerateVideo(reg, t, p, id, created, nowMs, updated, hex, post);
      var k := Requests.TaskIdOf(Requests.VideoReply(p, nowMs, hex, post).value).value;
      && k in r.0 && r.0 - {k} == reg - {k}
      && Store.Get(r.1, id).Some? && Store.Get(r.1, id).value.job.taskId == Wrappers.Some(k)
  {
    Requests.VideoOutcome(t, p, id, created, nowMs, updated, hex, post);
  }

  /** A second `Ensure` for the same task adds no second timer. */
  lemma EnsureIdempotent(r: Registry, taskId: string)
    ensures Ensure(Ensure(r, taskId), taskId) == Ensure(r, taskId)
  {
  }

  /** One timer tick after a poll settled with `status`: a terminal status
      removes the task's timer, any other keeps it. */
  function Tick(r: Registry, taskId: string, status: string): (r': Registry)
    ensures (status == "completed" || status == "failed") ==> taskId !in r'
    ensures !(status == "completed" || status == "failed") ==> r' == r
    ensures r' - {taskId} == r - {taskId}
  {
    if status == "completed" || status == "failed" then r - {taskId} else r
  }

  /** A tick whose poll hit a request error keeps polling. */
  lemma ErrorKeepsPolling(r: Registry, s: Poll.State, taskId: string, now: nat, clock: Filenames.LocalTime,
                          fileOk: Poll.FileOk, fetch: Endpoint.Send<Payloads.StatusReply>,
                          download: Poll.Download)
    requires !Poll.Persisted(s.records, taskId, fileOk)
    requires Endpoint.Fallback(Poll.StatusPaths(taskId), fetch).Failure?
    ensures Tick(r, taskId, Poll.PollVideo(s, taskId, now, clock, fileOk, fetch, download).1.status) == r
  {
    Poll.FetchErrorWritesNothing(s, taskId, now, clock, fileOk, fetch, download);
  }

  /** The ids of `pending` that `Ensure` registers. */
  function Registrable(pending: seq<string>): (ids: set<string>)
    ensures forall id :: id in ids <==> id != [] && id in pending
  {
    set i | 0 <= i < |pending| && pending[i] != [] :: pending[i]
  }

  /** `resumePendingVideoTasks`: with an API key, every pending task id is
      registered in turn. `pending` is what `listPendingVideoTaskIds(500)`
      returns. */
  method Resume(r: Registry, apiKey: string, pending: seq<string>) returns (r': Registry)
    ensures apiKey == [] ==> r' == r
    ensures apiKey != [] ==> r' == r + Registrable(pending)
  {
    if apiKey == [] {
      return r;
    }
    r' := r;
    var i := 0;
    while i < |pending|
      invariant 0 <= i <= |pending|
      invariant r' == r + Registrable(pending[..i])
    {
      assert pending[..i + 1] == pending[..i] + [pending[i]];
      r' := Ensure(r', pending[i]);
      i := i + 1;
    }
    assert pending[..i] == pending;
  }
}
