/** How `generateVideo` and `generateImage` (`src-main/services/api.ts`)
    shape their requests and record their outcome: the combined prompt, the
    size and model choices, the multipart form, the task id of the reply,
    and the writes to the generations table. The transport and the image
    downloads are oracles. */
module Requests {
  import opened Wrappers
  import opened Text
  import opened Utf8
  import opened Payloads
  import Store
  import Endpoint
  import Multipart

  // ---------------------------------------------------------------------
  // generateVideo: request shaping

  /** `String(params.model || 'veo3.1')`. */
  function VideoModel(model: Option<string>): (r: string)
    ensures r != []
    ensures r == "veo3.1" <==> model.None? || model.value == [] || model.value == "veo3.1"
    ensures model.Some? && model.value != [] ==> r == model.value
  {
    if model.Some? && model.value != [] then model.value else "veo3.1"
  }

  /** `(aspectRatio || '16:9') === '9:16' ? '720x1280' : '1280x720'`. */
  function VideoSize(aspectRatio: Option<string>): (r: string)
    ensures r == "720x1280" || r == "1280x720"
    ensures r == "720x1280" <==> aspectRatio == Some("9:16")
  {
    if (if aspectRatio.Some? && aspectRatio.value != [] then aspectRatio.value else "16:9") == "9:16"
    then "720x1280" else "1280x720"
  }

  /** A labelled section of the combined prompt, or nothing when the value
      is absent or empty. */
  function Section(heading: string, value: Option<string>): (r: seq<string>)
    ensures |r| <= 1
    ensures |r| == 1 <==> value.Some? && value.value != []
    ensures |r| == 1 ==> r[0] == heading + value.value
  {
    if value.Some? && value.value != [] then [heading + value.value] else []
  }

  /** The sections that survive `.filter(Boolean)`, in their fixed order. */
  function Sections(systemContext: Option<string>, storyboard: Option<string>,
                    negativePrompt: Option<string>, prompt: string): seq<string>
  {
    Section("System Context:\n", systemContext) + Section("Storyboard:\n", storyboard)
      + Section("Negative Prompt:\n", negativePrompt) + Section("Prompt:\n", Some(prompt))
  }

  /** The one prompt the video endpoint receives. */
  function CombinedPrompt(systemContext: Option<string>, storyboard: Option<string>,
                          negativePrompt: Option<string>, prompt: string): string
  {
    Join(Sections(systemContext, storyboard, negativePrompt, prompt), "\n\n")
  }

  lemma {:induction false} JoinEmptyIff(parts: seq<string>, sep: string)
    requires forall i :: 0 <= i < |parts| ==> parts[i] != []
    ensures Join(parts, sep) == [] <==> parts == []
    decreases |parts|
  {
    if |parts| > 1 {
      JoinEmptyIff(parts[1..], sep);
    }
  }

  /** The combined prompt is empty exactly when every part is missing or
      empty. */
  lemma CombinedPromptEmptyIff(systemContext: Option<string>, storyboard: Option<string>,
                               negativePrompt: Option<string>, prompt: string)
    ensures CombinedPrompt(systemContext, storyboard, negativePrompt, prompt) == []
      <==> ((systemContext.None? || systemContext.value == [])
        && (storyboard.None? || storyboard.value == [])
        && (negativePrompt.None? || negativePrompt.value == [])
        && prompt == [])
  {
    var s := Sections(systemContext, storyboard, negativePrompt, prompt);
    forall i | 0 <= i < |s| ensures s[i] != [] {
    }
    JoinEmptyIff(s, "\n\n");
  }

  /** With nothing but a prompt, the combined prompt is that prompt under
      its label. */
  lemma PromptOnly(prompt: string)
    requires prompt != []
    ensures CombinedPrompt(None, None, None, prompt) == "Prompt:\n" + prompt
  {
    assert Sections(None, None, None, prompt) == ["Prompt:\n" + prompt];
  }

  /** Every part given is in the combined prompt under its label, the
      system context first and the prompt last, separated by blank
      lines. */
  lemma AllSections(systemContext: string, storyboard: string, negativePrompt: string, prompt: string)
    requires systemContext != [] && storyboard != [] && negativePrompt != [] && prompt != []
    ensures CombinedPrompt(Some(systemContext), Some(storyboard), Some(negativePrompt), prompt)
      == ("System Context:\n" + systemContext) + "\n\n"
        + (("Storyboard:\n" + storyboard) + "\n\n"
        + (("Negative Prompt:\n" + negativePrompt) + "\n\n" + ("Prompt:\n" + prompt)))
  {
    var a, b, c, d := "System Context:\n" + systemContext, "Storyboard:\n" + storyboard,
      "Negative Prompt:\n" + negativePrompt, "Prompt:\n" + prompt;
    var s := Sections(Some(systemContext), Some(storyboard), Some(negativePrompt), prompt);
    assert s == [a, b, c, d];
    assert Join([d], "\n\n") == d;
    assert [c, d][1..] == [d];
    assert Join([c, d], "\n\n") == c + "\n\n" + d;
    assert [b, c, d][1..] == [c, d];
    assert Join([b, c, d], "\n\n") == b + "\n\n" + (c + "\n\n" + d);
    assert s[1..] == [b, c, d];
  }

  /** What `generateVideo` is called with. */
  datatype VideoParams = VideoParams(
    prompt: string,
    systemContext: Option<string>,
    storyboard: Option<string>,
    negativePrompt: Option<string>,
    aspectRatio: Option<string>,
    duration: Option<int>,
    model: Option<string>,
    imageData: Option<seq<byte>>)

  /** The form fields, in the order the object literal lists them. */
  function VideoFields(p: VideoParams): (r: seq<(string, string)>)
    ensures |r| == 5
    ensures r[0] == ("model", VideoModel(p.model))
    ensures r[1] == ("prompt", CombinedPrompt(p.systemContext, p.storyboard, p.negativePrompt, p.prompt))
    ensures r[2] == ("seconds", "8") && r[4] == ("watermark", "false")
    ensures r[3] == ("size", VideoSize(p.aspectRatio))
  {
    [("model", VideoModel(p.model)),
     ("prompt", CombinedPrompt(p.systemContext, p.storyboard, p.negativePrompt, p.prompt)),
     ("seconds", "8"),
     ("size", VideoSize(p.aspectRatio)),
     ("watermark", "false")]
  }

  /** The reference image, when one is given, as a PNG file part. */
  function VideoFiles(p: VideoParams): (r: seq<Multipart.Upload>)
    ensures |r| == if p.imageData.Some? then 1 else 0
    ensures p.imageData.Some? ==>
      && r[0].name == "input_reference" && r[0].filename == "input_reference.png"
      && r[0].contentType == Some("image/png") && r[0].data == p.imageData.value
  {
    if p.imageData.Some? then
      [Multipart.Upload("input_reference", "input_reference.png", Some("image/png"), p.imageData.value)]
    else []
  }

  /** The endpoints tried in turn. */
  const VideoPaths: seq<string> := ["/videos", "/video"]

  /** `result.id || result.task_id`; `None` when neither is set. */
  function TaskIdOf(reply: SubmitReply): (r: Option<string>)
    ensures r.None? <==> reply.id == [] && reply.taskId == []
    ensures r.Some? ==> r.value != [] && (r.value == reply.id || (reply.id == [] && r.value == reply.taskId))
  {
    if reply.id != [] then Some(reply.id)
    else if reply.taskId != [] then Some(reply.taskId)
    else None
  }

  /** `result.status || 'processing'`. */
  function SubmitStatus(reply: SubmitReply): (r: string)
    ensures r != []
    ensures reply.status != [] ==> r == reply.status
    ensures reply.status == [] ==> r == "processing"
  {
    if reply.status != [] then reply.status else "processing"
  }

  /** The update after a submission: its status, its progress when it is a
      number (else 0), its task id and the reply itself. */
  function SubmitPatch(reply: SubmitReply): (r: Store.Patch)
    ensures r.status == Some(SubmitStatus(reply))
    ensures r.progress == Some(reply.progress.GetOr(0))
    ensures r.taskId == TaskIdOf(reply)
    ensures r.apiResponse == Some(Submitted(reply))
    ensures r.resultPath.None? && r.resultUrl.None? && r.thumbnailPath.None? && r.errorMessage.None?
  {
    Store.Patch(Some(SubmitStatus(reply)), Some(reply.progress.GetOr(0)), TaskIdOf(reply),
      None, None, None, Some(Submitted(reply)), None)
  }

  /** The update in the `catch` of both generators. */
  function FailurePatch(message: string): (r: Store.Patch)
    ensures r == Store.NoChange.(status := Some("failed"), errorMessage := Some(message))
  {
    Store.Patch(Some("failed"), None, None, None, None, None, None, Some(message))
  }

  /** What `generateVideo` resolves with. */
  datatype Started = Started(id: string, taskId: Option<string>, status: string)

  /** One submission: the reply to posting the body to a path, or the
      message of the error it throws. */
  type Post = (string, seq<byte>) -> Result<SubmitReply, string>

  /** The row `generateVideo` inserts before it submits. */
  function VideoRow(p: VideoParams): Store.NewGeneration {
    Store.NewGeneration("video", p.prompt, p.systemContext, p.storyboard, p.negativePrompt,
      Some(VideoModel(p.model)), p.aspectRatio, p.duration, None)
  }

  /** `generateVideo` up to the start of background polling: insert the
      row, post the form to `/videos` then `/video`, and record the reply
      or the error. `id` and `hex` are the uuid and the boundary's random
      digits. The source reads the clock three times: `created` is the
      insert's `datetime('now')`, `nowMs` the `Date.now()` in the boundary,
      and `updated` the update's `datetime('now')` after the reply. */
  function GenerateVideo(t: Store.Table, p: VideoParams, id: string, created: nat, nowMs: nat, updated: nat,
                         hex: string, post: Post)
    : (r: (Store.Table, Result<Started, string>))
    ensures Store.HasId(t, id) ==> r.0 == t && r.1.Failure?
    ensures !Store.HasId(t, id) ==> |r.0| == |t| + 1 && r.0[..|t|] == t && r.0[|t|].id == id
    ensures !Store.HasId(t, id) ==> r.0[|t|].createdAt == created && r.0[|t|].updatedAt == Some(updated)
    ensures r.1.Success? ==> r.1.value.id == id && (r.1.value.taskId.Some? ==> r.1.value.taskId.value != [])
  {
    var inserted := Store.Create(t, VideoRow(p), id, created);
    if inserted.Failure? then (t, Failure(inserted.error))
    else
      var t1 := inserted.value;
      var res := VideoReply(p, nowMs, hex, post);
      var patch := if res.Success? then SubmitPatch(res.value) else FailurePatch(res.error.GetOr([]));
      Store.UpdateNewest(t, Store.NewRow(VideoRow(p), id, created), patch, updated);
      var t2 := Store.Update(t1, id, patch, updated);
      if res.Success? then (t2, Success(Started(id, TaskIdOf(res.value), SubmitStatus(res.value))))
      else (t2, Failure(res.error.GetOr([])))
  }

  /** The reply the video submission settles with. */
  function VideoReply(p: VideoParams, nowMs: nat, hex: string, post: Post): Result<SubmitReply, Option<string>> {
    var form := Multipart.BuildForm(VideoFields(p), VideoFiles(p), nowMs, hex);
    Endpoint.Fallback(VideoPaths, u => post(u, form.body))
  }

  /** After a fresh insert the new row reads back with the status, progress
      and task id of the reply, or as failed with the error's message; the
      stored prompt is the caller's, not the combined one. */
  lemma VideoOutcome(t: Store.Table, p: VideoParams, id: string, created: nat, nowMs: nat, updated: nat,
                     hex: string, post: Post)
    requires Store.UniqueIds(t) && !Store.HasId(t, id)
    ensures var r := GenerateVideo(t, p, id, created, nowMs, updated, hex, post);
      var g := Store.Get(r.0, id); var reply := VideoReply(p, nowMs, hex, post);
      && g.Some? && g.value.request.prompt == p.prompt && g.value.request.kind == "video"
      && Store.UniqueIds(r.0)
      && (reply.Success? ==>
           && r.1 == Success(Started(id, TaskIdOf(reply.value), SubmitStatus(reply.value)))
           && g.value.job.status == SubmitStatus(reply.value)
           && g.value.job.progress == reply.value.progress.GetOr(0)
           && g.value.job.taskId == TaskIdOf(reply.value))
      && (reply.Failure? ==>
           && r.1 == Failure(reply.error.GetOr([]))
           && g.value.job.status == "failed"
           && g.value.job.errorMessage == Some(reply.error.GetOr([])))
  {
    Store.CreateThenGet(t, VideoRow(p), id, created);
    var t1 := Store.Create(t, VideoRow(p), id, created).value;
    assert Store.HasId(t1, id) by {
      assert t1[|t|].id == id;
    }
    var res := VideoReply(p, nowMs, hex, post);
    var patch := if res.Success? then SubmitPatch(res.value) else FailurePatch(res.error.GetOr([]));
    Store.UpdateThenGet(t1, id, patch, updated);
    Store.PatchTouchesSuppliedFields(Store.NewRow(VideoRow(p), id, created), patch, updated);
  }

  /** The submission error always carries a message: there are two
      candidate paths, so the fallback never ends without an error. */
  lemma VideoErrorHasMessage(p: VideoParams, nowMs: nat, hex: string, post: Post)
    ensures VideoReply(p, nowMs, hex, post).Failure? ==> VideoReply(p, nowMs, hex, post).error.Some?
  {
  }

  // ---------------------------------------------------------------------
  // generateImage: request shaping

  const DefaultImageModel: string := "gemini-3-pro-image-preview"

  const ImageModels: set<string> := {
    "nano-banana-2", "nano-banana-2-2k-vip", "gemini-3-pro-image-preview",
    "gemini-3-pro-image-preview-2k-vip", "gpt-image-1.5"}

  /** A model on the allow-list is kept; anything else, or none, becomes
      the default. */
  function ImageModel(model: Option<string>): (r: string)
    ensures r in ImageModels
    ensures model.Some? && model.value in ImageModels ==> r == model.value
    ensures r != DefaultImageModel ==> model == Some(r)
  {
    if model.Some? && model.value in ImageModels then model.value else DefaultImageModel
  }

  /** `sizeMap[aspectRatio || '1:1'] || '1024x1024'`: only the two wide
      ratios differ from the square default. */
  function ImageSize(aspectRatio: Option<string>): (r: string)
    ensures r in {"1024x1024", "1792x1024", "1024x1792"}
    ensures r == "1792x1024" <==> aspectRatio == Some("16:9")
    ensures r == "1024x1792" <==> aspectRatio == Some("9:16")
  {
    var key := if aspectRatio.Some? && aspectRatio.value != [] then aspectRatio.value else "1:1";
    if key == "16:9" then "1792x1024"
    else if key == "9:16" then "1024x1792"
    else "1024x1024"
  }

  /** `Math.min(numImages || 1, 10)`. A negative count is passed on as it
      is. */
  function ImageCount(numImages: Option<int>): (n: int)
    ensures n <= 10
    ensures numImages.None? || numImages.value == 0 ==> n == 1
    ensures numImages.Some? && numImages.value != 0 ==>
      n == (if numImages.value < 10 then numImages.value else 10)
  {
    var k := if numImages.Some? && numImages.value != 0 then numImages.value else 1;
    if k < 10 then k else 10
  }

  /** The JSON body of `POST /images/generations`. */
  datatype ImagePayload = ImagePayload(model: string, prompt: string, n: int, size: string, responseFormat: string)

  /** What `generateImage` is called with. */
  datatype ImageParams = ImageParams(
    prompt: string,
    negativePrompt: Option<string>,
    aspectRatio: Option<string>,
    numImages: Option<int>,
    model: Option<string>)

  function ImageRequest(p: ImageParams): (r: ImagePayload)
    ensures r.model in ImageModels && r.n <= 10 && r.responseFormat == "url"
    ensures r.prompt == p.prompt && r.size == ImageSize(p.aspectRatio)
  {
    ImagePayload(ImageModel(p.model), p.prompt, ImageCount(p.numImages), ImageSize(p.aspectRatio), "url")
  }

  // ---------------------------------------------------------------------
  // generateImage: the reply

  /** One entry of the reply's `data`, the fields it may carry (`""` when
      absent). */
  datatype ImageItem = ImageItem(
    url: string, imageUrl: string, image: string,
    b64Json: string, base64: string, imageBase64: string)

  /** Where an entry's picture comes from. */
  datatype ImageSource = Remote(url: string) | Inline(base64: string) | NoData

  /** `url || image_url || image`, else `b64_json || base64 ||
      image_base64`. */
  function SourceOf(item: ImageItem): (r: ImageSource)
    ensures r.Remote? <==> item.url != [] || item.imageUrl != [] || item.image != []
    ensures r.NoData? <==> (item.url == [] && item.imageUrl == [] && item.image == []
      && item.b64Json == [] && item.base64 == [] && item.imageBase64 == [])
    ensures r.Remote? ==> r.url != [] && r.url in [item.url, item.imageUrl, item.image]
    ensures r.Inline? ==> r.base64 != [] && r.base64 in [item.b64Json, item.base64, item.imageBase64]
    ensures item.url != [] ==> r == Remote(item.url)
    ensures item.url == [] && item.imageUrl != [] ==> r == Remote(item.imageUrl)
    ensures item.url == [] && item.imageUrl == [] && item.image != [] ==> r == Remote(item.image)
    ensures r.Inline? && item.b64Json != [] ==> r.base64 == item.b64Json
    ensures r.Inline? && item.b64Json == [] && item.base64 != [] ==> r.base64 == item.base64
    ensures r.Inline? && item.b64Json == [] && item.base64 == [] ==> r.base64 == item.imageBase64
  {
    if item.url != [] then Remote(item.url)
    else if item.imageUrl != [] then Remote(item.imageUrl)
    else if item.image != [] then Remote(item.image)
    else if item.b64Json != [] then Inline(item.b64Json)
    else if item.base64 != [] then Inline(item.base64)
    else if item.imageBase64 != [] then Inline(item.imageBase64)
    else NoData
  }

  /** Saving entry `i`: the local path, or the error the loop logs and
      skips. */
  type Save = (nat, ImageSource) -> Result<string, string>

  /** Entry `i` of `items` is saved. */
  predicate Saved(items: seq<ImageItem>, save: Save, i: nat)
    requires i < |items|
  {
    !SourceOf(items[i]).NoData? && save(i, SourceOf(items[i])).Success?
  }

  /** The loop over `data` from entry `i` on: the paths of the entries that
      were saved, in order; the others are skipped. */
  function SaveFrom(items: seq<ImageItem>, save: Save, i: nat): (paths: seq<string>)
    requires i <= |items|
    ensures |paths| <= |items| - i
    ensures forall p :: p in paths ==> exists k :: (i <= k < |items| && Saved(items, save, k)
      && save(k, SourceOf(items[k])).value == p)
    decreases |items| - i
  {
    if i == |items| then []
    else
      var rest := SaveFrom(items, save, i + 1);
      if Saved(items, save, i) then [save(i, SourceOf(items[i])).value] + rest else rest
  }

  /** The number of saved entries among entries `i` to `j - 1`. */
  function SavedCount(items: seq<ImageItem>, save: Save, i: nat, j: nat): nat
    requires j <= |items|
    decreases j - i
  {
    if i >= j then 0 else (if Saved(items, save, i) then 1 else 0) + SavedCount(items, save, i + 1, j)
  }

  /** Each entry is handled in its own `try`: a failed or empty entry is
      skipped and the loop goes on, so there is one path per saved entry,
      and the path of saved entry `k` sits after those of the saved entries
      before it. */
  lemma {:induction false} SaveFromPositions(items: seq<ImageItem>, save: Save, i: nat)
    requires i <= |items|
    ensures var paths := SaveFrom(items, save, i);
      && |paths| == SavedCount(items, save, i, |items|)
      && forall k :: i <= k < |items| && Saved(items, save, k) ==>
           SavedCount(items, save, i, k) < |paths|
           && paths[SavedCount(items, save, i, k)] == save(k, SourceOf(items[k])).value
    decreases |items| - i
  {
    if i < |items| {
      SaveFromPositions(items, save, i + 1);
      var paths := SaveFrom(items, save, i);
      var rest := SaveFrom(items, save, i + 1);
      forall k | i <= k < |items| && Saved(items, save, k)
        ensures SavedCount(items, save, i, k) < |paths|
             && paths[SavedCount(items, save, i, k)] == save(k, SourceOf(items[k])).value
      {
        if k > i {
          SavedCountStep(items, save, i, k);
        }
      }
    }
  }

  /** A failed or empty entry does not stop the loop: every saved entry
      from `i` on has its path collected. */
  lemma SaveFromKeepsLater(items: seq<ImageItem>, save: Save, i: nat)
    requires i <= |items|
    ensures forall k :: i <= k < |items| && Saved(items, save, k) ==>
      save(k, SourceOf(items[k])).value in SaveFrom(items, save, i)
  {
    SaveFromPositions(items, save, i);
    var paths := SaveFrom(items, save, i);
    forall k | i <= k < |items| && Saved(items, save, k)
      ensures save(k, SourceOf(items[k])).value in paths
    {
      assert paths[SavedCount(items, save, i, k)] == save(k, SourceOf(items[k])).value;
    }
  }

  /** Counting from `i` is the verdict on entry `i` plus counting from
      `i + 1`. */
  lemma SavedCountStep(items: seq<ImageItem>, save: Save, i: nat, k: nat)
    requires i < k <= |items|
    ensures SavedCount(items, save, i, k) == (if Saved(items, save, i) then 1 else 0) + SavedCount(items, save, i + 1, k)
  {
  }

  /** When every entry carries a picture and every save succeeds, there is
      one path per entry, in the order of the entries. */
  lemma {:induction false} SaveAll(items: seq<ImageItem>, save: Save, i: nat)
    requires i <= |items|
    requires forall k :: i <= k < |items| ==> Saved(items, save, k)
    ensures var paths := SaveFrom(items, save, i);
      && |paths| == |items| - i
      && forall k :: i <= k < |items| ==> Saved(items, save, k) && paths[k - i] == save(k, SourceOf(items[k])).value
    decreases |items| - i
  {
    if i < |items| {
      SaveAll(items, save, i + 1);
    }
  }

  /** The update after the images are saved: completed, the first path as
      the result (when there is one and it is not empty), and the list. */
  function ImagesPatch(paths: seq<string>): (r: Store.Patch)
    ensures r.status == Some("completed")
    ensures r.resultPath.Some? <==> |paths| > 0 && paths[0] != []
    ensures r.resultPath.Some? ==> r.resultPath.value == paths[0]
    ensures r.apiResponse == Some(Images(paths, |paths|))
    ensures r.progress.None? && r.taskId.None? && r.errorMessage.None?
  {
    Store.Patch(Some("completed"), None, None,
      if |paths| > 0 && paths[0] != [] then Some(paths[0]) else None,
      None, None, Some(Images(paths, |paths|)), None)
  }

  /** What `generateImage` resolves with. */
  datatype Finished = Finished(id: string, status: string, images: seq<string>)

  /** The row `generateImage` inserts before it requests. */
  function ImageRow(p: ImageParams): Store.NewGeneration {
    Store.NewGeneration("image", p.prompt, None, None, p.negativePrompt,
      Some(ImageModel(p.model)), p.aspectRatio, None, None)
  }

  /** `generateImage`: insert the row, request the pictures, save each one,
      and record the paths or the error. `created` and `updated` are the
      clock readings of the insert and of the update after the request. */
  function GenerateImage(t: Store.Table, p: ImageParams, id: string, created: nat, updated: nat,
                         request: ImagePayload -> Result<seq<ImageItem>, string>, save: Save)
    : (r: (Store.Table, Result<Finished, string>))
    ensures Store.HasId(t, id) ==> r.0 == t && r.1.Failure?
    ensures !Store.HasId(t, id) ==> |r.0| == |t| + 1 && r.0[..|t|] == t && r.0[|t|].id == id
    ensures !Store.HasId(t, id) ==> r.0[|t|].createdAt == created && r.0[|t|].updatedAt == Some(updated)
    ensures r.1.Success? ==> r.1.value.id == id && r.1.value.status == "completed"
  {
    var inserted := Store.Create(t, ImageRow(p), id, created);
    if inserted.Failure? then (t, Failure(inserted.error))
    else
      var t1 := inserted.value;
      var res := request(ImageRequest(p));
      var paths := if res.Success? then SaveFrom(res.value, save, 0) else [];
      var patch := if res.Success? then ImagesPatch(paths) else FailurePatch(res.error);
      Store.UpdateNewest(t, Store.NewRow(ImageRow(p), id, created), patch, updated);
      var t2 := Store.Update(t1, id, patch, updated);
      if res.Success? then (t2, Success(Finished(id, "completed", paths)))
      else (t2, Failure(res.error))
  }

  /** After a fresh insert the new row reads back completed with the saved
      paths, or failed with the error's message. */
  lemma ImageOutcome(t: Store.Table, p: ImageParams, id: string, created: nat, updated: nat,
                     request: ImagePayload -> Result<seq<ImageItem>, string>, save: Save)
    requires Store.UniqueIds(t) && !Store.HasId(t, id)
    ensures var r := GenerateImage(t, p, id, created, updated, request, save);
      var g := Store.Get(r.0, id); var res := request(ImageRequest(p));
      && g.Some? && g.value.request.kind == "image" && Store.UniqueIds(r.0)
      && (res.Success? ==>
           var paths := SaveFrom(res.value, save, 0);
           && r.1 == Success(Finished(id, "completed", paths))
           && g.value.job.status == "completed"
           && g.value.job.apiResponse == Some(Images(paths, |paths|)))
      && (res.Failure? ==>
           && r.1 == Failure(res.error)
           && g.value.job.status == "failed"
           && g.value.job.errorMessage == Some(res.error))
  {
    Store.CreateThenGet(t, ImageRow(p), id, created);
    var t1 := Store.Create(t, ImageRow(p), id, created).value;
    assert Store.HasId(t1, id) by {
      assert t1[|t|].id == id;
    }
    var res := request(ImageRequest(p));
    var paths := if res.Success? then SaveFrom(res.value, save, 0) else [];
    var patch := if res.Success? then ImagesPatch(paths) else FailurePatch(res.error);
    Store.UpdateThenGet(t1, id, patch, updated);
  }
}
