/** How `pollVideoStatus` (`src-main/services/api.ts`) reads a provider's
    status reply: the status word mapped onto `completed`, `failed` or
    itself, the video URL, and the override that trusts a finished
    progress over ambiguous status text. */
module Status {
  import opened Text
  import opened Payloads

  /** `/^(completed|succeeded|success|done)$/i`: the words are lower-case,
      so a case-insensitive match compares the lower-cased input. */
  predicate IsCompletedWord(s: string) {
    var l := Lower(s);
    l == "completed" || l == "succeeded" || l == "success" || l == "done"
  }

  /** `/^(failed|error|canceled|cancelled)$/i`. */
  predicate IsFailedWord(s: string) {
    var l := Lower(s);
    l == "failed" || l == "error" || l == "canceled" || l == "cancelled"
  }

  /** Two strings that agree up to ASCII case. */
  predicate SameUpToCase(a: string, b: string) {
    Lower(a) == Lower(b)
  }

  /** A string without upper-case ASCII letters is its own lower case. */
  lemma LowerOfLower(s: string)
    requires forall i :: 0 <= i < |s| ==> !('A' <= s[i] <= 'Z')
    ensures Lower(s) == s
  {
  }

  /** `String(result.status || 'unknown')` through the two patterns. */
  function MapStatus(raw: string): (r: string)
    ensures r == "completed" <==> IsCompletedWord(raw)
    ensures r == "failed" <==> IsFailedWord(raw)
    ensures raw == [] ==> r == "unknown"
    ensures raw != [] && !IsCompletedWord(raw) && !IsFailedWord(raw) ==> r == raw
  {
    var s := if raw != [] then raw else "unknown";
    LowerOfLower("unknown");
    if IsCompletedWord(s) then "completed"
    else if IsFailedWord(s) then "failed"
    else
      NotWord(s);
      s
  }

  /** "completed" and "failed" match their own patterns, so neither can
      pass through unmapped. */
  lemma NotWord(s: string)
    requires !IsCompletedWord(s) && !IsFailedWord(s)
    ensures s != "completed" && s != "failed"
  {
    LowerOfLower("completed");
    LowerOfLower("failed");
  }

  /** Mapping a mapped status changes nothing. */
  lemma MapStatusIdempotent(raw: string)
    ensures MapStatus(MapStatus(raw)) == MapStatus(raw)
  {
    LowerOfLower("completed");
    LowerOfLower("failed");
    LowerOfLower("unknown");
  }

  /** The patterns ignore case: strings equal up to ASCII case map to the
      same terminal status. */
  lemma MapStatusIgnoresCase(a: string, b: string)
    requires SameUpToCase(a, b)
    ensures MapStatus(a) == "completed" <==> MapStatus(b) == "completed"
    ensures MapStatus(a) == "failed" <==> MapStatus(b) == "failed"
  {
  }

  /** `result.video_url || result.url || result.output_url`. */
  function VideoUrlOf(reply: StatusReply): (r: string)
    ensures r == [] <==> reply.videoUrl == [] && reply.url == [] && reply.outputUrl == []
    ensures r != [] ==> r == reply.videoUrl || r == reply.url || r == reply.outputUrl
    ensures reply.videoUrl != [] ==> r == reply.videoUrl
    ensures reply.videoUrl == [] && reply.url != [] ==> r == reply.url
    ensures reply.videoUrl == [] && reply.url == [] ==> r == reply.outputUrl
  {
    if reply.videoUrl != [] then reply.videoUrl
    else if reply.url != [] then reply.url
    else reply.outputUrl
  }

  /** With a video URL and a status that is not `failed`, a progress of at
      least 100 turns any other status into `completed`. */
  function Override(status: string, progress: int, videoUrl: string): (r: string)
    ensures r == status || r == "completed"
    ensures r == "completed" <==>
      (status == "completed" || (videoUrl != [] && status != "failed" && progress >= 100))
  {
    if videoUrl != [] && status != "failed" && status != "completed" && progress >= 100 then "completed"
    else status
  }

  /** The status `pollVideoStatus` settles on for a reply. */
  function Decide(reply: StatusReply): (r: string)
    ensures r == "failed" <==> IsFailedWord(reply.status)
  {
    Override(MapStatus(reply.status), reply.progress, VideoUrlOf(reply))
  }

  /** A failed status is never overridden, whatever the progress and URL. */
  lemma FailedNeverOverridden(reply: StatusReply)
    requires IsFailedWord(reply.status)
    ensures Decide(reply) == "failed"
  {
  }

  /** The decided status is `completed` exactly when the provider said so,
      or a URL came with a progress of 100 or more and no failure. */
  lemma DecideCompletedIff(reply: StatusReply)
    ensures Decide(reply) == "completed" <==>
      (|| IsCompletedWord(reply.status)
       || (VideoUrlOf(reply) != [] && !IsFailedWord(reply.status) && reply.progress >= 100))
  {
  }

  /** Without a URL the mapped status stands. */
  lemma NoUrlNoOverride(reply: StatusReply)
    requires VideoUrlOf(reply) == []
    ensures Decide(reply) == MapStatus(reply.status)
  {
  }
}
