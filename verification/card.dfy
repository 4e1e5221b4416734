/** What a history card shows (`src/components/GenerationCard.tsx`): the
    image paths of a record, its cover, the count badge and the suggested
    name offered for its download. `t` stands for the local fields of the
    record's creation time, which the card parses with `parseDateAsUtc`. */
module Card {
  import opened Wrappers
  import opened Tables
  import opened Payloads
  import Store
  import Filenames
  import Text

  /** The `image_paths` array of the stored reply, if it holds one. */
  function StoredPaths(g: Store.Generation): seq<string> {
    if g.job.apiResponse.Some? && g.job.apiResponse.value.Images? then g.job.apiResponse.value.imagePaths
    else []
  }

  /** `imagePaths`. */
  function ImagePaths(g: Store.Generation): (r: seq<string>)
    ensures g.request.kind != "image" ==> r == []
    ensures forall x :: x in r ==> x != []
    ensures g.request.kind == "image" && Where(StoredPaths(g), Text.Truthy) != [] ==> r == Where(StoredPaths(g), Text.Truthy)
    ensures g.request.kind == "image" && Where(StoredPaths(g), Text.Truthy) == [] ==>
      r == (if g.job.resultPath.Some? && g.job.resultPath.value != [] then [g.job.resultPath.value] else [])
  {
    if g.request.kind != "image" then []
    else
      var kept := Where(StoredPaths(g), Text.Truthy);
      if |kept| > 0 then kept
      else if g.job.resultPath.Some? && g.job.resultPath.value != [] then [g.job.resultPath.value]
      else []
  }

  /** Every path shown is one the record stores: a stored image path or
      its result path. */
  lemma ImagePathsFromRecord(g: Store.Generation)
    ensures forall x :: x in ImagePaths(g) ==> x in StoredPaths(g) || g.job.resultPath == Some(x)
  {
  }

  /** `coverPath`: the first image path of an image, the result path of
      anything else. */
  function CoverPath(g: Store.Generation): (r: Option<string>)
    ensures g.request.kind == "image" ==> (r.Some? <==> |ImagePaths(g)| > 0)
    ensures g.request.kind == "image" && r.Some? ==> r.value == ImagePaths(g)[0]
    ensures g.request.kind != "image" ==> r == g.job.resultPath
  {
    if g.request.kind == "image" then
      var paths := ImagePaths(g);
      if |paths| > 0 then Some(paths[0]) else None
    else g.job.resultPath
  }

  /** `coverCount`. */
  function CoverCount(g: Store.Generation): (n: nat)
    ensures g.request.kind != "image" ==> n == 0
    ensures g.request.kind == "image" ==> n == |ImagePaths(g)|
  {
    if g.request.kind == "image" then |ImagePaths(g)| else 0
  }

  /** The `xN` badge. */
  predicate ShowsCountBadge(g: Store.Generation) {
    CoverCount(g) > 1
  }

  /** Only an image record with two stored paths or more shows the badge;
      a single result path never does. */
  lemma CountBadgeNeedsTwoImages(g: Store.Generation)
    ensures ShowsCountBadge(g) <==>
      g.request.kind == "image" && |Where(StoredPaths(g), Text.Truthy)| > 1
  {
  }

  /** `downloadSuggestedName`: nothing without a cover; otherwise the name
      `makeSuggestedFileName` gives the prompt, the cover and the creation
      time, with `video` or `image` as the fallback base. */
  function SuggestedName(g: Store.Generation, t: Filenames.LocalTime): (r: Option<string>)
    ensures r.None? <==> CoverPath(g).None? || CoverPath(g).value == []
    ensures r.Some? ==> Text.StartsWith(r.value,
      Filenames.SuggestedPrefix(g.request.prompt, Some(if g.request.kind == "video" then "video" else "image"))
      + "_" + Filenames.FormatTimestamp(t))
  {
    var cover := CoverPath(g);
    if cover.None? || cover.value == [] then None
    else
      var base := if g.request.kind == "video" then "video" else "image";
      Some(Filenames.SuggestedFileName(g.request.prompt, cover, t, None, 0, Some(base)))
  }

  /** A suggested name ends in the cover's extension and carries no
      sequence number, since the card passes no index. */
  lemma SuggestedNameEndsInCoverExt(g: Store.Generation, t: Filenames.LocalTime)
    requires SuggestedName(g, t).Some?
    ensures Text.EndsWith(SuggestedName(g, t).value, Filenames.ExtFromPath(CoverPath(g)))
  {
    assert Filenames.SeqSuffix(None, 0) == [];
  }
}
