/** The `generations` table of `src-main/services/database.ts` as an
    in-memory sequence of rows in insertion order. SQL `NULL` is `None`;
    `datetime('now')` and `uuidv4()` are parameters; the JSON columns hold
    their decoded values. */
module Store {
  import opened Wrappers
  import opened Text
  import opened Tables
  import opened Payloads

  /** The columns `createGeneration` fills from its arguments; no later
      call in the store changes them. */
  datatype Request = Request(
    kind: string,
    prompt: string,
    systemContext: Option<string>,
    storyboard: Option<string>,
    negativePrompt: Option<string>,
    model: Option<string>,
    aspectRatio: Option<string>,
    duration: Option<int>,
    referenceImages: seq<string>)

  /** The columns `updateGeneration` may write. */
  datatype Job = Job(
    status: string,
    progress: int,
    taskId: Option<string>,
    resultPath: Option<string>,
    resultUrl: Option<string>,
    thumbnailPath: Option<string>,
    apiResponse: Option<ApiPayload>,
    errorMessage: Option<string>)

  /** One row of `generations`. `createdAt` and `updatedAt` are instants in
      seconds: `datetime('now')` writes fixed-width text, whose order is the
      order of the instants. */
  datatype Generation = Generation(
    id: string,
    request: Request,
    job: Job,
    tags: seq<string>,
    isFavorite: bool,
    createdAt: nat,
    updatedAt: Option<nat>)

  type Table = seq<Generation>

  predicate HasId(t: Table, id: string) {
    exists i :: 0 <= i < |t| && t[i].id == id
  }

  /** `id` is the primary key. */
  predicate UniqueIds(t: Table) {
    forall i, j :: 0 <= i < j < |t| ==> t[i].id != t[j].id
  }

  /** `SELECT * FROM generations WHERE id = ?`. */
  function Get(t: Table, id: string): (r: Option<Generation>)
    ensures r.None? <==> !HasId(t, id)
    ensures r.Some? ==> r.value in t && r.value.id == id
    decreases |t|
  {
    if |t| == 0 then None
    else if t[0].id == id then Some(t[0])
    else
      assert HasId(t, id) ==> HasId(t[1..], id) by {
        if HasId(t, id) {
          var i :| 0 <= i < |t| && t[i].id == id;
          assert t[1..][i - 1].id == id;
        }
      }
      Get(t[1..], id)
  }

  /** Under the primary key, the row found is the row holding the id. */
  lemma {:induction false} GetAt(t: Table, i: nat)
    requires UniqueIds(t) && i < |t|
    ensures Get(t, t[i].id) == Some(t[i])
    decreases |t|
  {
    if i > 0 {
      assert t[0].id != t[i].id;
      assert UniqueIds(t[1..]);
      GetAt(t[1..], i - 1);
    }
  }

  // ---------------------------------------------------------------------
  // createGeneration

  /** The arguments of `createGeneration`; `None` is an omitted field. */
  datatype NewGeneration = NewGeneration(
    kind: string,
    prompt: string,
    systemContext: Option<string>,
    storyboard: Option<string>,
    negativePrompt: Option<string>,
    model: Option<string>,
    aspectRatio: Option<string>,
    duration: Option<int>,
    referenceImages: Option<seq<string>>)

  /** `value || null` on a text field. */
  function TextOrNull(o: Option<string>): Option<string> {
    if o.Some? && o.value != [] then o else None
  }

  /** `value || null` on a number: `0` is falsy too. */
  function NumberOrNull(o: Option<int>): Option<int> {
    if o.Some? && o.value != 0 then o else None
  }

  /** The row `createGeneration` inserts. The columns it leaves out take
      their defaults: progress 0, no tags, not a favourite. */
  function NewRow(d: NewGeneration, id: string, now: nat): Generation {
    Generation(
      id,
      Request(d.kind, d.prompt,
        TextOrNull(d.systemContext), TextOrNull(d.storyboard), TextOrNull(d.negativePrompt),
        TextOrNull(d.model), TextOrNull(d.aspectRatio), NumberOrNull(d.duration),
        d.referenceImages.GetOr([])),
      Job("processing", 0, None, None, None, None, None, None),
      [], false, now, None)
  }

  /** Omitted and falsy arguments are stored as `NULL`; the others as
      given. */
  predicate StoredAs<T(==)>(column: Option<T>, arg: Option<T>, falsy: T) {
    && (column.None? <==> arg.None? || arg.value == falsy)
    && (column.Some? ==> column == arg)
  }

  /** `createGeneration` with `id` drawn from `uuidv4()`. Inserting an id that
      is already present fails the primary-key constraint. */
  function Create(t: Table, d: NewGeneration, id: string, now: nat): (r: Result<Table, string>)
    ensures r.Failure? <==> HasId(t, id)
    ensures r.Success? ==> |r.value| == |t| + 1 && r.value[..|t|] == t
    ensures r.Success? ==> var g := r.value[|t|];
      && g.id == id && g.request.kind == d.kind && g.request.prompt == d.prompt
      && g.job.status == "processing" && g.job.progress == 0
      && g.job.taskId.None? && g.job.resultPath.None? && g.job.resultUrl.None?
      && g.job.errorMessage.None? && g.job.apiResponse.None?
      && g.tags == [] && !g.isFavorite && g.createdAt == now && g.updatedAt.None?
  {
    if HasId(t, id) then Failure("UNIQUE constraint failed: generations.id")
    else
      var r := t + [NewRow(d, id, now)];
      assert r[..|t|] == t;
      Success(r)
  }

  /** Each optional argument that is omitted or falsy (`""`, and `0` for the
      duration) is stored as `NULL`, every other one as given. */
  lemma NewRowNulls(d: NewGeneration, id: string, now: nat)
    ensures var q := NewRow(d, id, now).request;
      && StoredAs(q.systemContext, d.systemContext, [])
      && StoredAs(q.storyboard, d.storyboard, [])
      && StoredAs(q.negativePrompt, d.negativePrompt, [])
      && StoredAs(q.model, d.model, [])
      && StoredAs(q.aspectRatio, d.aspectRatio, [])
      && StoredAs(q.duration, d.duration, 0)
      && q.referenceImages == (if d.referenceImages.Some? then d.referenceImages.value else [])
  {
  }

  /** A successful insert keeps the key unique, and the new id then reads
      back as the inserted row. */
  lemma CreateThenGet(t: Table, d: NewGeneration, id: string, now: nat)
    requires UniqueIds(t) && !HasId(t, id)
    ensures Create(t, d, id, now).Success?
    ensures UniqueIds(Create(t, d, id, now).value)
    ensures Get(Create(t, d, id, now).value, id) == Some(NewRow(d, id, now))
  {
    var r := Create(t, d, id, now).value;
    assert r == t + [NewRow(d, id, now)];
    forall i, j | 0 <= i < j < |r| ensures r[i].id != r[j].id {
      if j == |t| {
        assert r[i] == t[i];
      } else {
        assert r[i] == t[i] && r[j] == t[j];
      }
    }
    GetAt(r, |t|);
  }

  // ---------------------------------------------------------------------
  // updateGeneration

  /** The arguments of `updateGeneration`: `None` is `undefined`, a field
      the call leaves alone. */
  datatype Patch = Patch(
    status: Option<string>,
    progress: Option<int>,
    taskId: Option<string>,
    resultPath: Option<string>,
    resultUrl: Option<string>,
    thumbnailPath: Option<string>,
    apiResponse: Option<ApiPayload>,
    errorMessage: Option<string>)

  const NoChange: Patch := Patch(None, None, None, None, None, None, None, None)

  /** `value !== undefined ? value : column` for a nullable column. */
  function Set<T>(o: Option<T>, column: Option<T>): Option<T> {
    if o.Some? then o else column
  }

  /** The supplied fields of a patch written over a job. */
  function PatchJob(j: Job, p: Patch): Job {
    Job(
      p.status.GetOr(j.status),
      p.progress.GetOr(j.progress),
      Set(p.taskId, j.taskId),
      Set(p.resultPath, j.resultPath),
      Set(p.resultUrl, j.resultUrl),
      Set(p.thumbnailPath, j.thumbnailPath),
      Set(p.apiResponse, j.apiResponse),
      Set(p.errorMessage, j.errorMessage))
  }

  /** The `SET` list of `updateGeneration` applied to one row: the supplied
      fields and `updated_at`. */
  function ApplyPatch(g: Generation, p: Patch, now: nat): (r: Generation)
    ensures r.id == g.id && r.request == g.request && r.tags == g.tags
    ensures r.isFavorite == g.isFavorite && r.createdAt == g.createdAt
    ensures r.updatedAt == Some(now)
  {
    g.(job := PatchJob(g.job, p), updatedAt := Some(now))
  }

  /** Exactly the supplied fields change: a field the patch names takes the
      patch's value, a field it leaves out keeps the row's value. */
  lemma PatchTouchesSuppliedFields(g: Generation, p: Patch, now: nat)
    ensures var r := ApplyPatch(g, p, now).job;
      && (p.status.Some? ==> r.status == p.status.value)
      && (p.status.None? ==> r.status == g.job.status)
      && (p.progress.Some? ==> r.progress == p.progress.value)
      && (p.progress.None? ==> r.progress == g.job.progress)
      && (p.taskId.Some? ==> r.taskId == p.taskId)
      && (p.taskId.None? ==> r.taskId == g.job.taskId)
      && (p.resultPath.Some? ==> r.resultPath == p.resultPath)
      && (p.resultPath.None? ==> r.resultPath == g.job.resultPath)
      && (p.resultUrl.Some? ==> r.resultUrl == p.resultUrl)
      && (p.resultUrl.None? ==> r.resultUrl == g.job.resultUrl)
      && (p.thumbnailPath.Some? ==> r.thumbnailPath == p.thumbnailPath)
      && (p.thumbnailPath.None? ==> r.thumbnailPath == g.job.thumbnailPath)
      && (p.apiResponse.Some? ==> r.apiResponse == p.apiResponse)
      && (p.apiResponse.None? ==> r.apiResponse == g.job.apiResponse)
      && (p.errorMessage.Some? ==> r.errorMessage == p.errorMessage)
      && (p.errorMessage.None? ==> r.errorMessage == g.job.errorMessage)
  {
  }

  /** A call with no fields still writes `updated_at`, and nothing else. */
  lemma EmptyPatchOnlyStamps(g: Generation, now: nat)
    ensures ApplyPatch(g, NoChange, now) == g.(updatedAt := Some(now))
  {
  }

  /** `b` over `a`: the fields `b` names win. */
  function Then(a: Patch, b: Patch): Patch {
    Patch(
      Set(b.status, a.status), Set(b.progress, a.progress), Set(b.taskId, a.taskId),
      Set(b.resultPath, a.resultPath), Set(b.resultUrl, a.resultUrl),
      Set(b.thumbnailPath, a.thumbnailPath), Set(b.apiResponse, a.apiResponse),
      Set(b.errorMessage, a.errorMessage))
  }

  /** Two updates in a row are one update with the later values winning;
      in particular repeating an update changes nothing more. */
  lemma PatchesCompose(g: Generation, a: Patch, b: Patch, n1: nat, n2: nat)
    ensures ApplyPatch(ApplyPatch(g, a, n1), b, n2) == ApplyPatch(g, Then(a, b), n2)
    ensures ApplyPatch(ApplyPatch(g, a, n1), a, n1) == ApplyPatch(g, a, n1)
  {
  }

  /** `UPDATE generations SET ... WHERE id = ?`. */
  function Update(t: Table, id: string, p: Patch, now: nat): (r: Table)
    ensures |r| == |t|
    ensures forall i :: 0 <= i < |t| && t[i].id != id ==> r[i] == t[i]
    ensures forall i :: 0 <= i < |t| && t[i].id == id ==> r[i] == ApplyPatch(t[i], p, now)
    decreases |t|
  {
    if |t| == 0 then []
    else [if t[0].id == id then ApplyPatch(t[0], p, now) else t[0]] + Update(t[1..], id, p, now)
  }

  /** Updating the row just appended leaves the rows before it alone. */
  lemma UpdateNewest(t: Table, row: Generation, p: Patch, now: nat)
    requires !HasId(t, row.id)
    ensures var r := Update(t + [row], row.id, p, now);
      |r| == |t| + 1 && r[..|t|] == t && r[|t|].id == row.id
  {
    var r := Update(t + [row], row.id, p, now);
    forall k | 0 <= k < |t| ensures r[k] == t[k] {
      assert (t + [row])[k] == t[k];
    }
  }

  /** An unknown id matches no row: the table is unchanged. */
  lemma UpdateUnknownId(t: Table, id: string, p: Patch, now: nat)
    requires !HasId(t, id)
    ensures Update(t, id, p, now) == t
  {
    var r := Update(t, id, p, now);
    forall i | 0 <= i < |t| ensures r[i] == t[i] {
      assert t[i].id != id;
    }
  }

  lemma UpdateKeepsIds(t: Table, id: string, p: Patch, now: nat)
    ensures forall k :: 0 <= k < |t| ==> Update(t, id, p, now)[k].id == t[k].id
  {
  }

  /** Updating keeps every id, so the key stays unique, and the updated row
      reads back patched. */
  lemma UpdateThenGet(t: Table, id: string, p: Patch, now: nat)
    requires UniqueIds(t) && HasId(t, id)
    ensures UniqueIds(Update(t, id, p, now))
    ensures Get(Update(t, id, p, now), id) == Some(ApplyPatch(Get(t, id).value, p, now))
  {
    var r := Update(t, id, p, now);
    var i :| 0 <= i < |t| && t[i].id == id;
    UpdateKeepsIds(t, id, p, now);
    SameIdsUnique(t, r);
    GetAt(t, i);
    assert r[i] == ApplyPatch(t[i], p, now);
    GetAt(r, i);
  }

  // ---------------------------------------------------------------------
  // updateGenerationTags, toggleGenerationFavorite, deleteGeneration

  /** `updateGenerationTags`: replaces the tags of the matching row and
      nothing else; `updated_at` is not written. */
  function SetTags(t: Table, id: string, tags: seq<string>): (r: Table)
    ensures |r| == |t|
    ensures forall i :: 0 <= i < |t| ==> r[i] == if t[i].id == id then t[i].(tags := tags) else t[i]
    decreases |t|
  {
    if |t| == 0 then []
    else [if t[0].id == id then t[0].(tags := tags) else t[0]] + SetTags(t[1..], id, tags)
  }

  /** `UPDATE ... SET is_favorite = ? WHERE id = ?`. */
  function SetFavorite(t: Table, id: string, v: bool): (r: Table)
    ensures |r| == |t|
    ensures forall i :: 0 <= i < |t| ==> r[i] == if t[i].id == id then t[i].(isFavorite := v) else t[i]
    decreases |t|
  {
    if |t| == 0 then []
    else [if t[0].id == id then t[0].(isFavorite := v) else t[0]] + SetFavorite(t[1..], id, v)
  }

  /** `toggleGenerationFavorite`: the new table and the returned flag. */
  function ToggleFavorite(t: Table, id: string): (r: (Table, bool))
    ensures !HasId(t, id) ==> r.0 == t && !r.1
    ensures HasId(t, id) ==> r.1 == !Get(t, id).value.isFavorite
    ensures |r.0| == |t|
    ensures forall i :: 0 <= i < |t| && t[i].id != id ==> r.0[i] == t[i]
    ensures forall i :: 0 <= i < |t| && t[i].id == id ==> r.0[i] == t[i].(isFavorite := r.1)
  {
    match Get(t, id)
    case None => (t, false)
    case Some(g) => (SetFavorite(t, id, !g.isFavorite), !g.isFavorite)
  }

  /** Rows whose ids are those of a keyed table, position by position, are
      keyed too. */
  lemma SameIdsUnique(t: Table, u: Table)
    requires UniqueIds(t) && |u| == |t|
    requires forall k :: 0 <= k < |t| ==> u[k].id == t[k].id
    ensures UniqueIds(u)
  {
  }

  /** Setting the flag twice is setting it once, to the later value. */
  lemma SetFavoriteTwice(t: Table, id: string, v: bool, w: bool)
    ensures SetFavorite(SetFavorite(t, id, v), id, w) == SetFavorite(t, id, w)
  {
  }

  /** Under the primary key, writing back a row's own flag changes
      nothing. */
  lemma SetFavoriteSame(t: Table, i: nat)
    requires UniqueIds(t) && i < |t|
    ensures SetFavorite(t, t[i].id, t[i].isFavorite) == t
  {
    var r := SetFavorite(t, t[i].id, t[i].isFavorite);
    forall k | 0 <= k < |t| ensures r[k] == t[k] {
      if k != i {
        assert t[k].id != t[i].id;
      }
    }
  }

  /** Toggling twice restores the table and reports opposite flags. */
  lemma ToggleTwice(t: Table, id: string)
    requires UniqueIds(t)
    ensures ToggleFavorite(ToggleFavorite(t, id).0, id).0 == t
    ensures HasId(t, id) ==> ToggleFavorite(ToggleFavorite(t, id).0, id).1 == !ToggleFavorite(t, id).1
  {
    if HasId(t, id) {
      var i :| 0 <= i < |t| && t[i].id == id;
      GetAt(t, i);
      var b := t[i].isFavorite;
      var t1 := SetFavorite(t, id, !b);
      assert ToggleFavorite(t, id) == (t1, !b);
      assert t1[i] == t[i].(isFavorite := !b);
      SameIdsUnique(t, t1);
      GetAt(t1, i);
      assert ToggleFavorite(t1, id) == (SetFavorite(t1, id, b), b);
      SetFavoriteTwice(t, id, !b, b);
      SetFavoriteSame(t, i);
    }
  }

  predicate IdIsNot(id: string, g: Generation) {
    g.id != id
  }

  /** `deleteGeneration`: removes the matching row and keeps the others in
      order. */
  function Delete(t: Table, id: string): (r: Table)
    ensures !HasId(r, id)
    ensures forall g :: g in r <==> g in t && g.id != id
  {
    var r := Where(t, g => IdIsNot(id, g));
    assert forall i :: 0 <= i < |r| ==> r[i] in r;
    r
  }

  /** Deleting an id that is present removes exactly one row. */
  lemma {:induction false} DeleteRemovesOne(t: Table, id: string)
    requires UniqueIds(t) && HasId(t, id)
    ensures |Delete(t, id)| == |t| - 1
    decreases |t|
  {
    var p := (g: Generation) => IdIsNot(id, g);
    if t[0].id == id {
      assert !HasId(t[1..], id) by {
        forall k | 0 <= k < |t[1..]| ensures t[1..][k].id != id {
          assert t[1..][k] == t[k + 1];
        }
      }
      WhereAll(t[1..], p);
    } else {
      var i :| 0 <= i < |t| && t[i].id == id;
      assert t[1..][i - 1].id == id;
      assert UniqueIds(t[1..]);
      DeleteRemovesOne(t[1..], id);
    }
  }

  /** Filtering by a predicate every row satisfies keeps the table. */
  lemma {:induction false} WhereAll(t: Table, p: Generation -> bool)
    requires forall i :: 0 <= i < |t| ==> p(t[i])
    ensures Where(t, p) == t
    decreases |t|
  {
    if |t| > 0 {
      WhereAll(t[1..], p);
    }
  }

  // ---------------------------------------------------------------------
  // listGenerations

  /** The `WHERE` part of the arguments of `listGenerations`; `None` is an
      omitted field. */
  datatype Criteria = Criteria(
    kind: Option<string>,
    status: Option<string>,
    isFavorite: Option<bool>,
    search: Option<string>)

  /** The arguments of `listGenerations`. */
  datatype Filters = Filters(criteria: Criteria, page: Option<int>, pageSize: Option<int>)

  datatype Listing = Listing(items: seq<Generation>, total: nat, page: int, pageSize: int)

  /** A text filter takes part only when it is truthy. */
  predicate Given(o: Option<string>) {
    o.Some? && o.value != []
  }

  /** The `WHERE` clause: every filter supplied must hold. `LIKE '%s%'` is
      SQLite's case-insensitive match on ASCII letters. */
  predicate Matches(c: Criteria, g: Generation) {
    && (Given(c.kind) ==> g.request.kind == c.kind.value)
    && (Given(c.status) ==> g.job.status == c.status.value)
    && (c.isFavorite.Some? ==> g.isFavorite == c.isFavorite.value)
    && (Given(c.search) ==> ContainsIgnoreCase(g.request.prompt, c.search.value))
  }

  /** `page || 1` and `pageSize || 20`. */
  function PageOf(f: Filters): int {
    if f.page.Some? && f.page.value != 0 then f.page.value else 1
  }

  function PageSizeOf(f: Filters): int {
    if f.pageSize.Some? && f.pageSize.value != 0 then f.pageSize.value else 20
  }

  function CreatedKey(g: Generation): Key {
    Key(g.createdAt, 0)
  }

  /** The matching rows in table order. */
  function Matching(t: Table, c: Criteria): (r: seq<Generation>)
    ensures forall g :: g in r <==> g in t && Matches(c, g)
  {
    Where(t, g => Matches(c, g))
  }

  /** Every match, newest first (`ORDER BY created_at DESC`). */
  function Ordered(t: Table, c: Criteria): (r: seq<Generation>)
    ensures SortedDesc(r, CreatedKey)
    ensures |r| == |Matching(t, c)|
    ensures forall g :: g in r <==> g in t && Matches(c, g)
  {
    var m := Matching(t, c);
    SortDescSorted(m, CreatedKey);
    SameMembers(SortDesc(m, CreatedKey), m);
    SortDesc(m, CreatedKey)
  }

  /** Page `PageOf(f)` of `rows`, `PageSizeOf(f)` rows a page: `LIMIT ?
      OFFSET ?` with the offset `(page - 1) * pageSize`. */
  function Paged(rows: seq<Generation>, f: Filters): seq<Generation> {
    Window(rows, PageSizeOf(f), (PageOf(f) - 1) * PageSizeOf(f))
  }

  /** Where a row is listed: with `n` rows a page, item `i` of page `q + 1`
      is the row at position `q * n + i`. */
  lemma PagedAt(rows: seq<Generation>, f: Filters, q: nat, i: nat)
    requires i < PageSizeOf(f) && q * PageSizeOf(f) + i < |rows|
    ensures var items := Paged(rows, f.(page := Some(q + 1)));
      i < |items| && items[i] == rows[q * PageSizeOf(f) + i]
  {
    var n := PageSizeOf(f);
    var f' := f.(page := Some(q + 1));
    assert PageOf(f') - 1 == q && PageSizeOf(f') == n;
    WindowAt(rows, n, q * n, i);
  }

  /** `listGenerations`. */
  function List(t: Table, f: Filters): (r: Listing)
    ensures r.pageSize > 0 ==> |r.items| <= r.pageSize
    ensures forall g :: g in r.items ==> g in t && Matches(f.criteria, g)
    ensures SortedDesc(r.items, CreatedKey)
    ensures r.page == PageOf(f) && r.pageSize == PageSizeOf(f)
  {
    var page := PageOf(f);
    var size := PageSizeOf(f);
    var rows := Ordered(t, f.criteria);
    WindowOfSorted(rows, CreatedKey, size, (page - 1) * size);
    var items := Paged(rows, f);
    Listing(items, CountWhere(t, g => Matches(f.criteria, g)), page, size)
  }

  /** `total` counts every match, whatever page is asked for: it is the
      length of the ordered result that pages are cut from. */
  lemma ListTotal(t: Table, f: Filters)
    ensures List(t, f).total == |Ordered(t, f.criteria)|
  {
    CountIsWhereLength(t, g => Matches(f.criteria, g));
  }

  /** Every matching row is on some page: with `n` rows a page, the row at
      position `k` of the newest-first order is item `k % n` of page
      `k / n + 1`. */
  lemma EveryMatchListed(t: Table, f: Filters, g: Generation)
    requires g in t && Matches(f.criteria, g)
    requires PageSizeOf(f) > 0
    ensures exists p: nat :: p >= 1 && g in List(t, f.(page := Some(p))).items
  {
    var rows := Ordered(t, f.criteria);
    var n := PageSizeOf(f);
    var k :| 0 <= k < |rows| && rows[k] == g;
    var q := RowOnPage(rows, n, k);
    var p: nat := q + 1;
    assert g in List(t, f.(page := Some(p))).items;
  }

  /** A listing is page `page` of the newest-first matches, cut at offset
      `(page - 1) * pageSize`; `PagedAt` says which match each item is. */
  lemma ListWindow(t: Table, f: Filters)
    ensures var r := List(t, f);
      && r.items == Paged(Ordered(t, f.criteria), f)
      && r.items == Window(Ordered(t, f.criteria), r.pageSize, (r.page - 1) * r.pageSize)
  {
  }

  /** Item `i` of page `q + 1` is the match at position `q * pageSize + i` of
      the newest-first order, for every position the table has. */
  lemma ListItemAt(t: Table, f: Filters, q: nat, i: nat)
    requires i < PageSizeOf(f) && q * PageSizeOf(f) + i < |Ordered(t, f.criteria)|
    ensures var r := List(t, f.(page := Some(q + 1)));
      i < |r.items| && r.items[i] == Ordered(t, f.criteria)[q * PageSizeOf(f) + i]
  {
    var f' := f.(page := Some(q + 1));
    assert f'.criteria == f.criteria;
    ListWindow(t, f');
    PagedAt(Ordered(t, f.criteria), f, q, i);
  }

  /** An omitted or zero page and page size read as the first page of 20. */
  lemma ListDefaults(t: Table, f: Filters)
    requires f.page.None? || f.page == Some(0)
    requires f.pageSize.None? || f.pageSize == Some(0)
    ensures List(t, f).page == 1 && List(t, f).pageSize == 20
    ensures List(t, f).items == Window(Ordered(t, f.criteria), 20, 0)
  {
  }

  // ---------------------------------------------------------------------
  // getStats

  datatype Stats = Stats(totalVideos: nat, totalImages: nat, completed: nat, favorites: nat)

  predicate IsVideo(g: Generation) { g.request.kind == "video" }
  predicate IsImage(g: Generation) { g.request.kind == "image" }
  predicate IsCompleted(g: Generation) { g.job.status == "completed" }
  predicate IsFavorite(g: Generation) { g.isFavorite }

  /** `getStats`: the four counters in one pass over the table. */
  method GetStats(t: Table) returns (s: Stats)
    ensures s.totalVideos == CountWhere(t, IsVideo)
    ensures s.totalImages == CountWhere(t, IsImage)
    ensures s.completed == CountWhere(t, IsCompleted)
    ensures s.favorites == CountWhere(t, IsFavorite)
  {
    s := Stats(0, 0, 0, 0);
    var i := 0;
    while i < |t|
      invariant 0 <= i <= |t|
      invariant s.totalVideos == CountWhere(t[..i], IsVideo)
      invariant s.totalImages == CountWhere(t[..i], IsImage)
      invariant s.completed == CountWhere(t[..i], IsCompleted)
      invariant s.favorites == CountWhere(t[..i], IsFavorite)
    {
      var g := t[i];
      CountPrefixStep(t, i, IsVideo);
      CountPrefixStep(t, i, IsImage);
      CountPrefixStep(t, i, IsCompleted);
      CountPrefixStep(t, i, IsFavorite);
      s := Stats(
        s.totalVideos + (if IsVideo(g) then 1 else 0),
        s.totalImages + (if IsImage(g) then 1 else 0),
        s.completed + (if IsCompleted(g) then 1 else 0),
        s.favorites + (if IsFavorite(g) then 1 else 0));
      i := i + 1;
    }
    assert t[..i] == t;
  }

  /** A row is a video or an image, never both, so the two counters never
      add up to more rows than the table has. */
  lemma {:induction false} KindsDisjoint(t: Table)
    ensures CountWhere(t, IsVideo) + CountWhere(t, IsImage) <= |t|
    decreases |t|
  {
    if |t| > 0 {
      KindsDisjoint(t[1..]);
    }
  }
}
