/** The `templates` table of `src-main/services/database.ts`. Its key is
    `INTEGER PRIMARY KEY AUTOINCREMENT`: SQLite hands out one more than the
    largest id ever used, so the table carries that number along with its
    rows. */
module Templates {
  import opened Wrappers
  import opened Tables
  import Store

  /** The columns `createTemplate` and `updateTemplate` write. */
  datatype Content = Content(
    name: string,
    category: Option<string>,
    systemContext: Option<string>,
    storyboard: Option<string>,
    negativePrompt: Option<string>)

  /** One row of `templates`; times are instants as in the generations
      table. */
  datatype Template = Template(
    id: nat,
    content: Content,
    isFavorite: bool,
    useCount: int,
    createdAt: nat,
    updatedAt: Option<nat>)

  /** The rows in insertion order and the largest id handed out so far. */
  datatype TemplateTable = TemplateTable(rows: seq<Template>, lastId: nat)

  /** What `AUTOINCREMENT` keeps true: every id is below the counter and no
      two rows share one. */
  predicate Valid(tt: TemplateTable) {
    && (forall i :: 0 <= i < |tt.rows| ==> tt.rows[i].id <= tt.lastId)
    && DistinctIds(tt.rows)
  }

  predicate HasId(tt: TemplateTable, id: int) {
    exists i :: 0 <= i < |tt.rows| && tt.rows[i].id == id
  }

  /** `getTemplate`. */
  function Get(rows: seq<Template>, id: int): (r: Option<Template>)
    ensures r.None? <==> forall i :: 0 <= i < |rows| ==> rows[i].id != id
    ensures r.Some? ==> r.value in rows && r.value.id == id
    decreases |rows|
  {
    if |rows| == 0 then None
    else if rows[0].id == id then Some(rows[0])
    else
      assert forall i :: 1 <= i < |rows| ==> rows[i] == rows[1..][i - 1];
      Get(rows[1..], id)
  }

  /** Under the key, the row found is the row holding the id. */
  lemma {:induction false} GetAt(tt: TemplateTable, i: nat)
    requires Valid(tt) && i < |tt.rows|
    ensures Get(tt.rows, tt.rows[i].id) == Some(tt.rows[i])
    decreases i
  {
    if i > 0 {
      var t := tt.rows;
      assert t[0].id != t[i].id;
      GetAt(TemplateTable(t[1..], tt.lastId), i - 1);
    }
  }

  // ---------------------------------------------------------------------
  // createTemplate

  /** The arguments of `createTemplate`; `None` is an omitted field. */
  datatype NewTemplate = NewTemplate(
    name: string,
    category: Option<string>,
    systemContext: Option<string>,
    storyboard: Option<string>,
    negativePrompt: Option<string>)

  /** `createTemplate`: the new table and `lastInsertRowid`. Falsy optional
      fields are stored as `NULL`. */
  function Create(tt: TemplateTable, d: NewTemplate, now: nat): (r: (TemplateTable, nat))
    ensures r.1 == tt.lastId + 1 && r.0.lastId == r.1
    ensures |r.0.rows| == |tt.rows| + 1 && r.0.rows[..|tt.rows|] == tt.rows
    ensures var g := r.0.rows[|tt.rows|];
      && g.id == r.1 && g.content.name == d.name && !g.isFavorite && g.useCount == 0
      && g.createdAt == now && g.updatedAt.None?
      && Store.StoredAs(g.content.category, d.category, [])
      && Store.StoredAs(g.content.systemContext, d.systemContext, [])
      && Store.StoredAs(g.content.storyboard, d.storyboard, [])
      && Store.StoredAs(g.content.negativePrompt, d.negativePrompt, [])
  {
    var id := tt.lastId + 1;
    var content := Content(d.name, Store.TextOrNull(d.category), Store.TextOrNull(d.systemContext),
      Store.TextOrNull(d.storyboard), Store.TextOrNull(d.negativePrompt));
    var rows := tt.rows + [Template(id, content, false, 0, now, None)];
    assert rows[..|tt.rows|] == tt.rows;
    (TemplateTable(rows, id), id)
  }

  /** A new id is above every id in the table, so the key stays unique and
      the new row reads back under it. */
  lemma CreateKeepsValid(tt: TemplateTable, d: NewTemplate, now: nat)
    requires Valid(tt)
    ensures var (t2, id) := Create(tt, d, now);
      Valid(t2) && !HasId(tt, id) && Get(t2.rows, id) == Some(t2.rows[|tt.rows|])
  {
    var (t2, id) := Create(tt, d, now);
    assert forall i :: 0 <= i < |tt.rows| ==> t2.rows[i] == tt.rows[i];
    GetAt(t2, |tt.rows|);
  }

  // ---------------------------------------------------------------------
  // listTemplates

  function UseKey(g: Template): Key {
    Key(g.useCount, g.createdAt)
  }

  /** `listTemplates`: every row, most used first, newer first among equal
      counts. */
  function List(tt: TemplateTable): (r: seq<Template>)
    ensures |r| == |tt.rows| && multiset(r) == multiset(tt.rows)
    ensures SortedDesc(r, UseKey)
  {
    SortDescSorted(tt.rows, UseKey);
    SortDesc(tt.rows, UseKey)
  }

  /** The first template listed is used at least as often as any other, and
      of those used as often it is the newest. */
  lemma ListHeadMostUsed(tt: TemplateTable, g: Template)
    requires g in tt.rows
    ensures var r := List(tt);
      (|r| > 0
       && r[0].useCount >= g.useCount
       && (r[0].useCount == g.useCount ==> r[0].createdAt >= g.createdAt))
  {
    var r := List(tt);
    SameMembers(r, tt.rows);
    var k :| 0 <= k < |r| && r[k] == g;
    if k > 0 {
      assert KeyAtLeast(UseKey(r[0]), UseKey(r[k]));
    }
  }

  // ---------------------------------------------------------------------
  // updateTemplate

  /** The arguments of `updateTemplate`: `None` is `undefined`. A supplied
      value is written as it is, `""` included. */
  datatype TemplatePatch = TemplatePatch(
    name: Option<string>,
    category: Option<string>,
    systemContext: Option<string>,
    storyboard: Option<string>,
    negativePrompt: Option<string>)

  predicate IsEmpty(p: TemplatePatch) {
    p.name.None? && p.category.None? && p.systemContext.None?
    && p.storyboard.None? && p.negativePrompt.None?
  }

  function PatchText(x: Content, p: TemplatePatch): Content {
    Content(
      p.name.GetOr(x.name),
      Store.Set(p.category, x.category),
      Store.Set(p.systemContext, x.systemContext),
      Store.Set(p.storyboard, x.storyboard),
      Store.Set(p.negativePrompt, x.negativePrompt))
  }

  function UpdateRows(rows: seq<Template>, id: int, p: TemplatePatch, now: nat): (r: seq<Template>)
    ensures |r| == |rows|
    ensures forall i :: 0 <= i < |rows| && rows[i].id != id ==> r[i] == rows[i]
    ensures forall i :: 0 <= i < |rows| && rows[i].id == id ==>
      r[i] == rows[i].(content := PatchText(rows[i].content, p), updatedAt := Some(now))
    decreases |rows|
  {
    if |rows| == 0 then []
    else
      var g := rows[0];
      [if g.id == id then g.(content := PatchText(g.content, p), updatedAt := Some(now)) else g]
        + UpdateRows(rows[1..], id, p, now)
  }

  /** `updateTemplate`: the statement runs only when some field is
      supplied. */
  function Update(tt: TemplateTable, id: int, p: TemplatePatch, now: nat): (r: TemplateTable)
    ensures IsEmpty(p) ==> r == tt
    ensures r.lastId == tt.lastId && |r.rows| == |tt.rows|
    ensures forall i :: 0 <= i < |tt.rows| ==>
      (&& r.rows[i].id == tt.rows[i].id
       && r.rows[i].isFavorite == tt.rows[i].isFavorite
       && r.rows[i].useCount == tt.rows[i].useCount
       && r.rows[i].createdAt == tt.rows[i].createdAt)
    ensures forall i :: 0 <= i < |tt.rows| && tt.rows[i].id != id ==> r.rows[i] == tt.rows[i]
  {
    if IsEmpty(p) then tt
    else tt.(rows := UpdateRows(tt.rows, id, p, now))
  }

  /** A supplied field is written and stamps `updated_at`; the fields left
      out keep their values. */
  lemma UpdateWrites(tt: TemplateTable, i: nat, p: TemplatePatch, now: nat)
    requires i < |tt.rows| && !IsEmpty(p)
    ensures var g := tt.rows[i]; var h := Update(tt, g.id, p, now).rows[i];
      && h.updatedAt == Some(now)
      && h.content.name == (if p.name.Some? then p.name.value else g.content.name)
      && (p.category.Some? ==> h.content.category == p.category)
      && (p.category.None? ==> h.content.category == g.content.category)
      && (p.systemContext.Some? ==> h.content.systemContext == p.systemContext)
      && (p.systemContext.None? ==> h.content.systemContext == g.content.systemContext)
      && (p.storyboard.Some? ==> h.content.storyboard == p.storyboard)
      && (p.storyboard.None? ==> h.content.storyboard == g.content.storyboard)
      && (p.negativePrompt.Some? ==> h.content.negativePrompt == p.negativePrompt)
      && (p.negativePrompt.None? ==> h.content.negativePrompt == g.content.negativePrompt)
  {
  }

  /** Unlike `updateGeneration`, an update with no fields writes nothing, so
      `updated_at` keeps its value, while the generations table stamps it
      regardless. */
  lemma EmptyUpdatesDiffer(tt: TemplateTable, i: nat, gen: Store.Generation, now: nat)
    requires i < |tt.rows|
    ensures Update(tt, tt.rows[i].id, TemplatePatch(None, None, None, None, None), now).rows[i].updatedAt
      == tt.rows[i].updatedAt
    ensures Store.ApplyPatch(gen, Store.NoChange, now).updatedAt == Some(now)
  {
  }

  // ---------------------------------------------------------------------
  // deleteTemplate, toggleTemplateFavorite, incrementTemplateUseCount

  predicate IdIsNot(id: int, g: Template) {
    g.id != id
  }

  /** `deleteTemplate`: drops the matching row. The counter is kept, so a
      deleted id is never handed out again. */
  function Delete(tt: TemplateTable, id: int): (r: TemplateTable)
    ensures r.lastId == tt.lastId
    ensures forall g :: g in r.rows <==> g in tt.rows && g.id != id
  {
    var rows := Where(tt.rows, g => IdIsNot(id, g));
    TemplateTable(rows, tt.lastId)
  }

  /** Deleting keeps the table valid, and the next template created gets an
      id different from the deleted one. */
  lemma DeleteThenCreate(tt: TemplateTable, id: int, d: NewTemplate, now: nat)
    requires Valid(tt) && HasId(tt, id)
    ensures Valid(Delete(tt, id))
    ensures Create(Delete(tt, id), d, now).1 != id
  {
    var r := Delete(tt, id);
    forall i | 0 <= i < |r.rows| ensures r.rows[i].id <= r.lastId {
      assert r.rows[i] in tt.rows;
    }
    WhereDistinct(tt.rows, g => IdIsNot(id, g));
  }

  predicate DistinctIds(s: seq<Template>) {
    forall i, j :: 0 <= i < j < |s| ==> s[i].id != s[j].id
  }

  /** Filtering rows keeps their ids distinct. */
  lemma {:induction false} WhereDistinct(s: seq<Template>, p: Template -> bool)
    requires DistinctIds(s)
    ensures DistinctIds(Where(s, p))
    decreases |s|
  {
    if |s| > 0 {
      var rest := Where(s[1..], p);
      assert DistinctIds(s[1..]);
      WhereDistinct(s[1..], p);
      if p(s[0]) {
        var w := [s[0]] + rest;
        assert Where(s, p) == w;
        forall j | 0 < j < |w| ensures w[0].id != w[j].id {
          assert w[j] == rest[j - 1];
          assert w[j] in s[1..];
          var k :| 0 <= k < |s[1..]| && s[1..][k] == w[j];
          assert s[k + 1] == w[j];
        }
        forall i, j | 0 < i < j < |w| ensures w[i].id != w[j].id {
          assert w[i] == rest[i - 1] && w[j] == rest[j - 1];
        }
      }
    }
  }

  /** Rows whose ids are those of a valid table, position by position, make
      a valid table under the same counter. */
  lemma SameIdsValid(tt: TemplateTable, rows: seq<Template>)
    requires Valid(tt) && |rows| == |tt.rows|
    requires forall k :: 0 <= k < |rows| ==> rows[k].id == tt.rows[k].id
    ensures Valid(TemplateTable(rows, tt.lastId))
  {
  }

  /** `UPDATE templates SET ... WHERE id = ?` for the flag and the count;
      neither statement writes `updated_at`. */
  function MapId(rows: seq<Template>, id: int, favorite: Option<bool>, bump: bool): (r: seq<Template>)
    ensures |r| == |rows|
    ensures forall i :: 0 <= i < |rows| && rows[i].id != id ==> r[i] == rows[i]
    ensures forall i :: 0 <= i < |rows| && rows[i].id == id ==>
      r[i] == rows[i].(isFavorite := favorite.GetOr(rows[i].isFavorite),
                       useCount := rows[i].useCount + (if bump then 1 else 0))
    decreases |rows|
  {
    if |rows| == 0 then []
    else
      var g := rows[0];
      [if g.id == id
       then g.(isFavorite := favorite.GetOr(g.isFavorite), useCount := g.useCount + (if bump then 1 else 0))
       else g]
        + MapId(rows[1..], id, favorite, bump)
  }

  /** `toggleTemplateFavorite`: the new table and the returned flag. */
  function ToggleFavorite(tt: TemplateTable, id: int): (r: (TemplateTable, bool))
    ensures !HasId(tt, id) ==> r.0 == tt && !r.1
    ensures HasId(tt, id) ==> r.1 == !Get(tt.rows, id).value.isFavorite
    ensures r.0.lastId == tt.lastId && |r.0.rows| == |tt.rows|
    ensures forall i :: 0 <= i < |tt.rows| && tt.rows[i].id != id ==> r.0.rows[i] == tt.rows[i]
    ensures forall i :: 0 <= i < |tt.rows| && tt.rows[i].id == id ==>
      r.0.rows[i] == tt.rows[i].(isFavorite := r.1)
  {
    match Get(tt.rows, id)
    case None =>
      assert !HasId(tt, id);
      (tt, false)
    case Some(g) => (tt.(rows := MapId(tt.rows, id, Some(!g.isFavorite), false)), !g.isFavorite)
  }

  lemma MapIdKeepsIds(rows: seq<Template>, id: int, favorite: Option<bool>, bump: bool)
    ensures forall k :: 0 <= k < |rows| ==> MapId(rows, id, favorite, bump)[k].id == rows[k].id
  {
  }

  /** Setting the flag twice is setting it once, to the later value. */
  lemma SetFlagTwice(rows: seq<Template>, id: int, v: bool, w: bool)
    ensures MapId(MapId(rows, id, Some(v), false), id, Some(w), false) == MapId(rows, id, Some(w), false)
  {
  }

  /** Under the key, writing back a row's own flag changes nothing. */
  lemma SetFlagSame(tt: TemplateTable, i: nat)
    requires Valid(tt) && i < |tt.rows|
    ensures MapId(tt.rows, tt.rows[i].id, Some(tt.rows[i].isFavorite), false) == tt.rows
  {
    var r := MapId(tt.rows, tt.rows[i].id, Some(tt.rows[i].isFavorite), false);
    forall k | 0 <= k < |r| ensures r[k] == tt.rows[k] {
      if k != i {
        assert tt.rows[k].id != tt.rows[i].id;
      }
    }
  }

  /** Toggling twice restores the table and reports opposite flags. */
  lemma ToggleTwice(tt: TemplateTable, id: int)
    requires Valid(tt)
    ensures ToggleFavorite(ToggleFavorite(tt, id).0, id).0 == tt
    ensures HasId(tt, id) ==> ToggleFavorite(ToggleFavorite(tt, id).0, id).1 == !ToggleFavorite(tt, id).1
  {
    if HasId(tt, id) {
      var i :| 0 <= i < |tt.rows| && tt.rows[i].id == id;
      GetAt(tt, i);
      var b := tt.rows[i].isFavorite;
      var rows1 := MapId(tt.rows, id, Some(!b), false);
      var t1 := tt.(rows := rows1);
      assert ToggleFavorite(tt, id) == (t1, !b);
      assert rows1[i] == tt.rows[i].(isFavorite := !b);
      MapIdKeepsIds(tt.rows, id, Some(!b), false);
      SameIdsValid(tt, rows1);
      GetAt(t1, i);
      assert ToggleFavorite(t1, id) == (tt.(rows := MapId(rows1, id, Some(b), false)), b);
      SetFlagTwice(tt.rows, id, !b, b);
      SetFlagSame(tt, i);
    }
  }

  /** `incrementTemplateUseCount`: the matching row's count goes up by one;
      nothing else changes, `updated_at` included. */
  function IncrementUseCount(tt: TemplateTable, id: int): (r: TemplateTable)
    ensures r.lastId == tt.lastId && |r.rows| == |tt.rows|
    ensures forall i :: 0 <= i < |tt.rows| && tt.rows[i].id != id ==> r.rows[i] == tt.rows[i]
    ensures forall i :: 0 <= i < |tt.rows| && tt.rows[i].id == id ==>
      r.rows[i] == tt.rows[i].(useCount := tt.rows[i].useCount + 1)
  {
    tt.(rows := MapId(tt.rows, id, None, true))
  }

  /** Read back by id, the count is exactly one higher and the table stays
      valid. */
  lemma IncrementByOne(tt: TemplateTable, id: int)
    requires Valid(tt) && HasId(tt, id)
    ensures Valid(IncrementUseCount(tt, id))
    ensures Get(IncrementUseCount(tt, id).rows, id).value.useCount
      == Get(tt.rows, id).value.useCount + 1
  {
    var r := IncrementUseCount(tt, id);
    var i :| 0 <= i < |tt.rows| && tt.rows[i].id == id;
    MapIdKeepsIds(tt.rows, id, None, true);
    SameIdsValid(tt, r.rows);
    GetAt(tt, i);
    GetAt(r, i);
  }
}
