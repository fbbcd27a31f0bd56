/**
 * The category handlers of routes/categories.js. The news and art variants are the same
 * code over different tables, so every handler takes the `Kind`. A category name is stored
 * trimmed; renaming a category relabels its dependent rows in the same transaction, and a
 * category still in use cannot be deleted.
 */
module Categories {
  import opened Wrappers
  import opened Text
  import opened Table
  import opened Ordering
  import opened Schema

  datatype CategoryError =
    | NameRequired
    | AlreadyExists
    | NameTaken
    | CategoryNotFound
    | InUse(usageCount: nat)
    | Internal
  {
    /** The HTTP status of the error response. */
    function Status(): nat {
      match this
      case NameRequired => 400
      case CategoryNotFound => 404
      case Internal => 500
      case _ => 409
    }
  }

  /** The name a create or rename request asks for: absent when `!name || name.trim() === ''`. */
  function RequestedName(name: Option<string>): (r: Option<string>)
    ensures r.None? <==> !Present(name) || AllSpace(name.value)
    ensures r.Some? ==> r.value != [] && IsTrimmed(r.value)
  {
    if !Present(name) || Trim(name.value) == [] then None else Some(Trim(name.value))
  }

  /** White space around a name does not change the name a request asks for. */
  lemma RequestedNamePadded(pre: string, core: string, post: string)
    requires AllSpace(pre) && AllSpace(post) && core != [] && IsTrimmed(core)
    ensures RequestedName(Some(pre + core + post)) == Some(core)
  {
    TrimPadded(pre, core, post);
  }

  /** Some category other than `id` already has `name`. */
  predicate NameHeld(t: seq<Row<Category>>, name: string, id: int) {
    exists row :: row in t && row.id != id && row.value.name == name
  }

  /** `WHERE name = ? AND id != ?`; the create handler passes an id no row has. */
  function HolderOf(name: string, id: int): Row<Category> -> bool {
    (row: Row<Category>) => row.value.name == name && row.id != id
  }

  lemma HoldersFound(t: seq<Row<Category>>, name: string, id: int)
    ensures |Where(t, HolderOf(name, id))| > 0 <==> NameHeld(t, name, id)
  {
    CountZero(t, HolderOf(name, id));
  }

  /** `ORDER BY name ASC`. */
  predicate ByName(a: Row<Category>, b: Row<Category>) {
    LexLe(a.value.name, b.value.name)
  }

  lemma ByNameIsTotalPreorder()
    ensures IsTotalPreorder(ByName)
  {
    forall a: Row<Category>, b: Row<Category> ensures ByName(a, b) || ByName(b, a) {
      LexLeTotal(a.value.name, b.value.name);
    }
    forall a: Row<Category>, b: Row<Category>, c: Row<Category> | ByName(a, b) && ByName(b, c)
      ensures ByName(a, c)
    {
      LexLeTransitive(a.value.name, b.value.name, c.value.name);
    }
  }

  /** `GET /api/v1/{news,art}-categories`: every category of the kind, by name. */
  method ListCategories(db: Database, kind: Kind) returns (r: seq<Row<Category>>)
    ensures multiset(r) == multiset(db.Categories(kind))
    ensures SortedBy(r, ByName)
  {
    ByNameIsTotalPreorder();
    SortBySorted(db.Categories(kind), ByName);
    r := SortBy(db.Categories(kind), ByName);
  }

  /** `GET /api/v1/{news,art}-categories/:id`. */
  method GetCategory(db: Database, kind: Kind, id: int) returns (r: Reply<Row<Category>, CategoryError>)
    ensures r.Err? <==> forall row :: row in db.Categories(kind) ==> row.id != id
    ensures r.Err? ==> r.error == CategoryNotFound
    ensures r.Ok? ==> r.status == 200 && r.body.id == id && r.body in db.Categories(kind)
  {
    match Find(db.Categories(kind), id)
    case None =>
      return Err(CategoryNotFound);
    case Some(c) =>
      return Ok(200, Row(id as nat, c));
  }

  /** Replaces the category table of one kind, leaving the other kind's as it was. */
  method Store(db: Database, kind: Kind, t: seq<Row<Category>>, next: nat)
    requires db.Valid() && CategoriesValid(t, next)
    modifies db`newsCategories, db`nextNewsCategoryId, db`artCategories, db`nextArtCategoryId
    ensures db.Valid()
    ensures db.Categories(kind) == t && db.NextCategoryId(kind) == next
    ensures db.Categories(Other(kind)) == old(db.Categories(Other(kind)))
    ensures db.NextCategoryId(Other(kind)) == old(db.NextCategoryId(Other(kind)))
  {
    if kind == NewsKind {
      db.newsCategories, db.nextNewsCategoryId := t, next;
    } else {
      db.artCategories, db.nextArtCategoryId := t, next;
    }
  }

  /** `POST /api/v1/{news,art}-categories`: a new category under the trimmed name. */
  method CreateCategory(db: Database, kind: Kind, name: Option<string>) returns (r: Reply<Row<Category>, CategoryError>)
    requires db.Valid()
    modifies db`newsCategories, db`nextNewsCategoryId, db`artCategories, db`nextArtCategoryId
    ensures db.Valid()
    ensures db.Categories(Other(kind)) == old(db.Categories(Other(kind)))
    ensures db.NextCategoryId(Other(kind)) == old(db.NextCategoryId(Other(kind)))
    ensures r.Err? ==> db.Categories(kind) == old(db.Categories(kind)) && db.NextCategoryId(kind) == old(db.NextCategoryId(kind))
    ensures r == Err(NameRequired) <==> RequestedName(name).None?
    ensures r == Err(AlreadyExists) <==>
      RequestedName(name).Some? && NameHeld(old(db.Categories(kind)), RequestedName(name).value, -1)
    ensures r.Ok? <==>
      RequestedName(name).Some? && !NameHeld(old(db.Categories(kind)), RequestedName(name).value, -1)
    ensures r.Ok? ==>
      && r.status == 201
      && r.body == Row(old(db.NextCategoryId(kind)), Category(RequestedName(name).value))
      && db.Categories(kind) == old(db.Categories(kind)) + [r.body]
      && db.NextCategoryId(kind) == old(db.NextCategoryId(kind)) + 1
  {
    var requested := RequestedName(name);
    if requested.None? {
      return Err(NameRequired);
    }
    var trimmed := requested.value;
    var existing := Where(db.Categories(kind), HolderOf(trimmed, -1));
    HoldersFound(db.Categories(kind), trimmed, -1);
    if |existing| > 0 {
      return Err(AlreadyExists);
    }
    var id := db.NextCategoryId(kind);
    var t := db.Categories(kind) + [Row(id, Category(trimmed))];
    InsertKeepsKeys(db.Categories(kind), id, Category(trimmed));
    InsertKeepsUniqueBy(db.Categories(kind), Row(id, Category(trimmed)), CategoryName);
    Store(db, kind, t, id + 1);
    return Ok(201, Row(id, Category(trimmed)));
  }

  /**
   * `PUT /api/v1/{news,art}-categories/:id`: renames the category and, in the same
   * transaction, moves every dependent row from the old name to the new one. `fault` stands
   * for a statement of the transaction failing, which rolls all of it back.
   */
  method RenameCategory(db: Database, kind: Kind, id: int, name: Option<string>, fault: bool)
    returns (r: Reply<Row<Category>, CategoryError>)
    requires db.Valid()
    modifies db`newsCategories, db`nextNewsCategoryId, db`artCategories, db`nextArtCategoryId, db`news, db`arts
    ensures db.Valid()
    ensures db.nextNewsCategoryId == old(db.nextNewsCategoryId) && db.nextArtCategoryId == old(db.nextArtCategoryId)
    ensures db.Categories(Other(kind)) == old(db.Categories(Other(kind)))
    ensures r.Err? ==>
      db.Categories(kind) == old(db.Categories(kind)) && db.news == old(db.news) && db.arts == old(db.arts)
    ensures r == Err(NameRequired) <==> RequestedName(name).None?
    ensures r == Err(CategoryNotFound) <==>
      RequestedName(name).Some? && Find(old(db.Categories(kind)), id).None?
    ensures r == Err(NameTaken) <==>
      && RequestedName(name).Some? && Find(old(db.Categories(kind)), id).Some?
      && NameHeld(old(db.Categories(kind)), RequestedName(name).value, id)
    ensures r == Err(Internal) <==>
      && RequestedName(name).Some? && Find(old(db.Categories(kind)), id).Some?
      && !NameHeld(old(db.Categories(kind)), RequestedName(name).value, id) && fault
    ensures r.Ok? <==>
      && RequestedName(name).Some? && Find(old(db.Categories(kind)), id).Some?
      && !NameHeld(old(db.Categories(kind)), RequestedName(name).value, id) && !fault
    ensures r.Ok? ==>
      var renamed := RequestedName(name).value;
      var before := Find(old(db.Categories(kind)), id).value.name;
      && r.status == 200 && r.body.id == id && r.body.value == Category(renamed)
      && db.Categories(kind) == Update(old(db.Categories(kind)), id, Category(renamed))
      && (kind == NewsKind ==> db.news == Map(old(db.news), RelabelNews(before, renamed)) && db.arts == old(db.arts))
      && (kind == ArtKind ==> db.arts == Map(old(db.arts), RelabelArt(before, renamed)) && db.news == old(db.news))
  {
    var requested := RequestedName(name);
    if requested.None? {
      return Err(NameRequired);
    }
    var trimmed := requested.value;
    var found := Find(db.Categories(kind), id);
    if found.None? {
      return Err(CategoryNotFound);
    }
    var duplicates := Where(db.Categories(kind), HolderOf(trimmed, id));
    HoldersFound(db.Categories(kind), trimmed, id);
    if |duplicates| > 0 {
      return Err(NameTaken);
    }
    if fault {
      return Err(Internal);
    }
    CommitRename(db, kind, id, found.value, trimmed);
    return Ok(200, Row(id as nat, Category(trimmed)));
  }

  /** The statements of the rename transaction, once they all succeed. */
  method CommitRename(db: Database, kind: Kind, id: int, current: Category, renamed: string)
    requires db.Valid() && Find(db.Categories(kind), id) == Some(current)
    requires renamed != [] && IsTrimmed(renamed) && !NameHeld(db.Categories(kind), renamed, id)
    modifies db`newsCategories, db`artCategories, db`news, db`arts
    ensures db.Valid()
    ensures db.nextNewsCategoryId == old(db.nextNewsCategoryId) && db.nextArtCategoryId == old(db.nextArtCategoryId)
    ensures db.Categories(Other(kind)) == old(db.Categories(Other(kind)))
    ensures db.Categories(kind) == Update(old(db.Categories(kind)), id, Category(renamed))
    ensures kind == NewsKind ==> db.news == Map(old(db.news), RelabelNews(current.name, renamed)) && db.arts == old(db.arts)
    ensures kind == ArtKind ==> db.arts == Map(old(db.arts), RelabelArt(current.name, renamed)) && db.news == old(db.news)
  {
    RenameRow(db, kind, id, current, renamed);
    RelabelDependents(db, kind, current.name, renamed);
  }

  /** `UPDATE <category table> SET name = ? WHERE id = ?`. */
  method RenameRow(db: Database, kind: Kind, id: int, current: Category, renamed: string)
    requires db.Valid() && Find(db.Categories(kind), id) == Some(current)
    requires renamed != [] && IsTrimmed(renamed) && !NameHeld(db.Categories(kind), renamed, id)
    modifies db`newsCategories, db`artCategories
    ensures db.Valid()
    ensures db.Categories(Other(kind)) == old(db.Categories(Other(kind)))
    ensures db.Categories(kind) == Update(old(db.Categories(kind)), id, Category(renamed))
  {
    RenameKeepsCategoriesValid(db.Categories(kind), db.NextCategoryId(kind), id, current, renamed);
    db.SetCategories(kind, Update(db.Categories(kind), id, Category(renamed)));
  }

  /** `UPDATE <dependent table> SET category = <to> WHERE category = <from>`. */
  method RelabelDependents(db: Database, kind: Kind, from: string, to: string)
    requires db.Valid()
    modifies db`news, db`arts
    ensures db.Valid()
    ensures kind == NewsKind ==> db.news == Map(old(db.news), RelabelNews(from, to)) && db.arts == old(db.arts)
    ensures kind == ArtKind ==> db.arts == Map(old(db.arts), RelabelArt(from, to)) && db.news == old(db.news)
    ensures from != to ==>
      && db.Usage(kind, from) == 0
      && db.Usage(kind, to) == old(db.Usage(kind, from)) + old(db.Usage(kind, to))
  {
    if kind == NewsKind {
      MapKeepsKeys(db.news, RelabelNews(from, to), db.nextNewsId);
      if from != to {
        RelabelNewsUsage(db.news, from, to);
      }
      db.SetNews(Map(db.news, RelabelNews(from, to)));
    } else {
      MapKeepsKeys(db.arts, RelabelArt(from, to), db.nextArtId);
      if from != to {
        RelabelArtUsage(db.arts, from, to);
      }
      db.SetArts(Map(db.arts, RelabelArt(from, to)));
    }
  }

  /** A rename to a clean name no other category holds keeps the table valid. */
  lemma RenameKeepsCategoriesValid(t: seq<Row<Category>>, next: nat, id: int, current: Category, name: string)
    requires CategoriesValid(t, next) && Find(t, id) == Some(current)
    requires name != [] && IsTrimmed(name) && !NameHeld(t, name, id)
    ensures CategoriesValid(Update(t, id, Category(name)), next)
  {
    var i :| 0 <= i < |t| && t[i] == Row(id as nat, current);
    UpdateKeepsKeys(t, id, Category(name), next);
    UpdateKeepsUniqueBy(t, i, Category(name), CategoryName);
    UpdateAt(t, i, Category(name));
    var r := Update(t, id, Category(name));
    forall row | row in r ensures row.value.name != "" && IsTrimmed(row.value.name) {
      var k :| 0 <= k < |r| && r[k] == row;
      if k != i {
        assert t[k] in t;
      }
    }
  }

  /** Relabelling news moves every item filed under the old name to the new one. */
  lemma RelabelNewsUsage(t: seq<Row<NewsItem>>, from: string, to: string)
    requires from != to
    ensures Count(Map(t, RelabelNews(from, to)), NewsInCategory(from)) == 0
    ensures Count(Map(t, RelabelNews(from, to)), NewsInCategory(to))
      == Count(t, NewsInCategory(from)) + Count(t, NewsInCategory(to))
  {
    var either := (row: Row<NewsItem>) => row.value.category == from || row.value.category == to;
    CountMap(t, RelabelNews(from, to), NewsInCategory(from), (row: Row<NewsItem>) => false);
    CountZero(t, (row: Row<NewsItem>) => false);
    CountMap(t, RelabelNews(from, to), NewsInCategory(to), either);
    CountEither(t, NewsInCategory(from), NewsInCategory(to), either);
  }

  /** Relabelling community art moves every piece filed under the old name to the new one. */
  lemma RelabelArtUsage(t: seq<Row<CommunityArt>>, from: string, to: string)
    requires from != to
    ensures Count(Map(t, RelabelArt(from, to)), ArtInCategory(from)) == 0
    ensures Count(Map(t, RelabelArt(from, to)), ArtInCategory(to))
      == Count(t, ArtInCategory(from)) + Count(t, ArtInCategory(to))
  {
    var either := (row: Row<CommunityArt>) => row.value.category == from || row.value.category == to;
    CountMap(t, RelabelArt(from, to), ArtInCategory(from), (row: Row<CommunityArt>) => false);
    CountZero(t, (row: Row<CommunityArt>) => false);
    CountMap(t, RelabelArt(from, to), ArtInCategory(to), either);
    CountEither(t, ArtInCategory(from), ArtInCategory(to), either);
  }

  /** `DELETE /api/v1/{news,art}-categories/:id`: refused while any dependent row uses the name. */
  method DeleteCategory(db: Database, kind: Kind, id: int) returns (r: Reply<(), CategoryError>)
    requires db.Valid()
    modifies db`newsCategories, db`artCategories
    ensures db.Valid()
    ensures db.nextNewsCategoryId == old(db.nextNewsCategoryId) && db.nextArtCategoryId == old(db.nextArtCategoryId)
    ensures db.Categories(Other(kind)) == old(db.Categories(Other(kind)))
    ensures r.Err? ==> db.Categories(kind) == old(db.Categories(kind))
    ensures r == Err(CategoryNotFound) <==> Find(old(db.Categories(kind)), id).None?
    ensures r.Err? && r.error.InUse? <==>
      Find(old(db.Categories(kind)), id).Some? && db.References(kind, Find(old(db.Categories(kind)), id).value.name)
    ensures r.Err? && r.error.InUse? ==>
      r.error.usageCount == db.Usage(kind, Find(old(db.Categories(kind)), id).value.name) > 0
    ensures r.Ok? <==>
      Find(old(db.Categories(kind)), id).Some? && !db.References(kind, Find(old(db.Categories(kind)), id).value.name)
    ensures r.Ok? ==>
      && r.status == 200 && Find(old(db.Categories(kind)), id).Some?
      && db.Categories(kind) == Delete(old(db.Categories(kind)), id)
      && !db.References(kind, Find(old(db.Categories(kind)), id).value.name)
  {
    var found := Find(db.Categories(kind), id);
    if found.None? {
      return Err(CategoryNotFound);
    }
    var usage := db.Usage(kind, found.value.name);
    if usage > 0 {
      return Err(InUse(usage));
    }
    var t := Delete(db.Categories(kind), id);
    DeleteKeepsUnique(db.Categories(kind), id, CategoryName);
    DeleteKeepsBelow(db.Categories(kind), id, db.NextCategoryId(kind));
    db.SetCategories(kind, t);
    return Ok(200, ());
  }
}
