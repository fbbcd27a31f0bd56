/**
 * The news items of routes/news.js: a listing sorted by the rendered date text, reading one
 * item, and the create, update and delete handlers. Create demands a date, a category, a title and an
 * excerpt; create and update default the timezone to `(UTC)`, the link to `NULL` and
 * `featured` to false.
 */
module News {
  import opened Wrappers
  import opened Text
  import opened Table
  import opened Ordering
  import opened Schema

  datatype NewsError =
    | MissingFields
    | NewsNotFound
    | Internal
  {
    /** The HTTP status of the error response. */
    function Status(): nat {
      match this
      case MissingFields => 400
      case NewsNotFound => 404
      case Internal => 500
    }
  }

  /** The JSON body of a create or update request. */
  datatype NewsBody = NewsBody(
    date: Option<string>, timezone: Option<string>, category: Option<string>, title: Option<string>,
    excerpt: Option<string>, link: Option<string>, featured: Option<bool>)

  /** The fields create insists on: `date`, `category`, `title` and `excerpt` are all non-empty. */
  predicate HasRequired(body: NewsBody) {
    Present(body.date) && Present(body.category) && Present(body.title) && Present(body.excerpt)
  }

  /** The columns declared `NOT NULL` (date, category, title, excerpt) all receive a value. */
  predicate NotNullSupplied(body: NewsBody) {
    body.date.Some? && body.category.Some? && body.title.Some? && body.excerpt.Some?
  }

  /** `featured || false`. */
  function Featured(f: Option<bool>): bool {
    f == Some(true)
  }

  /** The row an insert or update writes, with the defaults for the optional columns. */
  function Written(body: NewsBody, createdAt: int): (n: NewsItem)
    requires NotNullSupplied(body)
    ensures n.timezone == (if Present(body.timezone) then body.timezone.value else "(UTC)")
    ensures n.link.None? <==> !Present(body.link)
    ensures n.featured <==> body.featured == Some(true)
    ensures n.date == body.date.value && n.category == body.category.value
    ensures n.title == body.title.value && n.excerpt == body.excerpt.value && n.createdAt == createdAt
  {
    NewsItem(
      body.date.value, Or(body.timezone, "(UTC)"), body.category.value, body.title.value,
      body.excerpt.value, OrNull(body.link), Featured(body.featured), createdAt)
  }

  /** The English month names `%M` renders, January first. */
  const MonthNames: seq<string> := [
    "January", "February", "March", "April", "May", "June",
    "July", "August", "September", "October", "November", "December"]

  /** The month digits of a `YYYY-MM-DD` date as a number. */
  function MonthOf(d: string): int
    requires |d| == 10
  {
    (d[5] as int - '0' as int) * 10 + (d[6] as int - '0' as int)
  }

  /** A date written `YYYY-MM-DD` with a month from 01 to 12. */
  predicate IsIsoDate(d: string) {
    && |d| == 10 && d[4] == '-' && d[7] == '-'
    && (forall k :: 0 <= k < 10 && k != 4 && k != 7 ==> IsDigit(d[k]))
    && 1 <= MonthOf(d) <= 12
  }

  /**
   * `DATE_FORMAT(date, "%M %d, %Y")`: month name, two-digit day, comma, four-digit year. A date
   * in another spelling is kept as it is.
   */
  function DisplayDate(d: string): (r: string)
    ensures IsIsoDate(d) ==> r == MonthNames[MonthOf(d) - 1] + " " + d[8..] + ", " + d[..4]
    ensures !IsIsoDate(d) ==> r == d
  {
    if IsIsoDate(d) then MonthNames[MonthOf(d) - 1] + " " + d[8..] + ", " + d[..4] else d
  }

  /** Descending by a string key, and among equal keys the newest `created_at` first. */
  predicate NewerFirst(ka: string, ca: int, kb: string, cb: int) {
    if ka == kb then ca >= cb else LexLe(kb, ka)
  }

  lemma NewerFirstTotal(ka: string, ca: int, kb: string, cb: int)
    ensures NewerFirst(ka, ca, kb, cb) || NewerFirst(kb, cb, ka, ca)
  {
    LexLeTotal(ka, kb);
  }

  lemma NewerFirstTransitive(ka: string, ca: int, kb: string, cb: int, kc: string, cc: int)
    requires NewerFirst(ka, ca, kb, cb) && NewerFirst(kb, cb, kc, cc)
    ensures NewerFirst(ka, ca, kc, cc)
  {
    if ka != kb && kb != kc {
      LexLeTransitive(kc, kb, ka);
      if ka == kc {
        LexLeAntisymmetric(kb, ka);
      }
    }
  }

  /** The intended order: latest date first (`YYYY-MM-DD` strings order as dates), then newest first. */
  predicate LaterFirst(a: Row<NewsItem>, b: Row<NewsItem>) {
    NewerFirst(a.value.date, a.value.createdAt, b.value.date, b.value.createdAt)
  }

  /**
   * The order the listing query applies: `ORDER BY date` names the select-list alias `date`,
   * the `"%M %d, %Y"` text, so items are compared by that text descending, then newest first.
   */
  predicate ListedFirst(a: Row<NewsItem>, b: Row<NewsItem>) {
    NewerFirst(DisplayDate(a.value.date), a.value.createdAt, DisplayDate(b.value.date), b.value.createdAt)
  }

  /** The intended order is a total preorder, so sorting by it is well defined. */
  lemma LaterFirstIsTotalPreorder()
    ensures IsTotalPreorder(LaterFirst)
  {
    forall a: Row<NewsItem>, b: Row<NewsItem> ensures LaterFirst(a, b) || LaterFirst(b, a) {
      NewerFirstTotal(a.value.date, a.value.createdAt, b.value.date, b.value.createdAt);
    }
    forall a: Row<NewsItem>, b: Row<NewsItem>, c: Row<NewsItem> | LaterFirst(a, b) && LaterFirst(b, c)
      ensures LaterFirst(a, c)
    {
      NewerFirstTransitive(
        a.value.date, a.value.createdAt, b.value.date, b.value.createdAt, c.value.date, c.value.createdAt);
    }
  }

  /** The listing order is a total preorder too. */
  lemma ListedFirstIsTotalPreorder()
    ensures IsTotalPreorder(ListedFirst)
  {
    forall a: Row<NewsItem>, b: Row<NewsItem> ensures ListedFirst(a, b) || ListedFirst(b, a) {
      NewerFirstTotal(DisplayDate(a.value.date), a.value.createdAt, DisplayDate(b.value.date), b.value.createdAt);
    }
    forall a: Row<NewsItem>, b: Row<NewsItem>, c: Row<NewsItem> | ListedFirst(a, b) && ListedFirst(b, c)
      ensures ListedFirst(a, c)
    {
      NewerFirstTransitive(
        DisplayDate(a.value.date), a.value.createdAt, DisplayDate(b.value.date), b.value.createdAt,
        DisplayDate(c.value.date), c.value.createdAt);
    }
  }

  /** An item dated `date`, its other columns fixed, as the counterexample below uses. */
  function DatedItem(id: nat, date: string): Row<NewsItem> {
    Row(id, NewsItem(date, "(UTC)", "News", "t", "e", None, false, 0))
  }

  lemma DisplayMay2023()
    ensures DisplayDate("2023-05-10") == "May 10, 2023"
  {
    assert IsIsoDate("2023-05-10");
    assert MonthOf("2023-05-10") == 5;
  }

  lemma DisplayMay2024()
    ensures DisplayDate("2024-05-01") == "May 01, 2024"
  {
    assert IsIsoDate("2024-05-01");
    assert MonthOf("2024-05-01") == 5;
  }

  /**
   * The listing is not chronological: an item of 10 May 2023 is listed above one of 1 May 2024,
   * because "May 10, 2023" sorts after "May 01, 2024" as text, while the date order puts the
   * 2024 item first.
   */
  lemma ListingNotChronological()
    ensures SortBy([DatedItem(2, "2024-05-01"), DatedItem(1, "2023-05-10")], ListedFirst)
         == [DatedItem(1, "2023-05-10"), DatedItem(2, "2024-05-01")]
    ensures SortBy([DatedItem(2, "2024-05-01"), DatedItem(1, "2023-05-10")], LaterFirst)
         == [DatedItem(2, "2024-05-01"), DatedItem(1, "2023-05-10")]
  {
    var newer, older := DatedItem(2, "2024-05-01"), DatedItem(1, "2023-05-10");
    ListedOlderFirst();
    DatedNewerFirst();
    SortPair(newer, older, ListedFirst);
    SortPair(newer, older, LaterFirst);
  }

  /** By the rendered text, the May 2024 item may not precede the May 2023 one. */
  lemma ListedOlderFirst()
    ensures !ListedFirst(DatedItem(2, "2024-05-01"), DatedItem(1, "2023-05-10"))
  {
    DisplayMay2023();
    DisplayMay2024();
    LexLeAt("May 01, 2024", "May 10, 2023", 4);
  }

  /** By date, the May 2024 item comes first. */
  lemma DatedNewerFirst()
    ensures LaterFirst(DatedItem(2, "2024-05-01"), DatedItem(1, "2023-05-10"))
  {
    LexLeAt("2023-05-10", "2024-05-01", 3);
  }

  /** `GET /api/v1/news`: every item, sorted by the rendered date text descending, then newest first. */
  method ListNews(db: Database) returns (r: Reply<seq<Row<NewsItem>>, NewsError>)
    ensures r.Ok? && r.status == 200
    ensures multiset(r.body) == multiset(db.news) && SortedBy(r.body, ListedFirst)
  {
    ListedFirstIsTotalPreorder();
    SortBySorted(db.news, ListedFirst);
    return Ok(200, SortBy(db.news, ListedFirst));
  }

  /**
   * The listing as evidently intended, with the sort on the stored column (`ORDER BY news.date
   * DESC, created_at DESC`): latest date first, and within a date the newest first.
   */
  method ListNewsByDate(db: Database) returns (r: Reply<seq<Row<NewsItem>>, NewsError>)
    ensures r.Ok? && r.status == 200
    ensures multiset(r.body) == multiset(db.news) && SortedBy(r.body, LaterFirst)
  {
    LaterFirstIsTotalPreorder();
    SortBySorted(db.news, LaterFirst);
    return Ok(200, SortBy(db.news, LaterFirst));
  }

  /** `GET /api/v1/news/:id`. */
  method GetNews(db: Database, id: int) returns (r: Reply<Row<NewsItem>, NewsError>)
    ensures r == Err(NewsNotFound) <==> forall row :: row in db.news ==> row.id != id
    ensures r.Ok? <==> Find(db.news, id).Some?
    ensures r.Ok? ==> r.status == 200 && r.body in db.news && r.body.id == id
  {
    match Find(db.news, id)
    case None =>
      return Err(NewsNotFound);
    case Some(n) =>
      return Ok(200, Row(id as nat, n));
  }

  /** `POST /api/v1/news`: a new item under the next id. */
  method CreateNews(db: Database, body: NewsBody, now: int) returns (r: Reply<Row<NewsItem>, NewsError>)
    requires db.Valid()
    modifies db`news, db`nextNewsId
    ensures db.Valid()
    ensures r == Err(MissingFields) <==> !HasRequired(body)
    ensures r.Err? ==> r == Err(MissingFields) && db.news == old(db.news) && db.nextNewsId == old(db.nextNewsId)
    ensures r.Ok? ==>
      var row := Row(old(db.nextNewsId), Written(body, now));
      && db.news == old(db.news) + [row] && db.nextNewsId == old(db.nextNewsId) + 1
      && r == Ok(201, row)
  {
    if !HasRequired(body) {
      return Err(MissingFields);
    }
    var row := Row(db.nextNewsId, Written(body, now));
    db.AppendNews(row.value);
    return Ok(201, row);
  }

  /**
   * `PUT /api/v1/news/:id`: every column is rewritten from the body, with the same defaults as
   * create and no check of the required fields; a body without a `NOT NULL` column makes the
   * database refuse the update (500).
   */
  method UpdateNews(db: Database, id: int, body: NewsBody) returns (r: Reply<Row<NewsItem>, NewsError>)
    requires db.Valid()
    modifies db`news
    ensures db.Valid()
    ensures r == Err(NewsNotFound) <==> Find(old(db.news), id).None?
    ensures r == Err(Internal) <==> Find(old(db.news), id).Some? && !NotNullSupplied(body)
    ensures r.Err? ==> db.news == old(db.news)
    ensures r.Ok? <==> Find(old(db.news), id).Some? && NotNullSupplied(body)
    ensures r.Ok? ==>
      var row := Row(id as nat, Written(body, Find(old(db.news), id).value.createdAt));
      && db.news == Update(old(db.news), id, row.value)
      && r == Ok(200, row)
  {
    var existing := Find(db.news, id);
    if existing.None? {
      return Err(NewsNotFound);
    }
    if !NotNullSupplied(body) {
      return Err(Internal);
    }
    var updated := Written(body, existing.value.createdAt);
    UpdateKeepsKeys(db.news, id, updated, db.nextNewsId);
    db.SetNews(Update(db.news, id, updated));
    return Ok(200, Row(id as nat, updated));
  }

  /** `DELETE /api/v1/news/:id`: exactly the item with that id goes. */
  method DeleteNews(db: Database, id: int) returns (r: Reply<(), NewsError>)
    requires db.Valid()
    modifies db`news
    ensures db.Valid()
    ensures r == Err(NewsNotFound) <==> Find(old(db.news), id).None?
    ensures r.Err? ==> db.news == old(db.news)
    ensures r.Ok? <==> Find(old(db.news), id).Some?
    ensures r.Ok? ==> r.status == 200 && db.news == Delete(old(db.news), id)
  {
    var existing := Find(db.news, id);
    if existing.None? {
      return Err(NewsNotFound);
    }
    DeleteKeepsKeysUnique(db.news, id);
    DeleteKeepsBelow(db.news, id, db.nextNewsId);
    db.SetNews(Delete(db.news, id));
    return Ok(200, ());
  }
}
