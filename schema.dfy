/**
 * The tables of config/initDatabase.js, held in one `Database` object, and the rows they
 * carry. `Valid()` gathers what the handlers keep true of the tables: unique keys below the
 * next AUTO_INCREMENT value, unique usernames, at least one Admin account, and unique,
 * trimmed, non-empty category names. The constructor is the state the initialisation
 * script leaves behind on an empty database.
 */
module Schema {
  import opened Wrappers
  import opened Text
  import opened Table

  datatype Role = Admin | Editor

  /** A `user_role` request field: only the exact strings `Admin` and `Editor` name a role. */
  function ParseRole(s: Option<string>): (r: Option<Role>)
    ensures r == Some(Admin) <==> s == Some("Admin")
    ensures r == Some(Editor) <==> s == Some("Editor")
    ensures r.None? <==> s != Some("Admin") && s != Some("Editor")
  {
    if s == Some("Admin") then Some(Admin)
    else if s == Some("Editor") then Some(Editor)
    else None
  }

  /** The `password_hash` column. bcrypt is a foreign primitive: the model keeps which password it hashed. */
  datatype PasswordHash = Bcrypt(password: string)

  /** A row of `admin_users`; `updated_at` is left out. */
  datatype Account = Account(username: string, passwordHash: PasswordHash, role: Role, createdAt: int)

  /** A row of `news`; `date` keeps the request's date string. */
  datatype NewsItem = NewsItem(
    date: string, timezone: string, category: string, title: string, excerpt: string,
    link: Option<string>, featured: bool, createdAt: int)

  /** A row of `community_arts`. */
  datatype CommunityArt = CommunityArt(
    image: string, title: string, category: string, artist: string,
    xHandle: Option<string>, xUrl: Option<string>, description: Option<string>, createdAt: int)

  /** A row of `news_categories` or `art_categories`. */
  datatype Category = Category(name: string)

  /** The single row (id 1) of `youtube_video`. */
  datatype Video = Video(videoId: string, videoUrl: string)

  /** Which of the two category tables, with `news` or `community_arts` as its dependent table. */
  datatype Kind = NewsKind | ArtKind

  /** `req.user`, as the token middleware attaches it to an authenticated request. */
  datatype Identity = Identity(id: int, username: string, role: string)

  function Username(a: Account): string {
    a.username
  }

  function CategoryName(c: Category): string {
    c.name
  }

  function IsAdminRow(r: Row<Account>): bool {
    r.value.role == Admin
  }

  /** `SELECT * FROM admin_users WHERE user_role = 'Admin'`, counted. */
  function AdminCount(users: seq<Row<Account>>): nat {
    Count(users, IsAdminRow)
  }

  /** Stored category names are trimmed and non-empty. */
  predicate NamesClean(t: seq<Row<Category>>) {
    forall r :: r in t ==> r.value.name != "" && IsTrimmed(r.value.name)
  }

  /** The account table: unique keys below the next id, unique usernames, and an Admin account. */
  predicate UsersValid(t: seq<Row<Account>>, next: nat) {
    KeysUnique(t) && KeysBelow(t, next) && UniqueBy(t, Username) && AdminCount(t) > 0
  }

  /** A category table: unique keys below the next id, and unique, trimmed, non-empty names. */
  predicate CategoriesValid(t: seq<Row<Category>>, next: nat) {
    KeysUnique(t) && KeysBelow(t, next) && UniqueBy(t, CategoryName) && NamesClean(t)
  }

  function Other(kind: Kind): Kind {
    if kind == NewsKind then ArtKind else NewsKind
  }

  /** The `WHERE category = ?` condition on the news table. */
  function NewsInCategory(name: string): Row<NewsItem> -> bool {
    (r: Row<NewsItem>) => r.value.category == name
  }

  /** The `WHERE category = ?` condition on the community-art table. */
  function ArtInCategory(name: string): Row<CommunityArt> -> bool {
    (r: Row<CommunityArt>) => r.value.category == name
  }

  /** `UPDATE news SET category = <to> WHERE category = <from>`, row by row. */
  function RelabelNews(from: string, to: string): NewsItem -> NewsItem {
    (n: NewsItem) => if n.category == from then n.(category := to) else n
  }

  /** `UPDATE community_arts SET category = <to> WHERE category = <from>`, row by row. */
  function RelabelArt(from: string, to: string): CommunityArt -> CommunityArt {
    (a: CommunityArt) => if a.category == from then a.(category := to) else a
  }

  const DefaultVideo := Video("zlMFsDJNneE", "https://www.youtube.com/watch?v=zlMFsDJNneE")

  class Database {
    var users: seq<Row<Account>>
    var nextUserId: nat
    var news: seq<Row<NewsItem>>
    var nextNewsId: nat
    var arts: seq<Row<CommunityArt>>
    var nextArtId: nat
    var newsCategories: seq<Row<Category>>
    var nextNewsCategoryId: nat
    var artCategories: seq<Row<Category>>
    var nextArtCategoryId: nat
    var video: Video

    ghost predicate Valid()
      reads this
    {
      && UsersValid(users, nextUserId)
      && KeysUnique(news) && KeysBelow(news, nextNewsId)
      && KeysUnique(arts) && KeysBelow(arts, nextArtId)
      && CategoriesValid(newsCategories, nextNewsCategoryId)
      && CategoriesValid(artCategories, nextArtCategoryId)
    }

    /** The state after initialisation of an empty database: the `admin` account and the default video. */
    constructor (adminPassword: Option<string>, now: int)
      ensures Valid()
      ensures users == [Row(1, Account("admin", Bcrypt(Or(adminPassword, "admin123")), Admin, now))]
      ensures news == [] && arts == [] && newsCategories == [] && artCategories == []
      ensures video == DefaultVideo
    {
      users := [Row(1, Account("admin", Bcrypt(Or(adminPassword, "admin123")), Admin, now))];
      nextUserId := 2;
      news, arts, newsCategories, artCategories := [], [], [], [];
      nextNewsId, nextArtId, nextNewsCategoryId, nextArtCategoryId := 1, 1, 1, 1;
      video := DefaultVideo;
      new;
      assert Where(users, IsAdminRow) == [users[0]];
    }

    /** An `UPDATE` or `DELETE` on `admin_users` that leaves the table valid. */
    method SetUsers(t: seq<Row<Account>>)
      requires Valid() && UsersValid(t, nextUserId)
      modifies this`users
      ensures Valid() && users == t
    {
      users := t;
    }

    /** An `INSERT INTO admin_users` under the next id that leaves the table valid. */
    method AppendUser(a: Account)
      requires Valid() && UsersValid(users + [Row(nextUserId, a)], nextUserId + 1)
      modifies this`users, this`nextUserId
      ensures Valid()
      ensures users == old(users) + [Row(old(nextUserId), a)] && nextUserId == old(nextUserId) + 1
    {
      users, nextUserId := users + [Row(nextUserId, a)], nextUserId + 1;
    }

    /** An `UPDATE` or `DELETE` on `news` that keeps its keys unique and below the next id. */
    method SetNews(t: seq<Row<NewsItem>>)
      requires Valid() && KeysUnique(t) && KeysBelow(t, nextNewsId)
      modifies this`news
      ensures Valid() && news == t
    {
      news := t;
    }

    /** An `INSERT INTO news` under the next id. */
    method AppendNews(n: NewsItem)
      requires Valid()
      modifies this`news, this`nextNewsId
      ensures Valid()
      ensures news == old(news) + [Row(old(nextNewsId), n)] && nextNewsId == old(nextNewsId) + 1
    {
      InsertKeepsKeys(news, nextNewsId, n);
      news, nextNewsId := news + [Row(nextNewsId, n)], nextNewsId + 1;
    }

    /** An `UPDATE` or `DELETE` on `community_arts` that keeps its keys unique and below the next id. */
    method SetArts(t: seq<Row<CommunityArt>>)
      requires Valid() && KeysUnique(t) && KeysBelow(t, nextArtId)
      modifies this`arts
      ensures Valid() && arts == t
    {
      arts := t;
    }

    /** An `INSERT INTO community_arts` under the next id. */
    method AppendArt(a: CommunityArt)
      requires Valid()
      modifies this`arts, this`nextArtId
      ensures Valid()
      ensures arts == old(arts) + [Row(old(nextArtId), a)] && nextArtId == old(nextArtId) + 1
    {
      InsertKeepsKeys(arts, nextArtId, a);
      arts, nextArtId := arts + [Row(nextArtId, a)], nextArtId + 1;
    }

    /** An `UPDATE` on the category table of a kind that leaves it valid. */
    method SetCategories(kind: Kind, t: seq<Row<Category>>)
      requires Valid() && CategoriesValid(t, NextCategoryId(kind))
      modifies this`newsCategories, this`artCategories
      ensures Valid() && Categories(kind) == t && Categories(Other(kind)) == old(Categories(Other(kind)))
    {
      if kind == NewsKind {
        newsCategories := t;
      } else {
        artCategories := t;
      }
    }

    /** The category table of a kind. */
    function Categories(kind: Kind): seq<Row<Category>>
      reads this
    {
      if kind == NewsKind then newsCategories else artCategories
    }

    function NextCategoryId(kind: Kind): nat
      reads this
    {
      if kind == NewsKind then nextNewsCategoryId else nextArtCategoryId
    }

    /** Some row of the kind's dependent table is filed under `name`. */
    predicate References(kind: Kind, name: string)
      reads this
    {
      if kind == NewsKind then exists row :: row in news && row.value.category == name
      else exists row :: row in arts && row.value.category == name
    }

    /** `SELECT COUNT(*) FROM <dependent table> WHERE category = ?`. */
    function Usage(kind: Kind, name: string): (r: nat)
      reads this
      ensures r == 0 <==> !References(kind, name)
    {
      if kind == NewsKind then
        CountZero(news, NewsInCategory(name));
        Count(news, NewsInCategory(name))
      else
        CountZero(arts, ArtInCategory(name));
        Count(arts, ArtInCategory(name))
    }
  }
}
