/**
 * The community-art records of routes/communityArts.js: `cleanArtistName`, which trims an
 * artist name and strips one trailing ` ART` (in any case) from it, and the handlers that
 * list, read, create, update and delete `community_arts` rows. An update that replaces the
 * image deletes the old image file; a delete removes the row and then its image file.
 */
module Arts {
  import opened Wrappers
  import opened Text
  import opened Table
  import opened Ordering
  import opened Schema
  import opened Files

  /** `ART` in any case, as `/ART/i` matches it. */
  predicate IsArt(s: string) {
    && |s| == 3
    && (s[0] == 'A' || s[0] == 'a')
    && (s[1] == 'R' || s[1] == 'r')
    && (s[2] == 'T' || s[2] == 't')
  }

  /** `/\s+ART\s*$/i` matches `s[i..]`, with the white-space run `s[i..j]` and `ART` at `j`. */
  predicate MatchWith(s: string, i: nat, j: nat) {
    i < j && j + 3 <= |s| && AllSpace(s[i..j]) && IsArt(s[j..j + 3]) && AllSpace(s[j + 3..])
  }

  /** The regular expression matches starting at position `i`. */
  ghost predicate MatchAt(s: string, i: nat) {
    exists j: nat :: MatchWith(s, i, j)
  }

  /** Every match places `ART` just before the trailing white space. */
  lemma MatchPlacesArt(s: string, i: nat, j: nat)
    ensures MatchWith(s, i, j) ==> j + 3 == |TrimEnd(s)|
  {
    if MatchWith(s, i, j) {
      var t := TrimEnd(s);
      assert !IsSpace(s[j + 2]) by { assert s[j..j + 3][2] == s[j + 2]; }
      assert forall k :: j + 3 <= k < |s| ==> IsSpace(s[k]) by {
        assert forall k :: j + 3 <= k < |s| ==> s[k] == s[j + 3..][k - j - 3];
      }
      assert forall k :: |t| <= k < |s| ==> IsSpace(s[k]) by {
        assert forall k :: |t| <= k < |s| ==> s[k] == s[|t|..][k - |t|];
      }
      assert t != [] ==> !IsSpace(s[|t| - 1]);
    }
  }

  /** A match starting before `i` would have to cover position `i - 1` with white space. */
  lemma MatchCovers(s: string, i': nat, j: nat, k: nat)
    requires i' <= k < j
    ensures MatchWith(s, i', j) ==> IsSpace(s[k])
  {
    if MatchWith(s, i', j) {
      assert s[i'..j][k - i'] == s[k];
    }
  }

  /** The start of the white-space run that ends at position `j`. */
  function RunStart(s: string, j: nat): (r: nat)
    requires j < |s| && IsSpace(s[j])
    ensures r <= j && AllSpace(s[r..j + 1])
    ensures r == 0 || !IsSpace(s[r - 1])
  {
    if j > 0 && IsSpace(s[j - 1]) then
      var r := RunStart(s, j - 1);
      assert s[r..j + 1] == s[r..j] + [s[j]];
      r
    else j
  }

  /** Where `/\s+ART\s*$/i` first matches in `s`: the leftmost match, or none. */
  function SuffixMatch(s: string): (r: Option<nat>)
    ensures r.Some? ==> r.value < |s| && MatchAt(s, r.value)
    ensures r.Some? ==> forall i: nat :: i < r.value ==> !MatchAt(s, i)
    ensures r.None? ==> forall i: nat :: !MatchAt(s, i)
  {
    var t := TrimEnd(s);
    if |t| >= 4 && IsArt(t[|t| - 3..]) && IsSpace(t[|t| - 4]) then
      SuffixFound(s);
      Some(RunStart(t, |t| - 4))
    else
      SuffixAbsent(s);
      None
  }

  /** When the trimmed text ends in white space and `ART`, the match starts where that run starts. */
  lemma SuffixFound(s: string)
    requires var t := TrimEnd(s); |t| >= 4 && IsArt(t[|t| - 3..]) && IsSpace(t[|t| - 4])
    ensures var t := TrimEnd(s); var i := RunStart(t, |t| - 4);
      && MatchWith(s, i, |t| - 3) && forall i': nat :: i' < i ==> !MatchAt(s, i')
  {
    var t := TrimEnd(s);
    var i := RunStart(t, |t| - 4);
    var j := |t| - 3;
    PrefixSlice(s, t, i, j);
    PrefixSlice(s, t, j, |t|);
    if i > 0 {
      PrefixSlice(s, t, i - 1, i);
      assert t[i - 1] == t[i - 1..i][0];
    }
    NoEarlierMatch(s, i, j);
  }

  /** A prefix agrees with the text on every slice it covers. */
  lemma PrefixSlice(s: string, t: string, a: nat, b: nat)
    requires |t| <= |s| && t == s[..|t|] && a <= b <= |t|
    ensures t[a..b] == s[a..b]
  {
  }

  /** A match must end its `ART` at `j`, so none starts before a run that starts at `i`. */
  lemma NoEarlierMatch(s: string, i: nat, j: nat)
    requires i < j && j + 3 == |TrimEnd(s)| && (i > 0 ==> !IsSpace(s[i - 1]))
    ensures forall i': nat :: i' < i ==> !MatchAt(s, i')
  {
    forall i': nat, j': nat | i' < i ensures !MatchWith(s, i', j') {
      MatchPlacesArt(s, i', j');
      if j' == j {
        MatchCovers(s, i', j', i - 1);
      }
    }
  }

  /** Otherwise the expression matches nowhere. */
  lemma SuffixAbsent(s: string)
    requires var t := TrimEnd(s); !(|t| >= 4 && IsArt(t[|t| - 3..]) && IsSpace(t[|t| - 4]))
    ensures forall i: nat :: !MatchAt(s, i)
  {
    var t := TrimEnd(s);
    forall i: nat, j: nat ensures !MatchWith(s, i, j) {
      MatchPlacesArt(s, i, j);
      if j + 3 == |t| && i < j {
        MatchCovers(s, i, j, j - 1);
        assert s[j..j + 3] == t[|t| - 3..];
      }
    }
  }

  /**
   * `cleanArtistName`: an absent or empty name is returned as it is; otherwise the name is
   * trimmed, the leftmost match of `/\s+ART\s*$/i` and everything after it is cut off, and the
   * rest is trimmed again.
   */
  function CleanArtistName(artist: Option<string>): (r: Option<string>)
    ensures !Present(artist) ==> r == artist
    ensures Present(artist) ==> r.Some? && IsTrimmed(r.value)
  {
    if !Present(artist) then artist
    else
      var s := Trim(artist.value);
      match SuffixMatch(s)
      case None => Some(Trim(s))
      case Some(i) => Some(Trim(s[..i]))
  }

  /** A trimmed name followed by white space and `ART` loses exactly that suffix, padding aside. */
  lemma CleanStripsSuffix(pre: string, name: string, gap: string, art: string, post: string)
    requires AllSpace(pre) && AllSpace(post) && AllSpace(gap) && gap != []
    requires name != [] && IsTrimmed(name) && IsArt(art)
    ensures CleanArtistName(Some(pre + name + gap + art + post)) == Some(name)
  {
    var s := name + gap + art;
    NameThenArtTrimmed(name, gap, art);
    TrimPadded(pre, s, post);
    SuffixAfterName(name, gap, art);
    CleanOfMatch(pre + s + post, s, |name|);
    PrefixIsName(name, gap, art);
    Regroup(pre, name, gap, art, post);
  }

  lemma Regroup(pre: string, name: string, gap: string, art: string, post: string)
    ensures pre + name + gap + art + post == pre + (name + gap + art) + post
  {
  }

  lemma PrefixIsName(name: string, gap: string, art: string)
    ensures (name + gap + art)[..|name|] == name
  {
  }

  lemma NameThenArtTrimmed(name: string, gap: string, art: string)
    requires name != [] && IsTrimmed(name) && IsArt(art)
    ensures IsTrimmed(name + gap + art)
  {
    var s := name + gap + art;
    assert s[0] == name[0] && s[|s| - 1] == art[2];
  }

  lemma CleanOfMatch(input: string, s: string, i: nat)
    requires input != [] && Trim(input) == s && SuffixMatch(s) == Some(i)
    ensures CleanArtistName(Some(input)) == Some(Trim(s[..i]))
  {
  }

  /** The leftmost match in `name + gap + ART` is where the gap starts. */
  lemma SuffixAfterName(name: string, gap: string, art: string)
    requires AllSpace(gap) && gap != [] && name != [] && IsTrimmed(name) && IsArt(art)
    ensures SuffixMatch(name + gap + art) == Some(|name|)
  {
    var s := name + gap + art;
    var i, j := |name|, |name| + |gap|;
    assert s[i..j] == gap && s[j..j + 3] == art && s[j + 3..] == [];
    assert MatchWith(s, i, j);
    assert s[|s| - 1] == art[2];
    TrimEndOfTrimmed(s);
    forall i': nat, j': nat | i' < i ensures !MatchWith(s, i', j') {
      MatchPlacesArt(s, i', j');
      if j' == j {
        MatchCovers(s, i', j', i - 1);
      }
    }
  }

  /** A string that does not end in white space is its own `trimEnd`. */
  lemma TrimEndOfTrimmed(s: string)
    requires s == [] || !IsSpace(s[|s| - 1])
    ensures TrimEnd(s) == s
  {
    var t := TrimEnd(s);
    assert forall k :: |t| <= k < |s| ==> s[k] == s[|t|..][k - |t|];
  }

  /** `ART` that white space does not precede stays: `JaneART` and `ART` come back unchanged. */
  lemma CleanKeepsGluedArt(name: string, art: string)
    requires IsTrimmed(name) && (name == [] || !IsSpace(name[|name| - 1])) && IsArt(art)
    ensures CleanArtistName(Some(name + art)) == Some(name + art)
  {
    var s := name + art;
    assert IsTrimmed(s) by {
      assert s[|s| - 1] == art[2];
      if name != [] { assert s[0] == name[0]; } else { assert s == art; }
    }
    TrimEndOfTrimmed(s);
    forall i: nat, j: nat ensures !MatchWith(s, i, j) {
      MatchPlacesArt(s, i, j);
      if j == |name| && i < j {
        MatchCovers(s, i, j, j - 1);
      }
    }
  }

  /** `<name> ART` cleans to `<name>`. */
  lemma CleanStripsArt(name: string)
    requires name != [] && IsTrimmed(name)
    ensures CleanArtistName(Some(name + " ART")) == Some(name)
  {
    AppendSpaceArt(name);
    StripsSpaceArt(name, " ", "ART");
  }

  lemma AppendSpaceArt(name: string)
    ensures [] + name + " " + "ART" + [] == name + " ART"
  {
  }

  lemma StripsSpaceArt(name: string, gap: string, art: string)
    requires name != [] && IsTrimmed(name) && gap == " " && art == "ART"
    ensures CleanArtistName(Some([] + name + gap + art + [])) == Some(name)
  {
    assert AllSpace(gap) && IsArt(art);
    CleanStripsSuffix([], name, gap, art, []);
  }

  lemma SpaceArtTrimmed(name: string)
    requires name != [] && IsTrimmed(name)
    ensures IsTrimmed(name + " ART") && name + " ART" + " ART" == name + " ART ART"
  {
    var once := name + " ART";
    assert once[0] == name[0] && once[|once| - 1] == 'T';
  }

  /**
   * One call strips one suffix, so cleaning is not idempotent: `<name> ART ART` becomes
   * `<name> ART`, which a second cleaning turns into `<name>`.
   */
  lemma CleanStripsOnce(name: string)
    requires name != [] && IsTrimmed(name)
    ensures CleanArtistName(Some(name + " ART ART")) == Some(name + " ART")
    ensures CleanArtistName(CleanArtistName(Some(name + " ART ART"))) == Some(name)
  {
    SpaceArtTrimmed(name);
    CleanStripsArt(name + " ART");
    CleanStripsArt(name);
  }

  datatype ArtError =
    | MissingFields
    | ArtNotFound
    | Internal
  {
    /** The HTTP status of the error response. */
    function Status(): nat {
      match this
      case MissingFields => 400
      case ArtNotFound => 404
      case Internal => 500
    }
  }

  /** The JSON body of a create or update request. */
  datatype ArtBody = ArtBody(
    image: Option<string>, title: Option<string>, category: Option<string>, artist: Option<string>,
    xHandle: Option<string>, xUrl: Option<string>, description: Option<string>)

  /** A row as the handlers answer with it: the stored row with its artist cleaned once more. */
  function Published(row: Row<CommunityArt>): (r: Row<CommunityArt>)
    ensures r.id == row.id && r.value == row.value.(artist := r.value.artist)
    ensures IsTrimmed(r.value.artist)
    ensures r.value.artist == [] <==> AllSpace(row.value.artist)
  {
    var cleaned := CleanArtistName(Some(row.value.artist)).value;
    CleanEmpty(row.value.artist);
    Row(row.id, row.value.(artist := cleaned))
  }

  /** Cleaning empties a name exactly when the name is white space only. */
  lemma CleanEmpty(artist: string)
    ensures CleanArtistName(Some(artist)).value == [] <==> AllSpace(artist)
  {
    if artist != [] {
      var s := Trim(artist);
      if s != [] {
        match SuffixMatch(s)
        case None =>
        case Some(i) =>
          assert MatchAt(s, i);
          var j: nat :| MatchWith(s, i, j);
          assert i > 0 by {
            MatchCovers(s, i, j, i);
          }
          assert s[..i][0] == s[0];
      }
    }
  }

  function PublishedAll(t: seq<Row<CommunityArt>>): (r: seq<Row<CommunityArt>>)
    ensures |r| == |t| && forall k :: 0 <= k < |t| ==> r[k] == Published(t[k])
  {
    if t == [] then [] else [Published(t[0])] + PublishedAll(t[1..])
  }

  /** `ORDER BY created_at DESC`. */
  predicate NewestFirst(a: Row<CommunityArt>, b: Row<CommunityArt>) {
    a.value.createdAt >= b.value.createdAt
  }

  /** The columns declared `NOT NULL` (image, category, artist) all receive a value. */
  predicate NotNullSupplied(body: ArtBody) {
    body.image.Some? && body.category.Some? && body.artist.Some?
  }

  /** The row an insert or update writes: title defaults to `''`, the optional columns to `NULL`. */
  function Written(body: ArtBody, createdAt: int): (a: CommunityArt)
    requires NotNullSupplied(body)
    ensures a.image == body.image.value && a.category == body.category.value && a.createdAt == createdAt
    ensures a.title == (if Present(body.title) then body.title.value else "")
    ensures a.xHandle.None? <==> !Present(body.xHandle)
    ensures a.xUrl.None? <==> !Present(body.xUrl)
    ensures a.description.None? <==> !Present(body.description)
    ensures Present(body.artist) ==> IsTrimmed(a.artist)
  {
    CommunityArt(
      body.image.value, Or(body.title, ""), body.category.value, CleanArtistName(body.artist).value,
      OrNull(body.xHandle), OrNull(body.xUrl), OrNull(body.description), createdAt)
  }

  /** An update replaces the image: old and new are both non-empty and differ. */
  predicate ReplacesImage(oldImage: string, newImage: Option<string>) {
    oldImage != [] && Present(newImage) && oldImage != newImage.value
  }

  /** `GET /api/v1/community-arts`: every row, newest first, with cleaned artists. */
  method ListArts(db: Database) returns (r: Reply<seq<Row<CommunityArt>>, ArtError>)
    ensures r.Ok? && r.status == 200
    ensures multiset(r.body) == multiset(PublishedAll(db.arts)) && SortedBy(r.body, NewestFirst)
  {
    assert IsTotalPreorder(NewestFirst);
    SortBySorted(PublishedAll(db.arts), NewestFirst);
    return Ok(200, SortBy(PublishedAll(db.arts), NewestFirst));
  }

  /** `GET /api/v1/community-arts/:id`. */
  method GetArt(db: Database, id: int) returns (r: Reply<Row<CommunityArt>, ArtError>)
    ensures r == Err(ArtNotFound) <==> forall row :: row in db.arts ==> row.id != id
    ensures r.Ok? <==> Find(db.arts, id).Some?
    ensures r.Ok? ==> r.status == 200 && exists row :: row in db.arts && row.id == id && r.body == Published(row)
  {
    match Find(db.arts, id)
    case None =>
      return Err(ArtNotFound);
    case Some(a) =>
      assert Row(id as nat, a) in db.arts;
      return Ok(200, Published(Row(id as nat, a)));
  }

  /** `POST /api/v1/community-arts`: requires an image, a category and an artist. */
  method CreateArt(db: Database, body: ArtBody, now: int) returns (r: Reply<Row<CommunityArt>, ArtError>)
    requires db.Valid()
    modifies db`arts, db`nextArtId
    ensures db.Valid()
    ensures r == Err(MissingFields) <==> !(Present(body.image) && Present(body.category) && Present(body.artist))
    ensures r.Err? ==> r == Err(MissingFields) && db.arts == old(db.arts) && db.nextArtId == old(db.nextArtId)
    ensures r.Ok? ==>
      var row := Row(old(db.nextArtId), Written(body, now));
      && db.arts == old(db.arts) + [row] && db.nextArtId == old(db.nextArtId) + 1
      && r == Ok(201, Published(row))
  {
    if !Present(body.image) || !Present(body.category) || !Present(body.artist) {
      return Err(MissingFields);
    }
    var row := Row(db.nextArtId, Written(body, now));
    db.AppendArt(row.value);
    return Ok(201, Published(row));
  }

  /**
   * `PUT /api/v1/community-arts/:id`. When the image is replaced the old image file is deleted
   * first; then every column is written. A body without image, category or artist makes the
   * database refuse the update (500), after the old image is already gone.
   */
  method UpdateArt(
    db: Database, store: FileStore, cfg: Config, id: int, body: ArtBody, ftpFails: bool, unlinkFails: bool)
    returns (r: Reply<Row<CommunityArt>, ArtError>)
    requires db.Valid()
    modifies db`arts, store
    ensures db.Valid()
    ensures r == Err(ArtNotFound) <==> Find(old(db.arts), id).None?
    ensures r == Err(Internal) <==> Find(old(db.arts), id).Some? && !NotNullSupplied(body)
    ensures r.Err? ==> db.arts == old(db.arts)
    ensures Find(old(db.arts), id).None? || !ReplacesImage(Find(old(db.arts), id).value.image, body.image) ==>
      store.local == old(store.local) && store.remote == old(store.remote)
    ensures Find(old(db.arts), id).Some? && ReplacesImage(Find(old(db.arts), id).value.image, body.image) ==>
      exists deleted :: ImageDeleted(
        old(store.local), old(store.remote), store.local, store.remote, cfg,
        Find(old(db.arts), id).value.image, ftpFails, unlinkFails, deleted)
    ensures r.Ok? <==> Find(old(db.arts), id).Some? && NotNullSupplied(body)
    ensures r.Ok? ==>
      var row := Row(id as nat, Written(body, Find(old(db.arts), id).value.createdAt));
      && db.arts == Update(old(db.arts), id, row.value)
      && r == Ok(200, Published(row))
  {
    var existing := Find(db.arts, id);
    if existing.None? {
      return Err(ArtNotFound);
    }
    var oldImage := existing.value.image;
    if ReplacesImage(oldImage, body.image) {
      var deleted := DeleteCommunityArtImage(store, cfg, oldImage, ftpFails, unlinkFails);
    }
    if !NotNullSupplied(body) {
      return Err(Internal);
    }
    var updated := Written(body, existing.value.createdAt);
    UpdateKeepsKeys(db.arts, id, updated, db.nextArtId);
    db.SetArts(Update(db.arts, id, updated));
    return Ok(200, Published(Row(id as nat, updated)));
  }

  /** `DELETE /api/v1/community-arts/:id`: the row goes, then its image file if it names one. */
  method DeleteArt(db: Database, store: FileStore, cfg: Config, id: int, ftpFails: bool, unlinkFails: bool)
    returns (r: Reply<(), ArtError>)
    requires db.Valid()
    modifies db`arts, store
    ensures db.Valid()
    ensures r == Err(ArtNotFound) <==> Find(old(db.arts), id).None?
    ensures r.Err? ==> db.arts == old(db.arts) && store.local == old(store.local) && store.remote == old(store.remote)
    ensures r.Ok? <==> Find(old(db.arts), id).Some?
    ensures r.Ok? ==>
      && r.status == 200 && db.arts == Delete(old(db.arts), id)
      && exists deleted :: ImageDeleted(
           old(store.local), old(store.remote), store.local, store.remote, cfg,
           Find(old(db.arts), id).value.image, ftpFails, unlinkFails, deleted)
  {
    var existing := Find(db.arts, id);
    if existing.None? {
      return Err(ArtNotFound);
    }
    var imagePath := existing.value.image;
    DeleteKeepsKeysUnique(db.arts, id);
    DeleteKeepsBelow(db.arts, id, db.nextArtId);
    db.SetArts(Delete(db.arts, id));
    if imagePath != [] {
      var deleted := DeleteCommunityArtImage(store, cfg, imagePath, ftpFails, unlinkFails);
    } else {
      assert ImageDeleted(store.local, store.remote, store.local, store.remote, cfg, imagePath, ftpFails, unlinkFails, false);
    }
    return Ok(200, ());
  }
}
