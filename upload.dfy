/**
 * The community-art upload of routes/upload.js: the filename policy of the disk storage
 * (`sanitize`, truncation, defaults, timestamp and extension), the image filter, and the
 * handler that pushes the file to FTP and then removes the local copy.
 */
module Upload {
  import opened Wrappers
  import opened Text
  import opened Paths
  import opened Files

  /** A character `sanitize` keeps: a lower-case ASCII letter, a digit, or `_`. */
  predicate SafeChar(c: char) {
    ('a' <= c <= 'z') || IsDigit(c) || c == '_'
  }

  predicate Safe(s: string) {
    forall k :: 0 <= k < |s| ==> SafeChar(s[k])
  }

  predicate IsAlnum(c: char) {
    IsAsciiLetter(c) || IsDigit(c)
  }

  /** A character outside the Basic Multilingual Plane is two UTF-16 code units, so two matches. */
  function Underscores(c: char): string {
    if c as int < 0x1_0000 then "_" else "__"
  }

  /** `s.replace(/[^a-z0-9]/gi, '_')`. */
  function ReplaceNonAlnum(s: string): (r: string)
    ensures |r| >= |s|
    ensures forall k :: 0 <= k < |r| ==> IsAlnum(r[k]) || r[k] == '_'
  {
    if s == [] then []
    else (if IsAlnum(s[0]) then [s[0]] else Underscores(s[0])) + ReplaceNonAlnum(s[1..])
  }

  /** `s.toLowerCase()` on a string of ASCII characters. */
  function LowerAscii(s: string): (r: string)
    ensures |r| == |s| && forall k :: 0 <= k < |s| ==> r[k] == ToLowerAscii(s[k])
  {
    if s == [] then [] else [ToLowerAscii(s[0])] + LowerAscii(s[1..])
  }

  /** `s.substring(0, n)`. */
  function Prefix(s: string, n: nat): (r: string)
    ensures |r| == if |s| <= n then |s| else n
    ensures forall k :: 0 <= k < |r| ==> r[k] == s[k]
  {
    if |s| <= n then s else s[..n]
  }

  /** `sanitize`: `"unknown"` for an empty string, else safe characters only, at most 30 of them. */
  function Sanitize(s: string): (r: string)
    ensures r != [] && |r| <= 30 && Safe(r)
    ensures s == [] ==> r == "unknown"
  {
    if s == [] then "unknown"
    else
      var replaced := ReplaceNonAlnum(s);
      var lowered := LowerAscii(replaced);
      assert Safe(lowered) by {
        forall k | 0 <= k < |lowered| ensures SafeChar(lowered[k]) {
          assert IsAlnum(replaced[k]) || replaced[k] == '_';
        }
      }
      Prefix(lowered, 30)
  }

  /** On a safe string the replacement changes nothing. */
  lemma {:induction false} ReplaceNonAlnumSafe(s: string)
    requires Safe(s)
    ensures ReplaceNonAlnum(s) == s
  {
    if s != [] {
      assert Safe(s[1..]) by {
        forall k | 0 <= k < |s[1..]| ensures SafeChar(s[1..][k]) {
          assert s[1..][k] == s[k + 1];
        }
      }
      ReplaceNonAlnumSafe(s[1..]);
      assert SafeChar(s[0]);
      assert s == [s[0]] + s[1..];
    }
  }

  /** A safe, non-empty string of at most 30 characters is its own sanitised form. */
  lemma SanitizeSafe(s: string)
    requires s != [] && |s| <= 30 && Safe(s)
    ensures Sanitize(s) == s
  {
    ReplaceNonAlnumSafe(s);
    assert LowerAscii(s) == s by {
      forall k | 0 <= k < |s| ensures ToLowerAscii(s[k]) == s[k] {
        assert SafeChar(s[k]);
      }
    }
  }

  /** Sanitising twice is sanitising once. */
  lemma SanitizeIdempotent(s: string)
    ensures Sanitize(Sanitize(s)) == Sanitize(s)
  {
    SanitizeSafe(Sanitize(s));
  }

  /**
   * On characters of the Basic Multilingual Plane the replacement is character by character:
   * letters and digits stay, everything else becomes `_`.
   */
  lemma {:induction false} ReplaceNonAlnumBmp(s: string)
    requires forall k :: 0 <= k < |s| ==> s[k] as int < 0x1_0000
    ensures |ReplaceNonAlnum(s)| == |s|
    ensures forall k :: 0 <= k < |s| ==> ReplaceNonAlnum(s)[k] == if IsAlnum(s[k]) then s[k] else '_'
  {
    if s != [] {
      assert forall k :: 0 <= k < |s[1..]| ==> s[1..][k] == s[k + 1];
      ReplaceNonAlnumBmp(s[1..]);
      var r := ReplaceNonAlnum(s);
      forall k | 0 <= k < |s| ensures r[k] == if IsAlnum(s[k]) then s[k] else '_' {
        if k > 0 {
          assert r[k] == ReplaceNonAlnum(s[1..])[k - 1];
        }
      }
    }
  }

  /** A character outside the Basic Multilingual Plane takes two places in the sanitised name. */
  lemma AstralTakesTwo(c: char)
    requires c as int >= 0x1_0000
    ensures Sanitize([c]) == "__"
  {
    assert ReplaceNonAlnum([c]) == "__" + ReplaceNonAlnum([]);
    assert LowerAscii("__") == "__";
  }

  lemma SafeConcat(a: string, b: string)
    requires Safe(a) && Safe(b)
    ensures Safe(a + b)
  {
    forall k | 0 <= k < |a + b| ensures SafeChar((a + b)[k]) {
      if k < |a| { assert (a + b)[k] == a[k]; } else { assert (a + b)[k] == b[k - |a|]; }
    }
  }

  /** The artist segment: `(artist || 'unknown').trim()`, sanitised. */
  function ArtistSegment(artist: Option<string>): (r: string)
    ensures r != [] && |r| <= 30 && Safe(r)
  {
    Sanitize(Trim(Or(artist, "unknown")))
  }

  /** The category segment: `(category || 'art').trim()`, sanitised and cut to 20 characters. */
  function CategorySegment(category: Option<string>): (r: string)
    ensures r != [] && |r| <= 20 && Safe(r)
  {
    var s := Sanitize(Trim(Or(category, "art")));
    SafePrefix(s, 20);
    Prefix(s, 20)
  }

  lemma SafePrefix(s: string, n: nat)
    requires Safe(s)
    ensures Safe(Prefix(s, n))
  {
    var r := Prefix(s, n);
    forall k | 0 <= k < |r| ensures SafeChar(r[k]) {
      assert r[k] == s[k];
    }
  }

  lemma TrimmedWord(s: string)
    requires s != [] && Safe(s)
    ensures Trim(s) == s
  {
    SafeNotSpace(s[0]);
    SafeNotSpace(s[|s| - 1]);
    assert IsTrimmed(s);
  }

  lemma SafeNotSpace(c: char)
    requires SafeChar(c)
    ensures !IsSpace(c)
  {
  }

  /** A missing or blank artist is filed as `unknown`. */
  lemma ArtistDefault(artist: Option<string>)
    requires artist.None? || AllSpace(artist.value)
    ensures ArtistSegment(artist) == "unknown"
  {
    if Present(artist) {
      assert Trim(artist.value) == [];
    } else {
      LowerWordSegment("unknown");
    }
  }

  /** A missing category is filed as `art`; a blank one, like any empty name, as `unknown`. */
  lemma CategoryDefault(category: Option<string>)
    ensures !Present(category) ==> CategorySegment(category) == "art"
    ensures category.Some? && AllSpace(category.value) && category.value != [] ==> CategorySegment(category) == "unknown"
  {
    if !Present(category) {
      LowerWordSegment("art");
    } else if AllSpace(category.value) && category.value != [] {
      assert Trim(category.value) == [];
      LowerWordSegment("unknown");
    }
  }

  /** A short word of lower-case letters is its own trimmed and sanitised form. */
  lemma LowerWordSegment(w: string)
    requires 0 < |w| <= 20 && forall k :: 0 <= k < |w| ==> 'a' <= w[k] <= 'z'
    ensures Sanitize(Trim(w)) == w && Prefix(w, 20) == w
  {
    assert Safe(w) by {
      forall k | 0 <= k < |w| ensures SafeChar(w[k]) {
        assert 'a' <= w[k] <= 'z';
      }
    }
    TrimmedWord(w);
    SanitizeSafe(w);
  }

  /** The multipart form fields the filename callback reads. */
  datatype UploadForm = UploadForm(artist: Option<string>, category: Option<string>)

  /** The `image` part as multer describes it. */
  datatype UploadedFile = UploadedFile(originalName: string, mimeType: string, size: nat)

  /** `${artistClean}_${categoryClean}_${timestamp}` for an upload received at `now` (milliseconds). */
  function Stem(form: UploadForm, now: nat): (r: string)
    ensures r != [] && Safe(r)
  {
    var a, c, t := ArtistSegment(form.artist), CategorySegment(form.category), NatToString(now);
    NumeralSafe(now);
    SafeJoined(a, c, t);
    a + "_" + c + "_" + t
  }

  /** A decimal numeral is made of safe characters. */
  lemma NumeralSafe(n: nat)
    ensures Safe(NatToString(n))
  {
    var t := NatToString(n);
    forall k | 0 <= k < |t| ensures SafeChar(t[k]) { assert IsDigit(t[k]); }
  }

  /** Three safe segments joined by `_` form a safe string. */
  lemma SafeJoined(a: string, c: string, t: string)
    requires Safe(a) && Safe(c) && Safe(t)
    ensures Safe(a + "_" + c + "_" + t)
  {
    assert Safe("_");
    SafeConcat(a, "_");
    SafeConcat(a + "_", c);
    SafeConcat(a + "_" + c, "_");
    SafeConcat(a + "_" + c + "_", t);
  }

  /** The name the disk storage gives an upload: the stem followed by the original extension. */
  function Filename(form: UploadForm, originalName: string, now: nat): string {
    Stem(form, now) + ExtName(originalName)
  }

  /** A safe stem followed by an extension: no `/`, and the extension is the stem's own. */
  lemma SafeStemWithExt(stem: string, ext: string)
    requires stem != [] && Safe(stem)
    requires ext == [] || (ext[0] == '.' && '.' !in ext[1..] && '/' !in ext)
    ensures '/' !in stem + ext
    ensures '\\' !in ext ==> '\\' !in stem + ext
    ensures ExtName(stem + ext) == ext
  {
    var f := stem + ext;
    StemExtChars(stem, ext);
    SafeHasNoDot(stem);
    assert Basename(f) == f;
    assert f[0] == stem[0] && SafeChar(stem[0]);
    if ext == [] {
      assert f == stem;
    } else {
      LastDotOfStem(stem, ext);
      assert f[|stem|..] == ext;
    }
  }

  /** Neither part brings a `/`, and a `\\` only if the extension does. */
  lemma StemExtChars(stem: string, ext: string)
    requires Safe(stem) && '/' !in ext
    ensures '/' !in stem + ext && ('\\' !in ext ==> '\\' !in stem + ext)
  {
    var f := stem + ext;
    forall k | 0 <= k < |f| ensures f[k] != '/' && ('\\' !in ext ==> f[k] != '\\') {
      if k < |stem| {
        assert f[k] == stem[k] && SafeChar(stem[k]);
      } else {
        assert f[k] == ext[k - |stem|];
      }
    }
  }

  lemma SafeHasNoDot(s: string)
    requires Safe(s)
    ensures '.' !in s
  {
    forall k | 0 <= k < |s| ensures s[k] != '.' {
      assert SafeChar(s[k]);
    }
  }

  /** In a stem without dots followed by an extension, the last dot is the extension's. */
  lemma LastDotOfStem(stem: string, ext: string)
    requires '.' !in stem && ext != [] && ext[0] == '.' && '.' !in ext[1..]
    ensures LastIndexOfChar(stem + ext, '.') == Some(|stem|)
  {
    var f := stem + ext;
    assert f[|stem|] == '.';
    assert forall k :: 0 <= k < |stem| ==> f[k] == stem[k];
    assert forall k :: |stem| < k < |f| ==> f[k] == ext[1..][k - |stem| - 1];
  }

  /** The stored file keeps the extension of the uploaded one. */
  lemma FilenameKeepsExtension(form: UploadForm, originalName: string, now: nat)
    ensures ExtName(Filename(form, originalName, now)) == ExtName(originalName)
  {
    SafeStemWithExt(Stem(form, now), ExtName(originalName));
  }

  /** The stored filename has no `/`, so it is a plain name and carries no directory marker. */
  lemma FilenameIsPlain(form: UploadForm, originalName: string, now: nat)
    ensures Plain(Filename(form, originalName, now))
    ensures !Includes(Filename(form, originalName, now), Marker)
  {
    var stem := Stem(form, now);
    var f := Filename(form, originalName, now);
    SafeStemWithExt(stem, ExtName(originalName));
    assert f[0] == stem[0] && SafeChar(stem[0]);
    NoMarkerWithoutSlash(f);
  }

  /** `file.mimetype.startsWith('image/')`. */
  predicate ImageFilter(mimeType: string) {
    StartsWith(mimeType, "image/")
  }

  datatype UploadError =
    | NotAnImage
    | NoFile
    | FtpFailed
  {
    /** The HTTP status of the error response. */
    function Status(): nat {
      match this
      case FtpFailed => 500
      case _ => 400
    }
  }

  /** The JSON body of a successful upload. */
  datatype Uploaded = Uploaded(path: string, filename: string, size: nat, uploadedVia: string)

  /**
   * `POST /api/v1/upload/community-art`. A part that is not an image is refused by the filter
   * before anything is written; a request without a file is refused by the handler. An accepted
   * image is written by the disk storage under its generated name and then handed to `Receive`.
   */
  method UploadCommunityArt(
    store: FileStore, cfg: Config, form: UploadForm, file: Option<UploadedFile>, now: nat,
    ftpFails: bool, unlinkFails: bool)
    returns (r: Reply<Uploaded, UploadError>)
    modifies store
    ensures file.None? ==> r == Err(NoFile) && store.local == old(store.local) && store.remote == old(store.remote)
    ensures file.Some? && !ImageFilter(file.value.mimeType) ==>
      r == Err(NotAnImage) && store.local == old(store.local) && store.remote == old(store.remote)
    ensures file.Some? && ImageFilter(file.value.mimeType) ==>
      Received(old(store.local), old(store.remote), store.local, store.remote, cfg,
               Filename(form, file.value.originalName, now), file.value.size, ftpFails, unlinkFails, r)
  {
    if file.None? {
      return Err(NoFile);
    }
    var f := file.value;
    if !ImageFilter(f.mimeType) {
      return Err(NotAnImage);
    }
    r := Receive(store, cfg, Filename(form, f.originalName, now), f.size, ftpFails, unlinkFails);
  }

  /**
   * What receiving the file `name` leaves behind. It is written to `path.join(artDir, name)`.
   * Locally that is all, and the answer gives the stored path. In FTP mode the file goes to the
   * resolved stored path on the server, and only then is the local copy unlinked; a failed
   * transfer or unlink answers 500 and keeps the local copy.
   */
  ghost predicate Received(
    local0: set<string>, remote0: set<string>, local: set<string>, remote: set<string>,
    cfg: Config, name: string, size: nat, ftpFails: bool, unlinkFails: bool, r: Reply<Uploaded, UploadError>)
  {
    var written := Join(cfg.artDir, name);
    && (!cfg.ftpEnabled ==>
          && r == Ok(200, Uploaded(StoredPath(name), name, size, "local"))
          && local == local0 + {written} && remote == remote0)
    && (cfg.ftpEnabled && ftpFails ==>
          r == Err(FtpFailed) && local == local0 + {written} && remote == remote0)
    && (cfg.ftpEnabled && !ftpFails && unlinkFails ==>
          r == Err(FtpFailed) && local == local0 + {written} && remote == remote0 + {Normalize(StoredPath(name))})
    && (cfg.ftpEnabled && !ftpFails && !unlinkFails ==>
          && r == Ok(200, Uploaded(StoredPath(name), name, size, "FTP"))
          && local == local0 - {written} && remote == remote0 + {Normalize(StoredPath(name))})
  }

  /** The disk storage's write and the handler's body for an accepted image named `name`. */
  method Receive(store: FileStore, cfg: Config, name: string, size: nat, ftpFails: bool, unlinkFails: bool)
    returns (r: Reply<Uploaded, UploadError>)
    modifies store
    ensures Received(old(store.local), old(store.remote), store.local, store.remote, cfg, name, size, ftpFails, unlinkFails, r)
  {
    var localPath := Join(cfg.artDir, name);
    store.local := store.local + {localPath};
    var relativePath := StoredPrefix + name;
    if cfg.ftpEnabled {
      if ftpFails {
        return Err(FtpFailed);
      }
      store.remote := store.remote + {Normalize(relativePath)};
      if unlinkFails {
        return Err(FtpFailed);
      }
      store.local := store.local - {localPath};
      return Ok(200, Uploaded(relativePath, name, size, "FTP"));
    }
    return Ok(200, Uploaded(relativePath, name, size, "local"));
  }

  /**
   * The stored path of an upload leads the delete helper back to the uploaded file: in FTP
   * mode to the remote path the upload wrote, locally (under a canonical directory) to the
   * file the disk storage wrote.
   */
  lemma UploadedImageIsDeletable(dir: string, form: UploadForm, originalName: string, now: nat)
    requires Canonical(dir) && '\\' !in dir && '\\' !in ExtName(originalName)
    ensures var name := Filename(form, originalName, now);
      && RemotePath(StoredPath(name)) == StoredPath(name)
      && RemoteFile(StoredPath(name)) == Normalize(StoredPath(name))
      && LocalTarget(dir, ExtractFilename(StoredPath(name))) == Join(dir, name)
      && LocalFile(dir, ExtractFilename(StoredPath(name))) == Join(dir, name)
      && ImagePath(dir, StoredPath(name)) == Some(Join(dir, name))
  {
    var name := Filename(form, originalName, now);
    FilenameIsPlain(form, originalName, now);
    SafeStemWithExt(Stem(form, now), ExtName(originalName));
    StoredPathRoundTrip(name);
    StoredImageLocation(dir, name);
    StoredRemoteFile(name);
  }
}
