/**
 * The community-art file helpers of utils/fileUtils.js: how a stored image path is turned
 * into a filename, a remote FTP path or a local file path, and the best-effort delete that
 * reports success as a boolean and never fails.
 */
module Files {
  import opened Wrappers
  import opened Text
  import opened Paths

  /** The directory marker the stored paths carry. */
  const Marker := "community_art/"

  /** The prefix of every stored path, and of every remote path. */
  const StoredPrefix := "assets/community_art/"

  /**
   * Where images live: `ftpEnabled` is `isFTPEnabled()` read as a boolean, `artDir` the
   * resolved community-art directory.
   */
  datatype Config = Config(ftpEnabled: bool, artDir: string)

  /**
   * The files on the local disk and on the FTP server, by path. Each file is keyed by its
   * resolved path: the form `path.posix.normalize` gives, with `.`, `..` and repeated `/` gone
   * (a remote path is relative to the FTP root).
   */
  class FileStore {
    var local: set<string>
    var remote: set<string>

    constructor (local: set<string>, remote: set<string>)
      ensures this.local == local && this.remote == remote
    {
      this.local := local;
      this.remote := remote;
    }
  }

  /**
   * The filename a stored image path refers to: the text after the first `community_art/`
   * (up to any later one), else the basename of a path with `/`, else the path itself.
   */
  function ExtractFilename(p: string): (r: string)
    ensures !Includes(r, Marker)
    ensures Includes(p, Marker) ==> PieceAfterFirst(p, Marker, r)
    ensures !Includes(p, Marker) && '/' in p ==> r == Basename(p)
    ensures '/' !in p ==> r == p
  {
    NoMarkerWithoutSlash(p);
    NoMarkerWithoutSlash(Basename(p));
    if Includes(p, Marker) then SecondPiece(p, Marker)
    else if '/' in p then Basename(p)
    else p
  }

  /**
   * With several markers the filename is the text between the first one and the next, not
   * the text after the last one: the first `community_art/` decides.
   */
  lemma FirstMarkerDecides(p: string, i: nat, e: nat)
    requires i + |Marker| <= e && OccursAt(p, Marker, i) && OccursAt(p, Marker, e)
    requires forall k :: 0 <= k < i ==> !OccursAt(p, Marker, k)
    requires forall k :: i + |Marker| <= k < e ==> !OccursAt(p, Marker, k)
    ensures ExtractFilename(p) == p[i + |Marker|..e]
  {
    assert Includes(p, Marker);
    forall k | e < k < e + |Marker| ensures !OccursAt(p, Marker, k) {
      MarkersDoNotOverlap(p, e, k);
    }
    PieceBetween(p, Marker, ExtractFilename(p), i, e);
  }

  /** Two occurrences of `community_art/` cannot overlap: its `c` occurs only at its start. */
  lemma MarkersDoNotOverlap(p: string, e: nat, f: nat)
    requires OccursAt(p, Marker, e) && e < f < e + |Marker|
    ensures !OccursAt(p, Marker, f)
  {
    assert p[f] == p[e..e + |Marker|][f - e] == Marker[f - e] != 'c';
  }

  /** A string without `/` cannot contain `community_art/`. */
  lemma NoMarkerWithoutSlash(s: string)
    ensures '/' !in s ==> !Includes(s, Marker)
  {
    forall j | 0 <= j <= |s| && '/' !in s ensures !OccursAt(s, Marker, j) {
      if j + |Marker| <= |s| {
        assert s[j..j + |Marker|][|Marker| - 1] == s[j + |Marker| - 1];
        assert Marker[|Marker| - 1] == '/';
      }
    }
  }

  /** The filename the FTP branch extracts, which tests for `/` only through `path.basename`. */
  function FtpFilename(p: string): (r: string)
    ensures r == ExtractFilename(p)
  {
    if Includes(p, Marker) then SecondPiece(p, Marker) else Basename(p)
  }

  /** The path the FTP branch deletes, relative to the FTP root. */
  function RemotePath(p: string): (r: string)
    ensures StartsWith(r, "assets/")
    ensures StartsWith(p, "assets/") ==> r == p
    ensures !StartsWith(p, "assets/") ==> r == StoredPrefix + ExtractFilename(p)
  {
    if StartsWith(p, "assets/") then p
    else
      var r := StoredPrefix + FtpFilename(p);
      assert r[..7] == StoredPrefix[..7];
      r
  }

  /** The remote file the FTP delete of a stored image path reaches. */
  function RemoteFile(p: string): string {
    ServerFile(RemotePath(p))
  }

  /**
   * The file a `deleteFileViaFTP(rp)` removes: the server changes to the directory part, with
   * its backslashes turned into `/`, and removes the last segment there, resolving `.`, `..`
   * and repeated `/` on the way.
   */
  function ServerFile(rp: string): string {
    match LastIndexOfChar(rp, '/')
    case Some(k) => Normalize(ReplaceChar(rp[..k], '\\', '/') + rp[k..])
    case None => Normalize(rp)
  }

  /** The last `/` of `dir/name`, for a name without `/`, is the one before the name. */
  lemma {:induction false} LastSlash(dir: string, name: string)
    requires '/' !in name
    ensures LastIndexOfChar(dir + "/" + name, '/') == Some(|dir|)
  {
    if name != [] {
      var s := dir + "/" + name;
      assert s[..|s| - 1] == dir + "/" + name[..|name| - 1];
      LastSlash(dir, name[..|name| - 1]);
    }
  }

  /** The server file of a path whose last `/` stands at `k`: name kept, directory rewritten. */
  lemma ServerFileAt(rp: string, k: nat)
    requires LastIndexOfChar(rp, '/') == Some(k)
    ensures k < |rp|
    ensures ServerFile(rp) == Normalize(ReplaceChar(rp[..k], '\\', '/') + rp[k..])
  {
  }

  /** The FTP delete of `dir/name` removes `name` in `dir` with its backslashes read as `/`. */
  lemma ServerFileRewrites(dir: string, name: string)
    requires '/' !in name
    ensures ServerFile(dir + "/" + name) == Normalize(ReplaceChar(dir, '\\', '/') + "/" + name)
  {
    LastSlash(dir, name);
    ServerFileAt(dir + "/" + name, |dir|);
    SplitAtSlash(dir, name);
  }

  /** Cutting `dir/name` at its slash and rewriting the directory part. */
  lemma SplitAtSlash(dir: string, name: string)
    ensures var rp := dir + "/" + name;
      ReplaceChar(rp[..|dir|], '\\', '/') + rp[|dir|..] == ReplaceChar(dir, '\\', '/') + "/" + name
  {
    CutAtSlash(dir, name);
    Reassociate(ReplaceChar(dir, '\\', '/'), "/", name);
  }

  /** `dir/name` cut at the slash after `dir`. */
  lemma CutAtSlash(dir: string, name: string)
    ensures (dir + "/" + name)[..|dir|] == dir && (dir + "/" + name)[|dir|..] == "/" + name
  {
  }

  /** Concatenation regrouped to the left. */
  lemma Reassociate(x: string, y: string, z: string)
    ensures x + (y + z) == x + y + z
  {
  }

  /** A remote path whose directory part holds no backslash is removed as it resolves. */
  lemma ServerFileOfSlashFree(dir: string, name: string)
    requires '/' !in name && '\\' !in dir
    ensures ServerFile(dir + "/" + name) == Normalize(dir + "/" + name)
  {
    ServerFileRewrites(dir, name);
    ReplaceAbsent(dir);
  }

  /**
   * A backslash in the directory part of a stored path is a separator for the FTP delete:
   * `assets/a\\b/c.jpg` removes `c.jpg` in `assets/a/b`.
   */
  lemma RemoteBackslashSeparates(a: string, b: string, name: string)
    requires '\\' !in a && '\\' !in b && '/' !in name
    ensures RemoteFile("assets/" + a + "\\" + b + "/" + name) == Normalize("assets/" + a + "/" + b + "/" + name)
  {
    var d := "assets/" + a + "\\" + b;
    assert (d + "/" + name)[..7] == "assets/";
    ServerFileRewrites(d, name);
    RewriteBackslash("assets/" + a, b);
  }

  /** The one backslash between two backslash-free parts becomes `/`. */
  lemma RewriteBackslash(a: string, b: string)
    requires '\\' !in a && '\\' !in b
    ensures ReplaceChar(a + "\\" + b, '\\', '/') == a + "/" + b
  {
    ReplaceConcat(a, "\\" + b);
    ReplaceConcat("\\", b);
    ReplaceAbsent(a);
    ReplaceAbsent(b);
    Reassociate(a, "/", b);
    Reassociate(a, "\\", b);
  }

  /** Replacing characters distributes over concatenation. */
  lemma ReplaceConcat(s: string, t: string)
    ensures ReplaceChar(s + t, '\\', '/') == ReplaceChar(s, '\\', '/') + ReplaceChar(t, '\\', '/')
  {
  }

  /** The FTP delete of a stored path removes the file the path resolves to. */
  lemma StoredRemoteFile(name: string)
    requires '/' !in name
    ensures RemoteFile(StoredPath(name)) == Normalize(StoredPath(name))
  {
    var p := StoredPath(name);
    assert p[..7] == "assets/";
    assert p == "assets/community_art" + "/" + name;
    ServerFileOfSlashFree("assets/community_art", name);
  }

  /** The same for a stored path that climbs twice. */
  lemma ClimbingRemoteFile(name: string)
    requires '/' !in name
    ensures RemoteFile("assets/community_art/../../" + name) == Normalize("assets/community_art/../../" + name)
  {
    var p := "assets/community_art/../../" + name;
    assert p[..7] == "assets/";
    assert p == "assets/community_art/../.." + "/" + name;
    ServerFileOfSlashFree("assets/community_art/../..", name);
  }

  /**
   * A stored path that climbs with `..` twice makes the FTP delete reach the FTP root: it
   * removes `<name>` there, a file no upload writes.
   */
  lemma StoredPathClimbsRemote(name: string)
    requires Plain(name)
    ensures RemoteFile("assets/community_art/../../" + name) == name
  {
    var p := "assets/community_art/../../" + name;
    assert p[..7] == "assets/";
    assert p == "assets" + "/" + "community_art" + "/../../" + name;
    RelativeClimbs("assets", "community_art", name);
    ClimbingRemoteFile(name);
  }

  /**
   * The local file the delete removes: `${dir}/${filename}` with backslashes turned into `/`
   * when the directory starts with `/`, else `path.join(dir, filename)`.
   */
  function LocalTarget(dir: string, filename: string): string {
    if StartsWith(dir, "/") then ReplaceChar(dir + "/" + filename, '\\', '/') else Join(dir, filename)
  }

  /**
   * The file the unlink reaches: the file system resolves `.`, `..` and repeated `/` in the
   * `${dir}/${filename}` string, while `path.join` has resolved them already.
   */
  function LocalFile(dir: string, filename: string): string {
    if StartsWith(dir, "/") then Normalize(LocalTarget(dir, filename)) else LocalTarget(dir, filename)
  }

  /** Replacing a character the string does not hold changes nothing. */
  lemma ReplaceAbsent(t: string)
    requires '\\' !in t
    ensures ReplaceChar(t, '\\', '/') == t
  {
  }

  /** `getCommunityArtImagePath`: `null` for an empty path, else the filename joined under the directory. */
  function ImagePath(dir: string, p: string): (r: Option<string>)
    ensures r.None? <==> p == []
    ensures r.Some? ==> r.value == Join(dir, ExtractFilename(p))
  {
    if p == [] then None else Some(Join(dir, ExtractFilename(p)))
  }

  /** The path an upload stores and returns for a filename. */
  function StoredPath(filename: string): string {
    StoredPrefix + filename
  }

  /** A stored path gives back its filename, and is its own remote path. */
  lemma StoredPathRoundTrip(filename: string)
    requires !Includes(filename, Marker)
    ensures ExtractFilename(StoredPath(filename)) == filename
    ensures RemotePath(StoredPath(filename)) == StoredPath(filename)
  {
    var s := StoredPath(filename);
    assert OccursAt(s, Marker, 7) by {
      assert s[7..7 + |Marker|] == Marker;
    }
    var first := IndexOf(s, Marker);
    NoMarkerInAssets(s);
    assert first == Some(7);
    assert s[7 + |Marker|..] == filename;
    assert s[..7] == StoredPrefix[..7] == "assets/";
  }

  /** No `community_art/` starts inside the leading `assets/` of a stored path. */
  lemma NoMarkerInAssets(s: string)
    requires StartsWith(s, StoredPrefix)
    ensures forall v: nat :: v < 7 ==> !OccursAt(s, Marker, v)
  {
    assert StoredPrefix[..7] == "assets/" && Marker[0] == 'c';
    forall v: nat | v < 7 ensures !OccursAt(s, Marker, v) {
      assert s[v] == StoredPrefix[..7][v] != Marker[0];
      assert s[v..v + |Marker|][0] == s[v];
    }
  }

  /**
   * Under a canonical directory, a stored plain filename without backslashes is deleted from
   * the very file `path.join` places it at, in the local branch and in `getCommunityArtImagePath`.
   */
  lemma StoredImageLocation(dir: string, filename: string)
    requires Canonical(dir) && '\\' !in dir
    requires Plain(filename) && '\\' !in filename && !Includes(filename, Marker)
    ensures LocalTarget(dir, ExtractFilename(StoredPath(filename))) == Join(dir, filename)
    ensures LocalFile(dir, ExtractFilename(StoredPath(filename))) == Join(dir, filename)
    ensures ImagePath(dir, StoredPath(filename)) == Some(Join(dir, filename))
    ensures Join(dir, filename) == dir + "/" + filename
  {
    StoredPathRoundTrip(filename);
    JoinPlainName(dir, filename);
    JoinNonEmpty(dir, filename);
    assert StartsWith(dir, "/");
    var t := dir + "/" + filename;
    NoBackslashJoined(dir, filename);
    ReplaceAbsent(t);
  }

  lemma NoBackslashJoined(dir: string, filename: string)
    requires '\\' !in dir && '\\' !in filename
    ensures '\\' !in dir + "/" + filename
  {
    var t := dir + "/" + filename;
    forall k | 0 <= k < |t| ensures t[k] != '\\' {
      if k < |dir| {
        assert t[k] == dir[k];
      } else if k > |dir| {
        assert t[k] == filename[k - |dir| - 1];
      }
    }
  }

  /**
   * A stored path whose filename climbs with `..` makes the local delete reach outside the
   * art directory: under `/<a>/<b>` it removes `/<a>/<name>`.
   */
  lemma StoredPathClimbs(a: string, b: string, name: string)
    requires Plain(a) && Plain(b) && Plain(name)
    requires '\\' !in a && '\\' !in b && '\\' !in name
    ensures LocalFile("/" + a + "/" + b, ExtractFilename(StoredPath("../" + name))) == "/" + a + "/" + name
  {
    var dir, rel := "/" + a + "/" + b, "../" + name;
    NoMarkerAfterClimb(name);
    StoredPathRoundTrip(rel);
    assert '\\' !in dir && '\\' !in rel;
    NoBackslashJoined(dir, rel);
    ReplaceAbsent(dir + "/" + rel);
    JoinNonEmpty(dir, rel);
    JoinClimbs(a, b, name);
  }

  /** `../<name>` holds no `community_art/` when the name has no `/`. */
  lemma NoMarkerAfterClimb(name: string)
    requires '/' !in name
    ensures !Includes("../" + name, Marker)
  {
    var s := "../" + name;
    forall j | 0 <= j <= |s| ensures !OccursAt(s, Marker, j) {
      if j + |Marker| <= |s| {
        var w := s[j..j + |Marker|];
        if j < 3 {
          assert w[0] == s[j] != 'c' == Marker[0];
        } else {
          assert w[|Marker| - 1] == name[j + |Marker| - 1 - 3];
          assert Marker[|Marker| - 1] == '/';
        }
      }
    }
  }

  /**
   * What `deleteCommunityArtImage` leaves behind. In FTP mode the remote path is removed and
   * the answer is true unless the FTP exchange fails (a missing remote file is no failure);
   * locally the target is removed when it exists and the unlink succeeds. An empty path
   * deletes nothing.
   */
  ghost predicate ImageDeleted(
    local0: set<string>, remote0: set<string>, local: set<string>, remote: set<string>,
    cfg: Config, imagePath: string, ftpFails: bool, unlinkFails: bool, deleted: bool)
  {
    && (imagePath == [] ==> !deleted && local == local0 && remote == remote0)
    && (imagePath != [] && cfg.ftpEnabled ==>
          && deleted == !ftpFails
          && local == local0
          && remote == (if ftpFails then remote0 else remote0 - {RemoteFile(imagePath)}))
    && (imagePath != [] && !cfg.ftpEnabled ==>
          var target := LocalFile(cfg.artDir, ExtractFilename(imagePath));
          && deleted == (target in local0 && !unlinkFails)
          && remote == remote0
          && local == (if deleted then local0 - {target} else local0))
  }

  /** `deleteCommunityArtImage`: a best-effort delete that reports success and never fails. */
  method DeleteCommunityArtImage(store: FileStore, cfg: Config, imagePath: string, ftpFails: bool, unlinkFails: bool)
    returns (deleted: bool)
    modifies store
    ensures ImageDeleted(old(store.local), old(store.remote), store.local, store.remote, cfg, imagePath, ftpFails, unlinkFails, deleted)
  {
    if imagePath == [] {
      return false;
    }
    if cfg.ftpEnabled {
      var remotePath := imagePath;
      if !StartsWith(remotePath, "assets/") {
        var filename := FtpFilename(imagePath);
        remotePath := StoredPrefix + filename;
      }
      if ftpFails {
        return false;
      }
      var remoteFile := remotePath;
    var k := LastIndexOfChar(remotePath, '/');
    if k.Some? {
      remoteFile := ReplaceChar(remotePath[..k.value], '\\', '/') + remotePath[k.value..];
    }
    store.remote := store.remote - {Normalize(remoteFile)};
      return true;
    }
    var filename: string;
    if Includes(imagePath, Marker) {
      filename := SecondPiece(imagePath, Marker);
    } else if '/' in imagePath {
      filename := Basename(imagePath);
    } else {
      filename := imagePath;
    }
    assert filename == ExtractFilename(imagePath);
    var filePath := LocalFile(cfg.artDir, filename);
    deleted := Unlink(store, filePath, unlinkFails);
  }

  /** The existence check and the unlink of the local branch, on the resolved file. */
  method Unlink(store: FileStore, file: string, unlinkFails: bool) returns (deleted: bool)
    modifies store`local
    ensures deleted == (file in old(store.local) && !unlinkFails)
    ensures store.local == if deleted then old(store.local) - {file} else old(store.local)
  {
    if file !in store.local {
      return false;
    }
    if unlinkFails {
      return false;
    }
    store.local := store.local - {file};
    return true;
  }
}
