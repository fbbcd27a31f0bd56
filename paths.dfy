/**
 * The POSIX flavour of Node's `path` module, as far as the upload and file helpers use it:
 * `basename`, `extname`, `normalize` and `join`. A path is split at `/` into segments;
 * normalising resolves `.` and `..` against a stack of kept segments.
 */
module Paths {
  import opened Wrappers
  import opened Text

  /** `s.split('/')`. */
  function Split(s: string): (r: seq<string>)
    ensures |r| >= 1
    ensures forall k :: 0 <= k < |r| ==> '/' !in r[k]
  {
    if s == [] then [[]]
    else if s[0] == '/' then [[]] + Split(s[1..])
    else
      var rest := Split(s[1..]);
      [[s[0]] + rest[0]] + rest[1..]
  }

  /** `segments.join('/')`. */
  function JoinSegments(segments: seq<string>): string {
    if segments == [] then []
    else if |segments| == 1 then segments[0]
    else segments[0] + "/" + JoinSegments(segments[1..])
  }

  /** Joining the pieces of a split gives back the string. */
  lemma {:induction false} SplitThenJoin(s: string)
    ensures JoinSegments(Split(s)) == s
  {
    if s != [] {
      SplitThenJoin(s[1..]);
      var rest := Split(s[1..]);
      if s[0] == '/' {
        JoinAfterEmpty(rest);
        assert s == "/" + s[1..];
      } else {
        JoinExtendsHead(s[0], rest);
        assert s == [s[0]] + s[1..];
      }
    }
  }

  /** An empty first segment joins as a leading `/`. */
  lemma JoinAfterEmpty(rest: seq<string>)
    requires |rest| >= 1
    ensures JoinSegments([[]] + rest) == "/" + JoinSegments(rest)
  {
    assert ([[]] + rest)[1..] == rest;
  }

  /** Putting a character in front of the first segment puts it in front of the join. */
  lemma JoinExtendsHead(c: char, rest: seq<string>)
    requires |rest| >= 1
    ensures JoinSegments([[c] + rest[0]] + rest[1..]) == [c] + JoinSegments(rest)
  {
    var segments := [[c] + rest[0]] + rest[1..];
    if |rest| > 1 {
      assert segments[1..] == rest[1..];
    }
  }

  /** Splitting a join of slash-free segments gives back the segments. */
  lemma {:induction false} JoinThenSplit(segments: seq<string>)
    requires |segments| >= 1 && forall k :: 0 <= k < |segments| ==> '/' !in segments[k]
    ensures Split(JoinSegments(segments)) == segments
  {
    if |segments| == 1 {
      SplitSlashFree(segments[0]);
    } else {
      JoinThenSplit(segments[1..]);
      SplitAround(segments[0], JoinSegments(segments[1..]));
      assert segments == [segments[0]] + segments[1..];
    }
  }

  lemma {:induction false} SplitSlashFree(s: string)
    requires '/' !in s
    ensures Split(s) == [s]
  {
    if s != [] {
      SplitSlashFree(s[1..]);
      assert s == [s[0]] + s[1..];
    }
  }

  /** A slash-free head followed by `/` splits off as the first segment. */
  lemma {:induction false} SplitAround(head: string, tail: string)
    requires '/' !in head
    ensures Split(head + "/" + tail) == [head] + Split(tail)
  {
    if head == [] {
      assert head + "/" + tail == "/" + tail;
      assert ("/" + tail)[1..] == tail;
    } else {
      assert (head + "/" + tail)[1..] == head[1..] + "/" + tail;
      SplitAround(head[1..], tail);
      assert head == [head[0]] + head[1..];
    }
  }

  lemma {:induction false} JoinSegmentsAppend(segments: seq<string>, last: string)
    requires |segments| >= 1
    ensures JoinSegments(segments + [last]) == JoinSegments(segments) + "/" + last
  {
    if |segments| > 1 {
      assert (segments + [last])[1..] == segments[1..] + [last];
      JoinSegmentsAppend(segments[1..], last);
    }
  }

  /** A segment that names an entry: not empty, not `.` or `..`, without `/`. */
  predicate Plain(segment: string) {
    segment != "" && segment != "." && segment != ".." && '/' !in segment
  }

  /** How one segment changes the stack of kept segments while normalising. */
  function Step(stack: seq<string>, segment: string, absolute: bool): seq<string> {
    if segment == "" || segment == "." then stack
    else if segment == ".." then
      if stack != [] && stack[|stack| - 1] != ".." then stack[..|stack| - 1]
      else if absolute then stack
      else stack + [".."]
    else stack + [segment]
  }

  function Resolve(stack: seq<string>, segments: seq<string>, absolute: bool): seq<string>
    decreases |segments|
  {
    if segments == [] then stack else Resolve(Step(stack, segments[0], absolute), segments[1..], absolute)
  }

  /** Plain segments are kept as they are. */
  lemma {:induction false} ResolvePlain(stack: seq<string>, segments: seq<string>, absolute: bool)
    requires forall k :: 0 <= k < |segments| ==> Plain(segments[k])
    ensures Resolve(stack, segments, absolute) == stack + segments
    decreases |segments|
  {
    if segments != [] {
      ResolvePlain(stack + [segments[0]], segments[1..], absolute);
      assert stack + [segments[0]] + segments[1..] == stack + segments;
    }
  }

  /** `path.posix.normalize(p)`. */
  function Normalize(p: string): string {
    if p == [] then "."
    else
      var absolute := p[0] == '/';
      var trailing := p[|p| - 1] == '/';
      var body := JoinSegments(Resolve([], Split(p), absolute));
      if body == [] then (if absolute then "/" else if trailing then "./" else ".")
      else (if absolute then "/" else "") + body + (if trailing then "/" else "")
  }

  /** `path.posix.join(dir, name)`. */
  function Join(dir: string, name: string): string {
    if dir == [] && name == [] then "."
    else if dir == [] then Normalize(name)
    else if name == [] then Normalize(dir)
    else Normalize(dir + "/" + name)
  }

  /** An absolute path with plain segments only, as an upload directory is configured. */
  predicate Canonical(dir: string) {
    |dir| >= 2 && dir[0] == '/' && forall k :: 0 <= k < |Split(dir[1..])| ==> Plain(Split(dir[1..])[k])
  }

  /** Under a canonical directory, joining a plain name is plain concatenation with `/`. */
  lemma JoinPlainName(dir: string, name: string)
    requires Canonical(dir) && Plain(name)
    ensures Join(dir, name) == dir + "/" + name
  {
    var segments := Split(dir[1..]);
    var all := segments + [name];
    var p := dir + "/" + name;
    CanonicalJoin(dir, name);
    assert forall k :: 0 <= k < |all| ==> Plain(all[k]) by {
      assert forall k :: 0 <= k < |segments| ==> all[k] == segments[k];
    }
    JoinThenSplit(all);
    SplitLeadingSlash(JoinSegments(all));
    ResolvePlain([], all, true);
    ResolveSkipsEmpty(all);
    assert p[|p| - 1] == name[|name| - 1] && name[|name| - 1] in name;
    calc {
      Join(dir, name);
      { JoinNonEmpty(dir, name); }
      Normalize(p);
      { NormalizeAbsolute(p, all); }
      "/" + JoinSegments(all);
    }
  }

  /** A canonical directory, `/` and a name are `/` and the join of all their segments. */
  lemma CanonicalJoin(dir: string, name: string)
    requires Canonical(dir)
    ensures dir + "/" + name == "/" + JoinSegments(Split(dir[1..]) + [name])
  {
    SplitThenJoin(dir[1..]);
    assert dir == "/" + dir[1..];
    JoinSegmentsAppend(Split(dir[1..]), name);
  }

  lemma SplitLeadingSlash(s: string)
    ensures Split("/" + s) == [[]] + Split(s)
  {
    assert ("/" + s)[1..] == s;
  }

  lemma ResolveSkipsEmpty(all: seq<string>)
    requires Resolve([], all, true) == all
    ensures Resolve([], [[]] + all, true) == all
  {
    assert ([[]] + all)[1..] == all;
  }

  /** An absolute path without a trailing `/` normalises to `/` and its kept segments. */
  lemma NormalizeAbsolute(p: string, kept: seq<string>)
    requires p != [] && p[0] == '/' && p[|p| - 1] != '/'
    requires Resolve([], Split(p), true) == kept && JoinSegments(kept) != []
    ensures Normalize(p) == "/" + JoinSegments(kept)
  {
  }

  /** `..` climbs out of the directory: joining `../<name>` under `/<a>/<b>` lands in `/<a>`. */
  lemma JoinClimbs(a: string, b: string, name: string)
    requires Plain(a) && Plain(b) && Plain(name)
    ensures Join("/" + a + "/" + b, "../" + name) == "/" + a + "/" + name
  {
    var dir, rel := "/" + a + "/" + b, "../" + name;
    var p := "/" + a + "/" + b + "/" + "../" + name;
    ClimbSplits(a, b, name);
    ClimbResolves(a, b, name);
    JoinPair(a, name);
    assert p[|p| - 1] == name[|name| - 1] && name[|name| - 1] in name;
    NormalizeAbsolute(p, [a, name]);
    calc {
      Join(dir, rel);
      { JoinNonEmpty(dir, rel); }
      Normalize(dir + "/" + rel);
      { assert dir + "/" + rel == p; }
      Normalize(p);
      "/" + (a + "/" + name);
    }
  }

  lemma JoinNonEmpty(dir: string, name: string)
    requires dir != [] && name != []
    ensures Join(dir, name) == Normalize(dir + "/" + name)
  {
  }

  lemma JoinPair(a: string, b: string)
    ensures JoinSegments([a, b]) == a + "/" + b
  {
    assert [a, b][1..] == [b];
  }

  lemma ClimbSplits(a: string, b: string, name: string)
    requires Plain(a) && Plain(b) && Plain(name)
    ensures Split("/" + a + "/" + b + "/" + "../" + name) == [[], a, b, "..", name]
  {
    var s3 := ".." + "/" + name;
    var s2 := b + "/" + s3;
    var s1 := a + "/" + s2;
    SplitSlashFree(name);
    SplitAround("..", name);
    SplitAround(b, s3);
    SplitAround(a, s2);
    SplitAround([], s1);
    ClimbRegroup(a, b, name);
  }

  lemma ClimbRegroup(a: string, b: string, name: string)
    ensures "/" + a + "/" + b + "/" + "../" + name == [] + "/" + (a + "/" + (b + "/" + (".." + "/" + name)))
  {
    assert "../" == ".." + "/";
  }

  lemma ClimbResolves(a: string, b: string, name: string)
    requires Plain(a) && Plain(b) && Plain(name)
    ensures Resolve([], [[], a, b, "..", name], true) == [a, name]
  {
    assert Resolve([], [[], a, b, "..", name], true) == Resolve([], [a, b, "..", name], true) by {
      assert [[], a, b, "..", name][1..] == [a, b, "..", name];
    }
    assert Resolve([], [a, b, "..", name], true) == Resolve([a], [b, "..", name], true) by {
      assert [a, b, "..", name][1..] == [b, "..", name];
      assert Step([], a, true) == [] + [a] == [a];
    }
    assert Resolve([a], [b, "..", name], true) == Resolve([a, b], ["..", name], true) by {
      assert [b, "..", name][1..] == ["..", name];
      assert Step([a], b, true) == [a] + [b] == [a, b];
    }
    assert Resolve([a, b], ["..", name], true) == Resolve([a], [name], true) by {
      assert ["..", name][1..] == [name];
      assert [a, b][..1] == [a];
    }
    assert Resolve([a], [name], true) == [a, name] by {
      assert [name][1..] == [];
    }
  }

  /** `..` twice climbs from `<a>/<b>` back to the start of a relative path. */
  lemma RelativeClimbs(a: string, b: string, name: string)
    requires Plain(a) && Plain(b) && Plain(name)
    ensures Normalize(a + "/" + b + "/../../" + name) == name
  {
    var p := a + "/" + b + "/../../" + name;
    RelativeClimbSplits(a, b, name);
    RelativeClimbResolves(a, b, name);
    assert p[0] == a[0] && a[0] in a;
    assert p[|p| - 1] == name[|name| - 1] && name[|name| - 1] in name;
  }

  lemma RelativeClimbSplits(a: string, b: string, name: string)
    requires Plain(a) && Plain(b) && Plain(name)
    ensures Split(a + "/" + b + "/../../" + name) == [a, b, "..", "..", name]
  {
    var s3 := ".." + "/" + name;
    var s2 := ".." + "/" + s3;
    var s1 := b + "/" + s2;
    SplitSlashFree(name);
    SplitAround("..", name);
    SplitAround("..", s3);
    SplitAround(b, s2);
    SplitAround(a, s1);
    assert a + "/" + b + "/../../" + name == a + "/" + s1;
  }

  lemma RelativeClimbResolves(a: string, b: string, name: string)
    requires Plain(a) && Plain(b) && Plain(name)
    ensures Resolve([], [a, b, "..", "..", name], false) == [name]
  {
    assert Resolve([], [a, b, "..", "..", name], false) == Resolve([a], [b, "..", "..", name], false) by {
      assert [a, b, "..", "..", name][1..] == [b, "..", "..", name];
      assert Step([], a, false) == [] + [a] == [a];
    }
    assert Resolve([a], [b, "..", "..", name], false) == Resolve([a, b], ["..", "..", name], false) by {
      assert [b, "..", "..", name][1..] == ["..", "..", name];
      assert Step([a], b, false) == [a] + [b] == [a, b];
    }
    assert Resolve([a, b], ["..", "..", name], false) == Resolve([a], ["..", name], false) by {
      assert ["..", "..", name][1..] == ["..", name];
      assert [a, b][..1] == [a];
    }
    assert Resolve([a], ["..", name], false) == Resolve([], [name], false) by {
      assert ["..", name][1..] == [name];
      assert [a][..0] == [];
    }
    assert Resolve([], [name], false) == [name] by {
      assert [name][1..] == [];
    }
  }

  /** Strips the `/` characters at the end. */
  function TrimTrailingSlashes(p: string): (r: string)
    ensures |r| <= |p| && r == p[..|r|] && (r == [] || r[|r| - 1] != '/')
    ensures forall k :: |r| <= k < |p| ==> p[k] == '/'
  {
    if p != [] && p[|p| - 1] == '/' then TrimTrailingSlashes(p[..|p| - 1]) else p
  }

  /** `path.posix.basename(p)`: the last non-empty segment, or `""` for a path of slashes only. */
  function Basename(p: string): (r: string)
    ensures '/' !in r
    ensures '/' !in p ==> r == p
  {
    var q := TrimTrailingSlashes(p);
    match LastIndexOfChar(q, '/')
    case None => q
    case Some(i) => q[i + 1..]
  }

  /**
   * `path.posix.extname(p)`: from the last `.` of the basename to its end, or `""` when the
   * basename has no `.`, when that `.` is its first character, or when it is `..`.
   */
  function ExtName(p: string): (r: string)
    ensures r == [] || (r[0] == '.' && '.' !in r[1..] && '/' !in r)
  {
    var b := Basename(p);
    match LastIndexOfChar(b, '.')
    case None => []
    case Some(i) =>
      if i == 0 || b == ".." then []
      else
        ExtensionShape(b, i);
        b[i..]
  }

  /** The text from the last `.` of a name without `/` holds no other `.` and no `/`. */
  lemma ExtensionShape(b: string, i: nat)
    requires i < |b| && b[i] == '.' && '/' !in b
    requires forall k :: i < k < |b| ==> b[k] != '.'
    ensures b[i..][0] == '.' && '.' !in b[i..][1..] && '/' !in b[i..]
  {
    var ext := b[i..];
    forall k | 1 <= k < |ext| ensures ext[k] != '.' {
      assert ext[k] == b[i + k];
    }
    forall k | 0 <= k < |ext| ensures ext[k] != '/' {
      assert ext[k] == b[i + k] && b[i + k] in b;
    }
  }
}
