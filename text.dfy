/**
 * The JavaScript string primitives the handlers rely on: truthiness of request fields,
 * `String.prototype.trim`, `includes`/`indexOf`, `split(sep)[1]`, `lastIndexOf`, and the
 * decimal rendering of a whole number in a template literal.
 */
module Text {
  import opened Wrappers

  /** White space as `trim()` and the regular-expression class `\s` see it (ECMAScript WhiteSpace and LineTerminator). */
  predicate IsSpace(c: char) {
    || c == '\t' || c == '\n' || c == '\U{B}' || c == '\U{C}' || c == '\r' || c == ' '
    || c == '\U{A0}' || c == '\U{1680}' || ('\U{2000}' <= c <= '\U{200A}')
    || c == '\U{2028}' || c == '\U{2029}' || c == '\U{202F}' || c == '\U{205F}'
    || c == '\U{3000}' || c == '\U{FEFF}'
  }

  predicate AllSpace(s: string) {
    forall k :: 0 <= k < |s| ==> IsSpace(s[k])
  }

  /** A request field tested with `if (field)`: present and not the empty string. */
  predicate Present(s: Option<string>) {
    s.Some? && s.value != ""
  }

  /** `field || fallback` for a string field. */
  function Or(s: Option<string>, fallback: string): string {
    if Present(s) then s.value else fallback
  }

  /** `field || null` for a string field. */
  function OrNull(s: Option<string>): Option<string> {
    if Present(s) then s else None
  }

  function TrimStart(s: string): (r: string)
    ensures |r| <= |s| && r == s[|s| - |r|..]
    ensures r == [] || !IsSpace(r[0])
    ensures AllSpace(s[..|s| - |r|])
  {
    if s != [] && IsSpace(s[0]) then TrimStart(s[1..]) else s
  }

  function TrimEnd(s: string): (r: string)
    ensures |r| <= |s| && r == s[..|r|]
    ensures r == [] || !IsSpace(r[|r| - 1])
    ensures AllSpace(s[|r|..])
  {
    if s != [] && IsSpace(s[|s| - 1]) then TrimEnd(s[..|s| - 1]) else s
  }

  predicate IsTrimmed(s: string) {
    s == [] || (!IsSpace(s[0]) && !IsSpace(s[|s| - 1]))
  }

  /** `s.trim()`. */
  function Trim(s: string): (r: string)
    ensures IsTrimmed(r)
    ensures r == [] <==> AllSpace(s)
    ensures IsTrimmed(s) ==> r == s
  {
    var u := TrimStart(s);
    assert u != [] ==> u[0] == s[|s| - |u|];
    TrimEnd(u)
  }

  /** Trimming removes exactly the white space around a trimmed core. */
  lemma {:induction false} TrimPadded(pre: string, core: string, post: string)
    requires AllSpace(pre) && AllSpace(post) && IsTrimmed(core)
    ensures Trim(pre + core + post) == core
  {
    if core == [] {
      assert pre + core + post == pre + post;
      assert AllSpace(pre + post) by {
        forall k | 0 <= k < |pre + post| ensures IsSpace((pre + post)[k]) {
          if k >= |pre| { assert (pre + post)[k] == post[k - |pre|]; }
        }
      }
    } else {
      assert pre + core + post == pre + (core + post);
      TrimStartPadded(pre, core + post);
      TrimEndPadded(core, post);
    }
  }

  lemma {:induction false} TrimStartPadded(pre: string, rest: string)
    requires AllSpace(pre) && (rest == [] || !IsSpace(rest[0]))
    ensures TrimStart(pre + rest) == rest
  {
    if pre != [] {
      assert (pre + rest)[1..] == pre[1..] + rest;
      TrimStartPadded(pre[1..], rest);
    } else {
      assert pre + rest == rest;
    }
  }

  lemma {:induction false} TrimEndPadded(core: string, post: string)
    requires AllSpace(post) && (core == [] || !IsSpace(core[|core| - 1]))
    ensures TrimEnd(core + post) == core
  {
    if post != [] {
      assert (core + post)[..|core + post| - 1] == core + post[..|post| - 1];
      TrimEndPadded(core, post[..|post| - 1]);
    } else {
      assert core + post == core;
    }
  }

  /** `p` occurs in `s` at position `i`. */
  predicate OccursAt(s: string, p: string, i: nat) {
    i + |p| <= |s| && s[i..i + |p|] == p
  }

  /** `s.indexOf(p, i)`: the first occurrence at or after `i`. */
  function IndexOfFrom(s: string, p: string, i: nat): (r: Option<nat>)
    requires i <= |s|
    decreases |s| - i
    ensures r.Some? ==> i <= r.value <= |s| && OccursAt(s, p, r.value)
    ensures r.Some? ==> forall j :: i <= j < r.value ==> !OccursAt(s, p, j)
    ensures r.None? ==> forall j :: i <= j <= |s| ==> !OccursAt(s, p, j)
  {
    if OccursAt(s, p, i) then Some(i)
    else if i == |s| then None
    else IndexOfFrom(s, p, i + 1)
  }

  /** `s.indexOf(p)`. */
  function IndexOf(s: string, p: string): Option<nat> {
    IndexOfFrom(s, p, 0)
  }

  /** `s.startsWith(prefix)`. */
  predicate StartsWith(s: string, prefix: string) {
    |prefix| <= |s| && s[..|prefix|] == prefix
  }

  /** `s.includes(p)`. */
  predicate Includes(s: string, p: string) {
    IndexOf(s, p).Some?
  }

  /**
   * `r` is the piece of `s` after the first occurrence of `sep`: `sep` occurs at `i` and
   * nowhere before, and `r` runs from the end of that occurrence up to the next occurrence
   * or the end of `s`.
   */
  predicate PieceAfterFirst(s: string, sep: string, r: string) {
    Includes(s, sep) &&
    var i := IndexOf(s, sep).value;
    && OccursAt(s, sep, i)
    && (forall k :: 0 <= k < i ==> !OccursAt(s, sep, k))
    && i + |sep| + |r| <= |s|
    && r == s[i + |sep|..i + |sep| + |r|]
    && (i + |sep| + |r| == |s| || OccursAt(s, sep, i + |sep| + |r|))
  }

  /** Read at a known first occurrence `i`, the piece starts right after it and runs to the next one or the end. */
  lemma PieceAt(s: string, sep: string, r: string, i: nat)
    requires PieceAfterFirst(s, sep, r)
    requires OccursAt(s, sep, i) && forall k :: 0 <= k < i ==> !OccursAt(s, sep, k)
    ensures i + |sep| + |r| <= |s| && r == s[i + |sep|..i + |sep| + |r|]
    ensures i + |sep| + |r| == |s| || OccursAt(s, sep, i + |sep| + |r|)
  {
    var j := IndexOf(s, sep).value;
    assert !(j < i) && !(i < j);
  }

  /**
   * Between two known occurrences `i` and `e`, with `i` the first, none in between and none
   * overlapping `e`, the piece after the first is exactly the text from `i` to `e`.
   */
  lemma PieceBetween(s: string, sep: string, r: string, i: nat, e: nat)
    requires PieceAfterFirst(s, sep, r) && !Includes(r, sep)
    requires i + |sep| <= e && OccursAt(s, sep, i) && OccursAt(s, sep, e)
    requires forall k :: 0 <= k < i ==> !OccursAt(s, sep, k)
    requires forall k :: i + |sep| <= k < e ==> !OccursAt(s, sep, k)
    requires forall k :: e < k < e + |sep| ==> !OccursAt(s, sep, k)
    ensures r == s[i + |sep|..e]
  {
    PieceAt(s, sep, r, i);
    var f := i + |sep| + |r|;
    if f >= e + |sep| {
      OccursInSlice(s, sep, i + |sep|, f, e);
    }
  }

  /**
   * `s.split(sep)[1]` for a string that includes `sep`: the text after the FIRST occurrence
   * of `sep`, up to the next occurrence or the end.
   */
  function SecondPiece(s: string, sep: string): (r: string)
    requires Includes(s, sep) && sep != []
    ensures exists i: nat :: i + |sep| + |r| <= |s| && OccursAt(s, sep, i) && r == s[i + |sep|..i + |sep| + |r|]
    ensures PieceAfterFirst(s, sep, r)
    ensures !Includes(r, sep)
  {
    var i := IndexOf(s, sep).value;
    var rest := s[i + |sep|..];
    match IndexOf(rest, sep)
    case Some(j) =>
      PieceBeforeNext(s, sep, i, j);
      rest[..j]
    case None =>
      IsPieceAfterFirst(s, sep, rest);
      rest
  }

  /** The text from the first occurrence up to the next one is the piece, and holds no separator. */
  lemma PieceBeforeNext(s: string, sep: string, i: nat, j: nat)
    requires Includes(s, sep) && sep != [] && i == IndexOf(s, sep).value
    requires i + |sep| <= |s| && IndexOf(s[i + |sep|..], sep) == Some(j)
    ensures var r := s[i + |sep|..][..j];
      && (exists i: nat :: i + |sep| + |r| <= |s| && OccursAt(s, sep, i) && r == s[i + |sep|..i + |sep| + |r|])
      && PieceAfterFirst(s, sep, r)
      && !Includes(r, sep)
  {
    var rest := s[i + |sep|..];
    assert !OccursAt(rest[..j], sep, 0) by { assert !OccursAt(rest, sep, 0) || j == 0; }
    NoOccurrenceInPrefix(rest, sep, j);
    assert s[i + |sep| + j..i + |sep| + j + |sep|] == rest[j..j + |sep|];
    IsPieceAfterFirst(s, sep, rest[..j]);
  }

  /** A piece read off at the first occurrence, ending at the next one or the end, is that piece. */
  lemma IsPieceAfterFirst(s: string, sep: string, r: string)
    requires Includes(s, sep)
    requires var i := IndexOf(s, sep).value;
      && i + |sep| + |r| <= |s| && r == s[i + |sep|..i + |sep| + |r|]
      && (i + |sep| + |r| == |s| || OccursAt(s, sep, i + |sep| + |r|))
    ensures exists i: nat :: i + |sep| + |r| <= |s| && OccursAt(s, sep, i) && r == s[i + |sep|..i + |sep| + |r|]
    ensures PieceAfterFirst(s, sep, r)
  {
    var i := IndexOf(s, sep).value;
    assert OccursAt(s, sep, i);
  }

  /** An occurrence inside a slice is an occurrence in the slice. */
  lemma OccursInSlice(s: string, sep: string, a: nat, b: nat, k: nat)
    requires a <= k && k + |sep| <= b <= |s| && OccursAt(s, sep, k)
    ensures Includes(s[a..b], sep)
  {
    var u := s[a..b];
    forall t | k - a <= t < k - a + |sep| ensures u[t] == sep[t - (k - a)] {
      assert u[t] == s[t + a] == s[k..k + |sep|][t + a - k];
    }
    assert u[k - a..k - a + |sep|] == sep;
    assert OccursAt(u, sep, k - a);
  }

  /** A prefix that ends before the first occurrence of `sep` does not contain it. */
  lemma NoOccurrenceInPrefix(s: string, sep: string, j: nat)
    requires j <= |s| && forall k :: 0 <= k < j ==> !OccursAt(s, sep, k)
    requires sep != []
    ensures !Includes(s[..j], sep)
  {
    forall k | 0 <= k <= j
      ensures !OccursAt(s[..j], sep, k)
    {
      if OccursAt(s[..j], sep, k) {
        assert s[..j][k..k + |sep|] == s[k..k + |sep|];
        assert OccursAt(s, sep, k);
      }
    }
  }

  /** `s.lastIndexOf(c)` for a single character. */
  function LastIndexOfChar(s: string, c: char): (r: Option<nat>)
    ensures r.Some? ==> r.value < |s| && s[r.value] == c && forall k :: r.value < k < |s| ==> s[k] != c
    ensures r.None? ==> c !in s
  {
    if s == [] then None
    else if s[|s| - 1] == c then Some(|s| - 1)
    else LastIndexOfChar(s[..|s| - 1], c)
  }

  /** `s.replace(/<from>/g, <to>)` for a single character. */
  function ReplaceChar(s: string, from: char, to: char): (r: string)
    ensures |r| == |s|
    ensures forall k :: 0 <= k < |s| ==> r[k] == if s[k] == from then to else s[k]
  {
    if s == [] then [] else [if s[0] == from then to else s[0]] + ReplaceChar(s[1..], from, to)
  }

  predicate IsDigit(c: char) {
    '0' as int <= c as int <= '9' as int
  }

  predicate IsAsciiLetter(c: char) {
    ('a' <= c <= 'z') || ('A' <= c <= 'Z')
  }

  /** `toLowerCase()` restricted to the characters that can reach it in the model (ASCII). */
  function ToLowerAscii(c: char): char {
    if 'A' <= c <= 'Z' then (c as int + 32) as char else c
  }

  function DigitChar(d: nat): (c: char)
    requires d < 10
    ensures IsDigit(c)
  {
    ('0' as int + d) as char
  }

  /** The value of a string of decimal digits. */
  function DecimalValue(s: string): nat
    requires forall k :: 0 <= k < |s| ==> IsDigit(s[k])
  {
    if s == [] then 0
    else
      var last := s[|s| - 1];
      assert IsDigit(last);
      DecimalValue(s[..|s| - 1]) * 10 + (last as int - '0' as int)
  }

  /** The decimal rendering of a whole number, as `${n}` produces it. */
  function NatToString(n: nat): (r: string)
    ensures r != [] && forall k :: 0 <= k < |r| ==> IsDigit(r[k])
    ensures r[0] == '0' ==> n == 0
  {
    if n < 10 then [DigitChar(n)] else NatToString(n / 10) + [DigitChar(n % 10)]
  }

  /** Reading the rendering back gives the number: the rendering loses nothing. */
  lemma {:induction false} NatToStringRoundTrip(n: nat)
    ensures DecimalValue(NatToString(n)) == n
  {
    var r := NatToString(n);
    if n >= 10 {
      NatToStringRoundTrip(n / 10);
      assert r[..|r| - 1] == NatToString(n / 10);
    }
  }
}
