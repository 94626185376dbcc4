/**
 * The PHP string primitives the filter is built from (strpos, strrpos,
 * substr, substr_count, ltrim/rtrim, dirname, explode/implode, str_repeat,
 * str_replace and the `[#?]` split), written as pure functions over
 * `string` with the facts the rest of the model relies on.
 */
module Strings {

  datatype Option<T> = None | Some(value: T)

  /** `t` is a suffix of `s`. */
  predicate EndsWith(s: string, t: string) {
    |t| <= |s| && s[|s| - |t|..] == t
  }

  /** A relative path on which the simplified `Dirname` below agrees with
      PHP's `dirname`: non-empty, no leading or trailing '/', no empty segment. */
  predicate SimplePath(p: string) {
    && |p| > 0
    && p[0] != '/'
    && p[|p| - 1] != '/'
    && forall i :: 0 < i < |p| ==> SingleSlashAt(p, i)
  }

  /** A '/' at `i` does not follow another '/'. */
  predicate SingleSlashAt(p: string, i: int) {
    0 < i < |p| && p[i] == '/' ==> p[i - 1] != '/'
  }

  /** No segment of `p` is "..": no "../" at the start or right after a '/'. */
  predicate NoParentSegment(p: string) {
    && !("../" <= p)
    && forall i :: 0 <= i < |p| ==> NoParentAfter(p, i)
  }

  /** The segment after a '/' at `i` is not "..". */
  predicate NoParentAfter(p: string, i: int) {
    0 <= i < |p| && p[i] == '/' ==> !("../" <= p[i + 1..])
  }

  /** A prefix of a text that does not start with `x` does not either. */
  lemma PrefixKeepsNotStarting(x: string, r: string, t: string)
    requires r <= t && !(x <= t)
    ensures !(x <= r)
  {
  }

  /** PHP `substr_count($s, $c)` for a one-character needle. */
  function Count(s: string, c: char): (n: nat)
    ensures n <= |s|
    ensures n == 0 <==> c !in s
  {
    if |s| == 0 then 0
    else (if s[0] == c then 1 else 0) + Count(s[1..], c)
  }

  lemma {:induction false} CountConcat(a: string, b: string, c: char)
    ensures Count(a + b, c) == Count(a, c) + Count(b, c)
  {
    if |a| == 0 {
      assert a + b == b;
    } else {
      assert (a + b)[1..] == a[1..] + b;
      CountConcat(a[1..], b, c);
    }
  }

  /** `x` does not occur in `s` at `j`. */
  predicate NotFoundAt(s: string, x: string, j: int) {
    0 <= j <= |s| ==> !(x <= s[j..])
  }

  /** PHP `strpos($s, $x)`: the first index at which `x` occurs in `s`. */
  function FirstIndex(s: string, x: string): (r: Option<nat>)
    ensures r.Some? ==> r.value + |x| <= |s| && x <= s[r.value..]
    ensures r.Some? ==> forall j :: 0 <= j < r.value ==> NotFoundAt(s, x, j)
    ensures r.None? ==> forall j :: 0 <= j <= |s| ==> NotFoundAt(s, x, j)
  {
    if x <= s then Some(0)
    else if |s| == 0 then
      assert NotFoundAt(s, x, 0) by {
        assert s[0..] == s;
      }
      None
    else
      var r := FirstIndex(s[1..], x);
      assert NotFoundAt(s, x, 0) by {
        assert s[0..] == s;
      }
      forall j | 1 <= j <= |s| && NotFoundAt(s[1..], x, j - 1)
        ensures NotFoundAt(s, x, j)
      {
        assert s[j..] == s[1..][j - 1..];
      }
      match r
      case None => None
      case Some(i) =>
        assert s[i + 1..] == s[1..][i..];
        Some(i + 1)
  }

  /** PHP `false !== strpos($s, $x)`. */
  function Contains(s: string, x: string): (b: bool)
    ensures b <==> exists j :: 0 <= j <= |s| && !NotFoundAt(s, x, j)
  {
    var r := FirstIndex(s, x);
    if r.Some? then
      assert !NotFoundAt(s, x, r.value);
      true
    else
      false
  }

  /** Appending text after a string keeps the first occurrence found in it. */
  lemma FirstIndexAppend(s: string, t: string, x: string)
    requires FirstIndex(s, x).Some?
    ensures FirstIndex(s + t, x) == FirstIndex(s, x)
  {
    var i := FirstIndex(s, x).value;
    var st := s + t;
    assert st[i..i + |x|] == s[i..i + |x|];
    assert x <= st[i..];
    forall j | 0 <= j < i
      ensures NotFoundAt(st, x, j)
    {
      assert st[j..j + |x|] == s[j..j + |x|];
      assert NotFoundAt(s, x, j);
    }
    FirstIndexIs(st, x, i);
  }

  /** The first occurrence is pinned down by its two defining facts. */
  lemma FirstIndexIs(s: string, x: string, i: nat)
    requires i + |x| <= |s| && x <= s[i..]
    requires forall j :: 0 <= j < i ==> NotFoundAt(s, x, j)
    ensures FirstIndex(s, x) == Some(i)
  {
    FoundAt(s, x, i);
    FoundNotBefore(s, x, i);
  }

  /** No occurrence before `i`: the first one is not before `i`. */
  lemma FoundNotBefore(s: string, x: string, i: nat)
    requires Contains(s, x)
    requires forall j :: 0 <= j < i ==> NotFoundAt(s, x, j)
    ensures FirstIndex(s, x).value >= i
  {
    var v := FirstIndex(s, x).value;
    assert !NotFoundAt(s, x, v);
  }

  /** A needle found at no position is not contained. */
  lemma NotFoundAnywhere(s: string, x: string)
    requires forall j :: 0 <= j <= |s| ==> NotFoundAt(s, x, j)
    ensures !Contains(s, x)
  {
    var r := FirstIndex(s, x);
    assert r.Some? ==> !NotFoundAt(s, x, r.value);
  }

  /** A needle found at some position is contained. */
  lemma FoundAt(s: string, x: string, i: nat)
    requires i <= |s| && x <= s[i..]
    ensures Contains(s, x) && FirstIndex(s, x).value <= i
  {
    assert !NotFoundAt(s, x, i);
  }

  /** PHP `explode($x, $s, 2)`: the text before and after the first `x`. */
  function SplitFirst(s: string, x: string): (r: Option<(string, string)>)
    ensures r.Some? <==> Contains(s, x)
    ensures r.Some? ==> r.value.0 + x + r.value.1 == s
    ensures r.Some? ==> forall j :: 0 <= j < |r.value.0| ==> NotFoundAt(s, x, j)
  {
    match FirstIndex(s, x)
    case None => None
    case Some(i) =>
      assert s[..i] + x + s[i + |x|..] == s by {
        assert s[i..i + |x|] == x;
        assert s == s[..i] + s[i..i + |x|] + s[i + |x|..];
      }
      Some((s[..i], s[i + |x|..]))
  }

  /** PHP `strrpos($s, $c)`: the index of the last occurrence of `c`. */
  function LastIndex(s: string, c: char): (r: Option<nat>)
    ensures r.None? <==> c !in s
    ensures r.Some? ==> r.value < |s| && s[r.value] == c
    ensures r.Some? ==> forall j :: r.value < j < |s| ==> CharNotAt(s, c, j)
  {
    if |s| == 0 then None
    else match LastIndex(s[1..], c)
      case Some(i) =>
        assert forall j :: i + 1 < j < |s| ==> CharNotAt(s, c, j) by {
          forall j | i + 1 < j < |s|
            ensures CharNotAt(s, c, j)
          {
            assert CharNotAt(s[1..], c, j - 1);
          }
        }
        Some(i + 1)
      case None =>
        assert forall j :: 0 < j < |s| ==> CharNotAt(s, c, j) by {
          forall j | 0 < j < |s|
            ensures CharNotAt(s, c, j)
          {
            assert s[j] == s[1..][j - 1];
          }
        }
        if s[0] == c then Some(0) else None
  }

  /** `s` has no `c` at `j`. */
  predicate CharNotAt(s: string, c: char, j: int) {
    0 <= j < |s| ==> s[j] != c
  }

  /** The last occurrence is pinned down by its two defining facts. */
  lemma LastIndexIs(s: string, c: char, v: nat)
    requires v < |s| && s[v] == c
    requires forall j :: v < j < |s| ==> s[j] != c
    ensures LastIndex(s, c) == Some(v)
  {
    assert c in s;
    var w := LastIndex(s, c).value;
    assert !CharNotAt(s, c, v);
  }

  /** PHP `dirname($p)` for a `SimplePath`: the text before the last '/',
      or "." when there is none. */
  function Dirname(p: string): (d: string) {
    match LastIndex(p, '/')
    case Some(i) => p[..i]
    case None => "."
  }

  /** `dirname` cuts at the last '/': what it keeps is followed by that
      '/' in the path, and no '/' comes after it; a path without '/' sits in
      ".". */
  lemma DirnameCuts(p: string)
    ensures '/' !in p ==> Dirname(p) == "."
    ensures '/' in p ==> Dirname(p) + "/" <= p && '/' !in p[|Dirname(p)| + 1..]
  {
    if '/' in p {
      var i := LastIndex(p, '/').value;
      var r := p[i + 1..];
      forall j | 0 <= j < |r|
        ensures r[j] != '/'
      {
        assert CharNotAt(p, '/', i + 1 + j);
      }
      assert p[..i] + "/" == p[..i + 1];
    }
  }

  /** The text after the last '/' (all of `p` when it has none). */
  function LastSegment(p: string): (r: string)
    ensures '/' !in r
    ensures EndsWith(p, r)
  {
    match LastIndex(p, '/')
    case Some(i) =>
      var r := p[i + 1..];
      assert '/' !in r by {
        forall j | 0 <= j < |r|
          ensures r[j] != '/'
        {
          assert CharNotAt(p, '/', i + 1 + j);
        }
      }
      r
    case None => p
  }

  /** The last '/' of `a/b` is the last one of `b`, or the one between. */
  lemma LastSlashAfterSlash(a: string, b: string)
    ensures LastIndex(a + "/" + b, '/') == match LastIndex(b, '/')
              case Some(l) => Some(|a| + 1 + l)
              case None => Some(|a|)
  {
    var s := a + "/" + b;
    var n := |a| + 1;
    var v := match LastIndex(b, '/') case Some(l) => n + l case None => n - 1;
    forall j | v < j < |s|
      ensures s[j] != '/'
    {
      assert s[j] == b[j - n];
      assert CharNotAt(b, '/', j - n);
    }
    LastIndexIs(s, '/', v);
  }

  /** The directory of `a/b`, for a file name `b`, is `a`. */
  lemma DirnameAfterSlash(a: string, b: string)
    requires '/' !in b
    ensures Dirname(a + "/" + b) == a
  {
    LastSlashAfterSlash(a, b);
    assert (a + "/" + b)[..|a|] == a;
  }

  /** The last segment after a '/' does not look before that '/'. */
  lemma LastSegmentAfterSlash(a: string, b: string)
    ensures LastSegment(a + "/" + b) == LastSegment(b)
  {
    var s := a + "/" + b;
    var n := |a| + 1;
    assert s[n..] == b;
    LastSlashAfterSlash(a, b);
    if '/' in b {
      var l := LastIndex(b, '/').value;
      assert s[n + l + 1..] == b[l + 1..];
    }
  }

  /** The text up to and including the last '/' ("" when there is none). */
  function DirPart(p: string): (r: string)
    ensures r <= p
    ensures r == "" || r[|r| - 1] == '/'
  {
    match LastIndex(p, '/')
    case Some(i) => p[..i + 1]
    case None => ""
  }

  /** The directory part after a '/' keeps everything before that '/'. */
  lemma DirPartAfterSlash(a: string, b: string)
    ensures DirPart(a + "/" + b) == a + "/" + DirPart(b)
  {
    var s := a + "/" + b;
    var n := |a| + 1;
    LastSlashAfterSlash(a, b);
    if '/' in b {
      var l := LastIndex(b, '/').value;
      assert s[..n + l + 1] == a + "/" + b[..l + 1];
    } else {
      assert s[..n] == a + "/" + "";
    }
  }

  /** Text after a directory (empty or ending in '/') keeps its last segment. */
  lemma LastSegmentAfterDir(d: string, b: string)
    requires d == "" || d[|d| - 1] == '/'
    ensures LastSegment(d + b) == LastSegment(b)
  {
    if d == "" {
      assert d + b == b;
    } else {
      var a := d[..|d| - 1];
      assert d + b == a + "/" + b;
      LastSegmentAfterSlash(a, b);
    }
  }

  /** Text after a directory (empty or ending in '/') extends its directory part. */
  lemma DirPartAfterDir(d: string, b: string)
    requires d == "" || d[|d| - 1] == '/'
    ensures DirPart(d + b) == d + DirPart(b)
  {
    if d == "" {
      assert d + b == b;
    } else {
      var a := d[..|d| - 1];
      assert d + b == a + "/" + b;
      assert a + "/" == d;
      DirPartAfterSlash(a, b);
    }
  }

  /** A directory followed by a '/'-free name splits back into the two. */
  lemma DirThenName(d: string, f: string)
    requires d == "" || d[|d| - 1] == '/'
    requires '/' !in f
    ensures DirPart(d + f) == d
    ensures LastSegment(d + f) == f
    ensures Count(d + f, '/') == Count(d, '/')
  {
    LastSegmentAfterDir(d, f);
    DirPartAfterDir(d, f);
    assert DirPart(f) == "" && LastSegment(f) == f;
    assert d + "" == d;
    CountConcat(d, f, '/');
  }

  /** The directory part holds every '/' of the path. */
  lemma DirPartCount(p: string)
    ensures Count(DirPart(p), '/') == Count(p, '/')
  {
    DirPartThenLastSegment(p);
    CountConcat(DirPart(p), LastSegment(p), '/');
  }

  /** A path is its directory part followed by its last segment. */
  lemma DirPartThenLastSegment(p: string)
    ensures DirPart(p) + LastSegment(p) == p
  {
    match LastIndex(p, '/')
    case Some(i) =>
      assert p == p[..i + 1] + p[i + 1..];
    case None =>
  }

  /** Dirname and LastSegment split a path with a '/' at its last '/'. */
  lemma DirnameJoinsLastSegment(p: string)
    requires '/' in p
    ensures Dirname(p) + "/" + LastSegment(p) == p
    ensures DirPart(p) == Dirname(p) + "/"
  {
    var i := LastIndex(p, '/').value;
    assert p[..i + 1] == p[..i] + "/";
  }

  /** The directory of a simple path with a '/' is a simple path. */
  lemma SimpleDirname(p: string)
    requires SimplePath(p) && '/' in p
    ensures SimplePath(Dirname(p))
  {
    var i := LastIndex(p, '/').value;
    assert i > 0 && p[i - 1] != '/' by {
      assert SingleSlashAt(p, i);
    }
    var d := p[..i];
    forall j | 0 < j < |d|
      ensures SingleSlashAt(d, j)
    {
      assert SingleSlashAt(p, j);
    }
  }

  /** The last '/' of a string with a leading character is found in its tail. */
  lemma DirPartCons(c: char, t: string)
    requires '/' in t
    ensures DirPart([c] + t) == [c] + DirPart(t)
  {
    var s := [c] + t;
    assert s[1..] == t;
    var i := LastIndex(t, '/').value;
    assert LastIndex(s, '/') == Some(i + 1);
    assert s[..i + 2] == [c] + t[..i + 1];
  }

  /** PHP `explode('/', $s)`: the '/'-separated fields of `s`. */
  function Split(s: string): (parts: seq<string>)
    ensures |parts| >= 1
    ensures forall k :: 0 <= k < |parts| ==> '/' !in parts[k]
  {
    if |s| == 0 then [""]
    else if s[0] == '/' then [""] + Split(s[1..])
    else
      var t := Split(s[1..]);
      [[s[0]] + t[0]] + t[1..]
  }

  /** All fields but the last (`array_pop`). */
  function DropLast(parts: seq<string>): (init: seq<string>)
    requires |parts| >= 1
  {
    parts[..|parts| - 1]
  }

  /** PHP `implode('/', $parts)`. */
  function Join(parts: seq<string>): (s: string)
    requires |parts| >= 1
  {
    if |parts| == 1 then parts[0] else parts[0] + "/" + Join(parts[1..])
  }

  /** `implode` puts one '/' at every field boundary: the join of all the
      fields is the join of the first `k`, a '/', and the join of the rest. */
  lemma {:induction false} JoinAt(parts: seq<string>, k: nat)
    requires 0 < k < |parts|
    ensures Join(parts) == Join(parts[..k]) + "/" + Join(parts[k..])
    decreases k
  {
    if k == 1 {
      assert parts[..1] == [parts[0]];
      assert parts[1..] == parts[k..];
    } else {
      var tail := parts[1..];
      JoinAt(tail, k - 1);
      assert tail[k - 1..] == parts[k..];
      assert parts[..k][1..] == tail[..k - 1];
      assert parts[..k][0] == parts[0];
    }
  }

  /** `implode` starts with the first field, ends with the last, and puts a
      '/' between each two fields. */
  lemma {:induction false} JoinEnds(parts: seq<string>)
    requires |parts| >= 1
    ensures parts[0] <= Join(parts)
    ensures EndsWith(Join(parts), parts[|parts| - 1])
    ensures Count(Join(parts), '/') >= |parts| - 1
    ensures forall k :: 0 < k < |parts| ==>
              Join(parts) == Join(parts[..k]) + "/" + Join(parts[k..])
  {
    JoinBounds(parts);
    forall k | 0 < k < |parts|
      ensures Join(parts) == Join(parts[..k]) + "/" + Join(parts[k..])
    {
      JoinAt(parts, k);
    }
  }

  /** The first and last field, and the '/' lower bound, of `implode`. */
  lemma {:induction false} JoinBounds(parts: seq<string>)
    requires |parts| >= 1
    ensures parts[0] <= Join(parts)
    ensures EndsWith(Join(parts), parts[|parts| - 1])
    ensures Count(Join(parts), '/') >= |parts| - 1
  {
    if |parts| > 1 {
      var r := Join(parts[1..]);
      JoinBounds(parts[1..]);
      CountConcat(parts[0], "/", '/');
      CountConcat(parts[0] + "/", r, '/');
    }
  }

  /** Joining the fields of a path gives the path back. */
  lemma {:induction false} JoinSplit(s: string)
    ensures Join(Split(s)) == s
  {
    if |s| == 0 {
    } else if s[0] == '/' {
      JoinSplit(s[1..]);
      assert Split(s)[1..] == Split(s[1..]);
    } else {
      JoinSplit(s[1..]);
      var t := Split(s[1..]);
      if |t| == 1 {
        assert t[0] == s[1..];
        assert [s[0]] + s[1..] == s;
      } else {
        assert Split(s)[1..] == t[1..];
        assert Join(t) == t[0] + "/" + Join(t[1..]);
      }
    }
  }

  /** Splitting a join of slash-free fields gives the fields back. */
  lemma {:induction false} SplitJoin(parts: seq<string>)
    requires |parts| >= 1
    requires forall k :: 0 <= k < |parts| ==> '/' !in parts[k]
    ensures Split(Join(parts)) == parts
  {
    if |parts| == 1 {
      SplitSlashFree(parts[0]);
    } else {
      SplitJoin(parts[1..]);
      SplitPrefix(parts[0], Join(parts[1..]));
      assert [parts[0]] + parts[1..] == parts;
    }
  }

  lemma {:induction false} SplitSlashFree(w: string)
    requires '/' !in w
    ensures Split(w) == [w]
  {
    if |w| > 0 {
      SplitSlashFree(w[1..]);
      assert [w[0]] + w[1..] == w;
    }
  }

  lemma {:induction false} SplitPrefix(w: string, rest: string)
    requires '/' !in w
    ensures Split(w + "/" + rest) == [w] + Split(rest)
  {
    var s := w + "/" + rest;
    if |w| == 0 {
      assert s[1..] == rest;
    } else {
      assert s[1..] == w[1..] + "/" + rest;
      SplitPrefix(w[1..], rest);
      assert [w[0]] + w[1..] == w;
    }
  }

  /** Lines 124-127 and 130-133: explode on '/', pop the last field, push
      `f`, implode. The result is the path with its last segment replaced. */
  lemma {:induction false} ReplaceLastField(s: string, f: string)
    ensures Join(DropLast(Split(s)) + [f]) == DirPart(s) + f
  {
    if |s| == 0 {
      assert DropLast(Split(s)) + [f] == [f];
    } else if s[0] == '/' {
      ReplaceLastField(s[1..], f);
      ReplaceLastFieldSlash(s, f);
    } else {
      ReplaceLastField(s[1..], f);
      ReplaceLastFieldChar(s, f);
    }
  }

  lemma ReplaceLastFieldSlash(s: string, f: string)
    requires |s| > 0 && s[0] == '/'
    requires Join(DropLast(Split(s[1..])) + [f]) == DirPart(s[1..]) + f
    ensures Join(DropLast(Split(s)) + [f]) == DirPart(s) + f
  {
    var t := Split(s[1..]);
    ReplaceAfterSlash(s, f);
    DirPartSlashHead(s);
    ConsConcat('/', DirPart(s[1..]), f, Join(DropLast(Split(s)) + [f]),
               Join(DropLast(t) + [f]), DirPart(s));
  }

  /** A leading '/' is an empty first field, kept in front of the join. */
  lemma ReplaceAfterSlash(s: string, f: string)
    requires |s| > 0 && s[0] == '/'
    ensures Join(DropLast(Split(s)) + [f]) == "/" + Join(DropLast(Split(s[1..])) + [f])
  {
    var t := Split(s[1..]);
    assert Split(s) == [""] + t;
    DropLastCons("", t);
    assert DropLast(Split(s)) + [f] == [""] + (DropLast(t) + [f]);
    JoinCons("", DropLast(t) + [f]);
  }

  lemma ReplaceLastFieldChar(s: string, f: string)
    requires |s| > 0 && s[0] != '/'
    requires Join(DropLast(Split(s[1..])) + [f]) == DirPart(s[1..]) + f
    ensures Join(DropLast(Split(s)) + [f]) == DirPart(s) + f
  {
    var t := Split(s[1..]);
    assert Split(s) == [[s[0]] + t[0]] + t[1..];
    SplitCount(s[1..]);
    if |t| == 1 {
      ReplaceOnlyField(s, f);
    } else {
      ReplaceAfterChar(s, f);
    }
  }

  /** A path with no '/' is one field, replaced whole. */
  lemma ReplaceOnlyField(s: string, f: string)
    requires |s| > 0 && s[0] != '/' && |Split(s[1..])| == 1
    requires '/' !in s[1..]
    ensures Join(DropLast(Split(s)) + [f]) == DirPart(s) + f
  {
    var t := Split(s[1..]);
    assert Split(s) == [[s[0]] + t[0]];
    assert DirPart(s) == "" by {
      assert s == [s[0]] + s[1..];
      assert '/' !in s;
    }
    assert DropLast(Split(s)) + [f] == [f];
  }

  /** A first character that is not '/' stays at the head of the first
      field, in front of the join. */
  lemma ReplaceAfterChar(s: string, f: string)
    requires |s| > 0 && s[0] != '/' && |Split(s[1..])| > 1
    requires '/' in s[1..]
    requires Join(DropLast(Split(s[1..])) + [f]) == DirPart(s[1..]) + f
    ensures Join(DropLast(Split(s)) + [f]) == DirPart(s) + f
  {
    var t := Split(s[1..]);
    assert DirPart(s) == [s[0]] + DirPart(s[1..]) by {
      DirPartCons(s[0], s[1..]);
      assert s == [s[0]] + s[1..];
    }
    assert Join(DropLast(Split(s)) + [f]) == [s[0]] + Join(DropLast(t) + [f]) by {
      assert Split(s) == [[s[0]] + t[0]] + t[1..];
      assert t == [t[0]] + t[1..];
      JoinHeadChar(s[0], t[0], t[1..], f);
    }
    ConsConcat(s[0], DirPart(s[1..]), f, Join(DropLast(Split(s)) + [f]),
               Join(DropLast(t) + [f]), DirPart(s));
  }

  /** Concatenation algebra kept apart from the recursive functions. */
  lemma ConsConcat(c: char, d: string, f: string, x: string, y: string, z: string)
    requires y == d + f
    requires z == [c] + d
    requires x == [c] + y
    ensures x == z + f
  {
  }

  /** Prefixing a character to the first field prefixes it to the join. */
  lemma JoinHeadChar(c: char, w: string, rest: seq<string>, f: string)
    requires |rest| >= 1
    ensures Join(DropLast([[c] + w] + rest) + [f]) == [c] + Join(DropLast([w] + rest) + [f])
  {
    DropLastCons([c] + w, rest);
    DropLastCons(w, rest);
    var v := DropLast(rest) + [f];
    assert DropLast([[c] + w] + rest) + [f] == [[c] + w] + v;
    assert DropLast([w] + rest) + [f] == [w] + v;
    JoinCons(w, v);
    JoinCons([c] + w, v);
  }

  lemma DropLastCons(w: string, t: seq<string>)
    requires |t| >= 1
    ensures DropLast([w] + t) == [w] + DropLast(t)
  {
    assert ([w] + t)[..|t|] == [w] + t[..|t| - 1];
  }

  lemma JoinCons(w: string, u: seq<string>)
    requires |u| >= 1
    ensures Join([w] + u) == w + "/" + Join(u)
  {
    assert ([w] + u)[1..] == u;
  }

  lemma DirPartSlashHead(s: string)
    requires |s| > 0 && s[0] == '/'
    ensures DirPart(s) == "/" + DirPart(s[1..])
  {
    assert s == [s[0]] + s[1..];
    if '/' in s[1..] {
      DirPartCons(s[0], s[1..]);
    } else {
      assert LastIndex(s, '/') == Some(0);
    }
  }

  lemma {:induction false} SplitCount(s: string)
    ensures |Split(s)| == Count(s, '/') + 1
  {
    if |s| > 0 {
      SplitCount(s[1..]);
    }
  }

  /** The last field of `explode('/', $s)` is the last segment of `s`. */
  lemma LastFieldIsLastSegment(s: string)
    ensures Split(s)[|Split(s)| - 1] == LastSegment(s)
  {
    var parts := Split(s);
    var n := |parts|;
    assert DropLast(parts) + [parts[n - 1]] == parts;
    JoinSplit(s);
    ReplaceLastField(s, parts[n - 1]);
    DirPartThenLastSegment(s);
    assert DirPart(s) + parts[n - 1] == DirPart(s) + LastSegment(s);
  }

  /** PHP `str_repeat($s, $n)`. */
  function Repeat(s: string, n: nat): (r: string)
    ensures |r| == n * |s|
  {
    if n == 0 then "" else s + Repeat(s, n - 1)
  }

  /** A run of "../" ends in '/'. */
  lemma {:induction false} RepeatEndsInSlash(n: nat)
    ensures var r := Repeat("../", n);
            r == "" || r[|r| - 1] == '/'
  {
    if n > 0 {
      RepeatEndsInSlash(n - 1);
    }
  }

  /** PHP `ltrim($s, $c)`. */
  function LeftTrim(s: string, c: char): (r: string)
    ensures EndsWith(s, r)
    ensures r == "" || r[0] != c
    ensures forall j :: 0 <= j < |s| - |r| ==> s[j] == c
  {
    if |s| > 0 && s[0] == c then LeftTrim(s[1..], c) else s
  }

  /** PHP `rtrim($s, $c)`. */
  function RightTrim(s: string, c: char): (r: string)
    ensures r <= s
    ensures r == "" || r[|r| - 1] != c
    ensures forall j :: |r| <= j < |s| ==> s[j] == c
  {
    if |s| > 0 && s[|s| - 1] == c then RightTrim(s[..|s| - 1], c) else s
  }

  /** PHP `substr($s, $start)`: empty when `start` is past the end. */
  function Substr(s: string, start: nat): (r: string)
    ensures EndsWith(s, r)
    ensures start <= |s| ==> |r| == |s| - start
    ensures start > |s| ==> r == ""
  {
    if start <= |s| then s[start..] else ""
  }

  /** PHP `reset(preg_split("/[#?]/", $s))`: the text before the first '#'
      or '?'. */
  function BeforeQuery(s: string): (r: string)
    ensures r <= s
    ensures '#' !in r && '?' !in r
    ensures |r| < |s| ==> s[|r|] == '#' || s[|r|] == '?'
    ensures '#' !in s && '?' !in s ==> r == s
  {
    if |s| == 0 || s[0] == '#' || s[0] == '?' then ""
    else [s[0]] + BeforeQuery(s[1..])
  }

  /** Stripping the query and fragment a second time changes nothing. */
  lemma {:induction false} BeforeQueryIdempotent(s: string)
    ensures BeforeQuery(BeforeQuery(s)) == BeforeQuery(s)
  {
    if |s| > 0 && s[0] != '#' && s[0] != '?' {
      BeforeQueryIdempotent(s[1..]);
      var r := BeforeQuery(s);
      assert r == [s[0]] + BeforeQuery(s[1..]);
      assert r[1..] == BeforeQuery(s[1..]);
    }
  }

  /** PHP `str_replace($x, $y, $s)`: every non-overlapping occurrence of
      `x`, scanning left to right, becomes `y`; an empty `x` changes nothing. */
  function ReplaceAll(s: string, x: string, y: string): (r: string)
    ensures !Contains(s, x) ==> r == s
    ensures x == y ==> r == s
  {
    if |x| == 0 || |s| == 0 then s
    else if x <= s then
      assert s == x + s[|x|..];
      y + ReplaceAll(s[|x|..], x, y)
    else
      ContainsInTail(s, x);
      [s[0]] + ReplaceAll(s[1..], x, y)
  }

  /** An occurrence in the tail is an occurrence in the whole. */
  lemma ContainsInTail(s: string, x: string)
    requires |s| > 0
    ensures Contains(s[1..], x) ==> Contains(s, x)
    ensures s == [s[0]] + s[1..]
  {
    if Contains(s[1..], x) {
      var i := FirstIndex(s[1..], x).value;
      assert s[1..][i..] == s[i + 1..];
      FoundAt(s, x, i + 1);
    }
  }

  lemma ReplaceAllStep(s: string, x: string, y: string)
    requires |x| > 0 && |s| > 0 && !(x <= s)
    ensures ReplaceAll(s, x, y) == [s[0]] + ReplaceAll(s[1..], x, y)
  {
  }

  /** `str_replace` at work: the text before the first occurrence of `x` is
      kept, that occurrence becomes `y`, and the scan goes on after it, so
      every later non-overlapping occurrence is replaced too. */
  lemma ReplaceAtFirst(s: string, x: string, y: string, i: nat)
    requires |x| > 0 && FirstIndex(s, x) == Some(i)
    ensures ReplaceAll(s, x, y) == s[..i] + y + ReplaceAll(s[i + |x|..], x, y)
  {
    var pre, post := s[..i], s[i + |x|..];
    CutAround(s, x, i);
    ReplaceAtFirstSlot(pre, x, post, y);
  }

  /** A text is what comes before an occurrence, the occurrence, and what
      comes after it. */
  lemma CutAround(s: string, x: string, i: nat)
    requires i + |x| <= |s| && x <= s[i..]
    ensures s == s[..i] + x + s[i + |x|..]
  {
    assert s[i..i + |x|] == x;
    assert s == s[..i] + s[i..i + |x|] + s[i + |x|..];
  }

  /** The same step, with the text cut around the first occurrence. */
  lemma {:induction false} ReplaceAtFirstSlot(pre: string, x: string, post: string, y: string)
    requires |x| > 0 && FirstIndex(pre + x + post, x) == Some(|pre|)
    ensures ReplaceAll(pre + x + post, x, y) == pre + y + ReplaceAll(post, x, y)
    decreases |pre|
  {
    var s := pre + x + post;
    if |pre| == 0 {
      assert s == x + post;
      assert s[|x|..] == post;
    } else {
      assert s[1..] == pre[1..] + x + post;
      FirstIndexTail(s, x, |pre|);
      ReplaceAllStep(s, x, y);
      ReplaceAtFirstSlot(pre[1..], x, post, y);
      ConsBack(pre, y, ReplaceAll(post, x, y), ReplaceAll(s, x, y),
               ReplaceAll(pre[1..] + x + post, x, y));
    }
  }

  /** The first occurrence of `x` in `pre + x + post` is the slot after
      `pre`, and `post` holds no further occurrence. */
  predicate OnlySlot(pre: string, x: string, post: string) {
    FirstIndex(pre + x + post, x) == Some(|pre|) && !Contains(post, x)
  }

  /** When `x` occurs only in its slot, `str_replace` rewrites just that slot. */
  lemma {:induction false} ReplaceInSlot(pre: string, x: string, post: string, y: string)
    requires |x| > 0
    requires OnlySlot(pre, x, post)
    ensures ReplaceAll(pre + x + post, x, y) == pre + y + post
    decreases |pre|, 1
  {
    if |pre| == 0 {
      ReplaceAtStartSlot(pre, x, post, y);
    } else {
      ReplaceInSlotStep(pre, x, post, y);
    }
  }

  /** The first character of `pre` is copied and the rest of the text is
      rewritten the same way. */
  lemma {:induction false} ReplaceInSlotStep(pre: string, x: string, post: string, y: string)
    requires |x| > 0 && |pre| > 0
    requires OnlySlot(pre, x, post)
    ensures ReplaceAll(pre + x + post, x, y) == pre + y + post
    decreases |pre|, 0
  {
    var s := pre + x + post;
    SlotTail(pre, x, post);
    ReplaceAllStep(s, x, y);
    ReplaceInSlot(pre[1..], x, post, y);
    ConsBack(pre, y, post, ReplaceAll(s, x, y), ReplaceAll(pre[1..] + x + post, x, y));
  }

  /** Dropping the first character of `pre` keeps the slot the only one. */
  lemma SlotTail(pre: string, x: string, post: string)
    requires |pre| > 0 && OnlySlot(pre, x, post)
    ensures var s := pre + x + post;
            && s[0] == pre[0] && s[1..] == pre[1..] + x + post
            && !(x <= s) && OnlySlot(pre[1..], x, post)
  {
    var s := pre + x + post;
    assert s[1..] == pre[1..] + x + post;
    FirstIndexTail(s, x, |pre|);
  }


  /** An occurrence found past the start is found one place earlier in the
      tail, and the text does not start with the needle. */
  lemma FirstIndexTail(s: string, x: string, i: nat)
    requires FirstIndex(s, x) == Some(i) && i > 0
    ensures !(x <= s)
    ensures FirstIndex(s[1..], x) == Some(i - 1)
  {
    assert s[1..][i - 1..] == s[i..];
    assert NotFoundAt(s, x, 0) && s[0..] == s;
    forall j | 0 <= j < i - 1
      ensures NotFoundAt(s[1..], x, j)
    {
      assert s[1..][j..] == s[j + 1..];
      assert NotFoundAt(s, x, j + 1);
    }
    FirstIndexIs(s[1..], x, i - 1);
  }

  /** An empty `pre`: the slot is at the start. */
  lemma ReplaceAtStartSlot(pre: string, x: string, post: string, y: string)
    requires |x| > 0 && |pre| == 0 && !Contains(post, x)
    ensures ReplaceAll(pre + x + post, x, y) == pre + y + post
  {
    assert pre + x + post == x + post;
    assert pre + y + post == y + post;
    ReplaceAtStart(x, post, y);
  }

  /** The needle at the start and nowhere after it is replaced once. */
  lemma ReplaceAtStart(x: string, post: string, y: string)
    requires |x| > 0 && !Contains(post, x)
    ensures ReplaceAll(x + post, x, y) == y + post
  {
    assert (x + post)[|x|..] == post;
  }

  /** Concatenation algebra kept apart from the recursive functions. */
  lemma ConsBack(pre: string, y: string, post: string, a: string, b: string)
    requires |pre| > 0
    requires a == [pre[0]] + b
    requires b == pre[1..] + y + post
    ensures a == pre + y + post
  {
    assert pre == [pre[0]] + pre[1..];
  }

  /** A token text without '/' around a URL that starts with '/' leaves the
      URL in its slot only. */
  lemma SlashFreeFrame(pre: string, x: string, post: string)
    requires |x| > 0 && x[0] == '/'
    requires '/' !in pre && '/' !in post
    ensures OnlySlot(pre, x, post)
  {
    var s := pre + x + post;
    assert x <= s[|pre|..];
    forall i | 0 <= i < |pre|
      ensures NotFoundAt(s, x, i)
    {
      assert s[i] == pre[i];
      assert s[i..][0] != x[0];
    }
    FirstIndexIs(s, x, |pre|);
    forall j | 0 <= j <= |post|
      ensures NotFoundAt(post, x, j)
    {
      assert j < |post| ==> post[j..][0] != x[0];
    }
    NotFoundAnywhere(post, x);
  }
}
