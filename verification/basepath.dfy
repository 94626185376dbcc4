/**
 * The base-path translator at the top of `filterDump`
 * (Filter/CssDumpFilter.php, lines 58-89): from the stylesheet's source
 * root, source path and target path it learns the host to put in front of
 * root-relative references and the relative prefix that leads from the
 * target's directory back to the source's directory.
 *
 * Nothing downstream reads the prefix: the reference callback captures only
 * the source directory and the host. The prefix is modelled here on its own.
 */
module BasePath {
  import opened Strings

  /** What the translator learns: the host and the relative prefix. */
  datatype Context = Context(host: string, prefix: string)

  /** Line 59: the source root is a URL when it contains "://". */
  predicate UrlRooted(sourceBase: string) {
    Contains(sourceBase, "://")
  }

  /** Lines 60-61: `sourceBase/sourcePath` split at its first "://" into the
      scheme and the rest, and the rest split at its first '/' into the
      authority and the path below it. */
  datatype UrlParts = UrlParts(scheme: string, authority: string, path: string)

  function SplitUrl(sourceBase: string, sourcePath: string): (u: UrlParts)
    requires UrlRooted(sourceBase)
    ensures u.scheme + "://" + u.authority + "/" + u.path == sourceBase + "/" + sourcePath
    ensures FirstIndex(sourceBase, "://") == Some(|u.scheme|)
    ensures '/' !in u.authority
    ensures LastSegment(u.path) == LastSegment(sourcePath)
  {
    var i := FirstIndex(sourceBase, "://").value;
    SchemeSplit(sourceBase, sourcePath, i);
    var (scheme, rest) := SplitFirst(sourceBase + "/" + sourcePath, "://").value;
    SlashFound(sourceBase[i + 3..], sourcePath);
    var (authority, path) := SplitFirst(rest, "/").value;
    SplitUrlParts(sourceBase, sourcePath, i, rest, |authority|);
    UrlParts(scheme, authority, path)
  }

  /** Line 60: the first "://" of `sourceBase/sourcePath` is the one in
      `sourceBase`. */
  lemma SchemeSplit(sourceBase: string, sourcePath: string, i: nat)
    requires FirstIndex(sourceBase, "://") == Some(i)
    ensures SplitFirst(sourceBase + "/" + sourcePath, "://")
            == Some((sourceBase[..i], sourceBase[i + 3..] + "/" + sourcePath))
  {
    var full := sourceBase + "/" + sourcePath;
    SchemeFirst(sourceBase, sourcePath, i);
    assert full[..i] == sourceBase[..i];
    assert full[i + 3..] == sourceBase[i + 3..] + "/" + sourcePath;
  }

  lemma SchemeFirst(sourceBase: string, sourcePath: string, i: nat)
    requires FirstIndex(sourceBase, "://") == Some(i)
    ensures FirstIndex(sourceBase + "/" + sourcePath, "://") == Some(i)
  {
    assert sourceBase + "/" + sourcePath == sourceBase + ("/" + sourcePath);
    FirstIndexAppend(sourceBase, "/" + sourcePath, "://");
  }

  lemma SplitUrlParts(sourceBase: string, sourcePath: string, i: nat, rest: string, k: nat)
    requires FirstIndex(sourceBase, "://") == Some(i)
    requires rest == sourceBase[i + 3..] + "/" + sourcePath
    requires FirstIndex(rest, "/") == Some(k)
    ensures sourceBase[..i] + "://" + rest[..k] + "/" + rest[k + 1..] == sourceBase + "/" + sourcePath
    ensures '/' !in rest[..k]
    ensures LastSegment(rest[k + 1..]) == LastSegment(sourcePath)
  {
    SplitUrlJoin(sourceBase, sourcePath, i, rest, k);
    SplitUrlAuthority(rest, k);
    SplitUrlLast(sourceBase[i + 3..], sourcePath, rest, k);
  }

  lemma SplitUrlJoin(sourceBase: string, sourcePath: string, i: nat, rest: string, k: nat)
    requires i + 3 <= |sourceBase| && sourceBase[i..i + 3] == "://"
    requires rest == sourceBase[i + 3..] + "/" + sourcePath
    requires k < |rest| && rest[k] == '/'
    ensures sourceBase[..i] + "://" + rest[..k] + "/" + rest[k + 1..] == sourceBase + "/" + sourcePath
  {
    var pre, mid := sourceBase[..i], sourceBase[i + 3..];
    var a, b := rest[..k], rest[k + 1..];
    assert a + "/" + b == rest by {
      assert rest == rest[..k] + rest[k..k + 1] + rest[k + 1..];
    }
    assert sourceBase == pre + "://" + mid by {
      assert sourceBase == sourceBase[..i] + sourceBase[i..i + 3] + sourceBase[i + 3..];
    }
    assert pre + "://" + (a + "/" + b) == (pre + "://") + (mid + "/" + sourcePath);
  }

  lemma SplitUrlAuthority(rest: string, k: nat)
    requires FirstIndex(rest, "/") == Some(k)
    ensures '/' !in rest[..k]
  {
    forall j | 0 <= j < k
      ensures rest[..k][j] != '/'
    {
      assert NotFoundAt(rest, "/", j);
      assert rest[j..][0] == rest[j];
    }
  }

  lemma SplitUrlLast(mid: string, sourcePath: string, rest: string, k: nat)
    requires rest == mid + "/" + sourcePath
    requires FirstIndex(rest, "/") == Some(k)
    ensures LastSegment(rest[k + 1..]) == LastSegment(sourcePath)
  {
    var m := |mid|;
    assert k <= m by {
      assert !NotFoundAt(rest, "/", m);
    }
    if k < m {
      assert rest[k + 1..] == mid[k + 1..] + "/" + sourcePath;
      LastSegmentAfterSlash(mid[k + 1..], sourcePath);
    } else {
      assert rest[k + 1..] == sourcePath;
    }
  }

  /** Text followed by "/" and more text contains a '/'. */
  lemma SlashFound(a: string, b: string)
    ensures Contains(a + "/" + b, "/")
  {
    var s := a + "/" + b;
    FoundAt(s, "/", |a|);
  }

  /** Line 63: the host of a URL-rooted source. */
  function HostOf(sourceBase: string, sourcePath: string): (host: string)
    ensures host == "" <==> !UrlRooted(sourceBase)
    ensures host == "" || host[|host| - 1] == '/'
  {
    if UrlRooted(sourceBase) then
      var u := SplitUrl(sourceBase, sourcePath);
      u.scheme + "://" + u.authority + "/"
    else ""
  }

  /** The host is where the source's own URL starts: it runs up to and
      including the first '/' after the scheme's "://", and the path below
      it is the rest of that URL. */
  lemma HostStartsUrl(sourceBase: string, sourcePath: string)
    requires UrlRooted(sourceBase)
    ensures var host := HostOf(sourceBase, sourcePath);
            var u := SplitUrl(sourceBase, sourcePath);
            && host + u.path == sourceBase + "/" + sourcePath
            && Count(host, '/') == Count(u.scheme, '/') + 3
  {
    var u := SplitUrl(sourceBase, sourcePath);
    var host := HostOf(sourceBase, sourcePath);
    assert host + u.path == sourceBase + "/" + sourcePath;
    assert Count(host, '/') == Count(u.scheme, '/') + 3 by {
      CountConcat(u.scheme + "://" + u.authority, "/", '/');
      CountConcat(u.scheme + "://", u.authority, '/');
      CountConcat(u.scheme, "://", '/');
      assert Count(u.authority, '/') == 0;
    }
  }

  /** Lines 64-65: the prefix of a URL-rooted source, the directory of the
      path below the host with a trailing '/' ("/" alone when that path has
      no directory). */
  function UrlPrefix(sourceBase: string, sourcePath: string): (prefix: string)
    requires UrlRooted(sourceBase)
    ensures |prefix| > 0 && prefix[|prefix| - 1] == '/'
  {
    var path := SplitUrl(sourceBase, sourcePath).path;
    (if '/' !in path then "" else Dirname(path)) + "/"
  }

  /** Host, prefix and the file's name put back together give the source's
      own URL when the path below the host has a directory. */
  lemma UrlPrefixLocatesSource(sourceBase: string, sourcePath: string)
    requires UrlRooted(sourceBase)
    ensures var u := SplitUrl(sourceBase, sourcePath);
            '/' in u.path ==>
              HostOf(sourceBase, sourcePath) + UrlPrefix(sourceBase, sourcePath) + LastSegment(sourcePath)
              == sourceBase + "/" + sourcePath
    ensures var u := SplitUrl(sourceBase, sourcePath);
            '/' !in u.path ==> UrlPrefix(sourceBase, sourcePath) == "/"
  {
    var u := SplitUrl(sourceBase, sourcePath);
    if '/' in u.path {
      var host := HostOf(sourceBase, sourcePath);
      HostStartsUrl(sourceBase, sourcePath);
      DirnameJoinsLastSegment(u.path);
      assert UrlPrefix(sourceBase, sourcePath) == Dirname(u.path) + "/";
      Rejoin(host, Dirname(u.path), LastSegment(sourcePath), u.path, sourceBase + "/" + sourcePath);
    }
  }

  /** Concatenation regrouped around the path's last '/'. */
  lemma Rejoin(host: string, dir: string, last: string, path: string, full: string)
    requires path == dir + "/" + last && host + path == full
    ensures host + (dir + "/") + last == full
  {
  }

  /** The pop loop's state when it stops: the remaining target directory
      and how many "../" it emitted. */
  datatype Popped = Popped(dir: string, ups: nat)

  /** The loop test of line 77: as written, `dir` must be a textual prefix
      of the source path; `aligned` also asks that it end at a '/' of it. */
  function Fits(sourcePath: string, dir: string, aligned: bool): (b: bool)
    ensures !aligned ==> (b <==> FirstIndex(sourcePath, dir) == Some(0))
    ensures aligned ==> (b <==> FirstIndex(sourcePath, dir + "/") == Some(0))
  {
    var x := if aligned then dir + "/" else dir;
    StartsAtZero(sourcePath, x);
    x <= sourcePath
  }

  /** `0 === strpos($s, $x)` holds exactly when `s` starts with `x`. */
  lemma StartsAtZero(s: string, x: string)
    ensures x <= s <==> FirstIndex(s, x) == Some(0)
  {
    if x <= s {
      FoundAt(s, x, 0);
    } else if FirstIndex(s, x) == Some(0) {
      assert s[0..] == s;
    }
  }

  /** Lines 77-86: pop the last segment off the target directory, one "../"
      per pop, until it fits the source path; a directory without '/' is
      dropped entirely with one last "../". */
  function PopUntilFits(sourcePath: string, dir: string, aligned: bool): (p: Popped)
    decreases |dir|
    ensures p.dir == "" || Fits(sourcePath, p.dir, aligned)
    ensures p.dir <= dir
    ensures p.ups <= Count(dir, '/') + 1
    ensures p.ups == 0 <==> Fits(sourcePath, dir, aligned)
  {
    if Fits(sourcePath, dir, aligned) then Popped(dir, 0)
    else match LastIndex(dir, '/')
      case Some(i) =>
        CountConcat(dir[..i], dir[i..], '/');
        assert dir == dir[..i] + dir[i..];
        assert dir[i..][0] == '/';
        var p := PopUntilFits(sourcePath, dir[..i], aligned);
        Popped(p.dir, p.ups + 1)
      case None => Popped("", 1)
  }

  /** The ancestor of `dir` that ends at index `k` (at its end or just
      before a '/') does not fit the source path. */
  predicate MissesAt(sourcePath: string, dir: string, aligned: bool, k: int) {
    0 <= k <= |dir| && (k == |dir| || dir[k] == '/') ==> !Fits(sourcePath, dir[..k], aligned)
  }

  /** Line 77's "until": the loop stops at the first ancestor of the target
      directory that fits, and none of the longer ancestors it passed, cut
      at a '/' of it, fits. */
  lemma {:induction false} PopStopsAtFirstFit(sourcePath: string, dir: string, aligned: bool)
    ensures var p := PopUntilFits(sourcePath, dir, aligned);
            forall k :: |p.dir| < k <= |dir| ==> MissesAt(sourcePath, dir, aligned, k)
    decreases |dir|
  {
    if !Fits(sourcePath, dir, aligned) {
      match LastIndex(dir, '/')
      case Some(i) =>
        PopStopsAtFirstFit(sourcePath, dir[..i], aligned);
        MissesAbovePop(sourcePath, dir, aligned, i);
      case None =>
        forall k | 0 < k <= |dir|
          ensures MissesAt(sourcePath, dir, aligned, k)
        {
          assert dir[..|dir|] == dir;
        }
    }
  }

  /** One pop at the last '/' of an unfitting directory: the ancestors the
      rest of the loop passed still miss, and so does `dir` itself. */
  lemma MissesAbovePop(sourcePath: string, dir: string, aligned: bool, i: nat)
    requires !Fits(sourcePath, dir, aligned) && LastIndex(dir, '/') == Some(i)
    requires var q := PopUntilFits(sourcePath, dir[..i], aligned);
             forall k :: |q.dir| < k <= i ==> MissesAt(sourcePath, dir[..i], aligned, k)
    ensures var p := PopUntilFits(sourcePath, dir, aligned);
            forall k :: |p.dir| < k <= |dir| ==> MissesAt(sourcePath, dir, aligned, k)
  {
    var d := dir[..i];
    var q := PopUntilFits(sourcePath, d, aligned);
    assert PopUntilFits(sourcePath, dir, aligned).dir == q.dir;
    forall k | |q.dir| < k <= |dir|
      ensures MissesAt(sourcePath, dir, aligned, k)
    {
      if k > i {
        assert k < |dir| ==> CharNotAt(dir, '/', k);
        assert dir[..|dir|] == dir;
      } else {
        assert dir[..k] == d[..k];
        assert MissesAt(sourcePath, d, aligned, k);
      }
    }
  }

  /** The loop stops at an ancestor cut at a '/' of the target directory
      (or at the directory itself, or at the root), and each "../" stands
      for one '/' cut away, plus one for a directory dropped whole by the
      `break` of line 83. */
  lemma {:induction false} PopCutsAtSlash(sourcePath: string, dir: string, aligned: bool)
    ensures var p := PopUntilFits(sourcePath, dir, aligned);
            |p.dir| < |dir| ==> p.dir == "" || dir[|p.dir|] == '/'
    ensures var p := PopUntilFits(sourcePath, dir, aligned);
            || p.ups + Count(p.dir, '/') == Count(dir, '/')
            || (p.dir == "" && p.ups == Count(dir, '/') + 1)
    decreases |dir|
  {
    if !Fits(sourcePath, dir, aligned) {
      match LastIndex(dir, '/')
      case Some(i) =>
        PopCutsAtSlash(sourcePath, dir[..i], aligned);
        PopOneSlash(sourcePath, dir, aligned, i);
      case None =>
    }
  }

  /** One pop at the last '/' of an unfitting directory cuts that '/' and
      emits one "../". */
  lemma PopOneSlash(sourcePath: string, dir: string, aligned: bool, i: nat)
    requires !Fits(sourcePath, dir, aligned) && LastIndex(dir, '/') == Some(i)
    ensures var q := PopUntilFits(sourcePath, dir[..i], aligned);
            PopUntilFits(sourcePath, dir, aligned) == Popped(q.dir, q.ups + 1)
    ensures Count(dir, '/') == Count(dir[..i], '/') + 1
  {
    LastSlashCount(dir, i);
  }

  /** Cutting a directory at its last '/' removes exactly one '/'. */
  lemma LastSlashCount(dir: string, i: nat)
    requires LastIndex(dir, '/') == Some(i)
    ensures Count(dir, '/') == Count(dir[..i], '/') + 1
  {
    var after := dir[i + 1..];
    forall j | 0 <= j < |after|
      ensures after[j] != '/'
    {
      assert CharNotAt(dir, '/', i + 1 + j);
    }
    assert '/' !in after;
    CountConcat(dir[..i], "/", '/');
    CountConcat(dir[..i] + "/", after, '/');
    assert dir == dir[..i] + "/" + after;
  }

  /** Lines 71-88 with the loop test of line 77 chosen by `aligned`. In
      every branch the prefix is a path to a directory: empty or ending in
      '/'. */
  function PrefixFor(sourcePath: string, targetPath: string, aligned: bool): (prefix: string)
    ensures prefix == "" || prefix[|prefix| - 1] == '/'
  {
    if Dirname(sourcePath) == "." then
      RepeatEndsInSlash(Count(targetPath, '/'));
      Repeat("../", Count(targetPath, '/'))
    else if Dirname(targetPath) == "." then
      Dirname(sourcePath) + "/"
    else
      var p := PopUntilFits(sourcePath, Dirname(targetPath), aligned);
      var tail := LeftTrim(Substr(Dirname(sourcePath) + "/", |p.dir|), '/');
      RepeatEndsInSlash(p.ups);
      TailEndsInSlash(Dirname(sourcePath) + "/", tail);
      Repeat("../", p.ups) + tail
  }

  /** A tail of a directory path is empty or ends in '/' too. */
  lemma TailEndsInSlash(d: string, tail: string)
    requires |d| > 0 && d[|d| - 1] == '/' && EndsWith(d, tail)
    ensures tail == "" || tail[|tail| - 1] == '/'
  {
    if tail != "" {
      assert tail[|tail| - 1] == d[|d| - 1];
    }
  }

  /** The same-host prefix as the source computes it (lines 71-88). */
  function SameHostPrefix(sourcePath: string, targetPath: string): (prefix: string)
    ensures prefix == "" || prefix[|prefix| - 1] == '/'
  {
    PrefixFor(sourcePath, targetPath, false)
  }

  /** The same-host prefix with the loop test of line 77 made to stop only
      at a directory boundary of the source path. */
  function AlignedSameHostPrefix(sourcePath: string, targetPath: string): (prefix: string)
    ensures prefix == "" || prefix[|prefix| - 1] == '/'
  {
    PrefixFor(sourcePath, targetPath, true)
  }

  /** The directory a path sits in, with a trailing '/', and "" for the
      current directory (PHP's `dirname` answers "." for it). */
  function DirOf(p: string): (d: string)
    ensures d == "" || d[|d| - 1] == '/'
    ensures Count(d, '/') <= Count(p, '/')
  {
    if Dirname(p) == "." then ""
    else
      assert '/' in p;
      DirnameJoinsLastSegment(p);
      DirPartCount(p);
      Dirname(p) + "/"
  }

  /** The directory above `dir` (in the "a/b/" form); the root "" is its
      own parent. */
  function Parent(dir: string): (r: string)
    ensures r == "" || r[|r| - 1] == '/'
  {
    if |dir| == 0 then "" else DirPart(dir[..|dir| - 1])
  }

  /** Where a relative reference `rel` written in directory `dir` leads:
      each leading "../" climbs to the parent, the rest is appended. This is
      the reading of a prefix that the comment on line 58 asks for. */
  function Resolve(dir: string, rel: string): (target: string)
    decreases |rel|
  {
    if "../" <= rel then Resolve(Parent(dir), rel[3..]) else dir + rel
  }

  /** Climbing as many times as a directory is deep reaches the root. */
  lemma {:induction false} ClimbToRoot(dir: string, n: nat)
    requires dir == "" || dir[|dir| - 1] == '/'
    requires Count(dir, '/') <= n
    ensures Resolve(dir, Repeat("../", n)) == ""
    decreases n
  {
    if dir != "" {
      var d' := dir[..|dir| - 1];
      assert dir == d' + "/";
      CountConcat(d', "/", '/');
      DirPartCount(d');
      ClimbStep(n);
      ClimbToRoot(Parent(dir), n - 1);
    } else if n > 0 {
      ClimbStep(n);
      ClimbToRoot("", n - 1);
    }
  }

  lemma ClimbStep(n: nat)
    requires n > 0
    ensures var r := Repeat("../", n);
            "../" <= r && r[3..] == Repeat("../", n - 1)
  {
  }

  /** One pop of the loop is one step up: the parent of `dir + "/"` is
      `dir` cut at its last '/'. */
  lemma ParentOfDir(dir: string)
    requires |dir| > 0
    ensures Parent(dir + "/") == DirPart(dir)
  {
    assert (dir + "/")[..|dir|] == dir;
  }

  /** Where the pop loop leaves the climb: `dir/`, or the root once the
      directory is dropped. */
  function Landing(p: Popped): (dir: string) {
    if p.dir == "" then "" else p.dir + "/"
  }

  /** `dir/` popped to `p.dir` with `p.ups` steps up: climbing those steps
      from `dir/` lands on `p.dir/` (or on the root once it is dropped). */
  lemma {:induction false} PopResolves(sourcePath: string, dir: string, rest: string)
    requires SimplePath(dir)
    ensures var p := PopUntilFits(sourcePath, dir, true);
            Resolve(dir + "/", Repeat("../", p.ups) + rest) == Resolve(Landing(p), rest)
    decreases |dir|, 1
  {
    if Fits(sourcePath, dir, true) {
      assert Repeat("../", 0) + rest == rest;
    } else if '/' in dir {
      PopResolvesOnce(sourcePath, dir, rest);
    } else {
      var p := PopUntilFits(sourcePath, dir, true);
      assert p == Popped("", 1);
      assert Parent(dir + "/") == "" by {
        ParentOfDir(dir);
      }
      assert Repeat("../", 0) + rest == rest;
      PopStep(dir, "", 0, rest, Resolve("", rest));
    }
  }

  /** The pop loop going on below `dir`: one "../" more than from the
      directory above. */
  lemma {:induction false} PopResolvesOnce(sourcePath: string, dir: string, rest: string)
    requires SimplePath(dir) && !Fits(sourcePath, dir, true) && '/' in dir
    ensures var p := PopUntilFits(sourcePath, dir, true);
            Resolve(dir + "/", Repeat("../", p.ups) + rest) == Resolve(Landing(p), rest)
    decreases |dir|, 0
  {
    SimpleDirname(dir);
    PopResolves(sourcePath, Dirname(dir), rest);
    OnePopOneClimb(sourcePath, dir, rest);
  }

  /** One pop more is one climb more: from `dir/` the loop's "../" reach
      where they reach from the directory above. */
  lemma OnePopOneClimb(sourcePath: string, dir: string, rest: string)
    requires !Fits(sourcePath, dir, true) && '/' in dir
    ensures var p := PopUntilFits(sourcePath, dir, true);
            var q := PopUntilFits(sourcePath, Dirname(dir), true);
            && Resolve(dir + "/", Repeat("../", p.ups) + rest)
               == Resolve(Dirname(dir) + "/", Repeat("../", q.ups) + rest)
            && Landing(p) == Landing(q)
  {
    var q := PopUntilFits(sourcePath, Dirname(dir), true);
    PopOnce(sourcePath, dir);
    ParentIsDirname(dir);
    ResolveUp(dir + "/", q.ups + 1, rest);
  }

  /** A directory that does not fit loses its last segment and costs one
      "../". */
  lemma PopOnce(sourcePath: string, dir: string)
    requires !Fits(sourcePath, dir, true) && '/' in dir
    ensures var q := PopUntilFits(sourcePath, Dirname(dir), true);
            PopUntilFits(sourcePath, dir, true) == Popped(q.dir, q.ups + 1)
  {
  }

  /** The parent of `dir/` is the directory `dir` sits in. */
  lemma ParentIsDirname(dir: string)
    requires '/' in dir
    ensures Parent(dir + "/") == Dirname(dir) + "/"
  {
    ParentOfDir(dir);
    DirnameJoinsLastSegment(dir);
  }

  /** One pop more is one climb more, from the directory below. */
  lemma PopStep(dir: string, up: string, k: nat, rest: string, target: string)
    requires Parent(dir + "/") == (if up == "" then "" else up + "/")
    requires Resolve(if up == "" then "" else up + "/", Repeat("../", k) + rest) == target
    ensures Resolve(dir + "/", Repeat("../", k + 1) + rest) == target
  {
    ResolveUp(dir + "/", k + 1, rest);
  }

  /** One leading "../" of a run climbs once. */
  lemma ResolveUp(dir: string, k: nat, rest: string)
    requires k > 0
    ensures Resolve(dir, Repeat("../", k) + rest) == Resolve(Parent(dir), Repeat("../", k - 1) + rest)
  {
    var up := Repeat("../", k) + rest;
    ClimbStep(k);
    assert "../" <= up && up[3..] == Repeat("../", k - 1) + rest;
  }

  /** After the aligned loop stops at `d` (a directory prefix of the source
      path, or dropped to the root), the remaining text of line 87 descends
      from `d/` exactly to the source's directory. */
  lemma DescendToSource(sourcePath: string, d: string)
    requires SimplePath(sourcePath) && NoParentSegment(sourcePath)
    requires Dirname(sourcePath) != "."
    requires d == "" || d + "/" <= sourcePath
    ensures var tail := LeftTrim(Substr(Dirname(sourcePath) + "/", |d|), '/');
            Resolve(if d == "" then "" else d + "/", tail) == Dirname(sourcePath) + "/"
  {
    if d == "" {
      DescendFromRoot(sourcePath);
    } else {
      DescendFromDir(sourcePath, d);
    }
  }

  /** The source's directory with its '/' is the source path up to its last
      '/'. */
  lemma DirnameSlashIsPrefix(s: string)
    requires Dirname(s) != "."
    ensures LastIndex(s, '/').Some?
    ensures Dirname(s) + "/" == s[..LastIndex(s, '/').value + 1]
  {
    DirnameJoinsLastSegment(s);
  }

  /** Stopped at the root, the whole source directory is descended. */
  lemma DescendFromRoot(s: string)
    requires SimplePath(s) && NoParentSegment(s)
    requires Dirname(s) != "."
    ensures Resolve("", LeftTrim(Substr(Dirname(s) + "/", 0), '/')) == Dirname(s) + "/"
  {
    DirnameSlashIsPrefix(s);
    var sd := Dirname(s) + "/";
    assert LeftTrim(Substr(sd, 0), '/') == sd by {
      assert Substr(sd, 0) == sd;
      assert sd[0] == s[0];
    }
    assert !("../" <= sd) by {
      PrefixKeepsNotStarting("../", sd, s);
    }
    ResolveDescends("", sd);
  }

  /** Stopped at a directory `d` of the source path, the rest of the source
      directory below `d/` is descended. */
  lemma DescendFromDir(s: string, d: string)
    requires SimplePath(s) && NoParentSegment(s)
    requires Dirname(s) != "."
    requires d != "" && d + "/" <= s
    ensures Resolve(d + "/", LeftTrim(Substr(Dirname(s) + "/", |d|), '/')) == Dirname(s) + "/"
  {
    DirnameSlashIsPrefix(s);
    var j := LastIndex(s, '/').value;
    var k := |d|;
    assert s[k] == '/' by {
      assert s[k] == (d + "/")[k];
    }
    assert k <= j by {
      assert !CharNotAt(s, '/', k);
    }
    assert k + 1 < |s| && s[k + 1] != '/' by {
      assert SingleSlashAt(s, k + 1);
    }
    assert !("../" <= s[k + 1..]) by {
      assert NoParentAfter(s, k);
    }
    var sd, r := s[..j + 1], s[k + 1..j + 1];
    assert Dirname(s) + "/" == sd;
    DescendFromFit(s, j, d);
    assert LeftTrim(Substr(sd, k), '/') == r && d + "/" + r == sd;
    ResolveDescends(d + "/", r);
  }

  /** A reference that does not start with "../" is appended as it is. */
  lemma ResolveDescends(dir: string, rel: string)
    requires !("../" <= rel)
    ensures Resolve(dir, rel) == dir + rel
  {
  }

  /** The text of line 87 once the loop stopped at `d` with `d/` a prefix of
      the source path: the source's directory below `d/`. */
  lemma DescendFromFit(s: string, j: nat, d: string)
    requires j < |s| && d + "/" <= s && |d| <= j
    requires |d| + 1 < |s| && s[|d| + 1] != '/'
    requires !("../" <= s[|d| + 1..])
    ensures var r := s[|d| + 1..j + 1];
            && LeftTrim(Substr(s[..j + 1], |d|), '/') == r
            && d + "/" + r == s[..j + 1]
            && !("../" <= r)
  {
    var k := |d|;
    var sd := s[..j + 1];
    var r := s[k + 1..j + 1];
    assert Substr(sd, k) == "/" + r by {
      assert sd[k..] == s[k..j + 1];
      assert s[k] == (d + "/")[k];
    }
    assert LeftTrim("/" + r, '/') == r by {
      assert ("/" + r)[1..] == r;
      assert r == "" || r[0] == s[k + 1];
    }
    assert d + "/" + r == sd by {
      assert d + "/" == s[..k + 1];
    }
    assert !("../" <= r) by {
      assert s[k + 1..][..j - k] == r;
      PrefixKeepsNotStarting("../", r, s[k + 1..]);
    }
  }

  /** With the loop test made segment-aware, the prefix leads from the
      target's directory back to the source's directory, in every branch. */
  lemma AlignedPrefixReachesSource(sourcePath: string, targetPath: string)
    requires SimplePath(sourcePath) && SimplePath(targetPath)
    requires NoParentSegment(sourcePath)
    ensures Resolve(DirOf(targetPath), AlignedSameHostPrefix(sourcePath, targetPath))
            == DirOf(sourcePath)
  {
    var prefix := AlignedSameHostPrefix(sourcePath, targetPath);
    if Dirname(sourcePath) == "." {
      ClimbToRoot(DirOf(targetPath), Count(targetPath, '/'));
    } else if Dirname(targetPath) == "." {
      var sd := Dirname(sourcePath) + "/";
      assert prefix == sd;
      DescendToSource(sourcePath, "");
      assert LeftTrim(Substr(sd, 0), '/') == sd by {
        assert Substr(sd, 0) == sd;
        assert '/' in sourcePath;
        var j := LastIndex(sourcePath, '/').value;
        assert j > 0;
        assert sd[0] == sourcePath[0];
      }
    } else {
      var t := Dirname(targetPath);
      assert '/' in targetPath;
      var i := LastIndex(targetPath, '/').value;
      assert SimplePath(t) by {
        SimpleDirname(targetPath);
      }
      var p := PopUntilFits(sourcePath, t, true);
      var tail := LeftTrim(Substr(Dirname(sourcePath) + "/", |p.dir|), '/');
      assert prefix == Repeat("../", p.ups) + tail;
      PopResolves(sourcePath, t, tail);
      DescendToSource(sourcePath, p.dir);
    }
  }

  /** The two root shortcuts do not depend on the loop test: there the
      prefix as written is the corrected one, and so leads back to the
      source's directory. */
  lemma RootShortcutsAgree(sourcePath: string, targetPath: string)
    requires Dirname(sourcePath) == "." || Dirname(targetPath) == "."
    ensures SameHostPrefix(sourcePath, targetPath) == AlignedSameHostPrefix(sourcePath, targetPath)
  {
  }

  /** The source as written: with a textual test, a target directory `a`
      that is a prefix of a longer source directory name `ab` stops the loop
      too early. The prefix is then `b/`, which from `a/` leads to `a/b/`
      instead of `ab/`. */
  lemma TextualPrefixMisleads(a: string, b: string, f: string, g: string)
    requires a != "" && a != "." && b != "" && b != ".."
    requires '/' !in b && '/' !in f && '/' !in g
    ensures var s, t := a + b + "/" + f, a + "/" + g;
            && SameHostPrefix(s, t) == b + "/"
            && Resolve(DirOf(t), SameHostPrefix(s, t)) == a + "/" + b + "/"
            && DirOf(s) == a + b + "/"
            && Resolve(DirOf(t), SameHostPrefix(s, t)) != DirOf(s)
  {
    var s, t := a + b + "/" + f, a + "/" + g;
    DirnameAfterSlash(a + b, f);
    DirnameAfterSlash(a, g);
    PrefixStopsEarly(a, b, f, t);
    assert !("../" <= b + "/") by {
      SegmentNotParent(b);
    }
    ResolveDescends(a + "/", b + "/");
    assert |a + "/" + b + "/"| != |a + b + "/"|;
  }

  /** The pop loop stops at once on `a`, a textual prefix of `ab/...`. */
  lemma PrefixStopsEarly(a: string, b: string, f: string, t: string)
    requires a != "" && a != "." && b != "" && '/' !in b
    requires Dirname(a + b + "/" + f) == a + b && Dirname(t) == a
    ensures SameHostPrefix(a + b + "/" + f, t) == b + "/"
  {
    var s := a + b + "/" + f;
    StopsAtOnce(a, b, f);
    TrimsToSegment(a, b);
    assert Repeat("../", 0) + (b + "/") == b + "/";
  }

  /** A target directory that starts the source path's text stops the
      textual loop at once. */
  lemma StopsAtOnce(a: string, b: string, f: string)
    ensures PopUntilFits(a + b + "/" + f, a, false) == Popped(a, 0)
  {
    assert (a + b + "/" + f)[..|a|] == a;
  }

  /** Below `a`, the rest of `ab/` is the segment `b` and its '/'. */
  lemma TrimsToSegment(a: string, b: string)
    requires b != "" && '/' !in b
    ensures LeftTrim(Substr(a + b + "/", |a|), '/') == b + "/"
  {
    assert Substr(a + b + "/", |a|) == b + "/";
    assert (b + "/")[0] == b[0];
  }

  /** A segment without '/' other than ".." does not start a climb. */
  lemma SegmentNotParent(b: string)
    requires '/' !in b && b != ".."
    ensures !("../" <= b + "/")
  {
    if |b| >= 3 {
      assert (b + "/")[2] == b[2];
    } else if |b| == 2 {
      assert (b + "/")[..2] == b;
    } else {
      assert (b + "/")[|b|] == '/';
    }
  }

  /** Climbing then descending: as written, the same-host prefix is some
      "../" steps, no more than the target is deep, followed by a tail of
      the source's directory. */
  predicate ClimbsThenDescends(prefix: string, ups: nat, tail: string, sourceDir: string) {
    prefix == Repeat("../", ups) + tail && EndsWith(sourceDir, tail)
  }

  lemma SameHostPrefixShape(sourcePath: string, targetPath: string)
    ensures exists ups: nat, tail: string ::
              ups <= Count(targetPath, '/')
              && ClimbsThenDescends(SameHostPrefix(sourcePath, targetPath), ups, tail, DirOf(sourcePath))
  {
    var prefix := SameHostPrefix(sourcePath, targetPath);
    if Dirname(sourcePath) == "." {
      assert ClimbsThenDescends(prefix, Count(targetPath, '/'), "", DirOf(sourcePath)) by {
        assert Repeat("../", Count(targetPath, '/')) + "" == prefix;
      }
    } else if Dirname(targetPath) == "." {
      assert ClimbsThenDescends(prefix, 0, DirOf(sourcePath), DirOf(sourcePath)) by {
        assert Repeat("../", 0) + DirOf(sourcePath) == prefix;
      }
    } else {
      var p := PopUntilFits(sourcePath, Dirname(targetPath), false);
      var tail := LeftTrim(Substr(Dirname(sourcePath) + "/", |p.dir|), '/');
      PopsWithinTarget(sourcePath, targetPath);
      PopLoopShape(sourcePath, targetPath);
      assert ClimbsThenDescends(prefix, p.ups, tail, DirOf(sourcePath));
    }
  }

  /** The pop loop emits no more "../" than the target path has '/'. */
  lemma PopsWithinTarget(sourcePath: string, targetPath: string)
    requires Dirname(targetPath) != "."
    ensures PopUntilFits(sourcePath, Dirname(targetPath), false).ups <= Count(targetPath, '/')
  {
    var t := Dirname(targetPath);
    var i := LastIndex(targetPath, '/').value;
    assert Count(t, '/') + 1 <= Count(targetPath, '/') by {
      assert targetPath == t + targetPath[i..];
      CountConcat(t, targetPath[i..], '/');
      assert targetPath[i..][0] == '/';
    }
  }

  /** Past the root shortcuts the prefix is the loop's "../" run followed by
      a tail of the source's directory. */
  lemma PopLoopShape(sourcePath: string, targetPath: string)
    requires Dirname(sourcePath) != "." && Dirname(targetPath) != "."
    ensures var p := PopUntilFits(sourcePath, Dirname(targetPath), false);
            ClimbsThenDescends(SameHostPrefix(sourcePath, targetPath), p.ups,
                               LeftTrim(Substr(Dirname(sourcePath) + "/", |p.dir|), '/'),
                               DirOf(sourcePath))
  {
    var p := PopUntilFits(sourcePath, Dirname(targetPath), false);
    var sd := Dirname(sourcePath) + "/";
    assert DirOf(sourcePath) == sd;
    SuffixOfSuffix(sd, Substr(sd, |p.dir|), LeftTrim(Substr(sd, |p.dir|), '/'));
  }

  lemma SuffixOfSuffix(a: string, b: string, c: string)
    requires EndsWith(a, b) && EndsWith(b, c)
    ensures EndsWith(a, c)
  {
    assert a[|a| - |c|..] == b[|b| - |c|..];
  }

  /** The paths on which the simplified `Dirname` agrees with PHP's: the
      path below the host of a URL-rooted source, or both paths otherwise. */
  predicate Translatable(sourceBase: string, sourcePath: string, targetPath: string) {
    if UrlRooted(sourceBase) then
      var path := SplitUrl(sourceBase, sourcePath).path;
      '/' in path ==> SimplePath(path)
    else
      SimplePath(sourcePath) && SimplePath(targetPath)
  }

  /** Lines 58-89 as written: the host and the prefix. */
  function Translate(sourceBase: string, sourcePath: string, targetPath: string): (c: Context)
    ensures c.host == "" <==> !UrlRooted(sourceBase)
    ensures c.prefix == "" || c.prefix[|c.prefix| - 1] == '/'
  {
    if UrlRooted(sourceBase) then
      Context(HostOf(sourceBase, sourcePath), UrlPrefix(sourceBase, sourcePath))
    else
      Context("", SameHostPrefix(sourcePath, targetPath))
  }

  /** Lines 58-89 with the loop test of line 77 corrected: it differs from
      the source only in the same-host prefix. */
  function AlignedTranslate(sourceBase: string, sourcePath: string, targetPath: string): (c: Context)
    ensures c.host == Translate(sourceBase, sourcePath, targetPath).host
    ensures UrlRooted(sourceBase) ==> c == Translate(sourceBase, sourcePath, targetPath)
    ensures c.prefix == "" || c.prefix[|c.prefix| - 1] == '/'
  {
    if UrlRooted(sourceBase) then Translate(sourceBase, sourcePath, targetPath)
    else Context("", AlignedSameHostPrefix(sourcePath, targetPath))
  }

  /** What the translator learns leads back to the source. A URL-rooted
      source's host and prefix rebuild its own URL. On the same host the
      corrected prefix leads from the target's directory to the source's,
      and so does the prefix as written when either path sits at the root. */
  lemma TranslateLeadsBack(sourceBase: string, sourcePath: string, targetPath: string)
    requires Translatable(sourceBase, sourcePath, targetPath)
    ensures var c := Translate(sourceBase, sourcePath, targetPath);
            UrlRooted(sourceBase) && '/' in SplitUrl(sourceBase, sourcePath).path ==>
              c.host + c.prefix + LastSegment(sourcePath) == sourceBase + "/" + sourcePath
    ensures var c := AlignedTranslate(sourceBase, sourcePath, targetPath);
            !UrlRooted(sourceBase) && NoParentSegment(sourcePath) ==>
              Resolve(DirOf(targetPath), c.prefix) == DirOf(sourcePath)
    ensures var c := Translate(sourceBase, sourcePath, targetPath);
            && !UrlRooted(sourceBase) && NoParentSegment(sourcePath)
            && (Dirname(sourcePath) == "." || Dirname(targetPath) == ".") ==>
              Resolve(DirOf(targetPath), c.prefix) == DirOf(sourcePath)
  {
    if UrlRooted(sourceBase) {
      UrlPrefixLocatesSource(sourceBase, sourcePath);
    } else if NoParentSegment(sourcePath) {
      AlignedPrefixReachesSource(sourcePath, targetPath);
      if Dirname(sourcePath) == "." || Dirname(targetPath) == "." {
        RootShortcutsAgree(sourcePath, targetPath);
      }
    }
  }
}
