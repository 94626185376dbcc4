/**
 * The callback `filterDump` hands to the reference scanner
 * (Filter/CssDumpFilter.php, lines 91-156). For one matched token and the
 * URL inside it, it leaves absolute references alone, puts the host in front
 * of root-relative ones, and points document-relative ones at a renamed copy
 * of the asset placed under the application's web directory.
 *
 * The copy itself (directory creation, reading and writing files) is I/O and
 * is not modelled; the names it would use are.
 */
module Rewriter {
  import opened Strings
  import BasePath

  /** The three kinds of reference the callback tells apart. */
  datatype Kind = Absolute | RootRelative | DocumentRelative

  /** Lines 95-103: a URL with "://", or starting with "//" or "data:", is
      absolute; otherwise one starting with '/' is root-relative; anything
      else is document-relative. The absolute test comes first, so a
      protocol-relative "//host/x" is never root-relative. */
  function Classify(url: string): (k: Kind)
    ensures k == Absolute <==> Contains(url, "://") || "//" <= url || "data:" <= url
    ensures k == RootRelative ==> |url| > 0 && url[0] == '/' && !("//" <= url)
    ensures k == DocumentRelative ==> url == "" || url[0] != '/'
  {
    if Contains(url, "://") || "//" <= url || "data:" <= url then Absolute
    else if |url| > 0 && url[0] == '/' then RootRelative
    else DocumentRelative
  }

  /** Line 108: one step up from the cursor. The cut falls after the last
      '/' that is not trailing; when there is none, PHP's `false + 1` makes
      the cut fall after the first character. */
  function CursorUp(path: string): (r: string)
    ensures r <= path
    ensures Count(path, '/') >= 2 ==> |r| < |path|
  {
    var t := RightTrim(path, '/');
    var cut := match LastIndex(t, '/')
      case Some(i) => i + 1
      case None => 1;
    if cut <= |path| then path[..cut] else path
  }

  /** The cursor steps to the directory holding the last segment that is
      not a trailing '/': the text up to that segment's '/'. */
  lemma CursorUpCutsLastSegment(path: string)
    requires '/' in RightTrim(path, '/')
    ensures CursorUp(path) == DirPart(RightTrim(path, '/'))
    ensures var r := CursorUp(path); r[|r| - 1] == '/'
  {
  }

  /** A directory written in the "a/b/" form: it ends in '/' and has no
      empty segment. */
  predicate CanonicalDir(d: string) {
    && |d| > 0
    && d[|d| - 1] == '/'
    && forall i :: 0 < i < |d| ==> SingleSlashAt(d, i)
  }

  /** On a canonical directory one step of the cursor is the parent
      directory, itself canonical. */
  lemma CursorUpIsParent(dir: string)
    requires CanonicalDir(dir) && Count(dir, '/') >= 2
    ensures CursorUp(dir) == BasePath.Parent(dir)
    ensures CanonicalDir(CursorUp(dir))
  {
    var n := |dir|;
    var t := dir[..n - 1];
    assert RightTrim(dir, '/') == t && '/' in t by {
      assert dir == t + "/";
      assert n >= 2 && t[|t| - 1] == dir[n - 2] != '/' by {
        assert SingleSlashAt(dir, n - 1);
      }
      CountConcat(t, "/", '/');
    }
    CursorUpCutsLastSegment(dir);
    ParentStaysCanonical(dir, DirPart(t));
  }

  lemma ParentStaysCanonical(dir: string, r: string)
    requires CanonicalDir(dir)
    requires r <= dir && |r| > 0 && r[|r| - 1] == '/'
    ensures CanonicalDir(r)
  {
    forall i | 0 < i < |r|
      ensures SingleSlashAt(r, i)
    {
      assert SingleSlashAt(dir, i);
    }
  }

  /** The cursor and what is left of the URL when the climb stops, with the
      number of "../" it consumed. */
  datatype Cursor = Cursor(dir: string, url: string, ups: nat)

  /** Lines 106-110: while the URL starts with "../" and the cursor still
      holds two '/', step the cursor up and drop the "../". */
  function Climb(dir: string, url: string): (c: Cursor)
    decreases |url|
    ensures url == Repeat("../", c.ups) + c.url
    ensures !("../" <= c.url) || Count(c.dir, '/') < 2
    ensures c.dir <= dir
    ensures c.ups > 0 ==> |c.dir| < |dir|
  {
    if "../" <= url && Count(dir, '/') >= 2 then
      var c := Climb(CursorUp(dir), url[3..]);
      PutBackParent(url, c.ups, c.url);
      PrefixOfPrefix(c.dir, CursorUp(dir), dir);
      Cursor(c.dir, c.url, c.ups + 1)
    else
      Cursor(dir, url, 0)
  }

  /** The "../" a climb step drops, put back in front of the run. */
  lemma PutBackParent(url: string, k: nat, rest: string)
    requires "../" <= url && url[3..] == Repeat("../", k) + rest
    ensures url == Repeat("../", k + 1) + rest
  {
    assert url == "../" + url[3..];
  }

  /** Prefix order is transitive; kept apart from the climb's recursion. */
  lemma PrefixOfPrefix(a: string, b: string, c: string)
    requires a <= b && b <= c
    ensures a <= c
  {
  }

  /** Started from a canonical directory, a climb that used up every "../"
      lands where the reference leads: the cursor followed by the rest of
      the URL is the reference resolved against the directory. */
  lemma {:induction false} ClimbFromDirectory(dir: string, url: string)
    requires CanonicalDir(dir)
    ensures var c := Climb(dir, url);
            !("../" <= c.url) ==> c.dir + c.url == BasePath.Resolve(dir, url)
    decreases |url|
  {
    if "../" <= url && Count(dir, '/') >= 2 {
      CursorUpIsParent(dir);
      ClimbFromDirectory(CursorUp(dir), url[3..]);
    }
  }

  /** Lines 106-112 on the source directory as the asset reports it, without
      a trailing '/'. A climb of at least one step lands where the
      reference leads from that directory; without a step the source file is
      the directory and the URL glued together, with no '/' between. */
  lemma ClimbAgreesWithResolve(d: string, url: string)
    requires CanonicalDir(d + "/")
    ensures var c := Climb(d, url);
            c.ups > 0 && !("../" <= c.url) ==> c.dir + c.url == BasePath.Resolve(d + "/", url)
    ensures var c := Climb(d, url);
            c.ups == 0 ==> c.dir + c.url == d + url
  {
    if "../" <= url && Count(d, '/') >= 2 {
      CursorUpSkipsTrailing(d);
      ClimbFromDirectory(CursorUp(d), url[3..]);
    }
  }

  /** Without its trailing '/', a canonical directory steps to the same
      parent. */
  lemma CursorUpSkipsTrailing(d: string)
    requires CanonicalDir(d + "/") && Count(d, '/') >= 2
    ensures CursorUp(d) == BasePath.Parent(d + "/")
    ensures CanonicalDir(CursorUp(d))
  {
    var e := d + "/";
    CountConcat(d, "/", '/');
    assert d[|d| - 1] != '/' by {
      assert SingleSlashAt(e, |d|);
    }
    assert e[..|e| - 1] == d;
    assert RightTrim(e, '/') == RightTrim(d, '/') == d;
    CursorUpIsParent(e);
  }

  /** As written, a reference with no "../" misses the separator: the
      source file is `d + url`, while the reference leads to `d/url`. */
  lemma UnclimbedSourceMissesSeparator(d: string, url: string)
    requires CanonicalDir(d + "/") && !("../" <= url)
    ensures var c := Climb(d, url);
            c.dir + c.url == d + url && c.dir + c.url != BasePath.Resolve(d + "/", url)
  {
  }

  /** The climb as evidently intended: the cursor starts at the source
      directory with its trailing '/'. */
  function JoinedClimb(sourceDir: string, url: string): (c: Cursor)
    ensures url == Repeat("../", c.ups) + c.url
    ensures c.dir <= sourceDir + "/"
  {
    Climb(sourceDir + "/", url)
  }

  /** Once every "../" is used up, the corrected climb lands where the
      reference leads from the source directory, with or without a step. */
  lemma JoinedClimbResolves(d: string, url: string)
    requires CanonicalDir(d + "/")
    ensures var c := JoinedClimb(d, url);
            !("../" <= c.url) ==> c.dir + c.url == BasePath.Resolve(d + "/", url)
  {
    ClimbFromDirectory(d + "/", url);
  }

  /** What the document-relative branch computes for one reference. */
  datatype Renamed = Renamed(
    originalAsset: string,
    relativeAsset: string,
    assetName: string,
    fileName: string,
    destination: string,
    newUrl: string)

  /** Lines 105-133: climb, strip the query and fragment from the source
      file, name it, and rename the last segment of both the destination
      under `rootDir + "web/"` and the reference. `name` stands for the
      asset factory's `generateAssetName`. */
  function RenameReference(url: string, sourceDir: string, rootDir: string,
                           name: string -> string): (r: Renamed)
    ensures '#' !in r.originalAsset && '?' !in r.originalAsset
    ensures '#' !in r.destination && '?' !in r.destination
  {
    var c := Climb(sourceDir, url);
    var originalAsset := BeforeQuery(c.dir + c.url);
    var relativeAsset := Substr(originalAsset, |rootDir|);
    var assetName := name(relativeAsset);
    var targetParts := Split(rootDir + "web/" + c.url);
    var fileName := assetName + "_" + targetParts[|targetParts| - 1];
    var destination := BeforeQuery(Join(DropLast(targetParts) + [fileName]));
    var urlParts := Split(url);
    var newUrl := Join(DropLast(urlParts) + [fileName]);
    Renamed(originalAsset, relativeAsset, assetName, fileName, destination, newUrl)
  }

  /** Lines 118-120: the relative asset is what follows the first
      `|rootDir|` characters of the source file (the text after `rootDir`
      when the file lies under it, and "" when the file is shorter), and
      the asset is named after it. */
  lemma RenameNamesRelativeAsset(url: string, sourceDir: string, rootDir: string,
                                 name: string -> string)
    ensures var r := RenameReference(url, sourceDir, rootDir, name);
            && (rootDir <= r.originalAsset ==> rootDir + r.relativeAsset == r.originalAsset)
            && (|rootDir| <= |r.originalAsset| ==>
                  EndsWith(r.originalAsset, r.relativeAsset)
                  && |r.relativeAsset| == |r.originalAsset| - |rootDir|)
            && (|rootDir| > |r.originalAsset| ==> r.relativeAsset == "")
            && r.assetName == name(r.relativeAsset)
  {
    var r := RenameReference(url, sourceDir, rootDir, name);
    if rootDir <= r.originalAsset {
      assert r.originalAsset == rootDir + r.originalAsset[|rootDir|..];
    }
  }

  /** Lines 112-113 read against the directory the source receives, which
      has no trailing '/': once a climb step has run and every "../" is
      used up, the named source file is the reference resolved against that
      directory, query and fragment stripped; without a step it is the
      directory and the reference glued together. */
  lemma RenameReadsClimbedSource(url: string, d: string, rootDir: string, name: string -> string)
    requires CanonicalDir(d + "/")
    ensures var r := RenameReference(url, d, rootDir, name);
            var c := Climb(d, url);
            c.ups > 0 && !("../" <= c.url) ==>
              r.originalAsset == BeforeQuery(BasePath.Resolve(d + "/", url))
    ensures var r := RenameReference(url, d, rootDir, name);
            Climb(d, url).ups == 0 ==> r.originalAsset == BeforeQuery(d + url)
  {
    ClimbAgreesWithResolve(d, url);
  }

  /** Lines 122-133 read as paths: the file name is the asset name, '_' and
      the reference's last segment (query and fragment included); the new
      reference is the old one with only that last segment replaced; the
      destination is the climbed URL's directory under `rootDir + "web/"`,
      holding the renamed file, without query or fragment. */
  lemma RenameShape(url: string, sourceDir: string, rootDir: string, name: string -> string)
    ensures var r := RenameReference(url, sourceDir, rootDir, name);
            var c := Climb(sourceDir, url);
            && r.fileName == r.assetName + "_" + LastSegment(url)
            && r.newUrl == DirPart(url) + r.fileName
            && r.destination == BeforeQuery(rootDir + "web/" + DirPart(c.url) + r.fileName)
  {
    var r := RenameReference(url, sourceDir, rootDir, name);
    var c := Climb(sourceDir, url);
    var target := rootDir + "web/" + c.url;
    assert LastSegment(c.url) == LastSegment(url) by {
      RepeatEndsInSlash(c.ups);
      LastSegmentAfterDir(Repeat("../", c.ups), c.url);
    }
    assert Split(target)[|Split(target)| - 1] == LastSegment(c.url) by {
      LastFieldIsLastSegment(target);
      LastSegmentAfterDir(rootDir + "web/", c.url);
    }
    assert r.newUrl == DirPart(url) + r.fileName by {
      ReplaceLastField(url, r.fileName);
    }
    assert Join(DropLast(Split(target)) + [r.fileName]) == rootDir + "web/" + DirPart(c.url) + r.fileName by {
      ReplaceLastField(target, r.fileName);
      DirPartAfterDir(rootDir + "web/", c.url);
    }
  }

  /** The renamed reference keeps every directory segment of the original,
      leading "../" included, and as many '/' as it; only its last segment
      differs, and that is the new file name. */
  lemma RenameKeepsDirectories(url: string, sourceDir: string, rootDir: string, name: string -> string)
    requires '/' !in RenameReference(url, sourceDir, rootDir, name).assetName
    ensures var r := RenameReference(url, sourceDir, rootDir, name);
            && DirPart(r.newUrl) == DirPart(url)
            && LastSegment(r.newUrl) == r.fileName
            && Count(r.newUrl, '/') == Count(url, '/')
  {
    var r := RenameReference(url, sourceDir, rootDir, name);
    RenameShape(url, sourceDir, rootDir, name);
    assert '/' !in r.fileName by {
      CountConcat(r.assetName, "_", '/');
      CountConcat(r.assetName + "_", LastSegment(url), '/');
    }
    DirThenName(DirPart(url), r.fileName);
    DirPartCount(url);
  }

  /** Lines 91-156: the token the callback returns for one reference. */
  function RewriteToken(token: string, url: string, sourceDir: string, host: string,
                        rootDir: string, name: string -> string): (r: string)
    ensures Classify(url) == Absolute ==> r == token
    ensures Classify(url) == RootRelative && host == "" ==> r == token
    ensures !Contains(token, url) ==> r == token
  {
    match Classify(url)
    case Absolute => token
    case RootRelative => ReplaceAll(token, url, host + url)
    case DocumentRelative => ReplaceAll(token, url, RenameReference(url, sourceDir, rootDir, name).newUrl)
  }

  /** What the URL inside the token becomes. */
  function Replacement(url: string, sourceDir: string, host: string,
                       rootDir: string, name: string -> string): (y: string)
    ensures Classify(url) != DocumentRelative ==> EndsWith(y, url)
  {
    match Classify(url)
    case Absolute => url
    case RootRelative => host + url
    case DocumentRelative => RenameReference(url, sourceDir, rootDir, name).newUrl
  }

  /** When the URL occurs in the token only where the scanner found it, the
      token keeps its text around that place and the URL is replaced there
      by what it becomes. */
  lemma RewriteInSlot(pre: string, url: string, post: string, sourceDir: string, host: string,
                      rootDir: string, name: string -> string)
    requires |url| > 0 && OnlySlot(pre, url, post)
    ensures RewriteToken(pre + url + post, url, sourceDir, host, rootDir, name)
            == pre + Replacement(url, sourceDir, host, rootDir, name) + post
  {
    var y := Replacement(url, sourceDir, host, rootDir, name);
    ReplaceInSlot(pre, url, post, y);
  }

  /** A root-relative reference in a token whose text around it has no '/',
      such as `url(/logo.png)`: the token gets the host in front of the URL
      and is otherwise unchanged. */
  lemma RootRelativeGetsHost(pre: string, url: string, post: string, sourceDir: string, host: string,
                             rootDir: string, name: string -> string)
    requires Classify(url) == RootRelative
    requires '/' !in pre && '/' !in post
    ensures RewriteToken(pre + url + post, url, sourceDir, host, rootDir, name) == pre + (host + url) + post
  {
    SlashFreeFrame(pre, url, post);
    RewriteInSlot(pre, url, post, sourceDir, host, rootDir, name);
    RootRelativeReplacement(url, sourceDir, host, rootDir, name);
  }

  lemma RootRelativeReplacement(url: string, sourceDir: string, host: string,
                                rootDir: string, name: string -> string)
    requires Classify(url) == RootRelative
    ensures Replacement(url, sourceDir, host, rootDir, name) == host + url
  {
  }
}
