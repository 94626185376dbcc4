/**
 * `filterDump` as a whole (Filter/CssDumpFilter.php, lines 47-159): skip the
 * asset when it has no source or target path or they are equal, learn the
 * host from the source root, and rewrite every reference the scanner finds
 * in the content with the per-reference callback.
 *
 * The scanner (`filterReferences` of the base CSS filter) is not part of this
 * model: the content arrives already cut into plain text and references,
 * each reference being the matched token and the URL inside it.
 */
module DumpFilter {
  import opened Strings
  import BasePath
  import Rewriter

  /** A piece of stylesheet content: text the scanner passes over, or a
      matched reference token with the URL found inside it. */
  datatype Piece = Text(text: string) | Ref(token: string, url: string)

  /** The parts of an asset the filter reads and writes; a missing path is
      PHP's null. */
  datatype Asset = Asset(
    sourceRoot: string,
    sourcePath: Option<string>,
    targetPath: Option<string>,
    sourceDir: string,
    content: seq<Piece>)

  /** The content as one string. */
  function Render(content: seq<Piece>): (css: string) {
    if |content| == 0 then ""
    else
      var head := match content[0]
        case Text(t) => t
        case Ref(token, _) => token;
      head + Render(content[1..])
  }

  /** Lines 54-56: no source path, no target path, or the same path for
      both. */
  function Skips(a: Asset): (b: bool)
    ensures a.sourcePath == a.targetPath ==> b
    ensures !b ==> a.sourcePath.Some? && a.targetPath.Some? && a.sourcePath != a.targetPath
    ensures a.sourcePath.None? || a.targetPath.None? ==> b
    ensures a.sourcePath.Some? && a.targetPath.Some? && a.sourcePath.value != a.targetPath.value ==> !b
  {
    a.sourcePath.None? || a.targetPath.None? || a.sourcePath.value == a.targetPath.value
  }

  /** Each reference replaced by the callback's token; text stays. */
  function RewriteAll(content: seq<Piece>, sourceDir: string, host: string,
                      rootDir: string, name: string -> string): (r: seq<Piece>)
    ensures |r| == |content|
    ensures forall i :: 0 <= i < |content| && content[i].Text? ==> r[i] == content[i]
    ensures forall i :: 0 <= i < |content| && content[i].Ref? ==>
              r[i] == Text(Rewriter.RewriteToken(content[i].token, content[i].url,
                                                 sourceDir, host, rootDir, name))
  {
    if |content| == 0 then []
    else
      var head := match content[0]
        case Text(_) => content[0]
        case Ref(token, url) => Text(Rewriter.RewriteToken(token, url, sourceDir, host, rootDir, name));
      [head] + RewriteAll(content[1..], sourceDir, host, rootDir, name)
  }

  /** Lines 47-159. Only the content changes, and only when the asset is
      not skipped. The relative prefix of lines 58-88 is not computed: no
      later line reads it (see `BasePath`). */
  function FilterDump(a: Asset, rootDir: string, name: string -> string): (r: Asset)
    ensures Skips(a) ==> r == a
    ensures r.sourceRoot == a.sourceRoot && r.sourcePath == a.sourcePath
    ensures r.targetPath == a.targetPath && r.sourceDir == a.sourceDir
    ensures |r.content| == |a.content|
  {
    if Skips(a) then a
    else
      var host := BasePath.HostOf(a.sourceRoot, a.sourcePath.value);
      a.(content := RewriteAll(a.content, a.sourceDir, host, rootDir, name))
  }

  /** A reference the callback hands back unchanged. */
  predicate Untouched(p: Piece, host: string) {
    p.Ref? ==>
      || Rewriter.Classify(p.url) == Rewriter.Absolute
      || (Rewriter.Classify(p.url) == Rewriter.RootRelative && host == "")
  }

  /** When every reference is absolute, or root-relative with a source on
      the same host, the rewritten content reads exactly as before. */
  lemma {:induction false} RewriteAllKeepsText(content: seq<Piece>, sourceDir: string, host: string,
                                              rootDir: string, name: string -> string)
    requires forall i :: 0 <= i < |content| ==> Untouched(content[i], host)
    ensures Render(RewriteAll(content, sourceDir, host, rootDir, name)) == Render(content)
  {
    if |content| > 0 {
      var r := RewriteAll(content, sourceDir, host, rootDir, name);
      assert r[1..] == RewriteAll(content[1..], sourceDir, host, rootDir, name);
      assert Untouched(content[0], host);
      RewriteAllKeepsText(content[1..], sourceDir, host, rootDir, name);
    }
  }

  /** A stylesheet served from the same host whose references are all
      absolute or root-relative comes out of the filter reading exactly as
      it went in. */
  lemma SameHostKeepsContent(a: Asset, rootDir: string, name: string -> string)
    requires !BasePath.UrlRooted(a.sourceRoot)
    requires forall i :: 0 <= i < |a.content| ==> Untouched(a.content[i], "")
    ensures Render(FilterDump(a, rootDir, name).content) == Render(a.content)
  {
    if !Skips(a) {
      RewriteAllKeepsText(a.content, a.sourceDir, "", rootDir, name);
    }
  }

  /** The filter works piece by piece: the filtered stylesheet reads as its
      two halves rewritten apart and put back together, so no reference's
      rewriting depends on the content around it. */
  lemma FilterDumpSplits(a: Asset, x: seq<Piece>, y: seq<Piece>, rootDir: string, name: string -> string)
    requires !Skips(a) && a.content == x + y
    ensures var host := BasePath.HostOf(a.sourceRoot, a.sourcePath.value);
            Render(FilterDump(a, rootDir, name).content)
            == Render(RewriteAll(x, a.sourceDir, host, rootDir, name))
               + Render(RewriteAll(y, a.sourceDir, host, rootDir, name))
  {
    var host := BasePath.HostOf(a.sourceRoot, a.sourcePath.value);
    RewriteAllConcat(x, y, a.sourceDir, host, rootDir, name);
    RenderConcat(RewriteAll(x, a.sourceDir, host, rootDir, name),
                 RewriteAll(y, a.sourceDir, host, rootDir, name));
  }

  /** Rendering distributes over concatenation of content. */
  lemma {:induction false} RenderConcat(x: seq<Piece>, y: seq<Piece>)
    ensures Render(x + y) == Render(x) + Render(y)
  {
    if |x| == 0 {
      assert x + y == y;
    } else {
      assert (x + y)[1..] == x[1..] + y;
      RenderConcat(x[1..], y);
    }
  }

  /** The filter acts reference by reference: filtering two pieces of
      content one after the other gives the content filtered as a whole. */
  lemma {:induction false} RewriteAllConcat(x: seq<Piece>, y: seq<Piece>, sourceDir: string,
                                           host: string, rootDir: string, name: string -> string)
    ensures RewriteAll(x + y, sourceDir, host, rootDir, name)
            == RewriteAll(x, sourceDir, host, rootDir, name) + RewriteAll(y, sourceDir, host, rootDir, name)
  {
    if |x| == 0 {
      assert x + y == y;
    } else {
      assert (x + y)[1..] == x[1..] + y;
      RewriteAllConcat(x[1..], y, sourceDir, host, rootDir, name);
    }
  }
}
