# CSS dump filter: reference rewriting, modelled in Dafny

`CssDumpFilter::filterDump` rewrites the `url(...)` and `@import`
references of a stylesheet when the stylesheet is dumped to its target path.
It works in three stages:

1. It skips the asset when either path is missing or both paths are equal.
2. It works out a host and a relative prefix from the source root, the
   source path and the target path.
3. It passes every reference through a callback. The callback leaves
   absolute references alone. It puts the host in front of root-relative
   references. For a document-relative reference, it climbs the leading
   `../` against the source directory, derives an asset name, and points
   the reference at a renamed copy of the file under `rootDir + "web/"`.

The model is four modules of pure functions over `string`:

- `Strings` holds the PHP string primitives the filter uses. These are
  `strpos`, `strrpos`, `substr`, `substr_count`, `ltrim`/`rtrim`, `dirname`
  on simple relative paths, `explode`/`implode` on '/', `str_repeat`,
  `str_replace`, and the `[#?]` split. Each comes with the facts the rest of
  the model uses.
- `BasePath` holds the translator of lines 58-89.
- `Rewriter` holds the per-reference callback of lines 91-156.
- `DumpFilter` holds `filterDump` itself. It works over content already cut
  into text and references.

`generateAssetName` is a parameter `name: string -> string`, and so is the
application root directory `rootDir`.

A few behaviours of the code differ from what its comments or a first reading
suggest. The model follows the code in each case. The two corrections under
"## Findings" are separate members, which the rest of the model does not use.

- **The relative prefix is never used.** The callback captures only
  `$sourceDir` and `$host` (line 91). `FilterDump` therefore computes only
  the host, and the prefix is modelled and proved on its own in `BasePath`.
- **A URL-rooted source root gives a double slash.** A root-relative
  reference is prefixed with a host that already ends in '/' (lines 63 and
  102). So `/logo.png` under `https://cdn.example.com` becomes
  `https://cdn.example.com//logo.png`. `Rewriter.RewriteInSlot` states the
  replacement exactly as `host + url`.
- **The rewritten reference keeps its query and fragment.** Only the
  destination path is stripped of them (lines 125, 128 and 130-133).
- **The destination is built from the climbed URL.** It uses the URL after
  the leading `../` are consumed (line 122). The rewritten reference keeps
  them (lines 130-133).
- **With no `../` to climb, there is no separator.** The source file is
  `sourceDir . url` (line 112), and the source directory normally has no
  trailing '/'. `Rewriter.RenameReference` keeps this, as the code does (see
  "## Findings").
- **`str_replace` rewrites the whole token.** It replaces every occurrence
  of the URL in the matched token, not only the one the scanner found (lines
  102 and 153). `Rewriter.RewriteInSlot` states the result when the URL
  occurs only in its slot.
- **The climb cursor can end without a '/'.** It ends in '/' whenever its
  right-trimmed form still contains one (`Rewriter.CursorUpCutsLastSegment`).
  When it does not, PHP's `false + 1` cuts after the first character, so the
  cursor can end without '/' (line 108).

## Model

| member | source | states |
|---|---|---|
| Strings.Count | Filter/CssDumpFilter.php:72 | `substr_count` of a character is at most the length, and zero exactly when the character is absent |
| Strings.CountConcat | Filter/CssDumpFilter.php:107 | the slash count of a concatenation is the sum of the counts |
| Strings.FirstIndex | Filter/CssDumpFilter.php:59 | `strpos` returns an occurrence with no earlier one, and returns none only when no occurrence exists |
| Strings.Contains | Filter/CssDumpFilter.php:59 | `false !== strpos($s, $x)` holds exactly when some position of `s` starts an occurrence of `x` |
| Strings.FirstIndexAppend | Filter/CssDumpFilter.php:59-60 | text appended after a string that already contains the needle does not move its first occurrence |
| Strings.SplitFirst | Filter/CssDumpFilter.php:60-61 | `explode($x, $s, 2)` succeeds exactly when `x` occurs; the two pieces rejoin to `s` around `x`, and the first piece holds no occurrence |
| Strings.LastIndex | Filter/CssDumpFilter.php:78-79 | `strrpos` returns none exactly when the character is absent; otherwise it returns an index holding the character with none after it |
| Strings.LastIndexIs | Filter/CssDumpFilter.php:78-79 | an index holding the character with none after it is the one `strrpos` returns |
| Strings.DirnameCuts | Filter/CssDumpFilter.php:71-73 | `dirname` keeps the text before the last '/', so that '/' follows it and none comes after; a path without '/' gives "." |
| Strings.LastSegment | Filter/CssDumpFilter.php:125 | the last field is '/'-free and a suffix of the path |
| Strings.DirPart | Filter/CssDumpFilter.php:130-133 | the fields before the last one, with their '/', form a prefix of the path that is empty or ends in '/' |
| Strings.DirPartThenLastSegment | Filter/CssDumpFilter.php:124-125 | a path is its directory part followed by its last field |
| Strings.DirnameJoinsLastSegment | Filter/CssDumpFilter.php:64 | for a path with a '/', `dirname`, '/' and the last field rebuild the path |
| Strings.SimpleDirname | Filter/CssDumpFilter.php:79 | cutting a simple path at its last '/' leaves a simple path |
| Strings.DirPartAfterSlash | Filter/CssDumpFilter.php:122 | the directory part of `a/b` is `a/` followed by the directory part of `b` |
| Strings.LastSegmentAfterSlash | Filter/CssDumpFilter.php:122-125 | the last field of `a/b` is the last field of `b` |
| Strings.DirThenName | Filter/CssDumpFilter.php:130-133 | a directory followed by a '/'-free name has that directory and that name as its parts, and no more '/' than the directory |
| Strings.Split | Filter/CssDumpFilter.php:124 | `explode('/', $s)` yields at least one field, and no field holds '/' |
| Strings.JoinSplit | Filter/CssDumpFilter.php:124-127 | `implode('/', explode('/', $s))` is `s` |
| Strings.JoinAt | Filter/CssDumpFilter.php:127 | `implode('/', ...)` puts exactly one '/' at each field boundary: the join is the first `k` fields joined, a '/', and the rest joined |
| Strings.JoinEnds | Filter/CssDumpFilter.php:127 | `implode('/', ...)` starts with the first field, ends with the last, splits into the first `k` fields, a '/' and the rest at every boundary, and so holds at least one '/' fewer than it has fields |
| Strings.SplitJoin | Filter/CssDumpFilter.php:130-133 | exploding the implosion of '/'-free fields gives back the same fields |
| Strings.SplitCount | Filter/CssDumpFilter.php:124 | `explode('/')` yields one field more than the number of '/' |
| Strings.LastFieldIsLastSegment | Filter/CssDumpFilter.php:125 | `array_pop` of the exploded path is the text after its last '/' |
| Strings.ReplaceLastField | Filter/CssDumpFilter.php:124-127 | popping the last field, pushing `f` and imploding gives the directory part followed by `f` |
| Strings.Repeat | Filter/CssDumpFilter.php:72 | `str_repeat` has `n` times the length |
| Strings.RepeatEndsInSlash | Filter/CssDumpFilter.php:72 | a run of "../" is empty or ends in '/' |
| Strings.LeftTrim | Filter/CssDumpFilter.php:87 | `ltrim` keeps a suffix that does not start with the character, and every removed character is that character |
| Strings.RightTrim | Filter/CssDumpFilter.php:108 | `rtrim` keeps a prefix that does not end with the character, and every removed character is that character |
| Strings.Substr | Filter/CssDumpFilter.php:118 | `substr($s, $start)` is the suffix of `s` after its first `start` characters, and empty when `start` is past the end |
| Strings.BeforeQuery | Filter/CssDumpFilter.php:113 | the first piece of the `[#?]` split is a prefix with no '#' or '?' that stops at the first of them, and is the whole string when neither occurs |
| Strings.BeforeQueryIdempotent | Filter/CssDumpFilter.php:128 | stripping query and fragment twice is stripping them once |
| Strings.ReplaceAll | Filter/CssDumpFilter.php:153 | `str_replace` leaves the subject unchanged when the search does not occur or equals the replacement |
| Strings.ReplaceAtFirst | Filter/CssDumpFilter.php:102 | `str_replace` keeps the text before the first occurrence of the search, turns that occurrence into the replacement, and goes on replacing in the text after it, so every non-overlapping occurrence is replaced |
| Strings.ReplaceAtFirstSlot | Filter/CssDumpFilter.php:153 | the same step for a text already cut around the first occurrence of the search |
| Strings.ReplaceInSlot | Filter/CssDumpFilter.php:102 | when the search occurs only in one slot, `str_replace` replaces exactly that slot |
| Strings.SlashFreeFrame | Filter/CssDumpFilter.php:100-102 | a URL starting with '/' between '/'-free text occurs only in its slot |
| BasePath.SplitUrl | Filter/CssDumpFilter.php:60-61 | the scheme, authority and path rebuild `sourceBase/sourcePath`; the scheme ends at the first "://"; the authority is '/'-free; the path's last field is the source path's |
| BasePath.SchemeSplit | Filter/CssDumpFilter.php:60 | exploding `sourceBase/sourcePath` at "://" cuts at the source root's own first "://", leaving the rest of the root, '/' and the source path |
| BasePath.HostOf | Filter/CssDumpFilter.php:59-68 | the host is empty exactly when the source root has no "://", and otherwise ends in '/' |
| BasePath.HostStartsUrl | Filter/CssDumpFilter.php:60-63 | the host followed by the path below it is the source's URL, and the host has the scheme's '/' plus three |
| BasePath.UrlPrefix | Filter/CssDumpFilter.php:64-65 | the URL-rooted prefix is non-empty and ends in '/' |
| BasePath.UrlPrefixLocatesSource | Filter/CssDumpFilter.php:59-65 | host, prefix and the file name rebuild the source's URL, and the prefix is "/" when the path below the host has no directory |
| BasePath.Fits | Filter/CssDumpFilter.php:77 | the loop test holds exactly when `strpos` finds the target directory at index 0 (the target directory followed by '/' in the corrected reading) |
| BasePath.PopUntilFits | Filter/CssDumpFilter.php:76-86 | the loop stops at a directory that fits the source path, or at ""; the directory left is a prefix of the start; at most one pop per '/' plus one; no pop exactly when the start already fits |
| BasePath.PopStopsAtFirstFit | Filter/CssDumpFilter.php:77 | the loop stops at the first ancestor that fits: no longer ancestor of the target directory, cut at one of its '/', fits the source path |
| BasePath.PopCutsAtSlash | Filter/CssDumpFilter.php:78-84 | the loop stops at the directory itself, at a cut just before one of its '/', or at ""; each "../" stands for one '/' cut away, plus one for a directory dropped whole by the `break` |
| BasePath.PrefixFor | Filter/CssDumpFilter.php:71-88 | in all three branches, with either loop test, the prefix is empty or ends in '/' |
| BasePath.SameHostPrefix | Filter/CssDumpFilter.php:71-88 | the same-host prefix as written is empty or ends in '/' |
| BasePath.SameHostPrefixShape | Filter/CssDumpFilter.php:71-88 | the prefix as written is some "../", no more than the target has '/', followed by a tail of the source's directory |
| BasePath.TextualPrefixMisleads | Filter/CssDumpFilter.php:76-87 | for any target directory `a` that is a proper textual prefix of a source directory `ab` (with `b` a plain segment), the prefix as written is `b/`, which from `a/` leads to `a/b/` and so misses the source directory `ab/` |
| BasePath.AlignedSameHostPrefix | Filter/CssDumpFilter.php:71-88 | the prefix with the corrected loop test is empty or ends in '/' |
| BasePath.ClimbToRoot | Filter/CssDumpFilter.php:71-72 | as many "../" as a directory holds '/' lead from it to the root |
| BasePath.PopResolves | Filter/CssDumpFilter.php:77-86 | the "../" the corrected loop emits lead from the target's directory to the directory it stopped at, or to the root once that directory is emptied |
| BasePath.DescendToSource | Filter/CssDumpFilter.php:87 | the tail of line 87 leads from the directory where the corrected loop stopped (a '/'-aligned prefix of the source path, or the root) down to the source's directory |
| BasePath.AlignedPrefixReachesSource | Filter/CssDumpFilter.php:58-88 | with the corrected test, the prefix leads from the target's directory to the source's directory, in all three branches |
| BasePath.Translate | Filter/CssDumpFilter.php:58-89 | as written: the host is empty exactly on the same host, and the prefix is empty or ends in '/' |
| BasePath.AlignedTranslate | Filter/CssDumpFilter.php:58-89 | the corrected translator differs from the code only in the same-host prefix: it has the same host, and the same host and prefix for a URL-rooted source |
| BasePath.TranslateLeadsBack | Filter/CssDumpFilter.php:58-89 | host and prefix as written rebuild a URL-rooted source's URL; on the same host the corrected prefix leads from the target's directory to the source's, and so does the prefix as written when either path is at the root |
| Rewriter.Classify | Filter/CssDumpFilter.php:95-103 | absolute exactly for "://", a leading "//" or "data:"; root-relative only for a leading single '/'; document-relative only without a leading '/' |
| Rewriter.CursorUp | Filter/CssDumpFilter.php:108 | the cursor steps to a prefix of itself, strictly shorter whenever the loop guard holds |
| Rewriter.CursorUpCutsLastSegment | Filter/CssDumpFilter.php:108 | when the right-trimmed cursor still has a '/', the step cuts just after it, so the cursor ends in '/' |
| Rewriter.CursorUpIsParent | Filter/CssDumpFilter.php:108 | on a directory in the "a/b/" form, one step of the cursor is its parent directory, again in that form |
| Rewriter.ClimbFromDirectory | Filter/CssDumpFilter.php:106-110 | from a directory in the "a/b/" form, a climb that consumes every "../" ends where the reference resolved against the directory leads |
| Rewriter.Climb | Filter/CssDumpFilter.php:106-110 | the URL is the consumed "../" followed by what is left; on exit the URL does not start with "../" or the cursor has fewer than two '/'; the cursor ends as a prefix of the start, strictly shorter after any step |
| Rewriter.ClimbAgreesWithResolve | Filter/CssDumpFilter.php:106-112 | from the source directory as reported (no trailing '/'), a climb of at least one step that consumes every "../" ends where the reference leads; with no step the source file is the directory and the URL with nothing between |
| Rewriter.UnclimbedSourceMissesSeparator | Filter/CssDumpFilter.php:112 | a reference without a leading "../" gives the source file `d + url`, which is not where the reference leads from `d/` |
| Rewriter.JoinedClimbResolves | Filter/CssDumpFilter.php:106-112 | the climb started at the source directory with its '/' ends where the reference leads once every "../" is used up, with or without a step |
| Rewriter.RenameReference | Filter/CssDumpFilter.php:112-128 | the source file and the destination carry no query or fragment |
| Rewriter.RenameNamesRelativeAsset | Filter/CssDumpFilter.php:118-120 | the relative asset is what follows the first `rootDir`-length characters of the source file (the text after `rootDir` when the file lies under it, "" when the file is shorter); the asset name is `generateAssetName` applied to it |
| Rewriter.RenameReadsClimbedSource | Filter/CssDumpFilter.php:105-113 | from the source directory as reported, the file the asset is named after is the reference resolved against the directory, query stripped, once a climb step ran and every "../" is used up; without a step it is the directory and the reference glued together, query stripped |
| Rewriter.RenameShape | Filter/CssDumpFilter.php:122-133 | the file name is the asset name, '_' and the reference's last field; the new reference replaces only that field; the destination is the climbed URL's directory under `rootDir + "web/"` holding the file, unqueried |
| Rewriter.RenameKeepsDirectories | Filter/CssDumpFilter.php:130-133 | for a '/'-free asset name, the new reference keeps every directory segment and every '/' of the original, and its last field is the new file name |
| Rewriter.RewriteToken | Filter/CssDumpFilter.php:95-103 | absolute references come back unchanged, as do root-relative ones on the same host and tokens not containing the URL |
| Rewriter.Replacement | Filter/CssDumpFilter.php:97-102 | absolute and root-relative URLs end their replacement |
| Rewriter.RewriteInSlot | Filter/CssDumpFilter.php:153 | a URL found only in its slot is replaced there by the host-prefixed or renamed URL, the rest of the token unchanged |
| Rewriter.RootRelativeGetsHost | Filter/CssDumpFilter.php:100-102 | a root-relative URL in a token with no other '/' gets the host in front, and the rest of the token stays |
| DumpFilter.RewriteAll | Filter/CssDumpFilter.php:91-156 | text stays, and each reference becomes the callback's token, position by position |
| DumpFilter.Skips | Filter/CssDumpFilter.php:54 | an asset is skipped exactly when a path is missing or the two paths are equal |
| DumpFilter.FilterDump | Filter/CssDumpFilter.php:54-56 | a skipped asset comes back unchanged; otherwise only the content changes, piece for piece |
| DumpFilter.RewriteAllKeepsText | Filter/CssDumpFilter.php:95-103 | content whose references the callback returns unchanged reads the same after rewriting |
| DumpFilter.SameHostKeepsContent | Filter/CssDumpFilter.php:68 | a same-host stylesheet with only absolute and root-relative references comes out reading as it went in |
| DumpFilter.RewriteAllConcat | Filter/CssDumpFilter.php:91 | rewriting two pieces of content one after the other is rewriting them together |
| DumpFilter.RenderConcat | Filter/CssDumpFilter.php:158 | the rendered content of a concatenation is the concatenation of the renderings |
| DumpFilter.FilterDumpSplits | Filter/CssDumpFilter.php:91-158 | the filtered stylesheet reads as its two halves rewritten apart and joined, so no reference depends on the content around it |

## Findings

| source | as written | input that shows it | evidently intended | confidence | as-written member | corrected member |
|---|---|---|---|---|---|---|
| Filter/CssDumpFilter.php:77 | the pop loop stops once `targetDir` is a textual prefix of `sourcePath`, even in the middle of a directory name | source "ab/x.css", target "a/y.css" (the lemma with `a` = "a", `b` = "b"): the prefix is "b/", which from "a/" leads to "a/b/" instead of "ab/" | stop only when `targetDir . '/'` starts `sourcePath`, so the prefix is "../ab/" | medium, not executed | BasePath.SameHostPrefix, BasePath.TextualPrefixMisleads | BasePath.AlignedSameHostPrefix, BasePath.AlignedPrefixReachesSource, BasePath.AlignedTranslate, BasePath.TranslateLeadsBack |
| Filter/CssDumpFilter.php:93-112 | the climb cursor starts at the source directory, which has no trailing '/', so a reference without a leading "../" is glued straight onto it | source directory "/var/www/css", reference "img/a.png": the source file is "/var/www/cssimg/a.png", but the reference leads to "/var/www/css/img/a.png" | start the cursor at `$sourceDir . '/'`, so the source file is the reference resolved against the directory whenever every "../" is used up, with or without a step | medium, not executed | Rewriter.ClimbAgreesWithResolve, Rewriter.UnclimbedSourceMissesSeparator, Rewriter.RenameReadsClimbedSource | Rewriter.JoinedClimb, Rewriter.JoinedClimbResolves |

`BasePath.Translate` and `Rewriter.RenameReference` follow the code as written.
The corrected readings are `BasePath.AlignedTranslate` and
`Rewriter.JoinedClimb`. `DumpFilter.FilterDump` does not use the prefix at
all, as in the code.

## Left out

- The file system side effects of lines 135-151 are not modelled. These are
  `is_dir`/`mkdir`, reading the source asset, writing the destination, the
  two `RuntimeException`s and the echoed warning. They are I/O. The names
  they would use (`originalAsset`, `destination`) are modelled.
- `$this->kernel->getRootDir()` and its `substr(..., 0, -3)` (lines 115-116)
  are not modelled. The trimmed root directory is the parameter `rootDir`.
- `generateAssetName` (line 120) is a foreign call. It is the parameter
  `name`, which makes it a deterministic function of the relative asset
  path.
- The reference scanner `filterReferences` lives in the base CSS filter and
  is not part of this model. Content is given as `Text`/`Ref` pieces, and
  `setContent` (line 158) is the returned asset's content.
- The constructor (lines 37-41) and the empty `filterLoad` (lines 43-45) are
  left out, because they do nothing to the content.
- `Strings.Dirname` is PHP's `dirname` only on simple relative paths: no
  leading or trailing '/', and no empty segment. `BasePath.TranslateLeadsBack`
  requires such paths. `BasePath.Translate`, `BasePath.SameHostPrefix` and
  their corrected versions compute the simplified reading on any input.
- The loose `==` of line 54 is modelled as string equality. PHP's numeric
  comparison of numeric strings is not modelled.
- The PHP version's answer to `strpos` with an empty needle (line 77) is
  taken to be 0, as in PHP 8, so an emptied `targetDir` stops the loop.
- `Strings.ReplaceAll` treats an empty search as "no change", as PHP 8's
  `str_replace` does.
- The asset's source root is a plain string. A null source root behaves as
  one without "://" and is not separately modelled.
- Determinism of the rename (the same inputs give the same names) holds
  because every member is a function. It is not stated as a separate lemma.
- Rewriter.RenameNamesRelativeAsset and Rewriter.CursorUp count characters, while PHP
  strings are bytes. `substr($originalAsset, strlen($rootDir))` (line 118)
  cuts by bytes. The two agree when `rootDir` is a prefix of the source
  file or the text is ASCII. Otherwise the relative asset, and so the
  generated name, can differ. The same holds for the one byte that line
  108 keeps when no '/' is left.
- Rewriter.CursorUp: a cursor with no '/' left after trimming is cut after
  its first character. Only its being a shorter prefix is stated for that
  case, because it has no directory reading.
