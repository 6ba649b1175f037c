/** POSIX path handling as `os.path` does it, with a normalised path kept as its segments. */
module Paths {
  import opened Text
  import opened Wrappers

  /** What `os.path.normpath` returns: a leading `/` or not, and the components between separators. */
  datatype FsPath = FsPath(absolute: bool, segs: seq<string>)

  /** One step of normpath's component loop: drop `""` and `"."`; `".."` removes the previous
      component unless there is none to remove (kept on a relative path, dropped at the root). */
  function NormStep(acc: seq<string>, comp: string, absolute: bool): seq<string>
  {
    if comp == "" || comp == "." then acc
    else if comp != ".." || (!absolute && acc == []) || (acc != [] && acc[|acc| - 1] == "..") then acc + [comp]
    else if acc != [] then acc[..|acc| - 1]
    else acc
  }

  function Collapse(acc: seq<string>, comps: seq<string>, absolute: bool): seq<string>
    decreases |comps|
  {
    if comps == [] then acc else Collapse(NormStep(acc, comps[0], absolute), comps[1..], absolute)
  }

  /** A segment `normpath` can leave in an absolute path. */
  predicate PlainSegment(seg: string)
  {
    seg != "" && seg != "." && seg != ".." && '/' !in seg
  }

  /** `os.path.normpath(s)`. */
  function NormPath(s: string): FsPath
  {
    var absolute := |s| > 0 && s[0] == '/';
    FsPath(absolute, Collapse([], SplitOn(s, '/'), absolute))
  }

  /** The string `normpath` returns. */
  function Render(p: FsPath): (r: string)
    ensures r != ""
  {
    var body := JoinWith(p.segs, '/');
    if p.absolute then "/" + body else if body == "" then "." else body
  }

  /** `os.path.abspath(os.path.normpath(s))` for the working directory `cwd` (its segments). */
  function AbsPath(cwd: seq<string>, s: string): (p: FsPath)
    ensures p.absolute
  {
    var n := NormPath(s);
    if n.absolute then n else FsPath(true, Collapse(cwd, n.segs, true))
  }

  /** `os.path.basename` of a normalised absolute path: its last segment, or `""` for the root. */
  function BaseName(p: FsPath): string
  {
    if p.segs == [] then "" else p.segs[|p.segs| - 1]
  }

  /** `os.path.commonpath([base, req]) == base` for a normalised absolute `base`: `None` when
      `req` is relative (commonpath raises ValueError on a mix), else whether `base` is a
      directory-boundary prefix of `req`. */
  function IsUnder(base: FsPath, req: FsPath): (r: Option<bool>)
    requires base.absolute
    ensures r.Some? <==> req.absolute
    ensures r == Some(true) ==> |base.segs| <= |req.segs| && req.segs[..|base.segs|] == base.segs
  {
    if !req.absolute then None
    else Some(|base.segs| <= |req.segs| && req.segs[..|base.segs|] == base.segs)
  }

  /** `os.path.relpath(req, base).replace('\\', '/').split('/')` for `req` under `base`. */
  function RelParts(base: FsPath, req: FsPath): (parts: seq<string>)
    requires |base.segs| <= |req.segs|
    ensures |parts| >= 1
  {
    var rest := req.segs[|base.segs|..];
    var rel := if rest == [] then "." else JoinWith(rest, '/');
    SplitOn(ReplaceAll(rel, "\\", "/"), '/')
  }

  /** Below a base, the parts are the remaining segments themselves when no segment holds a backslash. */
  lemma RelPartsPlain(base: FsPath, req: FsPath)
    requires |base.segs| < |req.segs|
    requires forall i :: 0 <= i < |req.segs| ==> PlainSegment(req.segs[i]) && '\\' !in req.segs[i]
    ensures RelParts(base, req) == req.segs[|base.segs|..]
  {
    var rest := req.segs[|base.segs|..];
    var rel := JoinWith(rest, '/');
    JoinNoChar(rest, '/', '\\');
    LeadAbsent(rel, "\\");
    ReplaceAbsent(rel, "\\", "/");
    SplitJoin(rest, '/');
  }

  /** A character that no part and not the separator is, is not in the joined string. */
  lemma {:induction false} JoinNoChar(parts: seq<string>, sep: char, c: char)
    requires c != sep
    requires forall i :: 0 <= i < |parts| ==> c !in parts[i]
    ensures c !in JoinWith(parts, sep)
  {
    if |parts| > 1 {
      JoinNoChar(parts[1..], sep, c);
    }
  }
}
