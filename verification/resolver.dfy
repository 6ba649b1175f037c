/** The `like_image` resolver: find the base root a request path lies under, walk the remaining
    segments through the nested `img` mapping with `setdefault`, and set the `like` flag of the
    addressed node. Python mutates the cached document in place; here every step returns the
    document as it stands afterwards, also when a step raises. */
module Resolver {
  import opened Wrappers
  import opened JsonValue
  import opened Text
  import opened Paths
  import Indexer

  const ImgKey := "img"
  const LikeKey := "like"
  const DateKey := "date_updated"

  /** How the walk for one base root ended, with that base root's value as it stands afterwards. */
  datatype Walked =
    | Raised(node: Json)    // a step applied a dict operation to a non-dict (HTTP 500)
    | Missing(node: Json)   // the last segment is absent or falsy: try the next base root
    | Marked(node: Json)    // the flag was set

  /** The response status of a like request. */
  datatype Status = Ok200 | NotFound404 | Error500

  /** `current = node; for part in parts[:-1]: current = current.setdefault(part, {})`, then
      `file_node = current.get(parts[-1])` and, when truthy, `file_node['like'] = like`. */
  function Resolve(node: Json, parts: seq<string>, like: bool): Walked
    requires |parts| >= 1
    decreases |parts|
  {
    if !node.Obj? then Raised(node)
    else if |parts| == 1 then
      match Get(node.entries, parts[0])
      case None => Missing(node)
      case Some(v) =>
        if !Truthy(v) then Missing(node)
        else if v.Obj? then Marked(Obj(Put(node.entries, parts[0], Obj(Put(v.entries, LikeKey, Bool(like))))))
        else Raised(node)
    else
      var (es, child) := SetDefault(node.entries, parts[0], Obj([]));
      var w := Resolve(child, parts[1..], like);
      w.(node := Obj(Put(es, parts[0], w.node)))
  }

  /** How the loop over the base roots ended, with the `img` entries as they stand afterwards. */
  datatype Outcome = Found(img: seq<Entry>) | NotFound(img: seq<Entry>) | Failed(img: seq<Entry>)

  function KeysOf(entries: seq<Entry>): (keys: seq<string>)
    ensures |keys| == |entries| && forall i :: 0 <= i < |entries| ==> keys[i] == entries[i].key
  {
    if entries == [] then [] else [entries[0].key] + KeysOf(entries[1..])
  }

  /** `for base in list(img_data.keys())`: a base root the request is not under is skipped, a
      relative request raises in `commonpath`, a missing leaf moves on to the next base root. */
  function TryBases(img: seq<Entry>, keys: seq<string>, req: FsPath, like: bool, cwd: seq<string>): Outcome
    decreases |keys|
  {
    if keys == [] then NotFound(img)
    else
      var base := AbsPath(cwd, keys[0]);
      match IsUnder(base, req)
      case None => Failed(img)
      case Some(under) =>
        if !under then TryBases(img, keys[1..], req, like, cwd)
        else
          match Get(img, keys[0])
          case None => Failed(img)
          case Some(node) =>
            match Resolve(node, RelParts(base, req), like)
            case Raised(n) => Failed(Put(img, keys[0], n))
            case Missing(n) => TryBases(Put(img, keys[0], n), keys[1..], req, like, cwd)
            case Marked(n) => Found(Put(img, keys[0], n))
  }

  /** The body of `like_image` on the cached document `doc` for the normalised request path
      `req`: the document afterwards and the response status. The timestamp `now` is
      stored under `date_updated` only on success. */
  function LikeDocument(doc: Json, req: FsPath, like: bool, cwd: seq<string>, now: string): (r: (Json, Status))
    ensures doc.Obj? ==> r.0.Obj? && HasKey(r.0.entries, ImgKey)
    ensures r.1 == Ok200 ==> doc.Obj? && Get(r.0.entries, DateKey) == Some(Str(now))
  {
    match doc
    case Obj(top) =>
      var (top1, img) := SetDefault(top, ImgKey, Obj([]));
      (match img
       case Obj(bases) =>
         (match TryBases(bases, KeysOf(bases), req, like, cwd)
          case Found(b) => (Obj(Put(Put(top1, ImgKey, Obj(b)), DateKey, Str(now))), Ok200)
          case NotFound(b) => (Obj(Put(top1, ImgKey, Obj(b))), NotFound404)
          case Failed(b) => (Obj(Put(top1, ImgKey, Obj(b))), Error500))
       case _ => (Obj(top1), Error500))
    case _ => (doc, Error500)
  }

  /** What `like_image` does to the selected document: `cached` is the document already in
      memory, `reqPath` the request's `path` (`None` when missing or not a string), `action` its
      `action` (`None` when missing), `read` what reading the file gives should nothing be in
      memory yet (`None` where it raises), `now` the clock. The result is the document to keep in
      memory (`None` when there is none) and the status. */
  function LikeRequest(cached: Option<Json>, reqPath: Option<string>, action: Option<Json>,
                       read: Option<Json>, cwd: seq<string>, now: string): (r: (Option<Json>, Status))
    ensures r.0.None? ==> r.1 == Error500
    ensures reqPath.None? ==> r.0.None?
    ensures r.0.Some? ==> (cached.Some? || read.Some?)
    ensures r.1 == Ok200 ==>
      (r.0.Some? && r.0.value.Obj? && HasKey(r.0.value.entries, ImgKey) &&
       Get(r.0.value.entries, DateKey) == Some(Str(now)))
    ensures cached.Some? && cached.value.Obj? && HasKey(cached.value.entries, ImgKey) && r.0.Some? ==>
      r.0.value.Obj? && HasKey(r.0.value.entries, ImgKey)
  {
    if reqPath.None? then (None, Error500)
    else
      var doc := if cached.Some? then cached else read;
      if doc.None? then (None, Error500)
      else
        var like := action.GetOr(Str("like")) == Str("like");
        var (doc', st) := LikeDocument(doc.value, NormPath(reqPath.value), like, cwd, now);
        (Some(doc'), st)
  }

  /** What a queued shallow copy amounts to when it is written: the top-level entries it was
      queued with, and the `img` dict as the live document holds it then (the copy shares it).
      So likes made after it was queued are written too, while every other entry,
      `date_updated` among them, is the one it was queued with. */
  function Snapshot(top: seq<Entry>, live: seq<Entry>): (r: Json)
    requires HasKey(live, ImgKey)
    ensures r.Obj?
    ensures Get(r.entries, ImgKey) == Get(live, ImgKey)
    ensures forall k :: k != ImgKey ==> Get(r.entries, k) == Get(top, k)
  {
    PutOthers(top, ImgKey, Get(live, ImgKey).value);
    Obj(Put(top, ImgKey, Get(live, ImgKey).value))
  }

  /** A copy written before any later like is written exactly as it was queued. */
  lemma SnapshotOfUnchanged(top: seq<Entry>)
    requires HasKey(top, ImgKey)
    ensures Snapshot(top, top) == Obj(top)
  {
    PutGet(top, ImgKey);
  }

  // ---------------------------------------------------------------------------------------
  // The loops as the source runs them.

  /** The dicts `current` passed through on the way down, each with the segment taken from it. */
  datatype Frame = Frame(entries: seq<Entry>, key: string)

  /** Writing a walk's outcome back through the frames, innermost first: what Python achieves by
      mutating `current`, which aliases a dict inside the document. */
  function Wrap(frames: seq<Frame>, w: Walked): Walked
  {
    if frames == [] then w
    else
      var n := |frames| - 1;
      Wrap(frames[..n], Reattach(w, frames[n]))
  }

  /** The outcome of a walk below `f`, seen from the dict `f` was taken from. */
  function Reattach(w: Walked, f: Frame): Walked
  {
    w.(node := Obj(Put(f.entries, f.key, w.node)))
  }

  /** One step down: `setdefault` on `current`, remembering the frame. */
  lemma DescendStep(frames: seq<Frame>, current: Json, parts: seq<string>, i: nat, like: bool)
    requires current.Obj? && i < |parts| - 1
    ensures var (es, child) := SetDefault(current.entries, parts[i], Obj([]));
      Wrap(frames + [Frame(es, parts[i])], Resolve(child, parts[i + 1..], like)) ==
      Wrap(frames, Resolve(current, parts[i..], like))
  {
    var (es, child) := SetDefault(current.entries, parts[i], Obj([]));
    assert parts[i..][1..] == parts[i + 1..];
    assert (frames + [Frame(es, parts[i])])[..|frames|] == frames;
  }

  /** The descent `for part in parts[:-1]: current = current.setdefault(part, {})` followed by
      the look-up of `parts[-1]`. */
  method WalkParts(node: Json, parts: seq<string>, like: bool) returns (w: Walked)
    requires |parts| >= 1
    ensures w == Resolve(node, parts, like)
  {
    ghost var target := Resolve(node, parts, like);
    var current := node;
    var frames: seq<Frame> := [];
    var i := 0;
    while i < |parts| - 1 && current.Obj?
      invariant 0 <= i <= |parts| - 1
      invariant Wrap(frames, Resolve(current, parts[i..], like)) == target
    {
      var (es, child) := SetDefault(current.entries, parts[i], Obj([]));
      DescendStep(frames, current, parts, i, like);
      frames := frames + [Frame(es, parts[i])];
      current := child;
      i := i + 1;
    }
    var rest := parts[i..];
    assert |rest| == |parts| - i;
    assert Wrap(frames, Resolve(current, rest, like)) == target;
    var last := LookUpLast(current, rest, like);
    w := WriteBack(frames, last);
  }

  /** Carries the outcome back up through the frames, innermost first. */
  method WriteBack(frames: seq<Frame>, w0: Walked) returns (w: Walked)
    ensures w == Wrap(frames, w0)
  {
    w := w0;
    var k := |frames|;
    assert frames[..k] == frames;
    while k > 0
      invariant 0 <= k <= |frames|
      invariant Wrap(frames[..k], w) == Wrap(frames, w0)
    {
      assert frames[..k][..k - 1] == frames[..k - 1];
      w := Reattach(w, frames[k - 1]);
      k := k - 1;
    }
  }

  /** The end of the descent: a non-dict raises, otherwise `current.get(parts[-1])` decides. */
  method LookUpLast(current: Json, rest: seq<string>, like: bool) returns (w: Walked)
    requires |rest| >= 1 && (current.Obj? ==> |rest| == 1)
    ensures w == Resolve(current, rest, like)
  {
    if !current.Obj? {
      return Raised(current);
    }
    var fileNode := Get(current.entries, rest[0]);
    if fileNode.Some? && Truthy(fileNode.value) {
      if fileNode.value.Obj? {
        w := Marked(Obj(Put(current.entries, rest[0], Obj(Put(fileNode.value.entries, LikeKey, Bool(like))))));
      } else {
        w := Raised(current);
      }
    } else {
      w := Missing(current);
    }
  }

  /** `for base in list(img_data.keys())`, stopping at the first base root that resolves the request. */
  method TryBaseRoots(img: seq<Entry>, req: FsPath, like: bool, cwd: seq<string>) returns (out: Outcome)
    ensures out == TryBases(img, KeysOf(img), req, like, cwd)
  {
    var keys := KeysOf(img);
    var cur := img;
    var i := 0;
    while i < |keys|
      invariant 0 <= i <= |keys|
      invariant TryBases(cur, keys[i..], req, like, cwd) == TryBases(img, keys, req, like, cwd)
    {
      assert keys[i..][1..] == keys[i + 1..];
      var base := AbsPath(cwd, keys[i]);
      var under := IsUnder(base, req);
      if under.None? {
        return Failed(cur);
      }
      if under.value {
        var node := Get(cur, keys[i]);
        if node.None? {
          return Failed(cur);
        }
        var w := WalkParts(node.value, RelParts(base, req), like);
        match w {
          case Raised(n) => return Failed(Put(cur, keys[i], n));
          case Marked(n) => return Found(Put(cur, keys[i], n));
          case Missing(n) => cur := Put(cur, keys[i], n);
        }
      }
      i := i + 1;
    }
    out := NotFound(cur);
  }

  /** The locked block of `like_image` on the cached document. */
  method LikeInDocument(doc: Json, req: FsPath, like: bool, cwd: seq<string>, now: string) returns (doc': Json, status: Status)
    ensures (doc', status) == LikeDocument(doc, req, like, cwd, now)
  {
    if !doc.Obj? {
      return doc, Error500;
    }
    var (top1, img) := SetDefault(doc.entries, ImgKey, Obj([]));
    if !img.Obj? {
      return Obj(top1), Error500;
    }
    var out := TryBaseRoots(img.entries, req, like, cwd);
    var top2 := Put(top1, ImgKey, Obj(out.img));
    match out {
      case Found(_) =>
        doc', status := Obj(Put(top2, DateKey, Str(now))), Ok200;
      case NotFound(_) =>
        doc', status := Obj(top2), NotFound404;
      case Failed(_) =>
        doc', status := Obj(top2), Error500;
    }
  }

  // ---------------------------------------------------------------------------------------
  // Addressing nodes of a document.

  /** The node reached from `j` by looking up `path` one key at a time. */
  function NodeAt(j: Json, path: seq<string>): Option<Json>
    decreases |path|
  {
    if path == [] then Some(j)
    else if !j.Obj? then None
    else
      match Get(j.entries, path[0])
      case None => None
      case Some(c) => NodeAt(c, path[1..])
  }

  /** `j` with the node at `path` replaced by `v`. */
  function ReplaceAt(j: Json, path: seq<string>, v: Json): Json
    requires NodeAt(j, path).Some?
    decreases |path|
  {
    if path == [] then v
    else Obj(Put(j.entries, path[0], ReplaceAt(Get(j.entries, path[0]).value, path[1..], v)))
  }

  /** The node at `path` in `j` is a dict whose `like` flag is `like`. */
  ghost predicate LikeAt(j: Json, path: seq<string>, like: bool)
  {
    var t := NodeAt(j, path);
    t.Some? && t.value.Obj? && Get(t.value.entries, LikeKey) == Some(Bool(like))
  }

  lemma {:induction false} ReplaceThenAt(j: Json, path: seq<string>, v: Json)
    requires NodeAt(j, path).Some?
    ensures NodeAt(ReplaceAt(j, path, v), path) == Some(v)
    decreases |path|
  {
    if path != [] {
      ReplaceThenAt(Get(j.entries, path[0]).value, path[1..], v);
    }
  }

  // ---------------------------------------------------------------------------------------
  // A successful walk changes exactly the addressed flag.

  /** A freshly created `{}` never holds the addressed file: the walk below it only creates more empty dicts. */
  lemma {:induction false} FreshWalkMisses(parts: seq<string>, like: bool)
    requires |parts| >= 1
    ensures Resolve(Obj([]), parts, like).Missing?
    ensures Hollow(Resolve(Obj([]), parts, like).node)
    decreases |parts|
  {
    if |parts| > 1 {
      FreshWalkMisses(parts[1..], like);
      var n := Resolve(Obj([]), parts[1..], like).node;
      assert Put([Entry(parts[0], Obj([]))], parts[0], n) == [Entry(parts[0], n)];
    }
  }

  /** When the flag is set, the addressed node existed as a non-empty dict, and the document
      afterwards is the old one with only that node's `like` entry written. */
  lemma {:induction false} MarkedSetsFlag(node: Json, parts: seq<string>, like: bool)
    requires |parts| >= 1 && Resolve(node, parts, like).Marked?
    ensures NodeAt(node, parts).Some? && NodeAt(node, parts).value.Obj? && Truthy(NodeAt(node, parts).value)
    ensures Resolve(node, parts, like).node ==
      ReplaceAt(node, parts, Obj(Put(NodeAt(node, parts).value.entries, LikeKey, Bool(like))))
    ensures LikeAt(Resolve(node, parts, like).node, parts, like)
    decreases |parts|
  {
    var target := NodeAt(node, parts);
    if |parts| == 1 {
      var v := Get(node.entries, parts[0]).value;
      assert parts[1..] == [];
      assert NodeAt(v, parts[1..]) == Some(v);
    } else {
      var (es, child) := SetDefault(node.entries, parts[0], Obj([]));
      if !HasKey(node.entries, parts[0]) {
        FreshWalkMisses(parts[1..], like);
        assert false;
      }
      MarkedSetsFlag(child, parts[1..], like);
      assert target == NodeAt(child, parts[1..]);
    }
    ReplaceThenAt(node, parts, Obj(Put(target.value.entries, LikeKey, Bool(like))));
  }

  // ---------------------------------------------------------------------------------------
  // An unsuccessful walk only adds empty dicts.

  /** A dict holding nothing but (nested) empty dicts. */
  ghost predicate Hollow(j: Json)
  {
    j.Obj? && forall i :: 0 <= i < |j.entries| ==> Hollow(j.entries[i].value)
  }

  /** `b` is `a` with entries appended (at any depth) that hold only hollow dicts. */
  ghost predicate Extends(a: Json, b: Json)
  {
    a == b ||
    (a.Obj? && b.Obj? && |a.entries| <= |b.entries| &&
     (forall i :: 0 <= i < |a.entries| ==>
        b.entries[i].key == a.entries[i].key && Extends(a.entries[i].value, b.entries[i].value)) &&
     (forall i :: |a.entries| <= i < |b.entries| ==> Hollow(b.entries[i].value)))
  }

  lemma {:induction false} HollowExtends(a: Json, b: Json)
    requires Hollow(a) && Extends(a, b)
    ensures Hollow(b)
  {
    if a != b {
      forall i | 0 <= i < |b.entries| ensures Hollow(b.entries[i].value) {
        if i < |a.entries| {
          HollowExtends(a.entries[i].value, b.entries[i].value);
        }
      }
    }
  }

  lemma {:induction false} ExtendsTrans(a: Json, b: Json, c: Json)
    requires Extends(a, b) && Extends(b, c)
    ensures Extends(a, c)
  {
    if a != b && b != c {
      forall i | 0 <= i < |a.entries|
        ensures c.entries[i].key == a.entries[i].key && Extends(a.entries[i].value, c.entries[i].value)
      {
        ExtendsTrans(a.entries[i].value, b.entries[i].value, c.entries[i].value);
      }
      forall i | |a.entries| <= i < |c.entries| ensures Hollow(c.entries[i].value) {
        if i < |b.entries| {
          HollowExtends(b.entries[i].value, c.entries[i].value);
        }
      }
    }
  }

  /** Writing an extension of a present entry's value back extends the dict. */
  lemma PutExtends(es: seq<Entry>, k: string, v: Json)
    requires HasKey(es, k) && Extends(Get(es, k).value, v)
    ensures Extends(Obj(es), Obj(Put(es, k, v)))
  {
    var r := Put(es, k, v);
    var j := FirstIndex(es, k);
    forall i | 0 <= i < |es| ensures r[i].key == es[i].key && Extends(es[i].value, r[i].value) {
      if i != j {
        assert es[i].key != k || i > j;
        if es[i].key == k {
          assert r[i] == es[i];
        }
      }
    }
  }

  /** A walk that does not set the flag leaves the base root's value extended by empty dicts:
      `setdefault` may create intermediate dicts even on a miss. */
  lemma {:induction false} UnmarkedOnlyAddsHollow(node: Json, parts: seq<string>, like: bool)
    requires |parts| >= 1 && !Resolve(node, parts, like).Marked?
    ensures Extends(node, Resolve(node, parts, like).node)
    decreases |parts|
  {
    if node.Obj? && |parts| > 1 {
      var (es, child) := SetDefault(node.entries, parts[0], Obj([]));
      var w := Resolve(child, parts[1..], like);
      if HasKey(node.entries, parts[0]) {
        UnmarkedOnlyAddsHollow(child, parts[1..], like);
        PutExtends(node.entries, parts[0], w.node);
      } else {
        FreshWalkMisses(parts[1..], like);
        var r := Put(es, parts[0], w.node);
        assert r == node.entries + [Entry(parts[0], w.node)] by {
          FirstIndexUnique(es, parts[0], |node.entries|);
        }
        var b := Obj(r);
        assert forall i :: 0 <= i < |node.entries| ==> b.entries[i] == node.entries[i];
      }
    }
  }

  /** A base loop that does not report success leaves `img` extended by empty dicts. */
  lemma {:induction false} UnfoundOnlyAddsHollow(img: seq<Entry>, keys: seq<string>, req: FsPath, like: bool, cwd: seq<string>)
    requires !TryBases(img, keys, req, like, cwd).Found?
    ensures Extends(Obj(img), Obj(TryBases(img, keys, req, like, cwd).img))
    decreases |keys|
  {
    if keys != [] {
      var base := AbsPath(cwd, keys[0]);
      if IsUnder(base, req) == Some(false) {
        UnfoundOnlyAddsHollow(img, keys[1..], req, like, cwd);
      } else if IsUnder(base, req) == Some(true) && HasKey(img, keys[0]) {
        var node := Get(img, keys[0]).value;
        var parts := RelParts(base, req);
        var n := Resolve(node, parts, like).node;
        UnmarkedOnlyAddsHollow(node, parts, like);
        PutExtends(img, keys[0], n);
        if Resolve(node, parts, like).Missing? {
          var img' := Put(img, keys[0], n);
          UnfoundOnlyAddsHollow(img', keys[1..], req, like, cwd);
          ExtendsTrans(Obj(img), Obj(img'), Obj(TryBases(img', keys[1..], req, like, cwd).img));
        }
      }
    }
  }

  /** The request path below base root `keys[i]`, as a key path into `img`. */
  function PathBelow(keys: seq<string>, i: nat, req: FsPath, cwd: seq<string>): seq<string>
    requires i < |keys| && IsUnder(AbsPath(cwd, keys[i]), req) == Some(true)
  {
    [keys[i]] + RelParts(AbsPath(cwd, keys[i]), req)
  }

  /** `out` is what the loop leaves when `keys[i]` is the first base root that resolves the
      request: the roots before it were skipped or missed, which only added empty dicts to `img`,
      and then exactly the addressed dict below `keys[i]`, an existing non-empty one, had its
      `like` written. */
  ghost predicate FirstHit(img: seq<Entry>, keys: seq<string>, req: FsPath, like: bool, cwd: seq<string>,
                           i: int, out: seq<Entry>)
  {
    0 <= i < |keys| && IsUnder(AbsPath(cwd, keys[i]), req) == Some(true) &&
    var before := TryBases(img, keys[..i], req, like, cwd);
    var path := PathBelow(keys, i, req, cwd);
    var target := NodeAt(Obj(before.img), path);
    before.NotFound? && Extends(Obj(img), Obj(before.img)) &&
    target.Some? && target.value.Obj? && Truthy(target.value) &&
    Obj(out) == ReplaceAt(Obj(before.img), path, Obj(Put(target.value.entries, LikeKey, Bool(like))))
  }

  /** Setting the flag below one base root, seen from `img`. */
  lemma MarkedInImg(img: seq<Entry>, k: string, parts: seq<string>, like: bool)
    requires HasKey(img, k) && |parts| >= 1 && Resolve(Get(img, k).value, parts, like).Marked?
    ensures var node := Get(img, k).value;
      var target := NodeAt(Obj(img), [k] + parts);
      target == NodeAt(node, parts) && target.Some? && target.value.Obj? && Truthy(target.value) &&
      Obj(Put(img, k, Resolve(node, parts, like).node)) ==
        ReplaceAt(Obj(img), [k] + parts, Obj(Put(target.value.entries, LikeKey, Bool(like))))
  {
    var node := Get(img, k).value;
    MarkedSetsFlag(node, parts, like);
    assert ([k] + parts)[0] == k && ([k] + parts)[1..] == parts;
  }

  /** A success names the first base root that resolves the request, and the flag is set at the
      request's remaining segments below it; nothing else in `img` changed but for empty dicts
      the earlier misses appended. */
  lemma {:induction false} FoundSetsFlag(img: seq<Entry>, keys: seq<string>, req: FsPath, like: bool, cwd: seq<string>)
    requires TryBases(img, keys, req, like, cwd).Found?
    ensures exists i :: FirstHit(img, keys, req, like, cwd, i, TryBases(img, keys, req, like, cwd).img)
    ensures exists i :: (0 <= i < |keys| && IsUnder(AbsPath(cwd, keys[i]), req) == Some(true) &&
                         LikeAt(Obj(TryBases(img, keys, req, like, cwd).img), PathBelow(keys, i, req, cwd), like))
    decreases |keys|
  {
    var out := TryBases(img, keys, req, like, cwd).img;
    var i := FirstHitIndex(img, keys, req, like, cwd);
    var before := TryBases(img, keys[..i], req, like, cwd);
    var path := PathBelow(keys, i, req, cwd);
    var target := NodeAt(Obj(before.img), path);
    var v := Obj(Put(target.value.entries, LikeKey, Bool(like)));
    ReplaceThenAt(Obj(before.img), path, v);
  }

  /** The witness of `FoundSetsFlag`, by induction over the base roots. */
  lemma {:induction false} FirstHitIndex(img: seq<Entry>, keys: seq<string>, req: FsPath, like: bool, cwd: seq<string>)
    returns (i: nat)
    requires TryBases(img, keys, req, like, cwd).Found?
    ensures FirstHit(img, keys, req, like, cwd, i, TryBases(img, keys, req, like, cwd).img)
    decreases |keys|
  {
    var base := AbsPath(cwd, keys[0]);
    var out := TryBases(img, keys, req, like, cwd).img;
    if IsUnder(base, req) == Some(false) {
      assert TryBases(img, keys[1..], req, like, cwd).img == out;
      var j := FirstHitIndex(img, keys[1..], req, like, cwd);
      SkipStep(img, keys, req, like, cwd, j, out);
      i := j + 1;
    } else {
      var node := Get(img, keys[0]).value;
      var parts := RelParts(base, req);
      var n := Resolve(node, parts, like).node;
      if Resolve(node, parts, like).Marked? {
        i := 0;
        assert keys[..0] == [];
        MarkedInImg(img, keys[0], parts, like);
      } else {
        var img' := Put(img, keys[0], n);
        assert TryBases(img', keys[1..], req, like, cwd).img == out;
        var j := FirstHitIndex(img', keys[1..], req, like, cwd);
        MissStep(img, keys, req, like, cwd, j, out);
        i := j + 1;
      }
    }
  }

  /** A first hit past a skipped base root is a first hit from that root on. */
  lemma SkipStep(img: seq<Entry>, keys: seq<string>, req: FsPath, like: bool, cwd: seq<string>, j: nat, out: seq<Entry>)
    requires keys != [] && IsUnder(AbsPath(cwd, keys[0]), req) == Some(false)
    requires FirstHit(img, keys[1..], req, like, cwd, j, out)
    ensures FirstHit(img, keys, req, like, cwd, j + 1, out)
  {
    assert keys[..j + 1][1..] == keys[1..][..j];
    assert keys[j + 1] == keys[1..][j];
  }

  /** A first hit past a base root that missed is a first hit from that root on; the miss only
      added empty dicts. */
  lemma MissStep(img: seq<Entry>, keys: seq<string>, req: FsPath, like: bool, cwd: seq<string>, j: nat, out: seq<Entry>)
    requires keys != [] && IsUnder(AbsPath(cwd, keys[0]), req) == Some(true) && HasKey(img, keys[0])
    requires Resolve(Get(img, keys[0]).value, RelParts(AbsPath(cwd, keys[0]), req), like).Missing?
    requires FirstHit(Put(img, keys[0], Resolve(Get(img, keys[0]).value, RelParts(AbsPath(cwd, keys[0]), req), like).node),
                      keys[1..], req, like, cwd, j, out)
    ensures FirstHit(img, keys, req, like, cwd, j + 1, out)
  {
    var node := Get(img, keys[0]).value;
    var parts := RelParts(AbsPath(cwd, keys[0]), req);
    var img' := Put(img, keys[0], Resolve(node, parts, like).node);
    var before := TryBases(img', keys[1..][..j], req, like, cwd);
    MissPrefix(img, keys, req, like, cwd, j);
    MissExtends(img, keys[0], parts, like);
    ExtendsTrans(Obj(img), Obj(img'), Obj(before.img));
    assert keys[j + 1] == keys[1..][j];
  }

  /** The loop up to `keys[j + 1]` after a miss at `keys[0]` is the loop from `keys[1]` on the
      `img` that miss left. */
  lemma MissPrefix(img: seq<Entry>, keys: seq<string>, req: FsPath, like: bool, cwd: seq<string>, j: nat)
    requires j + 1 < |keys| && IsUnder(AbsPath(cwd, keys[0]), req) == Some(true) && HasKey(img, keys[0])
    requires Resolve(Get(img, keys[0]).value, RelParts(AbsPath(cwd, keys[0]), req), like).Missing?
    ensures TryBases(img, keys[..j + 1], req, like, cwd) ==
      TryBases(Put(img, keys[0], Resolve(Get(img, keys[0]).value, RelParts(AbsPath(cwd, keys[0]), req), like).node),
               keys[1..][..j], req, like, cwd)
  {
    assert keys[..j + 1][0] == keys[0] && keys[..j + 1][1..] == keys[1..][..j];
  }

  /** A miss below a present base root only adds empty dicts to `img`. */
  lemma MissExtends(img: seq<Entry>, k: string, parts: seq<string>, like: bool)
    requires HasKey(img, k) && |parts| >= 1 && Resolve(Get(img, k).value, parts, like).Missing?
    ensures Extends(Obj(img), Obj(Put(img, k, Resolve(Get(img, k).value, parts, like).node)))
  {
    var node := Get(img, k).value;
    UnmarkedOnlyAddsHollow(node, parts, like);
    PutExtends(img, k, Resolve(node, parts, like).node);
  }

  // ---------------------------------------------------------------------------------------
  // An addressed file that exists is found.

  /** When the request addresses an existing non-empty dict, the walk sets its flag. */
  lemma {:induction false} ExistingIsMarked(node: Json, parts: seq<string>, like: bool)
    requires |parts| >= 1
    requires NodeAt(node, parts).Some? && NodeAt(node, parts).value.Obj? && Truthy(NodeAt(node, parts).value)
    ensures Resolve(node, parts, like).Marked?
    decreases |parts|
  {
    var child := Get(node.entries, parts[0]).value;
    if |parts| > 1 {
      assert SetDefault(node.entries, parts[0], Obj([])).1 == child;
      ExistingIsMarked(child, parts[1..], like);
    }
  }

  /** The loop reports success when, after base roots that were skipped or missed without
      raising, a base root containing the request holds an existing non-empty dict at the
      request's remaining segments. With `FoundSetsFlag`, the loop succeeds exactly then. */
  lemma {:induction false} PresentIsFound(img: seq<Entry>, keys: seq<string>, req: FsPath, like: bool, cwd: seq<string>, i: nat)
    requires i < |keys| && IsUnder(AbsPath(cwd, keys[i]), req) == Some(true)
    requires TryBases(img, keys[..i], req, like, cwd).NotFound?
    requires var t := NodeAt(Obj(TryBases(img, keys[..i], req, like, cwd).img), PathBelow(keys, i, req, cwd));
      t.Some? && t.value.Obj? && Truthy(t.value)
    ensures TryBases(img, keys, req, like, cwd).Found?
    decreases i
  {
    var base := AbsPath(cwd, keys[0]);
    if i == 0 {
      assert keys[..0] == [];
      var path := PathBelow(keys, 0, req, cwd);
      var parts := RelParts(base, req);
      assert path[0] == keys[0] && path[1..] == parts;
      ExistingIsMarked(Get(img, keys[0]).value, parts, like);
    } else {
      assert keys[..i][0] == keys[0] && keys[..i][1..] == keys[1..][..i - 1];
      assert keys[1..][i - 1] == keys[i];
      assert PathBelow(keys, i, req, cwd) == PathBelow(keys[1..], i - 1, req, cwd);
      if IsUnder(base, req) == Some(false) {
        PresentIsFound(img, keys[1..], req, like, cwd, i - 1);
      } else {
        var node := Get(img, keys[0]).value;
        var n := Resolve(node, RelParts(base, req), like).node;
        PresentIsFound(Put(img, keys[0], n), keys[1..], req, like, cwd, i - 1);
      }
    }
  }

  /** A like request on a dict document answers 200 when, after base roots that were skipped or
      missed without raising, a base root of `img` (a missing `img` being `{}`) containing the
      request holds an existing non-empty dict at the request's remaining segments. */
  lemma PresentIsLiked(doc: Json, req: FsPath, like: bool, cwd: seq<string>, now: string, i: nat)
    requires doc.Obj? && Get(doc.entries, ImgKey).GetOr(Obj([])).Obj?
    requires var bases := Get(doc.entries, ImgKey).GetOr(Obj([])).entries;
      var keys := KeysOf(bases);
      i < |keys| && IsUnder(AbsPath(cwd, keys[i]), req) == Some(true) &&
      TryBases(bases, keys[..i], req, like, cwd).NotFound? &&
      var t := NodeAt(Obj(TryBases(bases, keys[..i], req, like, cwd).img), PathBelow(keys, i, req, cwd));
      t.Some? && t.value.Obj? && Truthy(t.value)
    ensures LikeDocument(doc, req, like, cwd, now).1 == Ok200
  {
    var bases := Get(doc.entries, ImgKey).GetOr(Obj([])).entries;
    assert SetDefault(doc.entries, ImgKey, Obj([])).1 == Obj(bases);
    PresentIsFound(bases, KeysOf(bases), req, like, cwd, i);
  }

  /** `setdefault('img', {})` on the document only adds an empty dict. */
  lemma SetDefaultImgExtends(top: seq<Entry>)
    ensures Extends(Obj(top), Obj(SetDefault(top, ImgKey, Obj([])).0))
  {
    var top1 := SetDefault(top, ImgKey, Obj([])).0;
    if !HasKey(top, ImgKey) {
      assert top1 == top + [Entry(ImgKey, Obj([]))];
      assert Hollow(Obj([]));
      forall i | 0 <= i < |top| ensures top1[i].key == top[i].key && Extends(top[i].value, top1[i].value) {
        assert top1[i] == top[i];
      }
    }
  }

  /** A like request that does not succeed changes the document only by adding empty dicts. */
  lemma LikeFailureOnlyAddsHollow(doc: Json, req: FsPath, like: bool, cwd: seq<string>, now: string)
    requires LikeDocument(doc, req, like, cwd, now).1 != Ok200
    ensures Extends(doc, LikeDocument(doc, req, like, cwd, now).0)
  {
    if doc.Obj? {
      var r := LikeDocument(doc, req, like, cwd, now).0;
      var (top1, img) := SetDefault(doc.entries, ImgKey, Obj([]));
      SetDefaultImgExtends(doc.entries);
      if img.Obj? {
        var out := TryBases(img.entries, KeysOf(img.entries), req, like, cwd);
        UnfoundOnlyAddsHollow(img.entries, KeysOf(img.entries), req, like, cwd);
        PutExtends(top1, ImgKey, Obj(out.img));
        ExtendsTrans(doc, Obj(top1), r);
      }
    }
  }

  /** A like request that succeeds set the flag at the request's segments below one of the
      document's base roots, the first one in stored order that the request lies under and that
      resolves it. Apart from that one `like` entry and empty dicts appended by the misses
      before it, `img` is unchanged, and every top-level entry but `img` and `date_updated`
      keeps its value. */
  lemma LikeSuccessSetsFlag(doc: Json, req: FsPath, like: bool, cwd: seq<string>, now: string)
    requires LikeDocument(doc, req, like, cwd, now).1 == Ok200
    ensures var img := Get(LikeDocument(doc, req, like, cwd, now).0.entries, ImgKey);
      img.Some? && img.value.Obj? &&
      exists k :: (k in KeysOf(img.value.entries) && IsUnder(AbsPath(cwd, k), req) == Some(true) &&
                   LikeAt(img.value, [k] + RelParts(AbsPath(cwd, k), req), like))
    ensures var img0 := Get(doc.entries, ImgKey).GetOr(Obj([]));
      var img := Get(LikeDocument(doc, req, like, cwd, now).0.entries, ImgKey);
      img0.Obj? && img.Some? && img.value.Obj? &&
      exists i :: FirstHit(img0.entries, KeysOf(img0.entries), req, like, cwd, i, img.value.entries)
    ensures forall k :: k != ImgKey && k != DateKey ==>
      Get(LikeDocument(doc, req, like, cwd, now).0.entries, k) == Get(doc.entries, k)
  {
    var (top1, img) := SetDefault(doc.entries, ImgKey, Obj([]));
    var bases := img.entries;
    var keys := KeysOf(bases);
    var out := TryBases(bases, keys, req, like, cwd);
    FoundSetsFlag(bases, keys, req, like, cwd);
    var i :| 0 <= i < |keys| && IsUnder(AbsPath(cwd, keys[i]), req) == Some(true) &&
      LikeAt(Obj(out.img), PathBelow(keys, i, req, cwd), like);
    var t1 := Put(top1, ImgKey, Obj(out.img));
    PutOther(t1, DateKey, Str(now), ImgKey);
    KeysKept(bases, out.img, keys, req, like, cwd);
    assert KeysOf(out.img)[i] == keys[i];
    PutOthers(t1, DateKey, Str(now));
    PutOthers(top1, ImgKey, Obj(out.img));
    PutOthers(doc.entries, ImgKey, Obj([]));
  }

  /** The base loop never drops or reorders a base root. */
  lemma {:induction false} KeysKept(img: seq<Entry>, out: seq<Entry>, keys: seq<string>, req: FsPath, like: bool, cwd: seq<string>)
    requires out == TryBases(img, keys, req, like, cwd).img
    ensures |KeysOf(img)| <= |KeysOf(out)| && KeysOf(out)[..|img|] == KeysOf(img)
    decreases |keys|
  {
    if keys != [] {
      var base := AbsPath(cwd, keys[0]);
      if IsUnder(base, req) == Some(false) {
        KeysKept(img, out, keys[1..], req, like, cwd);
      } else if IsUnder(base, req) == Some(true) && HasKey(img, keys[0]) {
        var node := Get(img, keys[0]).value;
        var n := Resolve(node, RelParts(base, req), like).node;
        var img' := Put(img, keys[0], n);
        if Resolve(node, RelParts(base, req), like).Missing? {
          KeysKept(img', out, keys[1..], req, like, cwd);
        }
      }
    }
  }

  /** The side effect of a miss can hide images: a request for `<base>/d/face_scores/x`, which
      names no file, adds an empty `face_scores` to directory `d`; from then on the indexer
      takes `d` for a leaf with empty scores and skips it, with every image below it. */
  lemma MissCanHideDirectory(baseAbs: FsPath)
    ensures
      var leaf := Obj([Entry("face_scores", Arr([Num(1.0)]))]);
      var d := Obj([Entry("x.jpg", leaf)]);
      var d' := Obj([Entry("x.jpg", leaf), Entry("face_scores", Obj([]))]);
      Resolve(Obj([Entry("d", d)]), ["d", "face_scores", "x"], true) == Missing(Obj([Entry("d", d')])) &&
      |Indexer.ChildRecords(Entry("d", d), "", baseAbs)| == 1 &&
      Indexer.ChildRecords(Entry("d", d'), "", baseAbs) == []
  {
    var leaf := Obj([Entry("face_scores", Arr([Num(1.0)]))]);
    var d := Obj([Entry("x.jpg", leaf)]);
    var d' := Obj([Entry("x.jpg", leaf), Entry("face_scores", Obj([]))]);
    MissAddsScores(leaf, d, d');
    DirectoryIndexed(leaf, d, baseAbs);
    assert Get(d'.entries, "face_scores") == Some(Obj([])) by {
      FirstIndexUnique(d'.entries, "face_scores", 1);
    }
  }

  lemma MissAddsScores(leaf: Json, d: Json, d': Json)
    requires d == Obj([Entry("x.jpg", leaf)])
    requires d' == Obj([Entry("x.jpg", leaf), Entry("face_scores", Obj([]))])
    ensures Resolve(Obj([Entry("d", d)]), ["d", "face_scores", "x"], true) == Missing(Obj([Entry("d", d')]))
  {
    var parts := ["d", "face_scores", "x"];
    assert parts[1..] == ["face_scores", "x"];
    assert parts[1..][1..] == ["x"];
    assert !HasKey(d.entries, "face_scores") by {
      assert d.entries[0].key != "face_scores";
    }
    var (es, child) := SetDefault(d.entries, "face_scores", Obj([]));
    assert es == d'.entries && child == Obj([]);
    assert Resolve(Obj([]), ["x"], true) == Missing(Obj([]));
    assert Put(d'.entries, "face_scores", Obj([])) == d'.entries by {
      FirstIndexUnique(d'.entries, "face_scores", 1);
    }
    assert Resolve(d, ["face_scores", "x"], true) == Missing(d');
    assert Get([Entry("d", d)], "d") == Some(d);
    assert HasKey([Entry("d", d)], "d");
    assert Put([Entry("d", d)], "d", d') == [Entry("d", d')];
  }

  lemma DirectoryIndexed(leaf: Json, d: Json, baseAbs: FsPath)
    requires leaf == Obj([Entry("face_scores", Arr([Num(1.0)]))])
    requires d == Obj([Entry("x.jpg", leaf)])
    ensures |Indexer.ChildRecords(Entry("d", d), "", baseAbs)| == 1
  {
    assert !HasKey(d.entries, "face_scores") by {
      assert d.entries[0].key != "face_scores";
    }
    assert HasKey(leaf.entries, "face_scores") by {
      assert leaf.entries[0].key == "face_scores";
    }
    var rel := PathJoin("", "d");
    assert [Entry("x.jpg", leaf)][..0] == [];
    assert Indexer.TreeRecords([Entry("x.jpg", leaf)], rel, baseAbs) == Indexer.ChildRecords(Entry("x.jpg", leaf), rel, baseAbs);
  }
}
