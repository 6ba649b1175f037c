/** The tree indexer: `walk_tree` over the nested `img` mapping of a document, producing the
    category map (category -> records in walk order) and the file map ("category/filename" -> path). */
module Indexer {
  import opened Wrappers
  import opened JsonValue
  import opened Text
  import opened Paths

  const FaceScoresKey := "face_scores"
  const LandmarksKey := "face_landmark_scores_68"
  const LikeKey := "like"

  /** The dict `img_info` built for one detection leaf. */
  datatype ImageRecord = ImageRecord(
    filename: string,
    category: string,
    path: FsPath,
    faceScores: Json,
    landmarkScores: Json,
    like: Json)

  /** The category of a leaf whose parent lies at `rel` below the base root: the relative
      directory with backslashes turned into slashes, or the base root's last segment. */
  function Category(rel: string, baseAbs: FsPath): string
  {
    var parent := ReplaceAll(rel, "\\", "/");
    if parent == "" then BaseName(baseAbs) else parent
  }

  /** The record for leaf `key` with entries `leaf`, reached at `rel` below `baseAbs`. */
  function MakeRecord(key: string, leaf: seq<Entry>, rel: string, baseAbs: FsPath): ImageRecord
  {
    ImageRecord(
      key,
      Category(rel, baseAbs),
      NormPath(PathJoin(PathJoin(Render(baseAbs), rel), key)),
      Get(leaf, FaceScoresKey).GetOr(Arr([])),
      Get(leaf, LandmarksKey).GetOr(Arr([])),
      Get(leaf, LikeKey).GetOr(Bool(false)))
  }

  /** What `walk_tree` emits for one `(key, value)` child: a dict with a `face_scores` key is a
      leaf (one record when its scores are truthy, none otherwise), any other dict is a directory
      walked recursively, and a value that is not a dict is ignored. */
  function ChildRecords(e: Entry, rel: string, baseAbs: FsPath): seq<ImageRecord>
    decreases e, 0
  {
    match e.value
    case Obj(sub) =>
      if HasKey(sub, FaceScoresKey) then
        if Truthy(Get(sub, FaceScoresKey).value) then [MakeRecord(e.key, sub, rel, baseAbs)] else []
      else TreeRecords(sub, PathJoin(rel, e.key), baseAbs)
    case _ => []
  }

  /** The records `walk_tree(node, rel, base_abs)` emits, in the order it emits them. */
  function TreeRecords(entries: seq<Entry>, rel: string, baseAbs: FsPath): seq<ImageRecord>
    decreases entries, 1
  {
    if entries == [] then []
    else
      var n := |entries| - 1;
      TreeRecords(entries[..n], rel, baseAbs) + ChildRecords(entries[n], rel, baseAbs)
  }

  /** The records of all base roots, walked in stored order; `Err` when a base root's value is
      not a dict (`node.items()` raises). */
  function BaseRecords(bases: seq<Entry>, cwd: seq<string>): Result<seq<ImageRecord>>
  {
    if bases == [] then Ok([])
    else
      var n := |bases| - 1;
      match BaseRecords(bases[..n], cwd)
      case Err(m) => Err(m)
      case Ok(prev) =>
        match bases[n].value
        case Obj(node) => Ok(prev + TreeRecords(node, "", AbsPath(cwd, bases[n].key)))
        case _ => Err("base root is not a mapping")
  }

  /** One category and its records, in the order they were appended. */
  datatype Bucket = Bucket(category: string, images: seq<ImageRecord>)

  /** `category_map` (in first-insertion order, as a dict keeps it) and `file_map`. */
  datatype Index = Index(categories: seq<Bucket>, files: map<string, FsPath>)

  const EmptyIndex := Index([], map[])

  predicate HasCategory(cats: seq<Bucket>, c: string)
  {
    exists i :: 0 <= i < |cats| && cats[i].category == c
  }

  /** `category_map.get(c, [])`. */
  function Images(cats: seq<Bucket>, c: string): seq<ImageRecord>
  {
    if cats == [] then []
    else if cats[0].category == c then cats[0].images
    else Images(cats[1..], c)
  }

  /** `category_map[r.category].append(r)` on a defaultdict. */
  function AppendImage(cats: seq<Bucket>, r: ImageRecord): seq<Bucket>
  {
    if cats == [] then [Bucket(r.category, [r])]
    else if cats[0].category == r.category then [Bucket(r.category, cats[0].images + [r])] + cats[1..]
    else [cats[0]] + AppendImage(cats[1..], r)
  }

  /** The `file_map` key of a record. */
  function FileKey(r: ImageRecord): string
  {
    r.category + "/" + r.filename
  }

  /** Both insertions `walk_tree` makes for one record. */
  function AddRecord(ix: Index, r: ImageRecord): Index
  {
    Index(AppendImage(ix.categories, r), ix.files[FileKey(r) := r.path])
  }

  function AddAll(ix: Index, recs: seq<ImageRecord>): Index
  {
    if recs == [] then ix
    else
      var n := |recs| - 1;
      AddRecord(AddAll(ix, recs[..n]), recs[n])
  }

  /** The pair `load_image_data` returns for a cached document; `Err` where Python raises:
      the document or a base root is not a dict, or `img` is neither a dict nor empty. */
  function BuildIndex(doc: Json, cwd: seq<string>): Result<Index>
  {
    match doc
    case Obj(top) =>
      (match Get(top, "img").GetOr(Obj([]))
       case Obj(bases) =>
         (match BaseRecords(bases, cwd)
          case Ok(recs) => Ok(AddAll(EmptyIndex, recs))
          case Err(m) => Err(m))
       case Arr(items) => if items == [] then Ok(EmptyIndex) else Err("img is not a mapping")
       case Str(s) => if s == [] then Ok(EmptyIndex) else Err("img is not a mapping")
       case _ => Err("img is not a mapping"))
    case _ => Err("document is not a mapping")
  }

  // ---------------------------------------------------------------------------------------
  // The walk as the source runs it: a loop over the children, recursing into directories.

  /** `walk_tree(node, rel, base_abs)`, adding what it finds to `ix`. */
  method WalkTree(entries: seq<Entry>, rel: string, baseAbs: FsPath, ix: Index) returns (r: Index)
    ensures r == AddAll(ix, TreeRecords(entries, rel, baseAbs))
    decreases entries
  {
    r := ix;
    for i := 0 to |entries|
      invariant r == AddAll(ix, TreeRecords(entries[..i], rel, baseAbs))
    {
      var e := entries[i];
      assert entries[..i + 1][..i] == entries[..i];
      AddAllAppend(ix, TreeRecords(entries[..i], rel, baseAbs), ChildRecords(e, rel, baseAbs));
      match e.value {
        case Obj(sub) =>
          if HasKey(sub, FaceScoresKey) {
            if Truthy(Get(sub, FaceScoresKey).value) {
              var rec := MakeRecord(e.key, sub, rel, baseAbs);
              assert [rec][..0] == [];
              r := AddRecord(r, rec);
            }
          } else {
            r := WalkTree(sub, PathJoin(rel, e.key), baseAbs, r);
          }
        case _ =>
      }
    }
    assert entries[..|entries|] == entries;
  }

  /** Lines 77-108 of `load_image_data`: the base-root loop over a cached document. */
  method IndexDocument(doc: Json, cwd: seq<string>) returns (r: Result<Index>)
    ensures r == BuildIndex(doc, cwd)
  {
    if !doc.Obj? {
      return Err("document is not a mapping");
    }
    var img := Get(doc.entries, "img").GetOr(Obj([]));
    match img {
      case Obj(bases) =>
        var ix := EmptyIndex;
        for i := 0 to |bases|
          invariant BaseRecords(bases[..i], cwd).Ok?
          invariant ix == AddAll(EmptyIndex, BaseRecords(bases[..i], cwd).value)
        {
          assert bases[..i + 1][..i] == bases[..i];
          match bases[i].value {
            case Obj(node) =>
              var baseAbs := AbsPath(cwd, bases[i].key);
              AddAllAppend(EmptyIndex, BaseRecords(bases[..i], cwd).value, TreeRecords(node, "", baseAbs));
              ix := WalkTree(node, "", baseAbs, ix);
            case _ =>
              BaseRecordsErrSticks(bases, cwd, i + 1);
              return Err("base root is not a mapping");
          }
        }
        assert bases[..|bases|] == bases;
        r := Ok(ix);
      case Arr(items) =>
        r := if items == [] then Ok(EmptyIndex) else Err("img is not a mapping");
      case Str(s) =>
        r := if s == [] then Ok(EmptyIndex) else Err("img is not a mapping");
      case _ =>
        r := Err("img is not a mapping");
    }
  }

  // ---------------------------------------------------------------------------------------
  // Properties of the walk and of the two maps.

  lemma {:induction false} AddAllAppend(ix: Index, a: seq<ImageRecord>, b: seq<ImageRecord>)
    ensures AddAll(ix, a + b) == AddAll(AddAll(ix, a), b)
  {
    if b == [] {
      assert a + b == a;
    } else {
      var n := |b| - 1;
      assert (a + b)[..|a| + n] == a + b[..n];
      AddAllAppend(ix, a, b[..n]);
    }
  }

  /** Once a base root fails, the whole walk fails with the same error. */
  lemma {:induction false} BaseRecordsErrSticks(bases: seq<Entry>, cwd: seq<string>, i: nat)
    requires i <= |bases| && BaseRecords(bases[..i], cwd).Err?
    ensures BaseRecords(bases, cwd) == BaseRecords(bases[..i], cwd)
  {
    if i < |bases| {
      var n := |bases| - 1;
      assert bases[..n][..i] == bases[..i];
      BaseRecordsErrSticks(bases[..n], cwd, i);
      assert bases[..n] == bases[..|bases| - 1];
    } else {
      assert bases[..i] == bases;
    }
  }

  /** A leaf whose `face_scores` is empty (or otherwise falsy) never reaches the index. */
  lemma {:induction false} RecordsHaveScores(entries: seq<Entry>, rel: string, baseAbs: FsPath)
    ensures forall r :: r in TreeRecords(entries, rel, baseAbs) ==> Truthy(r.faceScores)
    decreases entries, 1
  {
    if entries != [] {
      var n := |entries| - 1;
      RecordsHaveScores(entries[..n], rel, baseAbs);
      ChildHasScores(entries[n], rel, baseAbs);
    }
  }

  lemma {:induction false} ChildHasScores(e: Entry, rel: string, baseAbs: FsPath)
    ensures forall r :: r in ChildRecords(e, rel, baseAbs) ==> Truthy(r.faceScores)
    decreases e, 0
  {
    match e.value {
      case Obj(sub) =>
        if !HasKey(sub, FaceScoresKey) {
          RecordsHaveScores(sub, PathJoin(rel, e.key), baseAbs);
        }
      case _ =>
    }
  }

  /** `keys` leads from `entries` through directories (dicts without `face_scores`) to a dict
      whose `face_scores` is truthy, and `r` is the record made for that leaf. */
  ghost predicate LeafAt(entries: seq<Entry>, keys: seq<string>, rel: string, baseAbs: FsPath, r: ImageRecord)
    decreases |keys|
  {
    |keys| >= 1 &&
    exists i :: 0 <= i < |entries| && entries[i].key == keys[0] && entries[i].value.Obj? &&
      var sub := entries[i].value.entries;
      if |keys| == 1 then
        HasKey(sub, FaceScoresKey) && Truthy(Get(sub, FaceScoresKey).value) &&
        r == MakeRecord(keys[0], sub, rel, baseAbs)
      else
        !HasKey(sub, FaceScoresKey) && LeafAt(sub, keys[1..], PathJoin(rel, keys[0]), baseAbs, r)
  }

  /** The walk emits a record exactly for each leaf reachable through directories: it stops at
      every dict with `face_scores`, skips falsy scores, ignores non-dicts and enters every other dict. */
  lemma RecordsAreLeaves(entries: seq<Entry>, rel: string, baseAbs: FsPath, r: ImageRecord)
    ensures r in TreeRecords(entries, rel, baseAbs) <==> exists keys :: LeafAt(entries, keys, rel, baseAbs, r)
  {
    if r in TreeRecords(entries, rel, baseAbs) {
      var keys := RecordHasLeaf(entries, rel, baseAbs, r);
      assert LeafAt(entries, keys, rel, baseAbs, r);
    }
    if exists keys :: LeafAt(entries, keys, rel, baseAbs, r) {
      var keys :| LeafAt(entries, keys, rel, baseAbs, r);
      LeafHasRecord(entries, keys, rel, baseAbs, r);
    }
  }

  lemma {:induction false} RecordHasLeaf(entries: seq<Entry>, rel: string, baseAbs: FsPath, r: ImageRecord)
    returns (keys: seq<string>)
    requires r in TreeRecords(entries, rel, baseAbs)
    ensures LeafAt(entries, keys, rel, baseAbs, r)
    decreases entries, 1
  {
    var n := |entries| - 1;
    if r in TreeRecords(entries[..n], rel, baseAbs) {
      keys := RecordHasLeaf(entries[..n], rel, baseAbs, r);
      LeafAtWider(entries[..n], entries, keys, rel, baseAbs, r);
    } else {
      keys := ChildHasLeaf(entries, n, rel, baseAbs, r);
    }
  }

  lemma {:induction false} ChildHasLeaf(entries: seq<Entry>, i: nat, rel: string, baseAbs: FsPath, r: ImageRecord)
    returns (keys: seq<string>)
    requires i < |entries| && r in ChildRecords(entries[i], rel, baseAbs)
    ensures LeafAt(entries, keys, rel, baseAbs, r)
    decreases entries[i], 0
  {
    var e := entries[i];
    var sub := e.value.entries;
    if HasKey(sub, FaceScoresKey) {
      keys := [e.key];
    } else {
      var rest := RecordHasLeaf(sub, PathJoin(rel, e.key), baseAbs, r);
      keys := [e.key] + rest;
      assert keys[1..] == rest;
    }
  }

  /** A leaf reachable in a prefix of the children stays reachable. */
  lemma LeafAtWider(entries: seq<Entry>, wider: seq<Entry>, keys: seq<string>, rel: string, baseAbs: FsPath, r: ImageRecord)
    requires |entries| <= |wider| && wider[..|entries|] == entries
    requires LeafAt(entries, keys, rel, baseAbs, r)
    ensures LeafAt(wider, keys, rel, baseAbs, r)
  {
    var i :| 0 <= i < |entries| && entries[i].key == keys[0] && entries[i].value.Obj? &&
      var sub := entries[i].value.entries;
      if |keys| == 1 then
        HasKey(sub, FaceScoresKey) && Truthy(Get(sub, FaceScoresKey).value) &&
        r == MakeRecord(keys[0], sub, rel, baseAbs)
      else
        !HasKey(sub, FaceScoresKey) && LeafAt(sub, keys[1..], PathJoin(rel, keys[0]), baseAbs, r);
    assert wider[i] == entries[i];
  }

  lemma {:induction false} LeafHasRecord(entries: seq<Entry>, keys: seq<string>, rel: string, baseAbs: FsPath, r: ImageRecord)
    requires LeafAt(entries, keys, rel, baseAbs, r)
    ensures r in TreeRecords(entries, rel, baseAbs)
    decreases |keys|
  {
    var i :| 0 <= i < |entries| && entries[i].key == keys[0] && entries[i].value.Obj? &&
      var sub := entries[i].value.entries;
      if |keys| == 1 then
        HasKey(sub, FaceScoresKey) && Truthy(Get(sub, FaceScoresKey).value) &&
        r == MakeRecord(keys[0], sub, rel, baseAbs)
      else
        !HasKey(sub, FaceScoresKey) && LeafAt(sub, keys[1..], PathJoin(rel, keys[0]), baseAbs, r);
    var sub := entries[i].value.entries;
    if |keys| > 1 {
      LeafHasRecord(sub, keys[1..], PathJoin(rel, keys[0]), baseAbs, r);
    }
    assert r in ChildRecords(entries[i], rel, baseAbs);
    ChildInTree(entries, i, rel, baseAbs);
  }

  /** Every record of a child is among the records of its parent. */
  lemma {:induction false} ChildInTree(entries: seq<Entry>, i: nat, rel: string, baseAbs: FsPath)
    requires i < |entries|
    ensures forall r :: r in ChildRecords(entries[i], rel, baseAbs) ==> r in TreeRecords(entries, rel, baseAbs)
  {
    var n := |entries| - 1;
    if i < n {
      ChildInTree(entries[..n], i, rel, baseAbs);
      assert entries[..n][i] == entries[i];
    }
  }

  /** The records filed under category `c`, in walk order. */
  function InCategory(recs: seq<ImageRecord>, c: string): seq<ImageRecord>
  {
    if recs == [] then []
    else
      var n := |recs| - 1;
      InCategory(recs[..n], c) + (if recs[n].category == c then [recs[n]] else [])
  }

  lemma {:induction false} AppendImageEffect(cats: seq<Bucket>, r: ImageRecord, c: string)
    ensures Images(AppendImage(cats, r), c) == Images(cats, c) + (if r.category == c then [r] else [])
    ensures HasCategory(AppendImage(cats, r), c) <==> HasCategory(cats, c) || r.category == c
  {
    if cats != [] && cats[0].category != r.category {
      AppendImageEffect(cats[1..], r, c);
      var a := AppendImage(cats, r);
      assert a == [cats[0]] + AppendImage(cats[1..], r);
      if HasCategory(cats, c) && cats[0].category != c {
        var i :| 0 <= i < |cats| && cats[i].category == c;
        assert cats[1..][i - 1].category == c;
      }
      if HasCategory(AppendImage(cats[1..], r), c) {
        var i :| 0 <= i < |AppendImage(cats[1..], r)| && AppendImage(cats[1..], r)[i].category == c;
        assert a[i + 1].category == c;
      }
      if HasCategory(a, c) && cats[0].category != c {
        var i :| 0 <= i < |a| && a[i].category == c;
        assert AppendImage(cats[1..], r)[i - 1].category == c;
      }
      if HasCategory(cats[1..], c) {
        var i :| 0 <= i < |cats[1..]| && cats[1..][i].category == c;
        assert cats[i + 1].category == c;
      }
    } else if cats != [] {
      var a := AppendImage(cats, r);
      if HasCategory(cats, c) {
        var i :| 0 <= i < |cats| && cats[i].category == c;
        assert a[i].category == c;
      }
      if HasCategory(a, c) {
        var i :| 0 <= i < |a| && a[i].category == c;
        assert cats[i].category == c;
      }
    }
  }

  /** Each category list holds exactly that category's records in walk order, and a category
      is present exactly when some record carries it. */
  lemma {:induction false} CategoryLists(recs: seq<ImageRecord>, c: string)
    ensures Images(AddAll(EmptyIndex, recs).categories, c) == InCategory(recs, c)
    ensures HasCategory(AddAll(EmptyIndex, recs).categories, c) <==> InCategory(recs, c) != []
  {
    if recs != [] {
      var n := |recs| - 1;
      CategoryLists(recs[..n], c);
      AppendImageEffect(AddAll(EmptyIndex, recs[..n]).categories, recs[n], c);
    }
  }

  /** The path of the last record, in walk order, whose file key is `k`. */
  function LastPath(recs: seq<ImageRecord>, k: string): Option<FsPath>
  {
    if recs == [] then None
    else
      var n := |recs| - 1;
      if FileKey(recs[n]) == k then Some(recs[n].path) else LastPath(recs[..n], k)
  }

  /** `file_map["category/filename"]` holds the path of the last-walked record with that key. */
  lemma {:induction false} FileMapLastWins(recs: seq<ImageRecord>, k: string)
    ensures k in AddAll(EmptyIndex, recs).files <==> LastPath(recs, k).Some?
    ensures k in AddAll(EmptyIndex, recs).files ==> AddAll(EmptyIndex, recs).files[k] == LastPath(recs, k).value
  {
    if recs != [] {
      FileMapLastWins(recs[..|recs| - 1], k);
    }
  }

  /** All category lists one after the other, in category insertion order. */
  function Flatten(cats: seq<Bucket>): seq<ImageRecord>
  {
    if cats == [] then [] else cats[0].images + Flatten(cats[1..])
  }

  lemma {:induction false} FlattenAppend(cats: seq<Bucket>, r: ImageRecord)
    ensures multiset(Flatten(AppendImage(cats, r))) == multiset(Flatten(cats)) + multiset{r}
  {
    if cats != [] && cats[0].category != r.category {
      FlattenAppend(cats[1..], r);
    }
  }

  /** The category lists together hold every record once: a permutation of the walk. */
  lemma {:induction false} FlattenIsWalk(recs: seq<ImageRecord>)
    ensures multiset(Flatten(AddAll(EmptyIndex, recs).categories)) == multiset(recs)
  {
    if recs != [] {
      var n := |recs| - 1;
      FlattenIsWalk(recs[..n]);
      FlattenAppend(AddAll(EmptyIndex, recs[..n]).categories, recs[n]);
      assert recs == recs[..n] + [recs[n]];
    }
  }
}
