/** The older single-file server `display.py`: one document, an index cache of one entry
    (`lru_cache(maxsize=1)`) that also keeps a failed load, no replace rules, and the clamping
    paginator. */
module Display {
  import opened Wrappers
  import opened JsonValue
  import opened Paths
  import opened Indexer
  import opened Resolver
  import opened Views

  class DisplayApp {
    const perPage: int
    /** The working directory `os.path.abspath` resolves relative base roots against. */
    const cwd: seq<string>

    /** `cached_raw_data`, `None` until the document has been read. */
    var raw: Option<Json>
    /** The value `load_image_data`'s cache holds, `None` when it is empty. */
    var indexCache: Option<Index>
    /** The shallow copies (their top-level entries) waiting in `save_queue`. */
    var queue: seq<seq<Entry>>
    /** Puts not yet matched by a `task_done`. */
    var unfinished: nat
    /** Drained copies whose write raised, so that `task_done` was skipped. */
    var failedSaves: nat
    /** What the save consumer last wrote to the document's file; `None` while it holds no
        document written by the consumer, also after a write cut short by a failed dump. */
    var disk: Option<Json>

    /** A queued copy shares the `img` dict of the document in memory; a cached index without a
        document in memory is the cached failure, which is empty. */
    ghost predicate Valid()
      reads this
    {
      unfinished == |queue| + failedSaves &&
      (queue != [] ==> raw.Some? && raw.value.Obj? && HasKey(raw.value.entries, ImgKey)) &&
      (raw.None? && indexCache.Some? ==> indexCache.value == EmptyIndex)
    }

    constructor(perPage: int, cwd: seq<string>)
      ensures Valid()
      ensures this.perPage == perPage && this.cwd == cwd
      ensures raw == None && indexCache == None && queue == [] && unfinished == 0 && failedSaves == 0 && disk == None
    {
      this.perPage := perPage;
      this.cwd := cwd;
      raw := None;
      indexCache := None;
      queue := [];
      unfinished := 0;
      failedSaves := 0;
      disk := None;
    }

    // -------------------------------------------------------------------------------------
    // Loading and the one-entry cache.

    /** The document in memory after a load, where `read` is what reading the file gives. The
        file is read only when neither the index cache nor the document is there. */
    function RawAfterLoad(raw: Option<Json>, ic: Option<Index>, read: Option<Json>): (r: Option<Json>)
      ensures raw.Some? || ic.Some? ==> r == raw
      ensures r.Some? ==> raw.Some? || read.Some?
    {
      if ic.Some? || raw.Some? then raw else read
    }

    /** What `load_image_data` returns: the cached value, or else `({}, {})` when the read fails,
        or else the index of the document (`Err` where the walk raises). */
    function Loaded(raw: Option<Json>, ic: Option<Index>, read: Option<Json>): (r: Result<Index>)
      ensures ic.Some? ==> r == Ok(ic.value)
      ensures ic.None? && raw.Some? ==> r == BuildIndex(raw.value, cwd)
      ensures ic.None? && raw.None? ==> r == if read.Some? then BuildIndex(read.value, cwd) else Ok(EmptyIndex)
    {
      if ic.Some? then Ok(ic.value)
      else match RawAfterLoad(raw, ic, read)
        case None => Ok(EmptyIndex)
        case Some(d) => BuildIndex(d, cwd)
    }

    /** The cache after a load: whatever the call returned, the failure `({}, {})` included;
        nothing when it raised. */
    function CacheAfterLoad(raw: Option<Json>, ic: Option<Index>, read: Option<Json>): (r: Option<Index>)
      ensures ic.Some? ==> r == ic
      ensures r.None? <==> Loaded(raw, ic, read).Err?
    {
      if ic.Some? then ic
      else match Loaded(raw, ic, read)
        case Ok(ix) => Some(ix)
        case Err(_) => None
    }

    method LoadImageData(read: Option<Json>) returns (r: Result<Index>)
      requires Valid()
      modifies this`raw, this`indexCache
      ensures Valid()
      ensures r == Loaded(old(raw), old(indexCache), read)
      ensures raw == RawAfterLoad(old(raw), old(indexCache), read)
      ensures indexCache == CacheAfterLoad(old(raw), old(indexCache), read)
    {
      if indexCache.Some? {
        return Ok(indexCache.value);
      }
      if raw.None? {
        if read.None? {
          indexCache := Some(EmptyIndex);
          return Ok(EmptyIndex);
        }
        raw := read;
      }
      r := IndexDocument(raw.value, cwd);
      if r.Ok? {
        indexCache := Some(r.value);
      }
    }

    /** Unlike `web.py`, a failed first read is remembered: until a like succeeds (its own read
        fills the document and it empties the cache), every later load returns the empty index
        without reading the file again, whatever the file now holds, and changes nothing. */
    lemma FailedReadSticks(read: Option<Json>, later: Option<Json>)
      requires read.None?
      ensures var raw1 := RawAfterLoad(None, None, read);
        var ic1 := CacheAfterLoad(None, None, read);
        raw1 == None && ic1 == Some(EmptyIndex) &&
        Loaded(raw1, ic1, later) == Ok(EmptyIndex) &&
        RawAfterLoad(raw1, ic1, later) == raw1 && CacheAfterLoad(raw1, ic1, later) == ic1
    {
    }

    /** Once the document is in memory, a load with an empty cache indexes that document and
        never reads the file. */
    lemma LoadedDocumentIsIndexed(doc: Json, read: Option<Json>, read': Option<Json>)
      ensures Loaded(Some(doc), None, read) == Loaded(Some(doc), None, read') == BuildIndex(doc, cwd)
      ensures RawAfterLoad(Some(doc), None, read) == Some(doc)
    {
    }

    // -------------------------------------------------------------------------------------
    // Views.

    /** `render_category_view`, with the `_favorites` list built by its nested loop. */
    method RenderCategoryView(page: int, category: Option<string>, read: Option<Json>) returns (r: Result<Page>)
      requires Valid()
      modifies this`raw, this`indexCache
      ensures Valid()
      ensures raw == RawAfterLoad(old(raw), old(indexCache), read)
      ensures indexCache == CacheAfterLoad(old(raw), old(indexCache), read)
      ensures r == match Loaded(old(raw), old(indexCache), read)
        case Err(m) => Err(m)
        case Ok(ix) => DisplayPage(ix.categories, page, perPage, category)
    {
      var ix := LoadImageData(read);
      if ix.Err? {
        return Err(ix.message);
      }
      var cats := ix.value.categories;
      var items;
      if category == Some(FavoritesView) {
        items := CollectFavorites(cats);
      } else {
        items := DisplayItems(cats, category);
      }
      assert items == DisplayItems(cats, category);
      var p := PaginateClamped(items, page, perPage);
      if p.Err? {
        return Err(p.message);
      }
      r := Ok(Page(p.value.0, page, p.value.1, SortedNames(cats)));
    }

    /** `show_categories`: the page of sorted category names and the page count. */
    method ShowCategories(page: int, read: Option<Json>) returns (r: Result<(seq<string>, int)>)
      requires Valid()
      modifies this`raw, this`indexCache
      ensures Valid()
      ensures raw == RawAfterLoad(old(raw), old(indexCache), read)
      ensures indexCache == CacheAfterLoad(old(raw), old(indexCache), read)
      ensures r == match Loaded(old(raw), old(indexCache), read)
        case Err(m) => Err(m)
        case Ok(ix) => PaginateClamped(SortedNames(ix.categories), page, perPage)
    {
      var ix := LoadImageData(read);
      if ix.Err? {
        return Err(ix.message);
      }
      r := PaginateClamped(SortedNames(ix.value.categories), page, perPage);
    }

    /** `get_category_thumbnail`. */
    method GetCategoryThumbnail(category: string, read: Option<Json>) returns (r: Result<Option<ImageRecord>>)
      requires Valid()
      modifies this`raw, this`indexCache
      ensures Valid()
      ensures raw == RawAfterLoad(old(raw), old(indexCache), read)
      ensures indexCache == CacheAfterLoad(old(raw), old(indexCache), read)
      ensures r == match Loaded(old(raw), old(indexCache), read)
        case Err(m) => Err(m)
        case Ok(ix) => Thumbnail(ix.categories, category)
    {
      var ix := LoadImageData(read);
      if ix.Err? {
        return Err(ix.message);
      }
      r := Thumbnail(ix.value.categories, category);
    }

    /** `serve_image`: the file behind `unquote(category)/filename`, `None` for a 404. The route
        has already decoded `category` once; `unquote` is `urllib.parse.unquote`, applied again. */
    method ServeImage(category: string, filename: string, unquote: string -> string, read: Option<Json>) returns (r: Result<Option<FsPath>>)
      requires Valid()
      modifies this`raw, this`indexCache
      ensures Valid()
      ensures raw == RawAfterLoad(old(raw), old(indexCache), read)
      ensures indexCache == CacheAfterLoad(old(raw), old(indexCache), read)
      ensures r == match Loaded(old(raw), old(indexCache), read)
        case Err(m) => Err(m)
        case Ok(ix) => Ok(ServePath(ix.files, unquote, category, filename))
    {
      var ix := LoadImageData(read);
      if ix.Err? {
        return Err(ix.message);
      }
      r := Ok(ServePath(ix.value.files, unquote, category, filename));
    }

    // -------------------------------------------------------------------------------------
    // Liking and saving.

    /** `like_image`. Its "Missing path" answer is never given: a normalised path is never
        empty (`Render` ensures so). A success also empties the index cache. */
    method LikeImage(reqPath: Option<string>, action: Option<Json>, read: Option<Json>, now: string)
      returns (status: Status)
      requires Valid()
      modifies this`raw, this`indexCache, this`queue, this`unfinished
      ensures Valid()
      ensures var r := LikeRequest(old(raw), reqPath, action, read, cwd, now);
        status == r.1 &&
        raw == (if r.0.Some? then r.0 else old(raw)) &&
        queue == old(queue) + (if r.1 == Ok200 then [r.0.value.entries] else []) &&
        unfinished == old(unfinished) + (if r.1 == Ok200 then 1 else 0) &&
        indexCache == (if r.1 == Ok200 then None else old(indexCache))
    {
      ghost var expected := LikeRequest(raw, reqPath, action, read, cwd, now);
      if reqPath.None? {
        return Error500;
      }
      var like := action.GetOr(Str("like")) == Str("like");
      if raw.None? {
        if read.None? {
          return Error500;
        }
        raw := read;
      }
      var doc', st := LikeInDocument(raw.value, NormPath(reqPath.value), like, cwd, now);
      assert expected == (Some(doc'), st);
      raw := Some(doc');
      status := st;
      if st == Ok200 {
        queue := queue + [doc'.entries];
        unfinished := unfinished + 1;
        indexCache := None;
      }
    }

    /** One round of `save_consumer` with a copy waiting: open the file for writing
        (`openOk`), which truncates it, and dump the copy into it (`dumpOk`). A failure is
        logged and its `task_done` skipped; a dump that fails after the open leaves the file
        without a readable document. */
    method DrainOne(openOk: bool, dumpOk: bool)
      requires Valid() && queue != []
      modifies this`queue, this`unfinished, this`failedSaves, this`disk
      ensures Valid()
      ensures queue == old(queue[1..])
      ensures if openOk && dumpOk then
          disk == old(Some(Snapshot(queue[0], raw.value.entries))) &&
          unfinished == old(unfinished) - 1 && failedSaves == old(failedSaves)
        else
          disk == (if openOk then None else old(disk)) &&
          unfinished == old(unfinished) && failedSaves == old(failedSaves) + 1
    {
      var top := queue[0];
      queue := queue[1..];
      if !openOk {
        failedSaves := failedSaves + 1;
      } else if !dumpOk {
        disk := None;
        failedSaves := failedSaves + 1;
      } else {
        disk := Some(Snapshot(top, raw.value.entries));
        unfinished := unfinished - 1;
      }
    }
  }
}
