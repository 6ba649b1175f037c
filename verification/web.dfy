/** `WebApp` of `web.py`: several document sources selected per session, a per-path document
    cache, the replace pipeline around the JSON codec, the like request and the save queue. */
module Web {
  import opened Wrappers
  import opened JsonValue
  import opened Paths
  import opened ReplaceRules
  import opened Indexer
  import opened Resolver
  import opened Views

  /** One `(json_path, data.copy())` waiting in `save_queue`. The copy is shallow: it fixes the
      document's top-level entries, while its `img` value is the dict the cache still holds and
      later requests keep mutating. */
  datatype SaveItem = SaveItem(path: string, top: seq<Entry>)

  /** The session index after `get_current_json_path`: kept when in range, otherwise reset to 0.
      A session without an index stays without one and reads as 0. */
  function SettledSession(s: Option<nat>, n: nat): (r: Option<nat>)
    ensures n > 0 ==> r.GetOr(0) < n
    ensures s.GetOr(0) < n ==> r == s
    ensures s.GetOr(0) >= n ==> r == Some(0)
  {
    if s.GetOr(0) < n then s else Some(0)
  }

  /** Choosing an index in range makes it the one every later request reads. */
  lemma SelectedIsRead(i: nat, n: nat)
    requires i < n
    ensures SettledSession(Some(i), n) == Some(i)
  {
  }

  class WebApp {
    const jsonFiles: seq<string>
    const rules: seq<Rule>
    const perPage: int
    /** The working directory `os.path.abspath` resolves relative base roots against. */
    const cwd: seq<string>
    /** `json.dumps` and `json.loads` (`None` where it raises). */
    const dumps: Json -> string
    const loads: string -> Option<Json>

    /** `session['current_json_index']` of the one client modelled. */
    var session: Option<nat>
    /** `cached_raw_data`: path -> document. */
    var cache: map<string, Json>
    var queue: seq<SaveItem>
    /** Puts not yet matched by a `task_done`; `save_queue.join()` returns only at 0. */
    var unfinished: nat
    /** Drained items whose save raised, so that `task_done` was skipped. */
    var failedSaves: nat
    /** What the save consumer has written, per path; a path whose last write was cut short
        after truncating the file holds no readable document and is absent. */
    var disk: map<string, Json>

    /** Every queued item's path is cached as a dict with an `img` entry, which the shallow copy
        shares; every put is matched by a `task_done` except those of failed saves. */
    ghost predicate Valid()
      reads this
    {
      |jsonFiles| > 0 &&
      unfinished == |queue| + failedSaves &&
      forall i :: 0 <= i < |queue| ==>
        queue[i].path in cache && cache[queue[i].path].Obj? && HasKey(cache[queue[i].path].entries, ImgKey)
    }

    constructor(jsonFiles: seq<string>, rules: seq<Rule>, perPage: int, cwd: seq<string>,
                dumps: Json -> string, loads: string -> Option<Json>)
      requires jsonFiles != []
      ensures Valid()
      ensures this.jsonFiles == jsonFiles && this.rules == rules && this.perPage == perPage && this.cwd == cwd
      ensures this.dumps == dumps && this.loads == loads
      ensures session == None && cache == map[] && queue == [] && unfinished == 0 && failedSaves == 0 && disk == map[]
    {
      this.jsonFiles := jsonFiles;
      this.rules := rules;
      this.perPage := perPage;
      this.cwd := cwd;
      this.dumps := dumps;
      this.loads := loads;
      session := None;
      cache := map[];
      queue := [];
      unfinished := 0;
      failedSaves := 0;
      disk := map[];
    }

    // -------------------------------------------------------------------------------------
    // The replace pipeline around the codec.

    /** `apply_replace_rules`: with no rules the document itself, otherwise the rules applied
        to its serialisation, read back; `None` where reading back raises. */
    function ApplyDoc(data: Json): (r: Option<Json>)
      ensures rules == [] ==> r == Some(data)
    {
      if rules == [] then Some(data) else loads(ApplyAll(rules, dumps(data)))
    }

    /** `reverse_replace_rules`. */
    function ReverseDoc(data: Json): (r: Option<Json>)
      ensures rules == [] ==> r == Some(data)
    {
      if rules == [] then Some(data) else loads(ReverseAll(rules, dumps(data)))
    }

    method ApplyReplaceRules(data: Json) returns (r: Option<Json>)
      ensures r == ApplyDoc(data)
    {
      if rules == [] {
        return Some(data);
      }
      var text := ApplyText(rules, dumps(data));
      r := loads(text);
    }

    method ReverseReplaceRules(data: Json) returns (r: Option<Json>)
      ensures r == ReverseDoc(data)
    {
      if rules == [] {
        return Some(data);
      }
      var text := ReverseText(rules, dumps(data));
      r := loads(text);
    }

    /** Saving a loaded document writes back what was read, provided the rules are reversible on
        its serialisation and the codec reads its own output back (and re-serialises what it
        read to the same text). */
    lemma SaveRestoresLoaded(raw: Json, loaded: Json)
      requires ApplyDoc(raw) == Some(loaded)
      requires Reversible(rules, dumps(raw))
      requires loads(dumps(raw)) == Some(raw)
      requires rules != [] ==> dumps(loaded) == ApplyAll(rules, dumps(raw))
      ensures ReverseDoc(loaded) == Some(raw)
    {
      if rules != [] {
        RoundTrip(rules, dumps(raw));
      }
    }

    // -------------------------------------------------------------------------------------
    // Source selection and the document cache.

    /** The file the session selects once `get_current_json_path` has settled it. */
    function SettledPath(s: Option<nat>): string
      requires |jsonFiles| > 0
    {
      jsonFiles[SettledSession(s, |jsonFiles|).GetOr(0)]
    }

    method GetCurrentJsonPath() returns (path: string)
      requires Valid()
      modifies this`session
      ensures Valid()
      ensures session == SettledSession(old(session), |jsonFiles|)
      ensures path == SettledPath(old(session))
    {
      var current := session.GetOr(0);
      if current >= |jsonFiles| {
        current := 0;
        session := Some(current);
      }
      path := jsonFiles[current];
    }

    /** `select_json`: the index is stored only when it is in range. */
    method SelectJson(jsonIndex: int)
      modifies this`session
      ensures session == if 0 <= jsonIndex < |jsonFiles| then Some(jsonIndex) else old(session)
    {
      if 0 <= jsonIndex < |jsonFiles| {
        session := Some(jsonIndex);
      }
    }

    /** The cache after `load_image_data` for `path`, where `read` is what reading and parsing
        the file gives (`None` where it raises): filled only on a miss whose read and
        replacement both succeed. */
    function LoadedCache(c: map<string, Json>, path: string, read: Option<Json>): (r: map<string, Json>)
      ensures path in c ==> r == c
      ensures path !in c ==> (path in r <==> read.Some? && ApplyDoc(read.value).Some?)
      ensures path in r && path !in c ==> r == c[path := ApplyDoc(read.value).value]
      ensures path !in r ==> r == c
    {
      if path in c then c
      else if read.Some? && ApplyDoc(read.value).Some? then c[path := ApplyDoc(read.value).value]
      else c
    }

    /** The index `load_image_data` returns: built from the cached document, or empty when the
        load failed. */
    function LoadedIndex(c: map<string, Json>, path: string, read: Option<Json>): Result<Index>
    {
      var c' := LoadedCache(c, path, read);
      if path in c' then BuildIndex(c'[path], cwd) else Ok(EmptyIndex)
    }

    /** A cached document is never read again; a failed load leaves nothing behind, so the next
        load of that path reads the file afresh. */
    lemma CacheOnlyOnSuccess(c: map<string, Json>, path: string, read: Option<Json>, read': Option<Json>)
      ensures path in c ==> LoadedIndex(c, path, read) == LoadedIndex(c, path, read') == BuildIndex(c[path], cwd)
      ensures path !in LoadedCache(c, path, read) ==>
        LoadedIndex(c, path, read) == Ok(EmptyIndex) &&
        LoadedCache(LoadedCache(c, path, read), path, read') == LoadedCache(c, path, read')
    {
    }

    method LoadImageData(read: Option<Json>) returns (r: Result<Index>)
      requires Valid()
      modifies this`session, this`cache
      ensures Valid()
      ensures session == SettledSession(old(session), |jsonFiles|)
      ensures cache == LoadedCache(old(cache), SettledPath(old(session)), read)
      ensures r == LoadedIndex(old(cache), SettledPath(old(session)), read)
    {
      var path := GetCurrentJsonPath();
      if path !in cache {
        if read.None? {
          return Ok(EmptyIndex);
        }
        var data := ApplyReplaceRules(read.value);
        if data.None? {
          return Ok(EmptyIndex);
        }
        cache := cache[path := data.value];
      }
      r := IndexDocument(cache[path], cwd);
    }

    // -------------------------------------------------------------------------------------
    // Views.

    /** `render_category_view`; `Err` where loading or `paginate` raises. */
    method RenderCategoryView(page: int, category: Option<string>, seed: Option<string>,
                              shuffled: seq<ImageRecord> -> seq<ImageRecord>, read: Option<Json>)
      returns (r: Result<Page>)
      requires Valid() && Shuffles(shuffled)
      modifies this`session, this`cache
      ensures Valid()
      ensures session == SettledSession(old(session), |jsonFiles|)
      ensures cache == LoadedCache(old(cache), SettledPath(old(session)), read)
      ensures r == match LoadedIndex(old(cache), SettledPath(old(session)), read)
        case Err(m) => Err(m)
        case Ok(ix) => WebPage(ix.categories, page, perPage, category, seed, shuffled)
    {
      var ix := LoadImageData(read);
      if ix.Err? {
        return Err(ix.message);
      }
      r := WebPage(ix.value.categories, page, perPage, category, seed, shuffled);
    }

    /** `get_category_thumbnail`. */
    method GetCategoryThumbnail(category: string, read: Option<Json>) returns (r: Result<Option<ImageRecord>>)
      requires Valid()
      modifies this`session, this`cache
      ensures Valid()
      ensures session == SettledSession(old(session), |jsonFiles|)
      ensures cache == LoadedCache(old(cache), SettledPath(old(session)), read)
      ensures r == match LoadedIndex(old(cache), SettledPath(old(session)), read)
        case Err(m) => Err(m)
        case Ok(ix) => Thumbnail(ix.categories, category)
    {
      var ix := LoadImageData(read);
      if ix.Err? {
        return Err(ix.message);
      }
      r := Thumbnail(ix.value.categories, category);
    }

    /** `show_categories`: the page of sorted category names and the page count. */
    method ShowCategories(page: int, read: Option<Json>) returns (r: Result<(seq<string>, int)>)
      requires Valid()
      modifies this`session, this`cache
      ensures Valid()
      ensures session == SettledSession(old(session), |jsonFiles|)
      ensures cache == LoadedCache(old(cache), SettledPath(old(session)), read)
      ensures r == match LoadedIndex(old(cache), SettledPath(old(session)), read)
        case Err(m) => Err(m)
        case Ok(ix) => Paginate(SortedNames(ix.categories), page, perPage)
    {
      var ix := LoadImageData(read);
      if ix.Err? {
        return Err(ix.message);
      }
      r := Paginate(SortedNames(ix.value.categories), page, perPage);
    }

    /** `serve_image`: the file behind `unquote(category)/filename`, `None` for a 404. The route
        has already decoded `category` once; `unquote` is `urllib.parse.unquote`, applied again. */
    method ServeImage(category: string, filename: string, unquote: string -> string, read: Option<Json>) returns (r: Result<Option<FsPath>>)
      requires Valid()
      modifies this`session, this`cache
      ensures Valid()
      ensures session == SettledSession(old(session), |jsonFiles|)
      ensures cache == LoadedCache(old(cache), SettledPath(old(session)), read)
      ensures r == match LoadedIndex(old(cache), SettledPath(old(session)), read)
        case Err(m) => Err(m)
        case Ok(ix) => Ok(ServePath(ix.files, unquote, category, filename))
    {
      var ix := LoadImageData(read);
      if ix.Err? {
        return Err(ix.message);
      }
      r := Ok(ServePath(ix.value.files, unquote, category, filename));
    }

    // -------------------------------------------------------------------------------------
    // Liking and saving.

    method LikeImage(reqPath: Option<string>, action: Option<Json>, read: Option<Json>, now: string)
      returns (status: Status)
      requires Valid()
      modifies this`session, this`cache, this`queue, this`unfinished
      ensures Valid()
      ensures session == SettledSession(old(session), |jsonFiles|)
      ensures var path := SettledPath(old(session));
        var r := LikeRequest(CachedAt(old(cache), path), reqPath, action, read, cwd, now);
        status == r.1 &&
        cache == (if r.0.Some? then old(cache)[path := r.0.value] else old(cache)) &&
        queue == old(queue) + (if r.1 == Ok200 then [SaveItem(path, r.0.value.entries)] else []) &&
        unfinished == old(unfinished) + (if r.1 == Ok200 then 1 else 0)
    {
      var path := GetCurrentJsonPath();
      ghost var expected := LikeRequest(CachedAt(cache, path), reqPath, action, read, cwd, now);
      if reqPath.None? {
        return Error500;
      }
      var like := action.GetOr(Str("like")) == Str("like");
      var doc: Json;
      if path in cache {
        doc := cache[path];
      } else {
        if read.None? {
          return Error500;
        }
        doc := read.value;
      }
      var doc', st := LikeInDocument(doc, NormPath(reqPath.value), like, cwd, now);
      assert expected == (Some(doc'), st);
      KeepsQueueValid(path, doc');
      cache := cache[path := doc'];
      status := st;
      if st == Ok200 {
        assert doc'.Obj? && HasKey(doc'.entries, ImgKey);
        queue := queue + [SaveItem(path, doc'.entries)];
        unfinished := unfinished + 1;
      }
    }

    function CachedAt(c: map<string, Json>, path: string): Option<Json>
    {
      if path in c then Some(c[path]) else None
    }

    /** Replacing the cached document for `path` by one that is still a dict with `img` (or
        that no queued item refers to) keeps every queued item readable. */
    lemma KeepsQueueValid(path: string, doc': Json)
      requires Valid()
      requires (exists i :: 0 <= i < |queue| && queue[i].path == path) ==> doc'.Obj? && HasKey(doc'.entries, ImgKey)
      ensures forall i :: 0 <= i < |queue| ==>
        queue[i].path in cache[path := doc'] && cache[path := doc'][queue[i].path].Obj? &&
        HasKey(cache[path := doc'][queue[i].path].entries, ImgKey)
    {
    }

    /** The document a queued item amounts to when it is written. */
    function Written(item: SaveItem): Json
      requires item.path in cache && cache[item.path].Obj? && HasKey(cache[item.path].entries, ImgKey)
      reads this
    {
      Snapshot(item.top, cache[item.path].entries)
    }

    /** One round of `save_consumer` with an item waiting: reverse the replacements, open the
        file for writing (`openOk`), which truncates it, and dump the document into it
        (`dumpOk`). A failure is logged and its `task_done` skipped; a dump that fails after the
        open leaves the file without a readable document. */
    method DrainOne(openOk: bool, dumpOk: bool)
      requires Valid() && queue != []
      modifies this`queue, this`unfinished, this`failedSaves, this`disk
      ensures Valid()
      ensures queue == old(queue[1..])
      ensures var out := old(ReverseDoc(Written(queue[0])));
        var path := old(queue[0]).path;
        if out.Some? && openOk && dumpOk then
          disk == old(disk)[path := out.value] &&
          unfinished == old(unfinished) - 1 && failedSaves == old(failedSaves)
        else
          disk == (if out.Some? && openOk then old(disk) - {path} else old(disk)) &&
          unfinished == old(unfinished) && failedSaves == old(failedSaves) + 1
    {
      var item := queue[0];
      queue := queue[1..];
      var out := ReverseReplaceRules(Written(item));
      if out.None? || !openOk {
        failedSaves := failedSaves + 1;
      } else if !dumpOk {
        disk := disk - {item.path};
        failedSaves := failedSaves + 1;
      } else {
        disk := disk[item.path := out.value];
        unfinished := unfinished - 1;
      }
    }

    /** Once the queue is drained, `save_queue.join()` in `shutdown` returns exactly when no
        save has failed: a failed save leaves its put unmatched for good. */
    lemma JoinAfterDrain()
      requires Valid() && queue == []
      ensures unfinished == 0 <==> failedSaves == 0
    {
    }
  }
}
