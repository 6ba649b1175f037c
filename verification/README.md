# img_display data core in Dafny

img_display is a small Flask server for browsing face-scored images. A JSON document maps
base roots (`img`) to nested directory dicts. A dict with a non-empty `face_scores` is an
image. The server indexes the images by category (their parent directory) and pages through
them. A "like" request flips an image's `like` flag, stamps `date_updated` and queues the
document to be written back to disk.

This project models the data core of both server copies:

- `web.py`: the current server. It serves several source files, chosen per session, and
  keeps a per-file document cache. A textual replace pipeline runs around the JSON codec.
- `display.py`: the older single-file server. It has a one-entry index cache and a
  clamping paginator.

The model proves:

- what the indexer emits;
- what a like request changes, and that a failed one only adds empty dicts;
- how pagination and the views select and order records;
- how the caches fill;
- what a queued save finally writes.

Modules, one per file:

- `Wrappers` (`wrappers.dfy`): `Option` and `Result`.
- `JsonValue` (`json.dfy`): decoded JSON. A dict is an ordered sequence of entries, as
  Python dicts keep insertion order. The module also has `d.get`, `d[k] = v`, `setdefault`
  and truthiness.
- `Text` (`text.dfy`):
  - `str.replace`, including the empty pattern;
  - `split`/`join`;
  - POSIX `os.path.join`;
  - string order and `sorted`.
- `Paths` (`paths.dfy`): `normpath`, `abspath` against a given working directory,
  `basename`, the `commonpath` containment test and `relpath`, all on segment sequences.
- `ReplaceRules` (`replace_rules.dfy`): the text-substitution folds and their loops.
- `Indexer` (`indexer.dfy`): `walk_tree` and the category and file maps it fills.
- `Resolver` (`resolver.dfy`): the `like_image` resolver. It has a pure definition, and loops
  that model the in-place mutation on values, proved equal to it.
- `Views` (`views.dfy`): both paginators, the view item selection, thumbnails and
  `serve_image` lookups.
- `Web` (`web.dfy`): class `WebApp`. Its fields are the session index, the document cache,
  the save queue and the written files.
- `Display` (`display.dfy`): class `DisplayApp`, with the same shape for `display.py`.

How effects are represented:

- Values from the environment are parameters:
  - what a file read yields (`None` where it raises);
  - the clock's timestamp;
  - the working directory;
  - the JSON codec;
  - the outcome of a file write;
  - the list `random.shuffle` produces.
- An exception handled by the route becomes an error value: `Err`, `Raised` or `Error500`.
  Mutations made before the raise persist, as they do in Python.

## Model

| member | source | states |
|---|---|---|
| JsonValue.UniqueGet | web.py:214-216 | In a dict with unique keys, looking up an entry's key gives that entry's value. |
| JsonValue.PutKeepsUnique | web.py:218 | `d[k] = v` keeps a dict's keys unique. |
| JsonValue.SetDefaultKeepsUnique | web.py:214-215 | `d.setdefault(k, {})` keeps a dict's keys unique. |
| ReplaceRules.ApplyText | web.py:31-37 | The loop yields the fold `ApplyAll`, which replaces each rule's `old` by its `new`, rules in configured order. |
| ReplaceRules.ReverseText | web.py:39-45 | The loop yields the fold `ReverseAll`, which replaces each rule's `new` by its `old`, rules in reverse order. |
| ReplaceRules.ApplyFirstRuleFirst | web.py:34-36 | The first rule rewrites the original text; the remaining rules rewrite its result. |
| ReplaceRules.RoundTrip | web.py:31-45 | Reversing the applied rules restores the text when every rule is undoable on the text it meets during `apply`. Undoable means `old` and `new` are non-empty, and either the first character of `new` does not occur in that text, or `new` does not occur in it and no proper prefix of `new` is also a suffix of it. The second case admits path rules on texts full of `/`. |
| ReplaceRules.PathRuleUndoable | config.py:13-14 | The `--replace` help's rule `"/abc" "/def"` is undoable on every text that does not already contain `/def`. |
| ReplaceRules.ChainedRules | test/test_web.py:288-294 | Rules `a->b`, `b->c` take the value `a` to `c`, and reversing takes it back, in any serialised document where no other `a`, `b` or `c` occurs (such as `{"key": "a"}`). |
| ReplaceRules.RoundTripCanFail | web.py:31-45 | There is no unconditional round trip: rule `b->aa` takes `ab` to `aaa`, and reversing yields `ba`. |
| Text.ReplaceRoundTrip | web.py:43-44 | Undoing one replacement restores the text when the replacement's first character never occurs in the original. |
| Text.ReplaceRoundTripUnbordered | web.py:43-44 | Undoing one replacement restores the text when the replacement does not occur in the original and no proper prefix of it is also a suffix, so no occurrence can straddle an inserted copy. |
| Text.SortStrings | web.py:129 | `sorted(keys)` is an ordered permutation of the keys. |
| Paths.AbsPath | web.py:105 | `abspath(normpath(base))` is always absolute. |
| Paths.IsUnder | web.py:208-209 | The `commonpath` test raises exactly when the request is relative. When it holds, the base root's segments are a prefix of the request's. |
| Paths.RelParts | web.py:211-212 | `relpath(...).replace('\\', '/').split('/')` yields at least one part. |
| Paths.RelPartsPlain | web.py:211-212 | For a request strictly below the base root whose segments contain no `\`, the parts are exactly the remaining segments. |
| Paths.Render | display.py:332-333 | `normpath` never returns an empty string, so display's "Missing path" (400) answer can never be given. |
| Indexer.WalkTree | web.py:81-102 | The recursive walk appends the records of a subtree to the index in walk order (`AddAll` of `TreeRecords`). |
| Indexer.IndexDocument | web.py:77-108 | Indexing a document equals `BuildIndex`. The `img` entry defaults to `{}`, and base roots are walked in stored order. It fails where Python raises (a non-dict document or base root). |
| Indexer.BaseRecordsErrSticks | web.py:104-106 | A base root whose walk raises aborts the whole load; later roots cannot undo it. |
| Indexer.RecordsHaveScores | web.py:84-86 | Every emitted record has truthy `face_scores`. |
| Indexer.RecordsAreLeaves | web.py:81-102 | A record is emitted if and only if a key path leads to it through dicts without a `face_scores` key, ends at a dict with truthy `face_scores`, and the record is built from that leaf. Its category is the parent's relative path, or the root's basename directly under the root. |
| Indexer.CategoryLists | web.py:99-100 | A category's list is exactly the walked records of that category, in walk order. A category exists if and only if it has a record. |
| Indexer.FileMapLastWins | web.py:100 | `file_map["category/filename"]` is present if and only if some record has that key, and then it holds the path of the last such record walked. |
| Indexer.FlattenIsWalk | web.py:99 | Across all category lists, every walked record appears exactly as often as it was walked. |
| Resolver.WalkParts | web.py:213-218 | The `setdefault` descent and the final lookup yield the outcome `Resolve` defines, with the base root's value as the in-place mutation leaves it. |
| Resolver.LookUpLast | web.py:216-218 | The final `current.get(parts[-1])` and `file_node['like'] = ...` agree with `Resolve` on the last segment. |
| Resolver.WriteBack | web.py:213-215 | Writing the walked result back through the dicts passed on the way down equals `Wrap`. This is how the aliasing of `current` into the document is rebuilt on values. |
| Resolver.TryBaseRoots | web.py:206-221 | The loop over base roots in stored order equals `TryBases` over the `img` keys. It skips roots that do not contain the request, fails on a relative request, moves on after a miss, and stops at the first hit. |
| Resolver.LikeInDocument | web.py:203-224 | The in-place update of the document equals `LikeDocument`. |
| Resolver.LikeDocument | web.py:203-224 | A dict document remains a dict with an `img` entry. A 200 implies the document was a dict and `date_updated` is the given timestamp. |
| Resolver.LikeRequest | web.py:191-231 | Missing `path`, or a failed read of an uncached document, gives 500 with nothing cached. A 200 leaves a dict document with `img` and the new `date_updated`. A dict with `img` stays one. |
| Resolver.FreshWalkMisses | web.py:214-216 | Walking into a freshly created `{}` always misses and leaves only empty dicts behind. |
| Resolver.MarkedSetsFlag | web.py:216-218 | Setting the flag happens only at an existing non-empty dict at the walked path. The base root afterwards is the old one with only that dict's `like` written as `action == 'like'`. |
| Resolver.UnmarkedOnlyAddsHollow | web.py:214-216 | A walk that does not set the flag only appends entries holding empty dicts, at any depth, and changes no existing value. |
| Resolver.UnfoundOnlyAddsHollow | web.py:206-223 | When no base root yields a hit, the `img` mapping afterwards only extends the old one by empty dicts. |
| Resolver.FoundSetsFlag | web.py:206-222 | On a hit, some base root `keys[i]` is the first that resolves the request: every earlier root was skipped or missed without raising, and those misses only appended empty dicts to `img`. The addressed node below `keys[i]` existed as a non-empty dict. `img` afterwards is that extended `img` with only this node's `like` written as the action. |
| Resolver.ExistingIsMarked | web.py:213-218 | When the request's remaining segments lead through dicts to an existing non-empty dict, the walk sets its flag. With `MarkedSetsFlag`, the flag is set exactly then. |
| Resolver.PresentIsFound | web.py:206-221 | Conversely to `FoundSetsFlag`: after base roots that were skipped or missed without raising, a base root containing the request that holds an existing non-empty dict at the request's remaining segments makes the loop succeed. Together they say the loop succeeds exactly at the first such root. |
| Resolver.LikeFailureOnlyAddsHollow | web.py:223-231 | After a 404 or 500, the document differs from before only by appended empty dicts. No `like` flag and no `date_updated` has changed. |
| Resolver.LikeSuccessSetsFlag | web.py:203-226 | After a 200, the first base root (in stored order) that contains and resolves the request has, at its relative path, a node whose `like` is the action. `img` is otherwise the old one extended by empty dicts, and every top-level entry except `img` and `date_updated` keeps its value. |
| Resolver.PresentIsLiked | web.py:203-226 | Conversely to `LikeSuccessSetsFlag`: on a dict document whose `img` (default `{}`) is a dict, such a first resolving base root makes the request answer 200. |
| Resolver.KeysKept | web.py:206 | The walk keeps the base roots and their order; it can only append keys. |
| Resolver.MissCanHideDirectory | web.py:214-216 | A 404 request for `<base>/d/face_scores/x` adds `face_scores: {}` to directory `d`. From then on the indexer treats `d` as an empty leaf and drops every image below it. |
| Resolver.Snapshot | web.py:226 | The shallow copy written later carries the live `img` dict (so later likes are written too) and keeps its own top-level entries, `date_updated` among them. |
| Resolver.SnapshotOfUnchanged | web.py:226 | A copy written before any later like equals the document as queued. |
| Views.SliceBound | web.py:263 | Python slice bounds: a negative bound counts from the end, and any bound is clipped to the length. |
| Views.CeilDiv | web.py:264 | `math.ceil(n / d)` as an exact integer ceiling, for either sign of `d`. |
| Views.Paginate | web.py:257-265 | It fails (division by zero) if and only if the list is non-empty and `per_page` is 0. An empty list gives `([], 1)`. |
| Views.PageContents | web.py:260-264 | For `page >= 1` and `per_page > 0`, the page is `items[(page-1)*per_page : page*per_page]`. The total `t` satisfies `(t-1)*per_page < n <= t*per_page`. A page is non-empty if and only if `page <= t`. |
| Views.PagesCoverItems | web.py:257-265 | Pages `1 .. total_pages`, one after another, are exactly the list. |
| Views.NegativePageCountsFromEnd | web.py:260-263 | Page `-1` is not empty: negative slicing gives `items[n-2*per_page : n-per_page]`. |
| Views.PaginateClamped | display.py:161-168 | It fails (division by zero) if and only if the list is non-empty and `per_page` is 0. An empty list gives `([], 1)`. |
| Views.ClampedShowsNearestPage | display.py:165-168 | The clamping paginator shows page `max(1, min(page, total))`, which is never empty for a non-empty list. |
| Views.CollectFavorites | display.py:265-271 | The nested loop collects exactly the liked records, in category-map order. |
| Views.FavoritesSplitRecords | web.py:131-134 | `_favorites` and `_unfavorites` hold exactly the liked and the unliked walked records, and together all of them. Display's `_favorites` list is the same. |
| Views.CategoryViewIsCategory | web.py:136 | A named category's view is that category's walked records, in walk order. In display, `_unfavorites` is such an ordinary name. |
| Views.AllIsPermutation | web.py:136 | The all-images view lists every walked record exactly once per walk. |
| Views.AllIsGroupedSorted | web.py:129-136 | The all-images view is grouped by category in sorted category order. |
| Views.ThumbnailIsFirstRecord | web.py:267-269 | The thumbnail is the category's first walked record, or `{}` for an unknown category. |
| Views.ServeLooksUpDecoded | web.py:115-120 | `serve_image` looks up `unquote(category)/filename` and answers with the path of the last record walked under that key, or 404 if no record has it. A directory whose name `unquote` changes, such as `a%20b`, is not served under its own name. |
| Views.ServeFindsRecord | web.py:115-125 | Every walked record is served under a category that `unquote` decodes to its own, from the path of the last record with that key. |
| Views.SeededViewsArePermutations | web.py:130-143 | When `random.shuffle` only reorders, the seeded `_favorites` view holds exactly the liked walked records and `_unfavorites` exactly the others, each as often as walked. Every other view is not shuffled. |
| Web.SettledSession | web.py:57-62 | An index in range is kept; one out of range (or none) reads as 0, and an out-of-range one is reset to 0. |
| Web.SelectedIsRead | web.py:110-112 | An index accepted by `select_json` is the one later requests read. |
| Web.WebApp.constructor | web.py:15-28 | Empty session, cache, queue and written files; no unfinished puts. |
| Web.WebApp.ApplyDoc | web.py:31-37 | With no rules the document is unchanged. |
| Web.WebApp.ReverseDoc | web.py:39-45 | With no rules the document is unchanged. |
| Web.WebApp.ApplyReplaceRules | web.py:31-37 | The method (codec plus loop) computes `ApplyDoc`. |
| Web.WebApp.ReverseReplaceRules | web.py:39-45 | The method computes `ReverseDoc`. |
| Web.WebApp.SaveRestoresLoaded | web.py:31-45 | Saving a loaded document writes back what was read. This holds when the rules are reversible on its serialisation (as in `RoundTrip`, path rules included) and the codec reads its own output back. |
| Web.WebApp.GetCurrentJsonPath | web.py:57-62 | The returned file is the one at the settled index, and the session holds that index afterwards. |
| Web.WebApp.SelectJson | web.py:110-113 | The index is stored if and only if `0 <= i < len(json_files)`; otherwise the session is unchanged. |
| Web.WebApp.LoadedCache | web.py:68-75 | The cache is filled only on a miss, and only when both the read and the replace rules succeed. Otherwise it is unchanged. |
| Web.WebApp.CacheOnlyOnSuccess | web.py:68-75 | A cached document is never read again. A failed load returns empty maps and leaves nothing behind, so the next load reads the file afresh. |
| Web.WebApp.LoadImageData | web.py:64-108 | The session settles, the cache becomes `LoadedCache`, and the result is the index of the cached document (empty after a failed load). |
| Web.WebApp.RenderCategoryView | web.py:127-154 | After the load, the result is the page `WebPage` selects: the view's items, shuffled (a reordering only) for a seeded like-filtered view, then paginated. |
| Web.WebApp.ShowCategories | web.py:156-172 | After the load, the result is the page of sorted category names. |
| Web.WebApp.ServeImage | web.py:115-125 | After the load, the result is the `file_map` entry for `unquote(category)/filename`; none means 404. |
| Web.WebApp.GetCategoryThumbnail | web.py:267-269 | After the load, the result is the category's thumbnail. |
| Web.WebApp.LikeImage | web.py:191-231 | The status and the cached document are `LikeRequest` on the cached (or freshly read, rules not applied) document. Exactly one item, the document's top-level entries, is queued, and only on a 200. |
| Web.WebApp.DrainOne | web.py:233-245 | The front item leaves the queue. When reversing, opening and dumping all succeed, its file holds the reversed snapshot and its put is done. Otherwise the put stays unfinished. The file is untouched when reversing or opening fails. When the dump fails after `open(..., 'w')` has truncated the file, it holds no readable document. |
| Web.WebApp.JoinAfterDrain | web.py:247-249 | Once the queue is empty, `join` returns if and only if no save has failed. |
| Display.DisplayApp.constructor | display.py:17-20 | No document, empty index cache and queue. |
| Display.DisplayApp.RawAfterLoad | display.py:193-196 | The file is read only when neither the index cache nor the document is there. |
| Display.DisplayApp.Loaded | display.py:189-238 | The result is the cached index, or else the index of the document in memory, or else the index of the file read, or else empty maps. |
| Display.DisplayApp.CacheAfterLoad | display.py:189-199 | The cache keeps whatever the call returned, the failure included. It is empty if and only if the walk raised. |
| Display.DisplayApp.LoadImageData | display.py:189-238 | The result, the document in memory and the cache are `Loaded`, `RawAfterLoad` and `CacheAfterLoad`. |
| Display.DisplayApp.FailedReadSticks | display.py:189-199 | After a failed first read, the next load returns empty maps without reading the file, whatever it now holds, and changes nothing. So this lasts until a like succeeds: that request reads the file itself and empties the cache. |
| Display.DisplayApp.LoadedDocumentIsIndexed | display.py:193-204 | With the document in memory and the cache empty, a load indexes that document without reading the file. |
| Display.DisplayApp.RenderCategoryView | display.py:259-283 | After the load, the result is `DisplayPage`: display's item selection, with `_favorites` collected by the nested loop, then the clamping paginator. |
| Display.DisplayApp.ShowCategories | display.py:285-305 | After the load, the result is the clamped page of sorted category names. |
| Display.DisplayApp.GetCategoryThumbnail | display.py:240-243 | After the load, the result is the category's thumbnail. |
| Display.DisplayApp.ServeImage | display.py:245-257 | After the load, the result is the `file_map` entry for `unquote(category)/filename`; none means 404. |
| Display.DisplayApp.LikeImage | display.py:324-370 | The status and the document in memory are `LikeRequest`. Only on a 200 is one copy queued and the index cache emptied. |
| Display.DisplayApp.DrainOne | display.py:171-183 | The front copy leaves the queue. A successful open and dump stores its snapshot, with the live `img` dict, and marks the put done. A failure leaves the put unfinished. A failed open leaves the file untouched, and a dump failing after the truncating open leaves no readable document. |

## Left out

- Flask: routing, templates, `redirect`/`url_for` links, `send_from_directory`, `abort` and the
  request/session objects. Request fields are parameters. The session index is a field of
  `WebApp`, for one client.
- `category_view` (web.py:178-189): its redirect when no seed is given is not modelled. Its
  unquoted category and seed are the parameters of `RenderCategoryView`.
- Threads and `data_lock`: the save consumer is one sequential drain step (`DrainOne`).
  `Queue.get(timeout=1)`, the shutdown flag, the server stop and `os._exit` are left out.
  `save_queue.join()` is modelled as the count of unfinished puts.
- File reads and writes, and the JSON codec:
  - a read is a supplied `Option<Json>`;
  - a write's outcome is two supplied flags, whether `open` succeeds and whether `json.dump`
    succeeds;
  - the content of a file cut short by a failed dump is not modelled; it counts as holding no
    readable document;
  - `json.dumps`/`json.loads` are function parameters of `WebApp`, and the ASCII escaping and
    number formatting that belong to them are not modelled.
- `random.seed`/`random.shuffle`: the shuffle is a function parameter, constrained only to
  reorder (`Shuffles`). So "same seed, same order" is not stated.
- `urllib.parse.unquote` is a function parameter of `ServeImage`; percent-decoding and UTF-8
  are not modelled.
- `datetime.now()`: the timestamp is a parameter.
- `Json` objects are not constrained to unique keys. The lemmas hold for every entry sequence,
  and `Get` reads the first match. `UniqueKeys` holds for decoded dicts and is kept by `Put`
  and `SetDefault`.
- `Paths.NormPath`: POSIX only. It does not keep a leading `//`, which `normpath` does, and
  it treats `\` as an ordinary character.
- `Views.CeilDiv`: exact integer ceiling. Floating-point rounding of `len / per_page` for
  huge lists is not modelled.
- `ImageRecord` keeps only the fields the views and the like flag use, as JSON values. The
  template's use of scores and static/js/main.js are not part of this model.
- config.py (the configuration GUI), version.py, build/build.py and display.py's command-line
  and tkinter start-up (display.py:23-155) are not part of this model. So `per_page` is
  unconstrained: 0 fails the page, and negative values follow Python's arithmetic.
- `input_listener` and the browser launcher in display.py are not part of this model.
- Where the code's behaviour is easy to misread, the model follows the code:
  - the queued document is a shallow `.copy()`, so its `img` dict is shared with the cache,
    not a deep copy;
  - a like request carries one `path`, not a list, and answers 200/404/500;
  - a missing path or a malformed body gives 500, not 400;
  - `paginate` neither clamps a page below 1 nor guards `per_page <= 0`;
  - `select_json` ignores an out-of-range index, and reading resets it;
  - no round trip of the replace rules holds unconditionally.
