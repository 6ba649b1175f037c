/** What the pages show: pagination (web's unclamped `paginate`, display's clamping
    `Paginator.paginate`), the item list of a category view, category thumbnails and image lookup. */
module Views {
  import opened Wrappers
  import opened JsonValue
  import opened Text
  import opened Indexer

  // ---------------------------------------------------------------------------------------
  // Python slicing and integer ceiling.

  /** A slice bound as Python resolves it: negative counts from the end, then clamped to `[0, n]`. */
  function SliceBound(i: int, n: nat): (b: nat)
    ensures b <= n
    ensures 0 <= i <= n ==> b == i
    ensures i > n ==> b == n
    ensures i < 0 ==> b == if i + n < 0 then 0 else i + n
  {
    if i < 0 then (if i + n < 0 then 0 else i + n) else if i > n then n else i
  }

  /** `s[i:j]`. */
  function PySlice<T>(s: seq<T>, i: int, j: int): seq<T>
  {
    var a := SliceBound(i, |s|);
    var b := SliceBound(j, |s|);
    if a < b then s[a..b] else []
  }

  /** `math.ceil(n / d)`, the exact ceiling of the quotient. */
  function CeilDiv(n: int, d: int): (q: int)
    requires d != 0
    ensures d > 0 ==> (q - 1) * d < n <= q * d
    ensures d < 0 ==> q * d <= n < (q - 1) * d
  {
    if d > 0 then
      var m := -n;
      DivBounds(m, d);
      -(m / d)
    else
      DivBounds(n, -d);
      -(n / (-d))
  }

  lemma DivBounds(m: int, e: int)
    requires e > 0
    ensures (m / e) * e <= m < (m / e) * e + e
  {
  }

  // ---------------------------------------------------------------------------------------
  // The two paginators.

  /** `WebApp.paginate`: page `page` of `per_page` items, with Python slicing (so a page below 1
      counts from the end) and the page count; `Err` where `ceil(len / 0)` raises. */
  function Paginate<T>(items: seq<T>, page: int, perPage: int): (r: Result<(seq<T>, int)>)
    ensures r.Err? <==> items != [] && perPage == 0
    ensures items == [] ==> r == Ok(([], 1))
  {
    if items == [] then Ok(([], 1))
    else if perPage == 0 then Err("division by zero")
    else
      var start := (page - 1) * perPage;
      Ok((PySlice(items, start, start + perPage), CeilDiv(|items|, perPage)))
  }

  /** `Paginator.paginate`: the page number is first clamped into `[1, total_pages]`. */
  function PaginateClamped<T>(items: seq<T>, page: int, perPage: int): (r: Result<(seq<T>, int)>)
    ensures r.Err? <==> items != [] && perPage == 0
    ensures items == [] ==> r == Ok(([], 1))
  {
    if items == [] then Ok(([], 1))
    else if perPage == 0 then Err("division by zero")
    else
      var total := CeilDiv(|items|, perPage);
      var p := Max(1, Min(page, total));
      var start := (p - 1) * perPage;
      Ok((PySlice(items, start, start + perPage), total))
  }

  function Min(a: int, b: int): int { if a <= b then a else b }
  function Max(a: int, b: int): int { if a >= b then a else b }

  lemma MulLe(a: int, b: int, c: int)
    requires a <= b && c > 0
    ensures a * c <= b * c
  {
    assert b * c - a * c == (b - a) * c;
  }

  /** A non-empty list needs at least one page. */
  lemma TotalPositive(n: int, perPage: int, total: int)
    requires n >= 1 && perPage > 0 && n <= total * perPage
    ensures total >= 1
  {
    if total < 1 {
      MulLe(total, 0, perPage);
    }
  }

  /** For a positive page size, page `page >= 1` holds the `per_page` items starting at
      `(page - 1) * per_page` (fewer on the last page, none past it), and the page count is the
      least number of pages that holds every item. */
  lemma PageContents<T>(items: seq<T>, page: int, perPage: int)
    requires items != [] && perPage > 0 && page >= 1
    ensures var start := (page - 1) * perPage;
      var total := Paginate(items, page, perPage).value.1;
      Paginate(items, page, perPage).value.0 ==
        (if start < |items| then items[start..Min(start + perPage, |items|)] else []) &&
      total >= 1 && (total - 1) * perPage < |items| <= total * perPage &&
      (Paginate(items, page, perPage).value.0 != [] <==> page <= total)
  {
    var start := (page - 1) * perPage;
    var total := CeilDiv(|items|, perPage);
    MulLe(0, page - 1, perPage);
    TotalPositive(|items|, perPage, total);
    if page <= total {
      MulLe(page - 1, total - 1, perPage);
    } else {
      MulLe(total, page - 1, perPage);
    }
  }

  /** The pages `1 .. k` one after the other. */
  function PagesUpTo<T>(items: seq<T>, perPage: int, k: nat): seq<T>
    requires perPage > 0
  {
    if k == 0 then [] else PagesUpTo(items, perPage, k - 1) + Paginate(items, k, perPage).value.0
  }

  lemma {:induction false} PagesPrefix<T>(items: seq<T>, perPage: int, k: nat)
    requires perPage > 0
    ensures PagesUpTo(items, perPage, k) == items[..Min(k * perPage, |items|)]
  {
    if k > 0 {
      PagesPrefix(items, perPage, k - 1);
      var s := (k - 1) * perPage;
      assert s + perPage == k * perPage;
      MulLe(0, k - 1, perPage);
      if items != [] {
        PageContents(items, k, perPage);
      }
    }
  }

  /** Browsing the pages `1 .. total_pages` in order shows every item exactly once, in order. */
  lemma PagesCoverItems<T>(items: seq<T>, perPage: int)
    requires items != [] && perPage > 0
    ensures Paginate(items, 1, perPage).value.1 >= 1
    ensures PagesUpTo(items, perPage, Paginate(items, 1, perPage).value.1) == items
  {
    var total := Paginate(items, 1, perPage).value.1;
    PagesPrefix(items, perPage, total);
  }

  /** Page `-1` is not empty: Python's negative slice bounds take it from the end. */
  lemma NegativePageCountsFromEnd<T>(items: seq<T>, perPage: int)
    requires perPage > 0 && 2 * perPage <= |items|
    ensures Paginate(items, -1, perPage).value.0 == items[|items| - 2 * perPage .. |items| - perPage]
  {
  }

  /** The clamping paginator shows page `page` itself when it exists, and otherwise the nearest
      page that exists, so a non-empty list never yields an empty page. */
  lemma ClampedShowsNearestPage<T>(items: seq<T>, page: int, perPage: int)
    requires items != [] && perPage > 0
    ensures var total := Paginate(items, 1, perPage).value.1;
      PaginateClamped(items, page, perPage) == Paginate(items, Max(1, Min(page, total)), perPage) &&
      PaginateClamped(items, page, perPage).value.0 != []
  {
    var total := Paginate(items, 1, perPage).value.1;
    PageContents(items, Max(1, Min(page, total)), perPage);
  }

  // ---------------------------------------------------------------------------------------
  // Which records a view lists.

  const FavoritesView := "_favorites"
  const UnfavoritesView := "_unfavorites"

  /** The records whose `like` truthiness is `want`, in order. */
  function Liked(s: seq<ImageRecord>, want: bool): seq<ImageRecord>
  {
    if s == [] then []
    else
      var n := |s| - 1;
      Liked(s[..n], want) + (if Truthy(s[n].like) == want then [s[n]] else [])
  }

  /** The category names in insertion order (`category_map.keys()`). */
  function Names(cats: seq<Bucket>): (names: seq<string>)
    ensures |names| == |cats| && forall i :: 0 <= i < |cats| ==> names[i] == cats[i].category
  {
    if cats == [] then [] else [cats[0].category] + Names(cats[1..])
  }

  /** `sorted(category_map.keys())`. */
  function SortedNames(cats: seq<Bucket>): seq<string>
  {
    SortStrings(Names(cats))
  }

  /** The category lists of `names`, one after the other. */
  function Gather(cats: seq<Bucket>, names: seq<string>): seq<ImageRecord>
  {
    if names == [] then []
    else
      var n := |names| - 1;
      Gather(cats, names[..n]) + Images(cats, names[n])
  }

  /** The `/all` view: every category's records, categories in sorted order. */
  function AllImages(cats: seq<Bucket>): seq<ImageRecord>
  {
    Gather(cats, SortedNames(cats))
  }

  /** The item list of `render_category_view` in `web.py` before any shuffle: `_favorites`
      and `_unfavorites` filter all records on `like`, another non-empty name is that category
      (empty when unknown), and no name or an empty one is the `/all` view. */
  function WebItems(cats: seq<Bucket>, category: Option<string>): seq<ImageRecord>
  {
    match category
    case Some(c) =>
      if c == FavoritesView then Liked(Flatten(cats), true)
      else if c == UnfavoritesView then Liked(Flatten(cats), false)
      else if c != "" then Images(cats, c)
      else AllImages(cats)
    case None => AllImages(cats)
  }

  /** The item list of `render_category_view` in `display.py`, which knows `_favorites` only. */
  function DisplayItems(cats: seq<Bucket>, category: Option<string>): seq<ImageRecord>
  {
    match category
    case Some(c) =>
      if c == FavoritesView then Liked(Flatten(cats), true)
      else if c != "" then Images(cats, c)
      else AllImages(cats)
    case None => AllImages(cats)
  }

  /** The nested loop of display's `_favorites` view, appending every liked record. */
  method CollectFavorites(cats: seq<Bucket>) returns (items: seq<ImageRecord>)
    ensures items == Liked(Flatten(cats), true)
  {
    items := [];
    for i := 0 to |cats|
      invariant items == Liked(Flatten(cats[..i]), true)
    {
      var imgs := cats[i].images;
      assert Flatten(cats[..i]) + imgs[..0] == Flatten(cats[..i]);
      for j := 0 to |imgs|
        invariant items == Liked(Flatten(cats[..i]) + imgs[..j], true)
      {
        var prefix := Flatten(cats[..i]) + imgs[..j];
        assert Flatten(cats[..i]) + imgs[..j + 1] == prefix + [imgs[j]];
        assert (prefix + [imgs[j]])[..|prefix|] == prefix;
        if Truthy(imgs[j].like) {
          items := items + [imgs[j]];
        }
      }
      assert imgs[..|imgs|] == imgs;
      FlattenSnoc(cats, i);
    }
    assert cats[..|cats|] == cats;
  }

  lemma {:induction false} FlattenSnoc(cats: seq<Bucket>, i: nat)
    requires i < |cats|
    ensures Flatten(cats[..i + 1]) == Flatten(cats[..i]) + cats[i].images
  {
    if i > 0 {
      FlattenSnoc(cats[1..], i - 1);
      assert cats[..i + 1][1..] == cats[1..][..i];
      assert cats[..i][1..] == cats[1..][..i - 1];
    }
  }

  /** What `index.html` is given: one page of images, the page number asked for, the page count
      and the sorted category names. */
  datatype Page = Page(images: seq<ImageRecord>, currentPage: int, totalPages: int, allCategories: seq<string>)

  /** `random.shuffle` only reorders: whatever order it picks, the list keeps its elements. */
  ghost predicate Shuffles(shuffled: seq<ImageRecord> -> seq<ImageRecord>)
  {
    forall s :: multiset(shuffled(s)) == multiset(s)
  }

  /** The list web's `render_category_view` paginates. `shuffled` is what `random.shuffle` makes
      of a list; it is used for the two like-filtered views when a non-empty seed is given. */
  function ViewList(cats: seq<Bucket>, category: Option<string>, seed: Option<string>,
                    shuffled: seq<ImageRecord> -> seq<ImageRecord>): seq<ImageRecord>
  {
    var items := WebItems(cats, category);
    var shuffle := seed.Some? && seed.value != "" && category.Some? &&
      (category.value == FavoritesView || category.value == UnfavoritesView);
    if shuffle then shuffled(items) else items
  }

  /** The page web's `render_category_view` renders. */
  function WebPage(cats: seq<Bucket>, page: int, perPage: int, category: Option<string>, seed: Option<string>,
                   shuffled: seq<ImageRecord> -> seq<ImageRecord>): Result<Page>
  {
    match Paginate(ViewList(cats, category, seed, shuffled), page, perPage)
    case Err(m) => Err(m)
    case Ok((images, total)) => Ok(Page(images, page, total, SortedNames(cats)))
  }

  /** The page display's `render_category_view` renders, with the clamping paginator. */
  function DisplayPage(cats: seq<Bucket>, page: int, perPage: int, category: Option<string>): Result<Page>
  {
    match PaginateClamped(DisplayItems(cats, category), page, perPage)
    case Err(m) => Err(m)
    case Ok((images, total)) => Ok(Page(images, page, total, SortedNames(cats)))
  }

  /** `category_map.get(c, [{}])[0]`: the first record of the category, `None` for the `{}`
      of an unknown category, `Err` for the `IndexError` an empty list would raise. */
  function Thumbnail(cats: seq<Bucket>, c: string): Result<Option<ImageRecord>>
  {
    if !HasCategory(cats, c) then Ok(None)
    else if Images(cats, c) == [] then Err("list index out of range")
    else Ok(Some(Images(cats, c)[0]))
  }

  /** `file_map.get(f"{unquote(category)}/{filename}")`: the path `serve_image` sends, `None`
      for a 404. `unquote` is `urllib.parse.unquote`. */
  function ServePath(files: map<string, Paths.FsPath>, unquote: string -> string, category: string,
                     filename: string): Option<Paths.FsPath>
  {
    var key := unquote(category) + "/" + filename;
    if key in files then Some(files[key]) else None
  }

  // ---------------------------------------------------------------------------------------
  // Properties of the views over an index built by the walk.

  lemma {:induction false} LikedCount(s: seq<ImageRecord>, want: bool, r: ImageRecord)
    ensures multiset(Liked(s, want))[r] == if Truthy(r.like) == want then multiset(s)[r] else 0
  {
    if s != [] {
      var n := |s| - 1;
      LikedCount(s[..n], want, r);
      assert s == s[..n] + [s[n]];
    }
  }

  lemma LikedSameMultiset(a: seq<ImageRecord>, b: seq<ImageRecord>, want: bool)
    requires multiset(a) == multiset(b)
    ensures multiset(Liked(a, want)) == multiset(Liked(b, want))
  {
    forall r ensures multiset(Liked(a, want))[r] == multiset(Liked(b, want))[r] {
      LikedCount(a, want, r);
      LikedCount(b, want, r);
    }
  }

  /** `_favorites` lists exactly the walked records with a truthy `like` and `_unfavorites`
      exactly the others, each once: together they are a permutation of all records. */
  lemma FavoritesSplitRecords(recs: seq<ImageRecord>)
    ensures var cats := AddAll(EmptyIndex, recs).categories;
      multiset(WebItems(cats, Some(FavoritesView))) == multiset(Liked(recs, true)) &&
      multiset(WebItems(cats, Some(UnfavoritesView))) == multiset(Liked(recs, false)) &&
      multiset(WebItems(cats, Some(FavoritesView))) + multiset(WebItems(cats, Some(UnfavoritesView))) == multiset(recs) &&
      DisplayItems(cats, Some(FavoritesView)) == WebItems(cats, Some(FavoritesView))
  {
    var cats := AddAll(EmptyIndex, recs).categories;
    FlattenIsWalk(recs);
    LikedSameMultiset(Flatten(cats), recs, true);
    LikedSameMultiset(Flatten(cats), recs, false);
    forall r ensures multiset(Liked(recs, true))[r] + multiset(Liked(recs, false))[r] == multiset(recs)[r] {
      LikedCount(recs, true, r);
      LikedCount(recs, false, r);
    }
  }

  /** Seeded or not, `_favorites` lists each walked record with a truthy `like` exactly as
      often as it was walked, and `_unfavorites` each of the others; any other view is not
      shuffled at all. */
  lemma SeededViewsArePermutations(recs: seq<ImageRecord>, category: Option<string>, seed: Option<string>,
                                   shuffled: seq<ImageRecord> -> seq<ImageRecord>)
    requires Shuffles(shuffled)
    ensures var cats := AddAll(EmptyIndex, recs).categories;
      multiset(ViewList(cats, category, seed, shuffled)) == multiset(WebItems(cats, category)) &&
      (category == Some(FavoritesView) ==>
         multiset(ViewList(cats, category, seed, shuffled)) == multiset(Liked(recs, true))) &&
      (category == Some(UnfavoritesView) ==>
         multiset(ViewList(cats, category, seed, shuffled)) == multiset(Liked(recs, false))) &&
      (category != Some(FavoritesView) && category != Some(UnfavoritesView) ==>
         ViewList(cats, category, seed, shuffled) == WebItems(cats, category))
  {
    var cats := AddAll(EmptyIndex, recs).categories;
    assert multiset(shuffled(WebItems(cats, category))) == multiset(WebItems(cats, category));
    FavoritesSplitRecords(recs);
  }

  /** A named category's view is that category's records in walk order; display has no
      `_unfavorites` view, so there that name is looked up as an ordinary category. */
  lemma CategoryViewIsCategory(recs: seq<ImageRecord>, c: string)
    requires c != "" && c != FavoritesView
    ensures var cats := AddAll(EmptyIndex, recs).categories;
      DisplayItems(cats, Some(c)) == InCategory(recs, c) &&
      (c != UnfavoritesView ==> WebItems(cats, Some(c)) == InCategory(recs, c))
  {
    CategoryLists(recs, c);
  }

  lemma {:induction false} InCategoryCount(recs: seq<ImageRecord>, c: string, r: ImageRecord)
    ensures multiset(InCategory(recs, c))[r] == if r.category == c then multiset(recs)[r] else 0
  {
    if recs != [] {
      var n := |recs| - 1;
      InCategoryCount(recs[..n], c, r);
      assert recs == recs[..n] + [recs[n]];
    }
  }

  /** Every category list holds records of that category only. */
  ghost predicate Tagged(cats: seq<Bucket>)
  {
    forall c, x :: x in Images(cats, c) ==> x.category == c
  }

  lemma WalkIsTagged(recs: seq<ImageRecord>)
    ensures Tagged(AddAll(EmptyIndex, recs).categories)
  {
    var cats := AddAll(EmptyIndex, recs).categories;
    forall c, x | x in Images(cats, c) ensures x.category == c {
      CategoryLists(recs, c);
      InCategoryCount(recs, c, x);
    }
  }

  lemma AddMul(a: int, m: int, hit: bool)
    ensures a * m + (if hit then m else 0) == (a + (if hit then 1 else 0)) * m
  {
  }

  lemma {:induction false} GatherCount(cats: seq<Bucket>, names: seq<string>, r: ImageRecord)
    requires Tagged(cats)
    ensures multiset(Gather(cats, names))[r] == multiset(names)[r.category] * multiset(Images(cats, r.category))[r]
  {
    if names != [] {
      var n := |names| - 1;
      var m := multiset(Images(cats, r.category))[r];
      var hit := names[n] == r.category;
      GatherCount(cats, names[..n], r);
      assert multiset(Gather(cats, names))[r] ==
        multiset(Gather(cats, names[..n]))[r] + multiset(Images(cats, names[n]))[r];
      assert multiset(Images(cats, names[n]))[r] == if hit then m else 0 by {
        if !hit {
          assert r !in Images(cats, names[n]);
        }
      }
      assert multiset(names)[r.category] == multiset(names[..n])[r.category] + (if hit then 1 else 0) by {
        assert names == names[..n] + [names[n]];
      }
      AddMul(multiset(names[..n])[r.category], m, hit);
    }
  }

  lemma {:induction false} AppendImageNames(cats: seq<Bucket>, r: ImageRecord)
    ensures Names(AppendImage(cats, r)) == if r.category in Names(cats) then Names(cats) else Names(cats) + [r.category]
  {
    if cats != [] && cats[0].category != r.category {
      AppendImageNames(cats[1..], r);
      assert Names(cats) == [cats[0].category] + Names(cats[1..]);
    }
  }

  predicate Distinct(names: seq<string>)
  {
    forall i, j :: 0 <= i < j < |names| ==> names[i] != names[j]
  }

  /** The walk files each category once, and a name is filed exactly when a record carries it. */
  lemma {:induction false} WalkNames(recs: seq<ImageRecord>)
    ensures Distinct(Names(AddAll(EmptyIndex, recs).categories))
    ensures forall c :: c in Names(AddAll(EmptyIndex, recs).categories) <==> InCategory(recs, c) != []
  {
    if recs != [] {
      var n := |recs| - 1;
      WalkNames(recs[..n]);
      var cats := AddAll(EmptyIndex, recs[..n]).categories;
      AppendImageNames(cats, recs[n]);
    }
  }

  lemma {:induction false} DistinctCount(names: seq<string>, c: string)
    requires Distinct(names)
    ensures multiset(names)[c] == if c in names then 1 else 0
  {
    if names != [] {
      var n := |names| - 1;
      DistinctCount(names[..n], c);
      assert names == names[..n] + [names[n]];
      if names[n] == c {
        assert c !in names[..n];
      }
    }
  }

  /** The `/all` view lists every walked record exactly once. */
  lemma AllIsPermutation(recs: seq<ImageRecord>)
    ensures multiset(AllImages(AddAll(EmptyIndex, recs).categories)) == multiset(recs)
  {
    var cats := AddAll(EmptyIndex, recs).categories;
    var sorted := SortedNames(cats);
    WalkIsTagged(recs);
    WalkNames(recs);
    forall r ensures multiset(AllImages(cats))[r] == multiset(recs)[r] {
      GatherCount(cats, sorted, r);
      DistinctCount(Names(cats), r.category);
      CategoryLists(recs, r.category);
      InCategoryCount(recs, r.category, r);
      if r in recs {
        assert r in InCategory(recs, r.category);
      }
    }
  }

  lemma {:induction false} GatherFrom(cats: seq<Bucket>, names: seq<string>, x: ImageRecord)
    requires Tagged(cats) && x in Gather(cats, names)
    ensures x.category in names
  {
    var n := |names| - 1;
    if x in Gather(cats, names[..n]) {
      GatherFrom(cats, names[..n], x);
    }
  }

  /** Records grouped by category, the categories in sorted order. */
  predicate GroupedSorted(g: seq<ImageRecord>)
  {
    forall i, j :: 0 <= i < j < |g| ==> LexLe(g[i].category, g[j].category)
  }

  lemma {:induction false} GatherOrdered(cats: seq<Bucket>, names: seq<string>)
    requires Tagged(cats) && Sorted(names)
    ensures GroupedSorted(Gather(cats, names))
  {
    if names != [] {
      var n := |names| - 1;
      var prev := Gather(cats, names[..n]);
      var block := Images(cats, names[n]);
      var g := prev + block;
      GatherOrdered(cats, names[..n]);
      assert GroupedSorted(prev);
      forall i, j | 0 <= i < j < |g| ensures LexLe(g[i].category, g[j].category) {
        if j < |prev| {
          assert g[i] == prev[i] && g[j] == prev[j];
          assert LexLe(prev[i].category, prev[j].category);
        } else {
          assert g[j] == block[j - |prev|];
          assert g[j] in block;
          assert g[j].category == names[n];
          if i >= |prev| {
            assert g[i] == block[i - |prev|];
            assert g[i] in block;
            LexLeTotal(names[n], names[n]);
          } else {
            assert g[i] == prev[i];
            assert g[i] in prev;
            GatherFrom(cats, names[..n], g[i]);
            var k :| 0 <= k < n && names[..n][k] == g[i].category;
            assert names[..n][k] == names[k];
            assert LexLe(names[k], names[n]);
          }
        }
      }
    }
  }

  /** The `/all` view lists the records grouped by category, categories in sorted order. */
  lemma AllIsGroupedSorted(recs: seq<ImageRecord>)
    ensures GroupedSorted(AllImages(AddAll(EmptyIndex, recs).categories))
  {
    var cats := AddAll(EmptyIndex, recs).categories;
    WalkIsTagged(recs);
    GatherOrdered(cats, SortedNames(cats));
    assert AllImages(cats) == Gather(cats, SortedNames(cats));
  }

  /** A category's thumbnail is its first walked record, `{}` for an unknown category; the
      lookup never raises on an index built by the walk. */
  lemma ThumbnailIsFirstRecord(recs: seq<ImageRecord>, c: string)
    ensures Thumbnail(AddAll(EmptyIndex, recs).categories, c) ==
      if InCategory(recs, c) == [] then Ok(None) else Ok(Some(InCategory(recs, c)[0]))
  {
    CategoryLists(recs, c);
  }

  /** `serve_image` answers with the path of the last record walked under the key that the
      category decodes to, and 404 when no record has that key. So a record whose category
      `unquote` changes (a directory named `a%20b`) is not served under its own category unless
      a record under the decoded name shares its filename. */
  lemma ServeLooksUpDecoded(recs: seq<ImageRecord>, unquote: string -> string, category: string, filename: string)
    ensures ServePath(AddAll(EmptyIndex, recs).files, unquote, category, filename) ==
      LastPath(recs, unquote(category) + "/" + filename)
  {
    FileMapLastWins(recs, unquote(category) + "/" + filename);
  }

  /** Every walked record can be served under a category that decodes to its own, from the path
      of the last record walked with that key. */
  lemma ServeFindsRecord(recs: seq<ImageRecord>, r: ImageRecord, unquote: string -> string, category: string)
    requires r in recs && unquote(category) == r.category
    ensures ServePath(AddAll(EmptyIndex, recs).files, unquote, category, r.filename) == LastPath(recs, FileKey(r))
    ensures LastPath(recs, FileKey(r)).Some?
  {
    ServeLooksUpDecoded(recs, unquote, category, r.filename);
    LastPathFound(recs, r);
  }

  lemma {:induction false} LastPathFound(recs: seq<ImageRecord>, r: ImageRecord)
    requires r in recs
    ensures LastPath(recs, FileKey(r)).Some?
  {
    var n := |recs| - 1;
    if FileKey(recs[n]) != FileKey(r) {
      assert r in recs[..n] by {
        assert recs == recs[..n] + [recs[n]];
      }
      LastPathFound(recs[..n], r);
    }
  }
}
