/**
 * The home page: it loads every post's frontmatter in one batch (any
 * failure fails the batch), sorts the entries newest first, features the
 * newest, lists the next nine, and runs a four-slide slideshow.
 */
module HomeComponent {
  import opened Common
  import opened Text
  import opened Values
  import opened PostIndex

  /** The message stored when the batch fails. */
  const LoadError: string := "Failed to load posts."

  /** The image shown for a featured post without one. */
  const Placeholder: string := "/api/placeholder/600/400"

  const SlideCount: nat := 4

  const SlideImages: seq<string> := [
    "https://images.unsplash.com/photo-1551288049-bebda4e38f71?ixlib=rb-4.0.3&ixid=M3wxMjA3fDB8MHxwaG90by1wYWdlfHx8fGVufDB8fHx8fA%3D%3D&auto=format&fit=crop&w=2070&q=80",
    "https://images.unsplash.com/photo-1516321318423-f06f85e504b3?ixlib=rb-4.0.3&ixid=M3wxMjA3fDB8MHxwaG90by1wYWdlfHx8fGVufDB8fHx8fA%3D%3D&auto=format&fit=crop&w=2070&q=80",
    "https://images.unsplash.com/photo-1450101499163-c8848c66ca85?ixlib=rb-4.0.3&ixid=M3wxMjA3fDB8MHxwaG90by1wYWdlfHx8fGVufDB8fHx8fA%3D%3D&auto=format&fit=crop&w=2070&q=80",
    "https://images.unsplash.com/photo-1460925895917-afdab827c52f?ixlib=rb-4.0.3&ixid=M3wxMjA3fDB8MHxwaG90by1wYWdlfHx8fGVufDB8fHx8fA%3D%3D&auto=format&fit=crop&w=2015&q=80"
  ]

  const SlideTitles: seq<string> := [
    "Tech Innovation in East Africa",
    "Digital Transformation Journey",
    "Startup Ecosystem Growth",
    "Future of African Technology"
  ]

  /** The limits the featured card and the grid cards cut excerpts to. */
  const FeaturedExcerptLimit: nat := 200
  const GridExcerptLimit: nat := 120

  // ---------------------------------------------------------------------
  // Loading
  // ---------------------------------------------------------------------

  /** The pushed entry `{...data, slug}`: the frontmatter only, no body. */
  function HomeEntry(path: string, data: Record): (p: Post)
    ensures p.Keys == data.Keys + {"slug"}
    ensures forall k :: k in data && k != "slug" ==> p[k] == data[k]
    ensures p["slug"] == Str(Slug(path))
  {
    data["slug" := Str(Slug(path))]
  }

  /** The list the loop builds, or `None` when some file fails to load or
      parse (the loop then stops and nothing is stored). */
  function Batch(files: seq<SourceFile>): (r: Option<seq<Post>>)
    ensures r.None? <==> exists i :: 0 <= i < |files| && files[i].doc.Failed?
    ensures r.Some? ==> |r.value| == |files|
    ensures r.Some? ==> forall i :: 0 <= i < |files| ==>
      r.value[i] == HomeEntry(files[i].path, files[i].doc.attrs)
  {
    if files == [] then Some([])
    else if files[0].doc.Failed? then None
    else
      var rest := Batch(files[1..]);
      assert forall i :: 0 < i < |files| ==> files[i] == files[1..][i - 1];
      match rest
      case None => None
      case Some(tail) => Some([HomeEntry(files[0].path, files[0].doc.attrs)] + tail)
  }

  lemma BatchDated(files: seq<SourceFile>)
    requires AllDated(files) && Batch(files).Some?
    ensures forall p :: p in Batch(files).value ==> Dated(p)
  {
    var entries := Batch(files).value;
    forall p | p in entries ensures Dated(p) {
      var i :| 0 <= i < |entries| && entries[i] == p;
      assert files[i].doc.Parsed?;
    }
  }

  // ---------------------------------------------------------------------
  // Slideshow
  // ---------------------------------------------------------------------

  /** `(prev + 1) % slideshowImages.length`. */
  function NextIndex(i: nat): (r: nat)
    ensures r < SlideCount
  {
    (i + 1) % SlideCount
  }

  /** `(prev - 1 + slideshowImages.length) % slideshowImages.length`; for a
      valid index the sum is never negative. */
  function PrevIndex(i: nat): (r: nat)
    ensures r < SlideCount
  {
    (i - 1 + SlideCount) % SlideCount
  }

  /** Going back undoes going forward, and going forward undoes going back. */
  lemma PrevUndoesNext(i: nat)
    requires i < SlideCount
    ensures PrevIndex(NextIndex(i)) == i && NextIndex(PrevIndex(i)) == i
  {
  }

  /** Four steps forward come back to the start. */
  lemma FourNextsReturn(i: nat)
    requires i < SlideCount
    ensures NextIndex(NextIndex(NextIndex(NextIndex(i)))) == i
  {
  }

  // ---------------------------------------------------------------------
  // Featured post, grid and excerpts
  // ---------------------------------------------------------------------

  /** The featured card: the newest post, its image or the placeholder,
      and its excerpt cut to 200 characters. */
  datatype FeaturedCard = FeaturedCard(post: Post, image: Value, excerpt: ExcerptView)

  /** `posts[0].image || "/api/placeholder/600/400"`. */
  function FeaturedImage(p: Post): Value {
    if Has(p, "image") then p["image"] else Str(Placeholder)
  }

  function Featured(posts: seq<Post>): Option<FeaturedCard> {
    if |posts| > 0
    then Some(FeaturedCard(posts[0], FeaturedImage(posts[0]), Excerpt(Get(posts[0], "excerpt"), FeaturedExcerptLimit)))
    else None
  }

  /** `posts.slice(1, 10)`. */
  function Grid(posts: seq<Post>): seq<Post> {
    var lo := if |posts| < 1 then |posts| else 1;
    var hi := if |posts| < 10 then |posts| else 10;
    posts[lo..hi]
  }

  /** A featured card appears exactly when there are posts; it shows the
      newest one, and an image even when the post has none. */
  lemma FeaturedCorrect(posts: seq<Post>)
    ensures Featured(posts).Some? <==> posts != []
    ensures posts != [] ==> Featured(posts).value.post == posts[0]
    ensures posts != [] ==> Truthy(Featured(posts).value.image)
    ensures posts != [] && Has(posts[0], "image") ==> Featured(posts).value.image == posts[0]["image"]
    ensures posts != [] && !Has(posts[0], "image") ==> Featured(posts).value.image == Str(Placeholder)
    ensures posts != [] ==>
      Featured(posts).value.excerpt == Excerpt(Get(posts[0], "excerpt"), FeaturedExcerptLimit)
  {
  }

  /** The grid holds at most nine posts: the ones after the featured post,
      in list order. */
  lemma {:induction false} GridCorrect(posts: seq<Post>)
    ensures |Grid(posts)| <= 9
    ensures |Grid(posts)| == if |posts| <= 1 then 0 else if |posts| < 10 then |posts| - 1 else 9
    ensures forall j :: 0 <= j < |Grid(posts)| ==> Grid(posts)[j] == posts[j + 1]
    ensures NewestFirst(posts) ==> NewestFirst(Grid(posts))
  {
    var g := Grid(posts);
    if NewestFirst(posts) {
      forall i, j | 0 <= i < j < |g| ensures DateKey(g[i]) >= DateKey(g[j]) {
        assert g[i] == posts[i + 1] && g[j] == posts[j + 1];
      }
    }
  }

  /** A card throws while rendering: its title is an object React cannot
      render, or its excerpt is truthy and has no `slice`. */
  predicate CardThrows(p: Post, limit: nat) {
    TitleThrows(p) || Excerpt(Get(p, "excerpt"), limit).ExcerptThrows?
  }

  /** The featured card or one of the grid cards throws. */
  predicate PageThrows(posts: seq<Post>) {
    || (posts != [] && CardThrows(posts[0], FeaturedExcerptLimit))
    || exists j :: 0 <= j < |Grid(posts)| && CardThrows(Grid(posts)[j], GridExcerptLimit)
  }

  /** What the page shows: the spinner, the error with its retry button,
      the slideshow with the featured card and the grid with excerpts, or
      nothing at all when a card throws while rendering (with no error
      boundary above, the application is unmounted). */
  datatype HomeView =
    | Spinner
    | Failure(message: string)
    | Crashed
    | Page(slideImage: string, slideTitle: string, featured: Option<FeaturedCard>,
           grid: seq<Post>, gridExcerpts: seq<ExcerptView>)

  function Render(posts: seq<Post>, loading: bool, error: Option<string>, slide: nat): HomeView
    requires slide < SlideCount
  {
    if loading then Spinner
    else if error.Some? && error.value != "" then Failure(error.value)
    else if PageThrows(posts) then Crashed
    else
      var grid := Grid(posts);
      Page(SlideImages[slide], SlideTitles[slide], Featured(posts), grid,
           seq(|grid|, j requires 0 <= j < |grid| => Excerpt(Get(grid[j], "excerpt"), GridExcerptLimit)))
  }

  /** The spinner wins over the error; the error wins over the content;
      the content crashes exactly when the newest post's card or one of the
      next nine posts' cards throws; otherwise no card holds a throwing
      excerpt, and the slide image and title share the current index. */
  lemma RenderCorrect(posts: seq<Post>, loading: bool, error: Option<string>, slide: nat)
    requires slide < SlideCount
    ensures loading ==> Render(posts, loading, error, slide) == Spinner
    ensures !loading && error == Some(LoadError) ==> Render(posts, loading, error, slide) == Failure(LoadError)
    ensures !loading && error.None? ==>
      (Render(posts, loading, error, slide).Crashed? <==>
        || (posts != [] && CardThrows(posts[0], FeaturedExcerptLimit))
        || (exists j :: 1 <= j < |posts| && j < 10 && CardThrows(posts[j], GridExcerptLimit)))
    ensures !loading && error.None? && !Render(posts, loading, error, slide).Crashed? ==>
      var v := Render(posts, loading, error, slide);
      && v.Page?
      && v.slideImage == SlideImages[slide] && v.slideTitle == SlideTitles[slide]
      && v.featured == Featured(posts)
      && (v.featured.Some? <==> posts != [])
      && (v.featured.Some? ==> v.featured.value.post == posts[0])
      && |v.gridExcerpts| == |v.grid| <= 9
      && (forall j :: 0 <= j < |v.grid| ==>
            v.grid[j] == posts[j + 1]
            && v.gridExcerpts[j] == Excerpt(Get(posts[j + 1], "excerpt"), GridExcerptLimit)
            && !v.gridExcerpts[j].ExcerptThrows? && !TitleThrows(v.grid[j]))
      && (v.featured.Some? ==> !v.featured.value.excerpt.ExcerptThrows? && !TitleThrows(v.featured.value.post))
  {
    GridCorrect(posts);
    FeaturedCorrect(posts);
    PageThrowsIff(posts);
  }

  /** The page throws iff the newest post's card or a card of the next
      nine posts does. */
  lemma PageThrowsIff(posts: seq<Post>)
    ensures PageThrows(posts) <==>
      || (posts != [] && CardThrows(posts[0], FeaturedExcerptLimit))
      || (exists j :: 1 <= j < |posts| && j < 10 && CardThrows(posts[j], GridExcerptLimit))
  {
    GridCorrect(posts);
    var g := Grid(posts);
    if exists j :: 0 <= j < |g| && CardThrows(g[j], GridExcerptLimit) {
      var j :| 0 <= j < |g| && CardThrows(g[j], GridExcerptLimit);
      assert CardThrows(posts[j + 1], GridExcerptLimit);
    }
    if exists j :: 1 <= j < |posts| && j < 10 && CardThrows(posts[j], GridExcerptLimit) {
      var j :| 1 <= j < |posts| && j < 10 && CardThrows(posts[j], GridExcerptLimit);
      assert g[j - 1] == posts[j];
    }
  }

  /** One more parsed file adds its entry at the end of the batch. */
  lemma {:induction false} BatchAppend(fs: seq<SourceFile>, f: SourceFile)
    requires f.doc.Parsed? && Batch(fs).Some?
    ensures Batch(fs + [f]) == Some(Batch(fs).value + [HomeEntry(f.path, f.doc.attrs)])
  {
    if fs == [] {
      var e := HomeEntry(f.path, f.doc.attrs);
      assert fs + [f] == [f] && [f][0] == f && [f][1..] == [];
      assert Batch([f][1..]) == Some([]);
      assert [e] + [] == [e] && Batch(fs).value + [e] == [e];
    } else {
      assert (fs + [f])[0] == fs[0];
      assert (fs + [f])[1..] == fs[1..] + [f];
      BatchAppend(fs[1..], f);
      var head, tail := HomeEntry(fs[0].path, fs[0].doc.attrs), Batch(fs[1..]).value;
      assert Batch(fs).value == [head] + tail;
      assert [head] + (tail + [HomeEntry(f.path, f.doc.attrs)])
        == ([head] + tail) + [HomeEntry(f.path, f.doc.attrs)];
    }
  }

  /** The batch over one more file of `files`. */
  lemma BatchStep(files: seq<SourceFile>, i: nat)
    requires i < |files| && files[i].doc.Parsed? && Batch(files[..i]).Some?
    ensures Batch(files[..i + 1]) == Some(Batch(files[..i]).value + [HomeEntry(files[i].path, files[i].doc.attrs)])
  {
    var pre, next := files[..i], files[..i + 1];
    assert next == pre + [files[i]];
    BatchAppend(pre, files[i]);
  }

  /** One failing file fails the whole batch. */
  lemma BatchFails(files: seq<SourceFile>, i: nat)
    requires i < |files| && files[i].doc.Failed?
    ensures Batch(files) == None
  {
  }

  /** The `for` loop of `loadPosts`: one entry pushed per file, in glob
      order; the first file that fails to load or parse ends the loop with
      nothing to store. */
  method ReadAll(files: seq<SourceFile>) returns (postList: Option<seq<Post>>)
    ensures postList == Batch(files)
  {
    var list: seq<Post> := [];
    var i := 0;
    while i < |files|
      invariant 0 <= i <= |files|
      invariant Batch(files[..i]) == Some(list)
    {
      if files[i].doc.Failed? {
        BatchFails(files, i);
        return None;
      }
      BatchStep(files, i);
      list := list + [HomeEntry(files[i].path, files[i].doc.attrs)];
      i := i + 1;
    }
    assert files[..i] == files;
    return Some(list);
  }

  /** The component's state: `posts`, `loading`, `error` and `currentSlide`. */
  class HomePage {
    var posts: seq<Post>
    var loading: bool
    var error: Option<string>
    var currentSlide: nat

    /** The current slide is one of the four. */
    predicate Valid()
      reads this
    {
      currentSlide < SlideCount
    }

    constructor()
      ensures Valid()
      ensures posts == [] && loading && error.None? && currentSlide == 0
    {
      posts, loading, error, currentSlide := [], true, None, 0;
    }

    /** `loadPosts`: read every file into the list, stopping at the first
        failure, which stores the error; otherwise sort the list in place
        and store it. `loading` ends false either way and the slideshow is
        untouched. */
    method LoadPosts(files: seq<SourceFile>)
      requires Valid() && AllDated(files)
      modifies this
      ensures Valid() && !loading && currentSlide == old(currentSlide)
      ensures Batch(files).None? ==> error == Some(LoadError) && posts == old(posts)
      ensures Batch(files).Some? ==>
        && error == old(error)
        && posts == SortByDate(Batch(files).value)
        && |posts| == |files|
        && NewestFirst(posts)
        && multiset(posts) == multiset(Batch(files).value)
        && (forall k :: WithDate(posts, k) == WithDate(Batch(files).value, k))
        && (forall p :: p in posts ==> Dated(p))
    {
      var postList := ReadAll(files);
      if postList.None? {
        error := Some(LoadError);
      } else {
        posts := SortList(postList.value);
        BatchDated(files);
        PermutationDated(postList.value, posts);
      }
      loading := false;
    }

    /** `nextSlide` and the six-second interval: one slide forward, wrapping. */
    method NextSlide()
      requires Valid()
      modifies this
      ensures Valid() && currentSlide == NextIndex(old(currentSlide))
      ensures posts == old(posts) && loading == old(loading) && error == old(error)
    {
      currentSlide := (currentSlide + 1) % SlideCount;
    }

    /** `prevSlide`: one slide back, wrapping. */
    method PrevSlide()
      requires Valid()
      modifies this
      ensures Valid() && currentSlide == PrevIndex(old(currentSlide))
      ensures posts == old(posts) && loading == old(loading) && error == old(error)
    {
      currentSlide := (currentSlide - 1 + SlideCount) % SlideCount;
    }

    /** An indicator click: jump to that indicator's slide. */
    method SelectSlide(index: nat)
      requires Valid() && index < SlideCount
      modifies this
      ensures Valid() && currentSlide == index
      ensures posts == old(posts) && loading == old(loading) && error == old(error)
    {
      currentSlide := index;
    }
  }
}
