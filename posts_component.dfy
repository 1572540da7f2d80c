/**
 * The posts list component: it loads every markdown file, drops the ones
 * that fail to load or lack a title or a date, normalises the image path,
 * sorts the rest newest first, and shows the entries whose title matches
 * the search box.
 */
module PostsComponent {
  import opened Common
  import opened Text
  import opened Values
  import opened PostIndex

  /** The fields the component sets on an entry after spreading the frontmatter. */
  const Added: set<string> := {"content", "image", "slug"}

  /** The per-file callback of `loadPosts`: `None` is the `null` it returns
      for a file that fails to load or parse, that lacks a truthy `title`
      or `date`, or whose image rule throws; otherwise the entry
      `{...data, content, image: imagePath, slug}`. */
  function BuildEntry(file: SourceFile, base: string): Option<Post> {
    match file.doc
    case Failed => None
    case Parsed(data, content) =>
      if !Has(data, "title") || !Has(data, "date") then None
      else
        match NormaliseImage(Get(data, "image"), base)
        case ImageThrows => None
        case Resolved(img) =>
          Some(data["content" := Str(content)]["image" := img]["slug" := Str(Slug(file.path))])
  }

  /** `loadedPosts.filter(Boolean)`: the entries of the files that survive, in file order. */
  function Survivors(files: seq<SourceFile>, base: string): seq<Post> {
    if files == [] then []
    else
      (match BuildEntry(files[0], base) case None => [] case Some(p) => [p])
      + Survivors(files[1..], base)
  }

  /** Which files survive, and what their entries hold: every frontmatter
      attribute, with `content`, `image` and `slug` overriding any
      same-named attribute. */
  lemma BuildEntryCorrect(file: SourceFile, base: string)
    ensures BuildEntry(file, base).Some? <==>
      file.doc.Parsed? && Has(file.doc.attrs, "title") && Has(file.doc.attrs, "date")
      && !NormaliseImage(Get(file.doc.attrs, "image"), base).ImageThrows?
    ensures BuildEntry(file, base).Some? ==>
      var p, data := BuildEntry(file, base).value, file.doc.attrs;
      && p.Keys == data.Keys + Added
      && (forall k :: k in data && k !in Added ==> p[k] == data[k])
      && p["content"] == Str(file.doc.body)
      && p["image"] == NormaliseImage(Get(data, "image"), base).image
      && p["slug"] == Str(Slug(file.path))
      && Has(p, "title") && Has(p, "date")
  {
  }

  /** The frontmatter dates that count are timestamps, so that the sort's
      comparator is consistent (a date string or a missing date would make
      it compare `NaN`). */
  predicate DatesAreStamps(files: seq<SourceFile>) {
    forall i :: 0 <= i < |files| && files[i].doc.Parsed? && Has(files[i].doc.attrs, "date")
      ==> files[i].doc.attrs["date"].Stamp?
  }

  /** What the per-file callback returns for each file, in file order
      (the array `Promise.all` resolves to). */
  function Results(files: seq<SourceFile>, base: string): (r: seq<Option<Post>>)
    ensures |r| == |files|
    ensures forall i :: 0 <= i < |files| ==> r[i] == BuildEntry(files[i], base)
  {
    seq(|files|, i requires 0 <= i < |files| => BuildEntry(files[i], base))
  }

  /** The positions, from `from` on, of the results that are entries, in
      increasing order. */
  function SurvivorIndices(ys: seq<Option<Post>>, from: nat): seq<nat>
    requires from <= |ys|
    decreases |ys| - from
  {
    if from == |ys| then []
    else (if ys[from].Some? then [from] else []) + SurvivorIndices(ys, from + 1)
  }

  /** `s` holds one entry per result of `ys[from..]` that is an entry, in
      order: `idx[j]` is the position the `j`-th entry comes from. */
  predicate IndexedFrom(ys: seq<Option<Post>>, from: nat, s: seq<Post>, idx: seq<nat>) {
    && |s| == |idx|
    && (forall j :: 0 <= j < |idx| ==> from <= idx[j] < |ys| && ys[idx[j]] == Some(s[j]))
    && (forall j, k :: 0 <= j < k < |idx| ==> idx[j] < idx[k])
    && (forall i :: from <= i < |ys| ==> (i in idx <==> ys[i].Some?))
  }

  /** `filter(Boolean)` keeps exactly one entry per surviving file, in file
      order: the `j`-th entry comes from the `j`-th surviving file. */
  lemma {:induction false} SurvivorsIndexed(files: seq<SourceFile>, base: string, from: nat)
    requires from <= |files|
    ensures IndexedFrom(Results(files, base), from, Survivors(files[from..], base),
                        SurvivorIndices(Results(files, base), from))
    decreases |files| - from
  {
    if from < |files| {
      SurvivorsIndexed(files, base, from + 1);
      var ys := Results(files, base);
      var rest := files[from..];
      assert rest[0] == files[from] && rest[1..] == files[from + 1..];
      var s, tail := Survivors(files[from + 1..], base), SurvivorIndices(ys, from + 1);
      match BuildEntry(files[from], base)
      case None =>
        assert Survivors(rest, base) == [] + s;
        SkipIndexed(ys, from, s, tail);
      case Some(p) =>
        assert Survivors(rest, base) == [p] + s;
        KeepIndexed(ys, from, s, tail);
    }
  }

  /** A result that is not an entry adds nothing. */
  lemma SkipIndexed(ys: seq<Option<Post>>, from: nat, s: seq<Post>, idx: seq<nat>)
    requires from < |ys| && ys[from].None?
    requires IndexedFrom(ys, from + 1, s, idx)
    ensures IndexedFrom(ys, from, [] + s, [] + idx)
  {
    assert [] + s == s && [] + idx == idx;
    assert from !in idx;
  }

  /** A result that is an entry adds it in front. */
  lemma KeepIndexed(ys: seq<Option<Post>>, from: nat, s: seq<Post>, idx: seq<nat>)
    requires from < |ys| && ys[from].Some?
    requires IndexedFrom(ys, from + 1, s, idx)
    ensures IndexedFrom(ys, from, [ys[from].value] + s, [from] + idx)
  {
    var s', idx' := [ys[from].value] + s, [from] + idx;
    forall j | 0 <= j < |idx'|
      ensures from <= idx'[j] < |ys| && ys[idx'[j]] == Some(s'[j])
    {
      if j > 0 {
        assert idx'[j] == idx[j - 1] && s'[j] == s[j - 1];
      }
    }
    forall j, k | 0 <= j < k < |idx'| ensures idx'[j] < idx'[k] {
      assert idx'[k] == idx[k - 1];
      if j > 0 {
        assert idx'[j] == idx[j - 1];
      }
    }
  }

  /** An entry is in the list exactly when some file yields it, and the
      list holds one entry per surviving file, in file order (`Results`
      holds what each file yields). */
  lemma SurvivorsMembers(files: seq<SourceFile>, base: string)
    ensures |Survivors(files, base)| <= |files|
    ensures forall p :: p in Survivors(files, base) <==>
      exists i :: 0 <= i < |files| && BuildEntry(files[i], base) == Some(p)
    ensures IndexedFrom(Results(files, base), 0, Survivors(files, base), SurvivorIndices(Results(files, base), 0))
  {
    SurvivorsIndexed(files, base, 0);
    assert files[0..] == files;
    SurvivorsFrom(files, base);
  }

  lemma {:induction false} SurvivorsFrom(files: seq<SourceFile>, base: string)
    ensures |Survivors(files, base)| <= |files|
    ensures forall p :: p in Survivors(files, base) <==>
      exists i :: 0 <= i < |files| && BuildEntry(files[i], base) == Some(p)
  {
    if files != [] {
      var tail := files[1..];
      SurvivorsFrom(tail, base);
      forall p | p in Survivors(files, base)
        ensures exists i :: 0 <= i < |files| && BuildEntry(files[i], base) == Some(p)
      {
        if BuildEntry(files[0], base) != Some(p) {
          var i :| 0 <= i < |tail| && BuildEntry(tail[i], base) == Some(p);
          assert files[i + 1] == tail[i];
        }
      }
      forall p, i | 0 <= i < |files| && BuildEntry(files[i], base) == Some(p)
        ensures p in Survivors(files, base)
      {
        if i > 0 {
          assert BuildEntry(tail[i - 1], base) == Some(p);
        }
      }
    }
  }

  /** An entry is in the list exactly when some file yields it; every
      entry has a truthy title and date, and a timestamp date when the
      frontmatter dates are timestamps. */
  lemma SurvivorsCorrect(files: seq<SourceFile>, base: string)
    ensures |Survivors(files, base)| <= |files|
    ensures forall p :: p in Survivors(files, base) <==>
      exists i :: 0 <= i < |files| && BuildEntry(files[i], base) == Some(p)
    ensures forall p :: p in Survivors(files, base) ==> Has(p, "title") && Has(p, "date")
    ensures DatesAreStamps(files) ==> forall p :: p in Survivors(files, base) ==> Dated(p)
  {
    SurvivorsMembers(files, base);
    forall p | p in Survivors(files, base)
      ensures Has(p, "title") && Has(p, "date")
      ensures DatesAreStamps(files) ==> Dated(p)
    {
      var i :| 0 <= i < |files| && BuildEntry(files[i], base) == Some(p);
      EntryDated(files[i], base);
    }
  }

  /** A surviving entry is titled and dated, and keeps a timestamp date. */
  lemma EntryDated(file: SourceFile, base: string)
    requires BuildEntry(file, base).Some?
    ensures var p := BuildEntry(file, base).value;
      && Has(p, "title") && Has(p, "date")
      && (file.doc.attrs["date"].Stamp? ==> Dated(p))
  {
    var data := file.doc.attrs;
    var p := BuildEntry(file, base).value;
    assert p["date"] == data["date"] && p["title"] == data["title"];
  }

  // ---------------------------------------------------------------------
  // Rendering
  // ---------------------------------------------------------------------

  /** The "Found ..." line over the results, shown while searching. */
  function CountText(n: nat, search: string): string {
    "Found " + NatToString(n) + " post" + (if n != 1 then "s" else "") + " matching \"" + search + "\""
  }

  /** The count reads back as the number of results, and the noun is
      singular exactly when there is one result. */
  lemma CountTextCorrect(n: nat, search: string)
    ensures var d := NatToString(n);
      && DecimalValue(d) == n
      && (n == 1 <==> CountText(n, search) == "Found " + d + " post matching \"" + search + "\"")
      && (n != 1 <==> CountText(n, search) == "Found " + d + " posts matching \"" + search + "\"")
  {
    DecimalRoundTrip(n);
    var d := NatToString(n);
    var tail := " matching \"" + search + "\"";
    var one := "Found " + d + " post" + tail;
    var many := "Found " + d + " posts" + tail;
    assert one[6 + |d| + 5] == ' ' && many[6 + |d| + 5] == 's';
  }

  /** The main area: the spinner, one card per result, or a message. */
  datatype Body = Spinner | Cards(shown: seq<Post>) | NoPosts(message: string)

  /** What the page shows: the count line, the main area, and whether the
      "Back to Top" button appears. `Crashed` is a `TypeError` thrown while
      rendering, which with no error boundary unmounts the application:
      the filter's on an entry without a string title, or a card's on a
      truthy excerpt that is not a string. */
  datatype Screen = Crashed | Screen(count: Option<string>, body: Body, backToTop: bool)

  /** A card cuts its excerpt to 120 characters. */
  const CardExcerptLimit: nat := 120

  /** The card of `p` throws while cutting its excerpt. */
  predicate CardThrows(p: Post) {
    Excerpt(Get(p, "excerpt"), CardExcerptLimit).ExcerptThrows?
  }

  function Render(posts: seq<Post>, search: string, loading: bool): Screen {
    match FilterByTitle(posts, search)
    case None => Crashed
    case Some(shown) =>
      if !loading && exists i :: 0 <= i < |shown| && CardThrows(shown[i]) then Crashed
      else Screen(
        if search != "" then Some(CountText(|shown|, search)) else None,
        if loading then Spinner
        else if |shown| > 0 then Cards(shown)
        else if search != "" then NoPosts("No posts matching \"" + search + "\" were found.")
        else NoPosts("No posts available at the moment."),
        |shown| > 6)
  }

  /** The page crashes exactly when some entry has no string title, or,
      once loading is done, some matching entry's card throws on its
      excerpt. */
  lemma RenderCrashes(posts: seq<Post>, search: string, loading: bool)
    ensures Render(posts, search, loading).Crashed? <==>
      || (exists i :: 0 <= i < |posts| && !Titled(posts[i]))
      || (!loading && exists i :: 0 <= i < |posts| && Titled(posts[i]) && Matches(posts[i], search) && CardThrows(posts[i]))
  {
    if FilterByTitle(posts, search).Some? {
      ShownCardThrows(posts, search);
    }
  }

  /** An entry is among the shown ones iff it is in the list, titled and matching. */
  lemma ShownMember(posts: seq<Post>, search: string, p: Post)
    requires FilterByTitle(posts, search).Some?
    ensures p in FilterByTitle(posts, search).value <==> p in posts && Titled(p) && Matches(p, search)
  {
    var shown := FilterByTitle(posts, search).value;
    FilterByTitleCorrect(posts, search);
    assert multiset(shown)[p] == if Titled(p) && Matches(p, search) then multiset(posts)[p] else 0;
  }

  /** Some shown card throws iff some matching entry's card does. */
  lemma ShownCardThrows(posts: seq<Post>, search: string)
    requires FilterByTitle(posts, search).Some?
    ensures var shown := FilterByTitle(posts, search).value;
      (exists i :: 0 <= i < |shown| && CardThrows(shown[i])) <==>
      (exists i :: 0 <= i < |posts| && Titled(posts[i]) && Matches(posts[i], search) && CardThrows(posts[i]))
  {
    var shown := FilterByTitle(posts, search).value;
    if exists i :: 0 <= i < |shown| && CardThrows(shown[i]) {
      var i :| 0 <= i < |shown| && CardThrows(shown[i]);
      ShownToListed(posts, search, i);
    }
    if exists i :: 0 <= i < |posts| && Titled(posts[i]) && Matches(posts[i], search) && CardThrows(posts[i]) {
      var i :| 0 <= i < |posts| && Titled(posts[i]) && Matches(posts[i], search) && CardThrows(posts[i]);
      ListedToShown(posts, search, i);
    }
  }

  /** A shown entry sits somewhere in the list. */
  lemma ShownToListed(posts: seq<Post>, search: string, i: nat)
    requires FilterByTitle(posts, search).Some? && i < |FilterByTitle(posts, search).value|
    ensures exists j ::
      && 0 <= j < |posts| && posts[j] == FilterByTitle(posts, search).value[i]
      && Titled(posts[j]) && Matches(posts[j], search)
  {
    var p := FilterByTitle(posts, search).value[i];
    ShownMember(posts, search, p);
    var j :| 0 <= j < |posts| && posts[j] == p;
  }

  /** A titled, matching entry of the list is shown. */
  lemma ListedToShown(posts: seq<Post>, search: string, i: nat)
    requires FilterByTitle(posts, search).Some? && i < |posts| && Titled(posts[i]) && Matches(posts[i], search)
    ensures exists j :: 0 <= j < |FilterByTitle(posts, search).value| && FilterByTitle(posts, search).value[j] == posts[i]
  {
    var shown := FilterByTitle(posts, search).value;
    ShownMember(posts, search, posts[i]);
    var j :| 0 <= j < |shown| && shown[j] == posts[i];
  }

  /** With an empty search every entry gets a card, and without entries the
      page says none are available; a card whose excerpt throws crashes the
      page instead. */
  lemma RenderEmptySearch(posts: seq<Post>)
    requires forall i :: 0 <= i < |posts| ==> Titled(posts[i])
    ensures (exists i :: 0 <= i < |posts| && CardThrows(posts[i])) ==> Render(posts, "", false) == Crashed
    ensures (forall i :: 0 <= i < |posts| ==> !CardThrows(posts[i])) ==>
      Render(posts, "", false) ==
        Screen(None, if posts == [] then NoPosts("No posts available at the moment.") else Cards(posts), |posts| > 6)
  {
    FilterEmptySearch(posts);
  }

  /** A whitespace-only search is a real search: it is not trimmed. */
  lemma WhitespaceSearchIsASearch(posts: seq<Post>)
    requires forall i :: 0 <= i < |posts| ==> Titled(posts[i]) && !CardThrows(posts[i])
    ensures Render(posts, " ", false).Screen?
    ensures Render(posts, " ", false).count == Some(CountText(|FilterByTitle(posts, " ").value|, " "))
  {
    ShownCardThrows(posts, " ");
  }

  /** The cards shown are the matching entries, in list order, and none
      of them throws on its excerpt. */
  lemma RenderCards(posts: seq<Post>, search: string, loading: bool)
    requires Render(posts, search, loading).Screen? && Render(posts, search, loading).body.Cards?
    ensures var shown := Render(posts, search, loading).body.shown;
      && !loading && shown != []
      && shown == FilterByTitle(posts, search).value
      && IsSubsequence(shown, posts)
      && (forall p :: p in shown ==> Titled(p) && Matches(p, search) && !CardThrows(p))
      && (forall p :: multiset(shown)[p] == if Titled(p) && Matches(p, search) then multiset(posts)[p] else 0)
  {
    FilterByTitleCorrect(posts, search);
  }

  /** The component's state: `posts`, `search` and `loading`. */
  class PostsList {
    var posts: seq<Post>
    var search: string
    var loading: bool

    constructor()
      ensures posts == [] && search == "" && loading
    {
      posts, search, loading := [], "", true;
    }

    /** `loadPosts`: build the surviving entries, sort them in place newest
        first, store them; `loading` ends false. Nothing in the try block
        can throw once every per-file error is caught, so the outer `catch`
        is not modelled. */
    method LoadPosts(files: seq<SourceFile>, base: string)
      requires DatesAreStamps(files)
      modifies this
      ensures posts == SortByDate(Survivors(files, base))
      ensures NewestFirst(posts) && multiset(posts) == multiset(Survivors(files, base))
      ensures forall k :: WithDate(posts, k) == WithDate(Survivors(files, base), k)
      ensures forall p :: p in posts ==> Dated(p) && Has(p, "title")
      ensures !loading && search == old(search)
    {
      var loaded := Survivors(files, base);
      posts := SortList(loaded);
      loading := false;
      SurvivorsCorrect(files, base);
      forall p | p in posts ensures Dated(p) && Has(p, "title") {
        assert p in multiset(loaded);
      }
    }

    /** Typing in the search box, or clearing it with its button. */
    method SetSearch(q: string)
      modifies this
      ensures search == q && posts == old(posts) && loading == old(loading)
    {
      search := q;
    }
  }
}
