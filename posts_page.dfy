/**
 * An unrouted variant of the posts page (no route mounts it): every
 * bundled markdown file becomes one entry, with no validation; the list is
 * sorted in place newest first and shown through the title search. Its
 * effect has no `try`, so a parser error escapes it and, with no error
 * boundary above, unmounts the application.
 */
module PostsPage {
  import opened Common
  import opened Text
  import opened Values
  import opened PostIndex

  /** The `map` callback: `{...data, content, slug}` for a parsed file. */
  function PageEntry(path: string, data: Record, content: string): (p: Post)
    ensures p.Keys == data.Keys + {"content", "slug"}
    ensures forall k :: k in data && k != "content" && k != "slug" ==> p[k] == data[k]
    ensures p["content"] == Str(content) && p["slug"] == Str(Slug(path))
  {
    data["content" := Str(content)]["slug" := Str(Slug(path))]
  }

  /** `postList`; `None` when the parser throws on some file. The throw
      is not caught: it escapes the effect before anything is stored. */
  function PostList(files: seq<SourceFile>): (r: Option<seq<Post>>)
    ensures r.None? <==> exists i :: 0 <= i < |files| && files[i].doc.Failed?
    ensures r.Some? ==> |r.value| == |files|
    ensures r.Some? ==> forall i :: 0 <= i < |files| ==>
      r.value[i] == PageEntry(files[i].path, files[i].doc.attrs, files[i].doc.body)
  {
    if files == [] then Some([])
    else if files[0].doc.Failed? then None
    else
      var rest := PostList(files[1..]);
      assert forall i :: 0 < i < |files| ==> files[i] == files[1..][i - 1];
      match rest
      case None => None
      case Some(tail) =>
        Some([PageEntry(files[0].path, files[0].doc.attrs, files[0].doc.body)] + tail)
  }

  /** With timestamp dates every entry is `Dated`, so the sort key is its date. */
  lemma PostListDated(files: seq<SourceFile>)
    requires AllDated(files) && PostList(files).Some?
    ensures forall p :: p in PostList(files).value ==> Dated(p)
  {
    var entries := PostList(files).value;
    forall p | p in entries ensures Dated(p) {
      var i :| 0 <= i < |entries| && entries[i] == p;
      assert files[i].doc.Parsed?;
    }
  }

  /** What the page shows: one card per result, the empty message, or
      nothing at all when an uncaught error unmounts the application (the
      parser throwing in the effect, or the filter throwing on an entry
      without a string title). */
  datatype Listing = Crashed | Cards(shown: seq<Post>) | Message(text: string)

  /** The empty-result message. */
  const EmptyMessage: string := "No posts found."

  function Render(posts: seq<Post>, search: string): Listing {
    match FilterByTitle(posts, search)
    case None => Crashed
    case Some(shown) => if |shown| > 0 then Cards(shown) else Message(EmptyMessage)
  }

  /** The page as a whole: a crash in the effect leaves nothing on screen;
      otherwise the filtered list. */
  function View(crashed: bool, posts: seq<Post>, search: string): (r: Listing)
    ensures r.Crashed? <==> crashed || exists i :: 0 <= i < |posts| && !Titled(posts[i])
    ensures !r.Crashed? ==> r == Render(posts, search)
  {
    if crashed then Crashed else Render(posts, search)
  }

  /** An empty search lists every entry, in order; the message appears only
      for an empty list. */
  lemma RenderEmptySearch(posts: seq<Post>)
    requires forall i :: 0 <= i < |posts| ==> Titled(posts[i])
    ensures Render(posts, "") == if posts == [] then Message(EmptyMessage) else Cards(posts)
  {
    FilterEmptySearch(posts);
  }

  /** The cards are the matching entries in list order; the message means
      no entry matches. */
  lemma RenderCorrect(posts: seq<Post>, search: string)
    ensures Render(posts, search).Crashed? <==> exists i :: 0 <= i < |posts| && !Titled(posts[i])
    ensures Render(posts, search).Cards? ==>
      var shown := Render(posts, search).shown;
      && shown == FilterByTitle(posts, search).value
      && IsSubsequence(shown, posts)
      && (forall p :: p in shown ==> Titled(p) && Matches(p, search))
      && (forall p :: multiset(shown)[p] == if Titled(p) && Matches(p, search) then multiset(posts)[p] else 0)
    ensures Render(posts, search).Message? ==>
      forall i :: 0 <= i < |posts| ==> !Matches(posts[i], search)
  {
    if FilterByTitle(posts, search).Some? {
      FilterByTitleCorrect(posts, search);
      var shown := FilterByTitle(posts, search).value;
      if shown == [] {
        forall i | 0 <= i < |posts| ensures !Matches(posts[i], search) {
          assert multiset(shown)[posts[i]] == 0;
          assert posts[i] in multiset(posts);
        }
      }
    }
  }

  /** The page's state: `posts` and `search`, and whether an uncaught
      error has unmounted the application. */
  class PostsView {
    var posts: seq<Post>
    var search: string
    var crashed: bool

    constructor()
      ensures posts == [] && search == "" && !crashed
    {
      posts, search, crashed := [], "", false;
    }

    /** The effect: build `postList`, sort it in place, store it. When a
        file fails to parse the error escapes the effect: nothing is
        stored and the application is unmounted. */
    method BuildPosts(files: seq<SourceFile>)
      requires AllDated(files)
      modifies this
      ensures search == old(search)
      ensures PostList(files).None? ==> crashed && posts == old(posts)
      ensures PostList(files).Some? ==>
        && crashed == old(crashed)
        && posts == SortByDate(PostList(files).value)
        && |posts| == |files|
        && NewestFirst(posts)
        && multiset(posts) == multiset(PostList(files).value)
        && (forall k :: WithDate(posts, k) == WithDate(PostList(files).value, k))
        && (forall p :: p in posts ==> Dated(p))
    {
      var list := PostList(files);
      if list.None? {
        crashed := true;
        return;
      }
      var entries := list.value;
      posts := SortList(entries);
      PostListDated(files);
      PermutationDated(entries, posts);
    }

    method SetSearch(q: string)
      modifies this
      ensures search == q && posts == old(posts) && crashed == old(crashed)
    {
      search := q;
    }
  }
}
