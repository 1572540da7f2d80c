/**
 * The single-post page: it opens `../posts/<slug>.md`, normalises the
 * post's image path with the list page's rule, and falls back to a fixed
 * "not found" payload when anything fails.
 */
module PostComponent {
  import opened Common
  import opened Text
  import opened Values
  import opened PostIndex

  /** The component's `post` state: the markdown body and the attributes. */
  datatype PostState = PostState(content: string, data: Record)

  /** The state before the post is fetched. */
  const Initial: PostState := PostState("", map[])

  /** The payload shown when the post cannot be loaded. */
  const NotFound: PostState :=
    PostState("Sorry, this post could not be found.", map["title" := Str("Post Not Found")])

  /** The module path the page imports for a slug. */
  function PostPath(slug: string): string {
    "../posts/" + slug + ".md"
  }

  /** The post for `slug` exists, parses, and has an image the rule accepts.
      `bundle` holds the files the build bundled, keyed by path. */
  predicate Loadable(slug: string, bundle: map<string, Fetched>, base: string) {
    var path := PostPath(slug);
    path in bundle && bundle[path].Parsed?
    && !NormaliseImage(Get(bundle[path].attrs, "image"), base).ImageThrows?
  }

  /** What `fetchPost` stores: `{content, data: {...data, image: imagePath}}`,
      or the not-found payload when the import, the fetch, the parse or the
      image rule throws. */
  function Fetch(slug: string, bundle: map<string, Fetched>, base: string): PostState {
    var path := PostPath(slug);
    if path !in bundle then NotFound
    else
      match bundle[path]
      case Failed => NotFound
      case Parsed(data, content) =>
        match NormaliseImage(Get(data, "image"), base)
        case ImageThrows => NotFound
        case Resolved(img) => PostState(content, data["image" := img])
  }

  /** The fallback is shown exactly when the post is not loadable; a loaded
      post keeps its body unchanged and every attribute but `image`, which
      takes the normalised path. */
  lemma FetchCorrect(slug: string, bundle: map<string, Fetched>, base: string)
    ensures Fetch(slug, bundle, base) == NotFound <==> !Loadable(slug, bundle, base)
    ensures Loadable(slug, bundle, base) ==>
      var doc, st := bundle[PostPath(slug)], Fetch(slug, bundle, base);
      && st.content == doc.body
      && st.data.Keys == doc.attrs.Keys + {"image"}
      && (forall k :: k in doc.attrs && k != "image" ==> st.data[k] == doc.attrs[k])
      && st.data["image"] == NormaliseImage(Get(doc.attrs, "image"), base).image
  {
    if Loadable(slug, bundle, base) {
      assert "image" in Fetch(slug, bundle, base).data;
      assert "image" !in NotFound.data;
    }
  }

  /** Once loaded, `<h1>{data.title}</h1>` throws on a title React cannot
      render; with no error boundary the application is unmounted and
      nothing of the post appears. */
  predicate Crashes(st: PostState) {
    TitleThrows(st.data)
  }

  /** The date line is rendered only for a truthy `date`, on a page that
      does not crash. */
  predicate ShowsDate(st: PostState) {
    !Crashes(st) && Has(st.data, "date")
  }

  /** The image is rendered only for a truthy `image`, on a page that does
      not crash. */
  predicate ShowsImage(st: PostState) {
    !Crashes(st) && Has(st.data, "image")
  }

  /** The page crashes exactly for a loadable post whose frontmatter title
      is a `Date` or a mapping: the fallback's title is a string, and a
      loaded post keeps its title. */
  lemma LoadedCrashes(slug: string, bundle: map<string, Fetched>, base: string)
    ensures Crashes(Fetch(slug, bundle, base)) <==>
      Loadable(slug, bundle, base) && TitleThrows(bundle[PostPath(slug)].attrs)
  {
    FetchCorrect(slug, bundle, base);
  }

  /** The fallback shows its title and message, and neither a date nor an image. */
  lemma NotFoundShowsNeither()
    ensures !Crashes(NotFound) && !ShowsDate(NotFound) && !ShowsImage(NotFound)
    ensures !Crashes(Initial) && !ShowsDate(Initial) && !ShowsImage(Initial)
  {
  }

  /** With a non-empty `BASE_URL` (Vite's default is `/`), a loaded post
      shows an image exactly when its title renders and its frontmatter
      image is a non-empty string. */
  lemma LoadedImageShown(slug: string, bundle: map<string, Fetched>, base: string)
    requires Loadable(slug, bundle, base) && base != ""
    ensures var attrs := bundle[PostPath(slug)].attrs; var image := Get(attrs, "image");
      ShowsImage(Fetch(slug, bundle, base)) <==>
        !TitleThrows(attrs) && image.Some? && image.value.Str? && image.value.s != ""
  {
    FetchCorrect(slug, bundle, base);
    LoadedCrashes(slug, bundle, base);
    NormaliseImageCases(Get(bundle[PostPath(slug)].attrs, "image"), base);
  }

  /** A slug the list pages produce from `../posts/<name>.md` opens that
      same file, and the list pages' slug rule reads the page's own path
      back as the slug, for names free of `/` and `.md`. */
  lemma PathRoundTrip(name: string)
    requires '/' !in name && NoMd(name)
    ensures Slug(PostPath(name)) == name
    ensures PostPath(Slug("../posts/" + name + ".md")) == "../posts/" + name + ".md"
  {
    assert PostPath(name) == "../posts" + "/" + name + ".md";
    SlugOfMarkdownFile("../posts", name);
  }

  /** The slug of a file in the posts directory is its name with the first
      `.md` removed. */
  lemma SlugInPosts(name: string)
    requires '/' !in name
    ensures Slug("../posts/" + name) == ReplaceFirst(name, ".md", "")
  {
    assert "../posts/" + name == "../posts" + "/" + name;
    LastSegmentAfter("../posts", name);
  }

  /** A file whose name holds `.md` before its extension gets a slug that
      does not lead back to it: `a.md<b>.md` has slug `a<b>.md`, and the
      page for that slug opens `a<b>.md.md` (for instance `x.mdy.md` has
      slug `xy.md`). */
  lemma SlugLosesInnerMd(a: string, b: string)
    requires NoMd(a) && '/' !in a && '/' !in b && b != [] && b[0] != '.'
    ensures Slug("../posts/" + a + ".md" + b + ".md") == a + b + ".md"
    ensures PostPath(Slug("../posts/" + a + ".md" + b + ".md")) != "../posts/" + a + ".md" + b + ".md"
  {
    var name := a + ".md" + (b + ".md");
    assert "../posts/" + a + ".md" + b + ".md" == "../posts/" + name;
    assert '/' !in name by {
      assert forall i :: 0 <= i < |name| ==>
        name[i] in a || name[i] in ".md" || name[i] in b;
    }
    SlugInPosts(name);
    RemoveFirstMd(a, b + ".md");
    assert a + (b + ".md") == a + b + ".md";
    InnerMdPathDiffers(a, b);
  }

  /** Removing the first `.md` from `a.md<rest>`, when `a` has none, leaves `a<rest>`. */
  lemma RemoveFirstMd(a: string, rest: string)
    requires NoMd(a)
    ensures ReplaceFirst(a + ".md" + rest, ".md", "") == a + rest
  {
    var s := a + ".md" + rest;
    FirstMdAfter(a, rest);
    assert s[..|a|] == a;
    assert s[|a| + 3..] == rest;
  }

  /** The page for slug `a<b>.md` is not the file `a.md<b>.md` when `b` does not start with `.`. */
  lemma InnerMdPathDiffers(a: string, b: string)
    requires b != [] && b[0] != '.'
    ensures PostPath(a + b + ".md") != "../posts/" + a + ".md" + b + ".md"
  {
    var p, q := PostPath(a + b + ".md"), "../posts/" + a + ".md" + b + ".md";
    assert p[9 + |a|] == b[0];
    assert q[9 + |a|] == '.';
  }

  /** The component's state: `post` and `loading`, for the routed `slug`. */
  class PostPage {
    const slug: string
    var post: PostState
    var loading: bool

    constructor(slug: string)
      ensures this.slug == slug && post == Initial && loading
    {
      this.slug := slug;
      post := Initial;
      loading := true;
    }

    /** `fetchPost`: the loaded post or the fallback; `loading` ends false
        either way. */
    method FetchPost(bundle: map<string, Fetched>, base: string)
      modifies this
      ensures post == Fetch(slug, bundle, base) && !loading
      ensures post == NotFound <==> !Loadable(slug, bundle, base)
    {
      var path := PostPath(slug);
      if path !in bundle || bundle[path].Failed? {
        post := NotFound;
      } else {
        var data, content := bundle[path].attrs, bundle[path].body;
        var image := NormaliseImage(Get(data, "image"), base);
        if image.ImageThrows? {
          post := NotFound;
        } else {
          post := PostState(content, data["image" := image.image]);
        }
      }
      loading := false;
      FetchCorrect(slug, bundle, base);
    }
  }
}
