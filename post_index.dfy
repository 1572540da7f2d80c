/**
 * The pieces of the post index that the list pages, the home page and the
 * single-post page share, each written once: the slug rule, the image-path
 * rule, the newest-first date sort and the title search.
 */
module PostIndex {
  import opened Common
  import opened Text
  import opened Values

  /** A post entry: the spread frontmatter plus the fields a page adds. */
  type Post = Record

  // ---------------------------------------------------------------------
  // Slug: path.split("/").pop().replace(".md", "")
  // ---------------------------------------------------------------------

  /** The slug of a globbed path: its last `/`-segment with the first
      occurrence of `.md` removed, wherever that occurrence is. */
  function Slug(path: string): (r: string)
    ensures '/' !in r
  {
    var name := Last(Split(path, '/'));
    assert '/' !in name;
    ReplaceFirst(name, ".md", "")
  }

  /** `name` has no `.md` anywhere in it. */
  predicate NoMd(name: string) {
    !Includes(name, ".md")
  }

  /** The last segment after a separator is whatever follows the last one. */
  lemma LastSegmentAfter(dir: string, name: string)
    requires '/' !in name
    ensures Last(Split(dir + "/" + name, '/')) == name
  {
    var s := dir + "/" + name;
    LastSplit(s, '/');
    assert s[|dir|] == '/';
  }

  /** In `name + ".md" + rest`, when `name` has no `.md`, the first `.md`
      is the one right after `name`. */
  lemma FirstMdAfter(name: string, rest: string)
    requires NoMd(name)
    ensures IndexOf(name + ".md" + rest, ".md") == Some(|name|)
  {
    var s := name + ".md" + rest;
    assert PrefixAt(s, ".md", |name|) by { assert s[|name|..|name| + 3] == ".md"; }
    forall j: nat | j < |name|
      ensures !PrefixAt(s, ".md", j)
    {
      if j + 3 <= |name| {
        assert !PrefixAt(name, ".md", j);
        assert s[j..j + 3] == name[j..j + 3];
      } else if j + 2 == |name| {
        assert s[j..j + 3][2] == s[|name|] == '.';
      } else {
        assert s[j..j + 3][1] == s[|name|] == '.';
      }
    }
  }

  /** For `dir/name.md`, where `name` has no `/` and no `.md`, the slug is `name`. */
  lemma SlugOfMarkdownFile(dir: string, name: string)
    requires '/' !in name && NoMd(name)
    ensures Slug(dir + "/" + name + ".md") == name
  {
    assert dir + "/" + name + ".md" == dir + "/" + (name + ".md");
    LastSegmentAfter(dir, name + ".md");
    FirstMdAfter(name, "");
    var s := name + ".md";
    assert s + "" == s;
    assert s[..|name|] == name;
    assert s[|name| + 3..] == [];
  }

  // ---------------------------------------------------------------------
  // Image path
  // ---------------------------------------------------------------------

  /** The outcome of the `imagePath` ternary: a value for the entry's
      `image`, or a `TypeError` when `image` is neither a string nor
      nullish (`image?.startsWith` is then not a function). */
  datatype ImagePath = Resolved(image: Value) | ImageThrows

  /** `image?.startsWith("http") ? image : image ? BASE_URL + image.replace(/^\/+/, "") : null`. */
  function NormaliseImage(image: Option<Value>, base: string): ImagePath {
    match image
    case None => Resolved(Null)
    case Some(Null) => Resolved(Null)
    case Some(Str(s)) =>
      if StartsWith(s, "http") then Resolved(Str(s))
      else if s != "" then Resolved(Str(base + StripLeadingSlashes(s)))
      else Resolved(Null)
    case Some(_) => ImageThrows
  }

  /** The three-way image rule, and when it throws. */
  lemma NormaliseImageCases(image: Option<Value>, base: string)
    ensures NormaliseImage(image, base).ImageThrows?
            <==> image.Some? && !image.value.Str? && !image.value.Null?
    ensures image.Some? && image.value.Str? && StartsWith(image.value.s, "http")
            ==> NormaliseImage(image, base) == Resolved(image.value)
    ensures (image.None? || !Truthy(image.value)) && !NormaliseImage(image, base).ImageThrows?
            ==> NormaliseImage(image, base) == Resolved(Null)
    ensures image.Some? && image.value.Str? && image.value.s != "" && !StartsWith(image.value.s, "http")
            ==> var s := image.value.s;
                exists k :: 0 <= k <= |s| &&
                  NormaliseImage(image, base) == Resolved(Str(base + s[k..])) &&
                  (forall i :: 0 <= i < k ==> s[i] == '/') &&
                  (k == |s| || s[k] != '/')
  {
    if image.Some? && image.value.Str? && image.value.s != "" && !StartsWith(image.value.s, "http") {
      var s := image.value.s;
      var t := StripLeadingSlashes(s);
      var k := |s| - |t|;
      assert NormaliseImage(image, base) == Resolved(Str(base + s[k..]));
    }
  }

  /** Leading slashes on a relative path make no difference: no double
      separator after the base. */
  lemma LeadingSlashIgnored(s: string, base: string)
    requires s != "" && !StartsWith(s, "http")
    ensures NormaliseImage(Some(Str("/" + s)), base) == NormaliseImage(Some(Str(s)), base)
  {
    var t := "/" + s;
    assert !StartsWith(t, "http") by { assert t[0] == '/'; }
    assert t[1..] == s;
  }

  // ---------------------------------------------------------------------
  // Newest-first sort: sort((a, b) => new Date(b.date) - new Date(a.date))
  // ---------------------------------------------------------------------

  /** The entry's `date` is a parsed timestamp, so the comparator yields a number. */
  predicate Dated(p: Post) {
    "date" in p && p["date"].Stamp?
  }

  /** The sort key; it is consulted only for `Dated` entries. */
  function DateKey(p: Post): int {
    if Dated(p) then p["date"].t else 0
  }

  /** Every parsed file's `date` is a timestamp. Where no file is dropped
      for lacking a date, the comparator is consistent only then. */
  predicate AllDated(files: seq<SourceFile>) {
    forall i :: 0 <= i < |files| && files[i].doc.Parsed? ==>
      "date" in files[i].doc.attrs && files[i].doc.attrs["date"].Stamp?
  }

  /** A permutation keeps the entries' dates timestamps. */
  lemma PermutationDated(s: seq<Post>, r: seq<Post>)
    requires multiset(r) == multiset(s) && forall p :: p in s ==> Dated(p)
    ensures forall p :: p in r ==> Dated(p)
  {
    forall p | p in r ensures Dated(p) {
      assert p in multiset(r);
    }
  }

  /** Every earlier entry is at least as new as every later one. */
  predicate NewestFirst(s: seq<Post>) {
    forall i, j :: 0 <= i < j < |s| ==> DateKey(s[i]) >= DateKey(s[j])
  }

  /** The entries of `s` dated `k`, in their order in `s`. */
  function WithDate(s: seq<Post>, k: int): seq<Post> {
    if s == [] then []
    else WithDate(s[..|s| - 1], k) + (if DateKey(s[|s| - 1]) == k then [s[|s| - 1]] else [])
  }

  /** One step of a stable insertion sort: `x` goes after every entry of
      `t` that is at least as new as it. */
  function Insert(t: seq<Post>, x: Post): (r: seq<Post>)
    ensures |r| == |t| + 1
  {
    if t == [] || DateKey(t[|t| - 1]) >= DateKey(x) then t + [x]
    else Insert(t[..|t| - 1], x) + [t[|t| - 1]]
  }

  /** The stable newest-first order of `s` (ECMA-262 requires
      `Array.prototype.sort` to be stable). */
  function SortByDate(s: seq<Post>): (r: seq<Post>)
    ensures |r| == |s|
  {
    if s == [] then [] else Insert(SortByDate(s[..|s| - 1]), s[|s| - 1])
  }

  lemma {:induction false} WithDateAppend(a: seq<Post>, b: seq<Post>, k: int)
    ensures WithDate(a + b, k) == WithDate(a, k) + WithDate(b, k)
  {
    if b == [] {
      assert a + b == a;
    } else {
      var b' := b[..|b| - 1];
      WithDateAppend(a, b', k);
      assert (a + b)[..|a + b| - 1] == a + b';
    }
  }

  lemma {:induction false} InsertMultiset(t: seq<Post>, x: Post)
    ensures multiset(Insert(t, x)) == multiset(t) + multiset{x}
  {
    if t != [] && DateKey(t[|t| - 1]) < DateKey(x) {
      var t', y := t[..|t| - 1], t[|t| - 1];
      assert t == t' + [y];
      InsertMultiset(t', x);
    }
  }

  /** Appending an entry no newer than every entry keeps the order. */
  lemma AppendOldest(u: seq<Post>, y: Post)
    requires NewestFirst(u)
    requires forall i :: 0 <= i < |u| ==> DateKey(u[i]) >= DateKey(y)
    ensures NewestFirst(u + [y])
  {
    var r := u + [y];
    forall i, j | 0 <= i < j < |r| ensures DateKey(r[i]) >= DateKey(r[j]) {
      assert r[i] == u[i];
      if j < |u| {
        assert r[j] == u[j];
      }
    }
  }

  lemma {:induction false} InsertNewestFirst(t: seq<Post>, x: Post)
    requires NewestFirst(t)
    ensures NewestFirst(Insert(t, x))
  {
    if t == [] || DateKey(t[|t| - 1]) >= DateKey(x) {
      forall i | 0 <= i < |t| ensures DateKey(t[i]) >= DateKey(x) {
        if i < |t| - 1 {
          assert DateKey(t[i]) >= DateKey(t[|t| - 1]);
        }
      }
      AppendOldest(t, x);
    } else {
      var t', y := t[..|t| - 1], t[|t| - 1];
      assert t == t' + [y];
      assert NewestFirst(t');
      InsertNewestFirst(t', x);
      InsertMultiset(t', x);
      var u := Insert(t', x);
      forall i | 0 <= i < |u| ensures DateKey(u[i]) >= DateKey(y) {
        assert u[i] in multiset(u);
        if u[i] != x {
          assert u[i] in multiset(t');
          var m :| 0 <= m < |t'| && t'[m] == u[i];
          assert t[m] == u[i];
        }
      }
      AppendOldest(u, y);
    }
  }

  lemma {:induction false} InsertStable(t: seq<Post>, x: Post, k: int)
    ensures WithDate(Insert(t, x), k) == WithDate(t, k) + (if DateKey(x) == k then [x] else [])
  {
    if t == [] || DateKey(t[|t| - 1]) >= DateKey(x) {
      assert (t + [x])[..|t|] == t;
    } else {
      var t', y := t[..|t| - 1], t[|t| - 1];
      InsertStable(t', x, k);
      var u := Insert(t', x);
      assert (u + [y])[..|u|] == u;
      assert WithDate(Insert(t, x), k) == WithDate(u, k) + (if DateKey(y) == k then [y] else []);
    }
  }

  /** The model of the sort returns a newest-first permutation of its input
      that keeps the discovery order of entries with equal dates. */
  lemma {:induction false} SortByDateCorrect(s: seq<Post>)
    ensures NewestFirst(SortByDate(s))
    ensures multiset(SortByDate(s)) == multiset(s)
    ensures forall k :: WithDate(SortByDate(s), k) == WithDate(s, k)
  {
    if s != [] {
      var s', x := s[..|s| - 1], s[|s| - 1];
      SortByDateCorrect(s');
      InsertNewestFirst(SortByDate(s'), x);
      InsertMultiset(SortByDate(s'), x);
      assert s == s' + [x];
      forall k ensures WithDate(SortByDate(s), k) == WithDate(s, k) {
        InsertStable(SortByDate(s'), x, k);
      }
    }
  }

  lemma {:induction false} WithDateMembers(s: seq<Post>, k: int)
    ensures forall e :: e in WithDate(s, k) ==> e in s && DateKey(e) == k
  {
    if s != [] {
      WithDateMembers(s[..|s| - 1], k);
      assert s == s[..|s| - 1] + [s[|s| - 1]];
    }
  }

  /** The last entry's date has at least one entry: the last entry itself. */
  lemma WithDateOfLast(s: seq<Post>)
    requires s != []
    ensures WithDate(s, DateKey(s[|s| - 1])) != []
  {
  }

  /** In a newest-first list, the entries with the oldest date are its tail. */
  lemma LastIsOldest(s: seq<Post>, e: Post)
    requires NewestFirst(s) && s != [] && e in s
    ensures DateKey(e) >= DateKey(s[|s| - 1])
  {
    var i :| 0 <= i < |s| && s[i] == e;
  }

  lemma NewestFirstPrefix(s: seq<Post>)
    requires NewestFirst(s) && s != []
    ensures NewestFirst(s[..|s| - 1])
  {
  }

  /** Two newest-first lists with the same per-date subsequences end in
      the same entry. */
  lemma SameLast(r: seq<Post>, q: seq<Post>)
    requires NewestFirst(r) && NewestFirst(q) && r != [] && q != []
    requires forall k :: WithDate(r, k) == WithDate(q, k)
    ensures r[|r| - 1] == q[|q| - 1]
  {
    var a, b := r[|r| - 1], q[|q| - 1];
    var ka, kb := DateKey(a), DateKey(b);
    WithDateOfLast(r);
    WithDateOfLast(q);
    WithDateMembers(q, ka);
    WithDateMembers(r, kb);
    var wa, wb := WithDate(r, ka), WithDate(q, kb);
    assert wa == WithDate(q, ka) && wb == WithDate(r, kb);
    LastIsOldest(q, wa[|wa| - 1]);
    LastIsOldest(r, wb[|wb| - 1]);
    assert wa[|wa| - 1] == a;
  }

  /** Dropping the same last entry from both lists keeps their per-date
      subsequences equal. */
  lemma WithDateDropLast(r: seq<Post>, q: seq<Post>, a: Post, k: int)
    requires WithDate(r + [a], k) == WithDate(q + [a], k)
    ensures WithDate(r, k) == WithDate(q, k)
  {
    var x: seq<Post> := if DateKey(a) == k then [a] else [];
    assert (r + [a])[..|r|] == r;
    assert (q + [a])[..|q|] == q;
    assert WithDate(r + [a], k) == WithDate(r, k) + x;
    assert WithDate(q + [a], k) == WithDate(q, k) + x;
    assert WithDate(r, k) == (WithDate(r, k) + x)[..|WithDate(r, k)|];
  }

  /** A newest-first list is determined by its per-date subsequences. */
  lemma {:induction false} NewestFirstUnique(r: seq<Post>, q: seq<Post>)
    requires NewestFirst(r) && NewestFirst(q)
    requires forall k :: WithDate(r, k) == WithDate(q, k)
    ensures r == q
    decreases |r|
  {
    if r == [] || q == [] {
      if r != [] {
        WithDateOfLast(r);
        assert false;
      }
      if q != [] {
        WithDateOfLast(q);
        assert false;
      }
      return;
    }
    SameLast(r, q);
    var a := r[|r| - 1];
    var r', q' := r[..|r| - 1], q[..|q| - 1];
    assert r == r' + [a] && q == q' + [a];
    forall k ensures WithDate(r', k) == WithDate(q', k) {
      WithDateDropLast(r', q', a, k);
    }
    NewestFirstPrefix(r);
    NewestFirstPrefix(q);
    NewestFirstUnique(r', q');
  }

  /** Whatever algorithm performs it, a stable newest-first sort of `s`
      gives exactly `SortByDate(s)`. */
  lemma SortByDateUnique(s: seq<Post>, r: seq<Post>)
    requires NewestFirst(r)
    requires forall k :: WithDate(r, k) == WithDate(s, k)
    ensures r == SortByDate(s)
  {
    SortByDateCorrect(s);
    NewestFirstUnique(r, SortByDate(s));
  }

  /** `Insert` places `x` behind the last entry at least as new, in front
      of the older entries that follow it. */
  lemma {:induction false} InsertBehind(sorted: seq<Post>, j: nat, x: Post)
    requires j <= |sorted|
    requires j == 0 || DateKey(sorted[j - 1]) >= DateKey(x)
    requires forall k :: j <= k < |sorted| ==> DateKey(sorted[k]) < DateKey(x)
    ensures Insert(sorted, x) == sorted[..j] + [x] + sorted[j..]
    decreases |sorted|
  {
    if |sorted| == j {
      assert sorted[..j] == sorted;
    } else {
      var init := sorted[..|sorted| - 1];
      InsertBehind(init, j, x);
      assert init[..j] == sorted[..j];
      assert init[j..] + [sorted[|sorted| - 1]] == sorted[j..];
    }
  }

  lemma SortByDatePrefix(input: seq<Post>, i: nat)
    requires i < |input|
    ensures SortByDate(input[..i + 1]) == Insert(SortByDate(input[..i]), input[i])
  {
    assert input[..i + 1][..i] == input[..i];
  }

  /** The array after the shifting loop, read back as a sequence. */
  lemma ShiftedIsInserted(s: seq<Post>, sorted: seq<Post>, j: nat, x: Post)
    requires j <= |sorted| && |s| == |sorted| + 1
    requires forall k :: 0 <= k < j ==> s[k] == sorted[k]
    requires s[j] == x
    requires forall k :: j < k < |s| ==> s[k] == sorted[k - 1]
    ensures s == sorted[..j] + [x] + sorted[j..]
  {
  }

  /** One pass of the in-place insertion sort: `a[i]` is moved into the
      newest-first prefix `a[..i]`. */
  method InsertAt(a: array<Post>, i: nat)
    requires i < a.Length
    modifies a
    ensures a[..i + 1] == Insert(old(a[..i]), old(a[i]))
    ensures forall k :: i < k < a.Length ==> a[k] == old(a[k])
  {
    ghost var sorted := a[..i];
    var x := a[i];
    var j := i;
    while j > 0 && DateKey(a[j - 1]) < DateKey(x)
      invariant 0 <= j <= i
      invariant forall k :: 0 <= k < j ==> a[k] == sorted[k]
      invariant forall k :: j < k <= i ==> a[k] == sorted[k - 1]
      invariant forall k :: i < k < a.Length ==> a[k] == old(a[k])
      invariant forall k :: j <= k < i ==> DateKey(sorted[k]) < DateKey(x)
    {
      a[j] := a[j - 1];
      j := j - 1;
    }
    a[j] := x;
    InsertBehind(sorted, j, x);
    ShiftedIsInserted(a[..i + 1], sorted, j, x);
  }

  /** `array.sort((a, b) => new Date(b.date) - new Date(a.date))`, in place. */
  method SortNewestFirst(a: array<Post>)
    modifies a
    ensures a[..] == SortByDate(old(a[..]))
  {
    ghost var input := a[..];
    var i := 0;
    while i < a.Length
      invariant 0 <= i <= a.Length
      invariant a[..i] == SortByDate(input[..i])
      invariant forall k :: i <= k < a.Length ==> a[k] == input[k]
    {
      InsertAt(a, i);
      SortByDatePrefix(input, i);
      i := i + 1;
    }
    assert input[..a.Length] == input;
  }

  /** A list sorted the way the components sort theirs: copied into an
      array, sorted there in place, and read back. */
  method SortList(list: seq<Post>) returns (sorted: seq<Post>)
    ensures sorted == SortByDate(list)
    ensures NewestFirst(sorted) && multiset(sorted) == multiset(list)
    ensures forall k :: WithDate(sorted, k) == WithDate(list, k)
  {
    var a := new Post[|list|](i requires 0 <= i < |list| => list[i]);
    assert a[..] == list;
    SortNewestFirst(a);
    sorted := a[..];
    SortByDateCorrect(list);
  }

  // ---------------------------------------------------------------------
  // Title search: posts.filter(p => p.title.toLowerCase().includes(q.toLowerCase()))
  // ---------------------------------------------------------------------

  /** `post.title.toLowerCase()` is defined only for a string title. */
  predicate Titled(p: Post) {
    "title" in p && p["title"].Str?
  }

  /** The lower-cased title contains the lower-cased search. */
  predicate Matches(p: Post, search: string)
    requires Titled(p)
  {
    Includes(ToLower(p["title"].s), ToLower(search))
  }

  /** `filteredPosts`; `None` when some entry has no string title, where
      the filter callback throws. */
  function FilterByTitle(posts: seq<Post>, search: string): (r: Option<seq<Post>>)
    ensures r.None? <==> exists i :: 0 <= i < |posts| && !Titled(posts[i])
  {
    if posts == [] then Some([])
    else if !Titled(posts[0]) then None
    else
      var rest := FilterByTitle(posts[1..], search);
      assert forall i :: 0 < i < |posts| ==> posts[i] == posts[1..][i - 1];
      match rest
      case None => None
      case Some(kept) => Some(if Matches(posts[0], search) then [posts[0]] + kept else kept)
  }

  /** `a` is `b` with some elements left out, order kept. */
  predicate IsSubsequence<T(==)>(a: seq<T>, b: seq<T>)
    decreases |b|
  {
    a == [] || (b != [] && ((a[0] == b[0] && IsSubsequence(a[1..], b[1..])) || IsSubsequence(a, b[1..])))
  }

  /** The search result is the order-preserving subsequence of `posts` made
      of the matching entries, each as often as it occurs in `posts`. */
  lemma {:induction false} FilterByTitleCorrect(posts: seq<Post>, search: string)
    requires FilterByTitle(posts, search).Some?
    ensures var r := FilterByTitle(posts, search).value;
      && IsSubsequence(r, posts)
      && (forall p :: p in r ==> Titled(p) && Matches(p, search))
      && (forall p :: multiset(r)[p] == if Titled(p) && Matches(p, search) then multiset(posts)[p] else 0)
  {
    if posts != [] {
      var tail := posts[1..];
      FilterByTitleCorrect(tail, search);
      assert posts == [posts[0]] + tail;
    }
  }

  /** An empty search keeps every entry. */
  lemma {:induction false} FilterEmptySearch(posts: seq<Post>)
    requires forall i :: 0 <= i < |posts| ==> Titled(posts[i])
    ensures FilterByTitle(posts, "") == Some(posts)
  {
    if posts != [] {
      FilterEmptySearch(posts[1..]);
      assert PrefixAt(ToLower(posts[0]["title"].s), ToLower(""), 0);
      assert posts == [posts[0]] + posts[1..];
    }
  }

  /** The search is case-insensitive: two searches that lower-case alike match alike. */
  lemma {:induction false} FilterCaseInsensitive(posts: seq<Post>, a: string, b: string)
    requires ToLower(a) == ToLower(b)
    ensures FilterByTitle(posts, a) == FilterByTitle(posts, b)
  {
    if posts != [] {
      FilterCaseInsensitive(posts[1..], a, b);
    }
  }

  // ---------------------------------------------------------------------
  // Rendered fields: {post.title} and post.excerpt && post.excerpt.slice(0, limit)
  // ---------------------------------------------------------------------

  /** `{post.title}` throws while rendering: the title is a `Date` or a
      mapping. A missing title renders as nothing. */
  predicate TitleThrows(p: Post) {
    "title" in p && ThrowsAsChild(p["title"])
  }

  /** What `{post.excerpt && post.excerpt.slice(0, limit)}...` renders
      as: nothing for a falsy `excerpt`, the cut text followed by `...`, or
      a `TypeError` for a truthy value without a `slice` method. */
  datatype ExcerptView = NoExcerpt | Shown(text: string) | ExcerptThrows

  function Excerpt(excerpt: Option<Value>, limit: nat): ExcerptView {
    match excerpt
    case None => NoExcerpt
    case Some(v) =>
      if !Truthy(v) then NoExcerpt
      else if v.Str? then Shown(v.s[..if |v.s| < limit then |v.s| else limit] + "...")
      else ExcerptThrows
  }

  /** A shown excerpt is the first `min(len, limit)` characters, then `...`. */
  lemma ExcerptCorrect(excerpt: Option<Value>, limit: nat)
    ensures Excerpt(excerpt, limit).NoExcerpt? <==> excerpt.None? || !Truthy(excerpt.value)
    ensures Excerpt(excerpt, limit).ExcerptThrows? <==>
      excerpt.Some? && Truthy(excerpt.value) && !excerpt.value.Str?
    ensures Excerpt(excerpt, limit).Shown? ==>
      var s, t := excerpt.value.s, Excerpt(excerpt, limit).text;
      && |t| == (if |s| < limit then |s| else limit) + 3
      && t[|t| - 3..] == "..."
      && t[..|t| - 3] == s[..|t| - 3]
      && (|s| <= limit ==> t == s + "...")
  {
    if Excerpt(excerpt, limit).Shown? {
      var s := excerpt.value.s;
      var n := if |s| < limit then |s| else limit;
      var t := s[..n] + "...";
      assert t[..n] == s[..n];
      assert t[n..] == "...";
      if |s| <= limit {
        assert s[..n] == s;
      }
    }
  }
}
