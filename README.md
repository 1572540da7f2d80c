# A verified model of a small React blog's post index

The blog is a Vite + React site. Its posts are markdown files with YAML
frontmatter. Five components hold its logic:

- The **posts list** (`src/components/Posts.jsx`) loads every file and drops the ones that fail or lack a title or date. It normalises image paths, sorts newest first and filters by title.
- The **single-post page** (`src/components/Post.jsx`) opens `../posts/<slug>.md`, or shows a fixed "not found" payload.
- An **unrouted variant of the posts page** (`src/Pages/Posts.jsx`; `src/App.jsx` mounts `/posts` on `src/components/Posts.jsx`) turns every file into an entry without validation, then sorts and filters the same way. Its effect has no `try`, so a parse error escapes it and, with no error boundary in `src/App.jsx`, unmounts the application.
- The **home page** (`src/components/Home.jsx`) loads all frontmatter in one batch that fails as a whole. It features the newest post, lists the next nine and runs a four-slide slideshow.
- The **contact page** (`src/components/Contact.jsx`) keeps a four-field form and submits it as a `mailto:` URI.

The Dafny project models these pieces as follows.

- **Shared modules**
  - `Common` holds Option.
  - `Values` holds frontmatter values and JavaScript truthiness.
  - `Text` holds the string built-ins the components call: `indexOf`, `startsWith`, `replace`, `split`/`pop`, `toLowerCase`, and number-to-string.
  - `PostIndex` holds the slug rule, the image rule, the stable newest-first sort, the title search and the card excerpt, each written once.
  - `Uri` holds `encodeURIComponent` with its inverse.
- **One module per component**
  - `PostsComponent`, `PostComponent`, `PostsPage`, `HomeComponent`, `ContactComponent`.
  - Each component's state is a class.
  - Its handlers are methods with `modifies` clauses, proved against specification functions.
  - The in-place `Array.prototype.sort` is an insertion sort on an `array`. It is proved equal to `SortByDate` of the old contents.
  - `SortByDate` is in turn proved newest-first, a permutation, and stable. Stable means the entries of each date keep their input order. It is also proved to be the only order with these properties.
- **Inputs.** Input files are values `SourceFile(path, doc)`. `doc` is the parser's attributes and body, or `Failed` when the import, fetch or parse throws. `BASE_URL` is a parameter; `vite.config.js` sets no `base`, so in the deployed site it is `/`.
  - `vite.config.js` lists `**/*.md` under `assetsInclude`, so a glob-imported file's `default` is the asset's URL, not its text. `src/components/Posts.jsx` fetches that URL and parses the response. `src/Pages/Posts.jsx` hands the `default` value straight to the parser. The model gives both components the document as a parameter and does not tell the URL from the text; for the unrouted page, a `doc` stands for whatever the parser returns when given that value.

Two behaviours worth knowing:

- **Slug rule.** The slug is computed with `path.split("/").pop().replace(".md", "")`. This removes the first `.md` anywhere in the file name, not the extension.
  - For names without an inner `.md` it strips the extension. `PostComponent.PathRoundTrip` proves that the single-post page then opens the right file.
  - A name of the form `a.md<b>.md` gets the slug `a<b>.md`. `PostComponent.SlugLosesInnerMd` proves that opening that slug loads a different path (`x.mdy.md` becomes `xy.md`, which opens `xy.md.md`).
- **Search.** The search query is never trimmed. A whitespace-only query is a real search that shows the count line and matches only titles containing it (`PostsComponent.WhitespaceSearchIsASearch`).

## Model

| member | source | states |
|---|---|---|
| Text.IndexOf | src/components/Posts.jsx:64 | `indexOf`: the result is an occurrence, every earlier position is not one, and `None` means there is no occurrence at all |
| Text.ReplaceFirstCorrect | src/components/Posts.jsx:38 | `replace(".md", "")` with a string pattern: the string is unchanged when the pattern does not occur; otherwise only the first occurrence is replaced, the text around it kept, and the length grows by the replacement's length less the pattern's |
| Text.StripLeadingSlashes | src/components/Posts.jsx:31 | `replace(/^\/+/, "")`: the result is a suffix of the input; every removed character is `/`; the result does not start with `/` |
| Text.Split | src/components/Posts.jsx:38 | `split("/")`: at least one part, no part contains the separator, and there is exactly one part iff the separator does not occur |
| Text.JoinSplit | src/components/Posts.jsx:38 | joining the parts of a split with the separator gives the string back |
| Text.LastSplit | src/components/Posts.jsx:38 | `pop()` of a split is the separator-free suffix after the last separator, or the whole string when there is none |
| Text.ToLower | src/components/Posts.jsx:64 | `toLowerCase` keeps the length and lower-cases each ASCII letter in place |
| Text.ToLowerIdempotent | src/components/Posts.jsx:64 | lower-casing twice equals lower-casing once |
| Text.NatToString | src/components/Posts.jsx:129 | the rendered count is a non-empty string of decimal digits with no leading zero |
| Text.DecimalRoundTrip | src/components/Posts.jsx:129 | the rendered count reads back as the count |
| PostIndex.Slug | src/components/Posts.jsx:38 | a slug never contains `/` |
| PostIndex.FirstMdAfter | src/components/Posts.jsx:38 | in `name + ".md" + rest`, when `name` holds no `.md`, the first `.md` is the one right after `name` |
| PostIndex.SlugOfMarkdownFile | src/components/Posts.jsx:38 | for `dir/name.md` with `name` free of `/` and `.md`, the slug is `name` |
| PostIndex.NormaliseImageCases | src/components/Posts.jsx:28-32 | the image rule throws exactly for a non-string, non-null value; an `http` value is kept; a falsy value gives `null`; any other string gives `BASE_URL` + the string after a run of leading `/`, and what follows the run does not start with `/` |
| PostIndex.LeadingSlashIgnored | src/components/Posts.jsx:31 | a leading `/` on a relative image path does not change the result |
| PostIndex.PermutationDated | src/components/Posts.jsx:48-50 | reordering entries whose dates are timestamps leaves every entry with a timestamp date |
| PostIndex.SortByDateCorrect | src/components/Posts.jsx:48-50 | the sorted list is newest first, a permutation of the input, and keeps each date's entries in input order (stable) |
| PostIndex.SortByDateUnique | src/components/Posts.jsx:48-50 | any newest-first list with the same entries per date, in the same order, is the sorted list |
| PostIndex.InsertAt | src/components/Posts.jsx:50 | one in-place insertion step places `a[i]` after the sorted prefix's entries at least as new, and leaves the rest of the array alone |
| PostIndex.SortNewestFirst | src/components/Posts.jsx:48-50 | sorting the array in place leaves exactly `SortByDate` of its old contents |
| PostIndex.SortList | src/components/Posts.jsx:48-50 | the components' `sort` call yields `SortByDate` of the list: newest first, a permutation of it, with each date's entries in input order |
| PostIndex.FilterByTitle | src/components/Posts.jsx:63-65 | the filter throws exactly when some entry has no string title |
| PostIndex.FilterByTitleCorrect | src/components/Posts.jsx:63-65 | the result is an order-preserving subsequence; every kept entry's lower-cased title contains the lower-cased search; each matching entry is kept as often as it occurs |
| PostIndex.FilterEmptySearch | src/components/Posts.jsx:63-65 | an empty search keeps every entry |
| PostIndex.FilterCaseInsensitive | src/components/Posts.jsx:63-65 | two searches that lower-case alike give the same result |
| PostsComponent.BuildEntryCorrect | src/components/Posts.jsx:19-43 | a file yields an entry iff it parsed, has a truthy title and date, and its image rule does not throw; the entry has every frontmatter key, with `content`, `image` and `slug` overriding same-named ones |
| PostsComponent.SurvivorsMembers | src/components/Posts.jsx:17-49 | `filter(Boolean)` keeps an entry iff some file yields it, never more entries than files, and exactly one entry per yielding file, in file order (an increasing index map onto the files that yield an entry) |
| PostsComponent.Results | src/components/Posts.jsx:17-44 | the reference definition of `Promise.all` over the per-file `map`: one result per file, in file order, each that file's entry or `null`; `SurvivorsIndexed` is stated against it |
| PostsComponent.SurvivorsIndexed | src/components/Posts.jsx:49 | the survivors of the files from position `from` on are the non-null results there, each matched to its own file by a strictly increasing index map that covers every non-null result |
| PostsComponent.SurvivorsCorrect | src/components/Posts.jsx:25 | every surviving entry has a truthy title and date, and a timestamp date when the frontmatter dates are timestamps |
| PostsComponent.CountTextCorrect | src/components/Posts.jsx:129 | the count line's number reads back as the result count; the noun is "post" iff exactly one post matches, "posts" otherwise |
| PostsComponent.RenderEmptySearch | src/components/Posts.jsx:147-226 | with no search and loading done, a card whose truthy excerpt is not a string crashes the page; otherwise every entry gets a card, no count line is shown, and an empty list shows "No posts available at the moment." |
| PostsComponent.RenderCrashes | src/components/Posts.jsx:147-199 | the page crashes iff some entry has no string title, or loading is done and some matching entry has a truthy excerpt that is not a string |
| PostsComponent.ShownCardThrows | src/components/Posts.jsx:149-199 | some card of the filtered list throws on its excerpt iff some titled, matching entry of the list has such an excerpt |
| PostsComponent.WhitespaceSearchIsASearch | src/components/Posts.jsx:120-129 | a query of one space is not treated as empty: on a page that renders (titled entries, no throwing excerpt) the count line is shown |
| PostsComponent.RenderCards | src/components/Posts.jsx:147-150 | cards appear only when loading is done; they are exactly the title filter's result: the matching entries in list order, each as often as it occurs in the list; no card's excerpt throws |
| PostsComponent.PostsList.constructor | src/components/Posts.jsx:7-9 | the list starts empty, the search empty, and `loading` true |
| PostsComponent.PostsList.LoadPosts | src/components/Posts.jsx:12-58 | `posts` becomes the sorted survivors: newest first, a permutation of them, stable, all dated and titled; `loading` ends false; the search is unchanged |
| PostsComponent.PostsList.SetSearch | src/components/Posts.jsx:103 | typing sets the search and changes nothing else |
| PostComponent.FetchCorrect | src/components/Post.jsx:12-38 | the not-found payload appears exactly when the post is not loadable; a loaded post's content is the body unaltered and its data is every attribute, with `image` replaced by the normalised path |
| PostComponent.NotFoundShowsNeither | src/components/Post.jsx:51-59 | neither the not-found payload nor the initial state crashes, shows a date line or shows an image |
| PostComponent.LoadedCrashes | src/components/Post.jsx:51 | `<h1>{data.title}</h1>` crashes the page iff the post is loadable and its frontmatter title is a YAML timestamp or a mapping |
| PostComponent.LoadedImageShown | src/components/Post.jsx:22-26 | with a non-empty `BASE_URL`, a loaded post shows an image iff its title renders and its frontmatter image is a non-empty string |
| PostComponent.PathRoundTrip | src/components/Post.jsx:15 | a name free of `/` and `.md` opens `../posts/<name>.md`, whose slug is the name again |
| PostComponent.SlugInPosts | src/components/Post.jsx:15 | the slug of a file in the posts directory is its name with the first `.md` removed |
| PostComponent.SlugLosesInnerMd | src/components/Post.jsx:15 | a file `a.md<b>.md` gets slug `a<b>.md`, and that slug opens a different path |
| PostComponent.PostPage.constructor | src/components/Post.jsx:8-9 | the post starts as `{content: "", data: {}}` with `loading` true |
| PostComponent.PostPage.FetchPost | src/components/Post.jsx:12-38 | `post` becomes the loaded post, or exactly the not-found payload iff the post is not loadable; `loading` ends false either way |
| PostsPage.PageEntry | src/Pages/Posts.jsx:14-19 | an entry has every frontmatter key plus `content` (the parsed body) and `slug`, which override same-named keys |
| PostsPage.PostList | src/Pages/Posts.jsx:13-20 | no file is excluded: one entry per file, in file order; the list fails iff some file fails to parse |
| PostsPage.PostListDated | src/Pages/Posts.jsx:22-24 | when every file has a timestamp date, every entry does |
| PostsPage.RenderEmptySearch | src/Pages/Posts.jsx:49-81 | an empty search shows one card per entry, in order, or "No posts found." for an empty list |
| PostsPage.RenderCorrect | src/Pages/Posts.jsx:29-81 | the page crashes iff some entry has no string title; cards are exactly the title filter's result, the matching entries in order, each as often as it occurs in the list; the message means no entry matches |
| PostsPage.View | src/Pages/Posts.jsx:10-81 | nothing is shown iff the effect crashed or some entry has no string title; otherwise the page is the filtered list |
| PostsPage.PostsView.constructor | src/Pages/Posts.jsx:7-8 | no posts, an empty search and no crash at first |
| PostsPage.PostsView.BuildPosts | src/Pages/Posts.jsx:10-27 | on a parse failure the error escapes the effect: nothing is stored and the application is marked crashed; otherwise `posts` has one entry per file, sorted newest first, a stable permutation of `postList` |
| PostsPage.PostsView.SetSearch | src/Pages/Posts.jsx:44 | typing sets the search and changes nothing else |
| HomeComponent.HomeEntry | src/components/Home.jsx:51-54 | an entry is the frontmatter plus `slug`, which overrides a same-named key; no body is kept |
| HomeComponent.Batch | src/components/Home.jsx:47-55 | the batch fails iff some file fails; otherwise it holds one entry per file, in order |
| HomeComponent.ReadAll | src/components/Home.jsx:47-55 | the `for...in` loop that pushes one entry per file gives exactly `Batch`: a failure on any file aborts the whole batch |
| HomeComponent.BatchDated | src/components/Home.jsx:58-60 | when every file has a timestamp date, every entry does |
| HomeComponent.NextIndex | src/components/Home.jsx:244 | the next slide index is below 4 |
| HomeComponent.PrevIndex | src/components/Home.jsx:259 | the previous slide index is below 4 |
| HomeComponent.PrevUndoesNext | src/components/Home.jsx:244-259 | going back undoes going forward, and going forward undoes going back |
| HomeComponent.FourNextsReturn | src/components/Home.jsx:225 | four forward steps return to the starting slide |
| PostIndex.ExcerptCorrect | src/components/Posts.jsx:197-199 | no excerpt for a falsy value; a `TypeError` for a truthy non-string; otherwise the first min(length, limit) characters followed by "...", the whole text when it fits |
| HomeComponent.FeaturedCorrect | src/components/Home.jsx:522-556 | a featured card appears iff there are posts; it shows `posts[0]`, its image or "/api/placeholder/600/400" when that is falsy, and its excerpt cut at 200 |
| HomeComponent.GridCorrect | src/components/Home.jsx:578 | the grid is `posts[1..]` cut to at most nine posts, in list order, never including `posts[0]`, and still newest first |
| HomeComponent.RenderCorrect | src/components/Home.jsx:316-388 | the spinner shows while loading, then the error when set; then the page crashes iff the newest post's card or one of the next nine posts' cards has a title React cannot render or a truthy non-string excerpt; otherwise the page, with no throwing card; the slide image and title share the current index; the featured card is `Featured(posts)`, present iff there are posts and showing `posts[0]`; grid excerpts are cut at 120 |
| HomeComponent.PageThrowsIff | src/components/Home.jsx:544-606 | some rendered card throws iff the card of `posts[0]` or of one of `posts[1..10]` throws on its title or excerpt |
| HomeComponent.HomePage.constructor | src/components/Home.jsx:12-15 | no posts, `loading` true, no error, slide 0 |
| HomeComponent.HomePage.LoadPosts | src/components/Home.jsx:45-69 | on any failure the error is "Failed to load posts." and `posts` is unchanged; otherwise `posts` is every entry sorted newest first (a stable permutation); `loading` ends false; the slide stays |
| HomeComponent.HomePage.NextSlide | src/components/Home.jsx:238-251 | `nextSlide` and the six-second interval step one slide forward modulo 4 and keep the slide valid |
| HomeComponent.HomePage.PrevSlide | src/components/Home.jsx:253-266 | `prevSlide` steps one slide back modulo 4 and keeps the slide valid |
| HomeComponent.HomePage.SelectSlide | src/components/Home.jsx:419-427 | an indicator click jumps to that indicator's slide |
| Uri.HexDigit | src/components/Contact.jsx:22 | an escape digit is upper-case hexadecimal and reads back as its value |
| Uri.EncodeURIComponent | src/components/Contact.jsx:22 | every character of an encoded value is unreserved or `%` |
| Uri.EncodeIdentity | src/components/Contact.jsx:22 | unreserved characters pass through unchanged, and only they do: a string is its own encoding iff every character is unreserved |
| Uri.EncodeWellFormed | src/components/Contact.jsx:22 | an encoded value consists of unreserved characters and `%XX` triples only |
| Uri.DecodeCharUtf8 | src/components/Contact.jsx:22 | the `%XX` triples of a character's UTF-8 bytes decode back to that character |
| Uri.DecodeEncode | src/components/Contact.jsx:22 | percent- and UTF-8 decoding gives back exactly the encoded string |
| ContactComponent.NoAmpersand | src/components/Contact.jsx:22 | an encoded value contains no `&` |
| ContactComponent.ParseEncodedField | src/components/Contact.jsx:22 | `name=<encoded value>` parses back to the name and the value |
| ContactComponent.MailtoRoundTrip | src/components/Contact.jsx:22 | parsing the link per RFC 6068 gives the address cmacharia482@gmail.com and exactly the two header fields `subject` and `body`, carrying the typed subject and body |
| ContactComponent.BodyLines | src/components/Contact.jsx:22 | the body is the lines "Name: …", "Email: …", an empty line, then the message |
| ContactComponent.SubmissionCorrect | src/components/Contact.jsx:19-24 | the form submits iff every required field is non-empty, and the link carries the subject and the composed body |
| ContactComponent.ContactForm.constructor | src/components/Contact.jsx:5-10 | all four fields start as "" |
| ContactComponent.ContactForm.HandleChange | src/components/Contact.jsx:12-17 | the named field takes the value; every other field is unchanged; the four fields stay present |
| ContactComponent.ContactForm.HandleSubmit | src/components/Contact.jsx:19-24 | the link the page navigates to, present iff the browser lets the form submit; a mail client reads it back as the author's address with the subject and body |

## Left out

- PostsComponent.PostsList.LoadPosts: requires every truthy frontmatter date to be a timestamp. Date strings, numbers and `Invalid Date` make the comparator depend on `new Date` parsing or return `NaN`, and the resulting order is implementation-defined.
- PostsPage.PostsView.BuildPosts: requires every parsed file to have a timestamp date, for the same reason. Without validation a missing date compares as `NaN`.
- HomeComponent.HomePage.LoadPosts: requires every parsed file to have a timestamp date, as above.
- PostIndex.DateKey: a date is an integer millisecond value; floating-point time values are not modelled.
- Text.ToLower: lower-cases ASCII letters only; Unicode case mapping is not modelled.
- Uri.EncodeURIComponent: takes Unicode scalar values. A lone surrogate, on which JavaScript throws `URIError`, cannot occur in a Dafny string.
- PostIndex.TitleThrows: a list-valued title is treated as throwing like a mapping; React would render a list of strings as text.
- PostIndex.Excerpt: cuts at scalar values where JavaScript's `slice` counts UTF-16 code units. A list-valued excerpt, which an array's `slice` would render, is treated as throwing.
- Values.Value: numbers are integers, and lists and nested mappings are one opaque `Composite` value. YAML parsing by `front-matter`/`gray-matter` is an input: each file arrives already parsed or `Failed`.
- I/O and timing become inputs or are dropped:
  - `import.meta.glob`, dynamic `import()`, `fetch` and `Promise.all` become the input sequence or map of files, in glob order.
  - `console.error` is dropped.
  - The assignment to `window.location.href` is the link `HandleSubmit` returns.
  - `window.location.reload`, `window.scrollTo`, `setInterval` timing and `e.preventDefault` are dropped.
- PostsComponent.Render: a card records its entry but not its cut excerpt text; only whether the excerpt throws is modelled (the home page's grid does keep the text).
- Rendering detail is not modelled:
  - JSX markup and CSS.
  - GSAP and framer-motion animation, and the hover listeners.
  - `toLocaleDateString`/`toDateString` formatting and `ReactMarkdown`.
  - The retry button. Only what decides which content appears is modelled.
- Browser checks on the contact form: the `required` attributes are modelled, but the `type="email"` format check is not.
- What a glob import's `default` holds (an asset URL under `assetsInclude`, not the file's text) is not modelled: each component receives its files as parsed documents or `Failed`.
- The outer `catch` of the posts list's `loadPosts` is not modelled: every per-file error is caught inside, so nothing in its `try` can throw.
- The home page's glob reads `../../posts/*.md`, a different directory from the other pages' `../posts/*.md`. Only the file name enters the slug, so the model takes the files as given.
- React's asynchronous state updates are treated as immediate and sequential: an effect's result is observed only after it completes.

## Findings

No discrepancy is claimed as a bug. The slug rule's handling of an inner `.md` (see above) is modelled as written and exhibited by `PostComponent.SlugLosesInnerMd`.
