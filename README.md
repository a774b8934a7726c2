# Portfolio site content and scroll-reveal model

A Dafny model of the logic behind a personal portfolio site built with
React and Vite:

- **Blog index** (`src/utils/blog.ts`). Every markdown file under the blog
  folder becomes a post. The post's category comes from its folder, its
  slug from its file name, and its reading time from a word count. The
  posts can be filtered by category, are sorted newest first, and can be
  looked up by slug.
- **Project index** (`src/utils/projects.ts`). The same pipeline without the
  category. It also has the optional links and a thumbnail.
- **Project page** (`src/components/ProjectPost.tsx`):
  - how an image path becomes a bundled asset URL;
  - how `processContent` cuts a project's markdown at the
    `DRAWING_PAIR_START` / `DRAWING_PAIR_END` markers into text parts and
    side-by-side drawing parts;
  - how the header thumbnail is resolved.
- **Blog card** (`src/components/BlogCard.tsx`): the thumbnail, its object
  position, and the tag list with its `+k` badge.
- **Photography page** (`src/components/Photography.tsx`):
  - a photo's name from its path;
  - its date from the EXIF tags, else from a `YYYY-MM-DD` (or `_`) date in
    its name, else the load time;
  - each gallery sorted newest first;
  - the active tab's gallery.
- **Scroll reveal** (`src/utils/scrollFadeUp.ts`). A controller hides the
  marked elements and observes them. It reveals an element when it enters
  the viewport and hides it again, after a re-check, when it leaves. Entries
  are debounced per element. A fallback sweep and a reset of the
  "initializing" flag run on timers.

Modules:

- `Wrappers`: `Option`.
- `Seqs`: the lists a loop builds by pushing.
- `Strings`: the JavaScript string operations the code relies on:
  - `split` with a string separator, `join`, `indexOf`;
  - `replace` with a string pattern, which replaces the first occurrence;
  - `replace` with a global one-character pattern, which replaces all;
  - `trim`, and `split(/\s+/)`.
- `Ordering`: the stable newest-first sort, run in place on an array; `findIndex`.
- `ContentIndex`: reading time and slug. The blog and project indexes carry
  identical copies of this code; it is defined once here.
- `Blog`, `Projects`, `ProjectPost`, `BlogCard`, `Photography`.
- `FadeUp`: the `Controller` class for scroll reveal.

Dates are the integer timestamps that `new Date(...).getTime()` yields. The
parsing of a date string is a parameter (`parse`), and so is the current
time (`now`; for a gallery, a reading per file, `clock(i)`). The front matter arrives already parsed. The bundler's asset
URLs are a map parameter. The page's elements are nodes that carry their
attributes, their classes, their ancestors' classes and the box they had
when they were measured.

The scroll-reveal controller keeps the module-level state of the source as
fields:

- the observer;
- the initializing flag;
- the map of element states;
- the elements carrying `is-visible`;
- the elements carrying `fade-up-init`.

Every timer and animation frame the source schedules becomes a `Task` in a
multiset of pending work. The browser runs a task by calling the matching
`On...` method, and that method removes the task. The class invariant
`Valid` says that every element the controller has switched carries exactly
one of the two classes.

The model follows the code as written:

- **Terminal paths.** The "no IntersectionObserver" and "reduced motion"
  paths return before the flag-reset timer is scheduled.
  `FadeUp.ReducedMotionLocksOut` shows the result: the flag stays set, no
  reset is pending, and every later `Init` does nothing.
- **State map.** The map of element states is never cleared. A new
  initialization writes over the records of the elements it seeds and keeps
  all the others.
- **Hide re-checks.** These are never cancelled. A re-check scheduled before
  a re-initialization still runs. It reads only the element's box, not its
  record and not the observer.
- **Observer options.** `initFadeUpAnimations` takes no parameters, so the
  options object that `src/main.tsx` passes (stagger 80, threshold 0.2,
  margin -10%) has no effect. The observer always uses threshold 0.15 and a
  bottom margin of -8%.
- **Selection.** Only `data-animate="fade-up"` is selected. Elements marked
  `fade-up-subtle` are never hidden or revealed by the controller.
- **Viewport tests.** The "in viewport" test (`top < innerHeight && bottom >
  0`) and the "still out of view" test (`bottom < 0 || top > innerHeight`)
  are not complements. A box touching an edge of the viewport passes
  neither (`FadeUp.ViewportTests`).
- **Blog card thumbnail.** The card reads `post.thumbnailUrl`, but blog
  posts have no such field. Every card therefore shows its category's
  placeholder, centred (`BlogCard.CardThumbnail`, `BlogCard.CardPosition`).
- **EXIF date rewrite.** `replace(/-/g, '/', 2)` ignores its third argument.
  Every ':' of an EXIF time stamp, those of the time included, becomes '/'
  (`Photography.ExifRewriteExample`).

## Model

| member | source | states |
|---|---|---|
| Strings.Split | src/components/ProjectPost.tsx:87 | `s.split(sep)` for a string separator: at least one piece, none containing the separator (`Strings.SplitPiecesFree`), and joining them gives `s` back (`Strings.JoinSplit`); the cut is at the leftmost occurrence, so the first piece is the text before it and the rest split what follows it (`Strings.SplitCons`, `Strings.SplitFirstRest`) |
| Strings.ReplaceFirst | src/utils/blog.ts:38 | `s.replace(pat, rep)` with a string pattern: only the first occurrence is replaced, and a string without one is unchanged |
| Strings.ReplaceAll | src/components/Photography.tsx:66 | `s.replace(/c/g, d)`: every `c` becomes `d`, nothing else changes |
| Strings.Trim | src/utils/blog.ts:22 | `s.trim()`: the result is a slice `s[i..j]` with only white space before `i` and after `j`; it is empty iff the string is all white space, and otherwise neither of its ends is white space |
| Strings.TrimSlice | src/utils/blog.ts:22 | what `trim()` keeps is a slice of the string with only white space before and after it, the fact behind `Strings.Trim`'s slice clause |
| Strings.SplitWs | src/utils/blog.ts:22 | `s.split(/\s+/)`: at least one piece; a trimmed string splits into its words (`Strings.SplitWsWords`) |
| Strings.LastSegment | src/utils/blog.ts:38 | `path.split('/').pop()`: the suffix after the last '/', free of '/' (`Strings.LastSegmentIsSuffix`) |
| ContentIndex.WordCount | src/utils/blog.ts:22 | the number of pieces of the trimmed body split at runs of white space is at least one |
| ContentIndex.ReadTime | src/utils/blog.ts:20-24 | reading time is at least one minute and is the ceiling of words / 200 (200·(m−1) < words ≤ 200·m) |
| ContentIndex.BlankReadsInOneMinute | src/utils/projects.ts:25-29 | an empty or all-white-space body counts one word and reads in one minute |
| ContentIndex.WordCountOfWords | src/utils/blog.ts:22 | a body made of n non-empty space-free words joined by spaces counts exactly n words |
| ContentIndex.SlugOf | src/utils/blog.ts:38 | the last path segment with its first ".md" removed (the same expression at src/utils/projects.ts:37) |
| ContentIndex.SlugHasNoSlash | src/utils/blog.ts:38 | a slug (last path segment with its first ".md" removed) never contains '/' |
| ContentIndex.SlugOfMarkdownFile | src/utils/projects.ts:37 | the slug of `<dir>/<name>.md` is `name` when the name has no '/' and no ".md" |
| ContentIndex.MdFirstAt | src/utils/blog.ts:38 | removing the first ".md" from `name + ".md"` gives `name` back when the name has none |
| Blog.CategoryOf | src/utils/blog.ts:31 | "writeups" for a path containing `/writeups/`, else "reflections" (`Blog.WriteupsFolder`, `Blog.ReflectionsOtherwise`) |
| Blog.Wanted | src/utils/blog.ts:34 | a file is kept when no category (or an empty one) is asked for, or when its folder's category is the one asked for |
| Blog.ToPost | src/utils/blog.ts:40-48 | the record pushed for a file: slug, title, date, folder category, tags (`[]` when missing), body and reading time (`Blog.PostDefaults`) |
| Blog.WriteupsFolder | src/utils/blog.ts:31 | any path containing `/writeups/` is filed under "writeups" |
| Blog.ReflectionsOtherwise | src/utils/blog.ts:31 | a path without `/writeups/` is filed under "reflections", which differs from "writeups" |
| Blog.PostDefaults | src/utils/blog.ts:40-48 | missing tags become `[]` and present tags are copied; the slug has no '/'; reading time is at least one minute |
| Blog.CollectMembers | src/utils/blog.ts:29-49 | a post is collected iff some file of a wanted category yields it (an empty category filters nothing) |
| Blog.CollectAll | src/utils/blog.ts:34 | without a category (or with an empty one) every file yields its post, in file order |
| Blog.IndexMembers | src/utils/blog.ts:26-53 | the returned list holds exactly the posts of the files of a wanted category |
| Blog.IndexCategory | src/utils/blog.ts:34 | with a non-empty category every returned post has that category |
| Blog.IndexOrdered | src/utils/blog.ts:52 | the returned list is newest first and a permutation of the collected posts |
| Blog.GetBlogPosts | src/utils/blog.ts:26-53 | the loop-then-sort method returns exactly the newest-first index |
| Blog.CollectPosts | src/utils/blog.ts:29-49 | the loop pushes, in file order, the post of every file not skipped by the category test |
| Blog.CollectStep | src/utils/blog.ts:34-48 | one loop step appends the file's post exactly when its category is wanted |
| Blog.GetBlogPost | src/utils/blog.ts:55-58 | a post is found iff some file has that slug; it has the slug and no file with that slug is newer; among the newest such files it is the post of the first in file order |
| Blog.Lookup | src/utils/blog.ts:55-58 | the lookup in the sorted index finds a post iff some file has that slug; the post found has the slug, comes from a file, and no file with that slug is newer |
| Blog.LookupEarliest | src/utils/blog.ts:52-58 | among the newest files with that slug, the lookup finds the post of the first in file order, since the sort is stable |
| Projects.ToProject | src/utils/projects.ts:39-52 | the record pushed for a file, with the defaults and copies stated by `Projects.ProjectFields` |
| Projects.ProjectFields | src/utils/projects.ts:39-52 | description defaults to "", technologies to `[]`, and present values are copied; `thumbnail` becomes `thumbnailUrl`; links copied; slug has no '/'; reading time ≥ 1 |
| Projects.IndexOrdered | src/utils/projects.ts:56 | the returned list has one project per file, is newest first, and is a permutation of the collected projects |
| Projects.IndexMembers | src/utils/projects.ts:31-57 | a project is listed iff some file yields it |
| Projects.GetProjects | src/utils/projects.ts:31-57 | the loop-then-sort method returns exactly the newest-first index |
| Projects.CollectProjects | src/utils/projects.ts:34-53 | the loop pushes one project per file, in file order |
| Projects.GetProject | src/utils/projects.ts:59-62 | a project is found iff some file has that slug; it has the slug and no file with that slug is newer; among the newest such files it is the project of the first in file order |
| Projects.Lookup | src/utils/projects.ts:59-62 | the lookup in the sorted index finds a project iff some file has that slug; the project found has the slug, comes from a file, and no file with that slug is newer |
| Projects.LookupEarliest | src/utils/projects.ts:56-62 | among the newest files with that slug, the lookup finds the project of the first in file order, since the sort is stable |
| Ordering.SortDesc | src/utils/blog.ts:52 | the stable newest-first sort, as insertion of each element after the equal keys; its properties are `Ordering.SortDescSorted`, `Ordering.SortDescPerm` and `Ordering.SortDescStable` |
| Ordering.InsertPerm | src/utils/blog.ts:52 | inserting adds exactly the inserted element |
| Ordering.InsertSorted | src/utils/blog.ts:52 | inserting into a newest-first list keeps it newest first |
| Ordering.InsertAt | src/utils/blog.ts:52 | an element is inserted after every element whose key is at least its own |
| Ordering.SortDescSorted | src/utils/blog.ts:52 | the sort's result is newest first |
| Ordering.SortDescPerm | src/utils/blog.ts:52 | the sort's result is a permutation of its input |
| Ordering.SortDescMembers | src/utils/projects.ts:56 | sorting neither adds nor drops an element |
| Ordering.WithKeyAppend | src/utils/projects.ts:56 | the elements with a given date, taken from a concatenation, are those of each half in order |
| Ordering.WithKeyAbsent | src/utils/projects.ts:56 | a list whose dates are all older has no element of that date |
| Ordering.InsertWithKey | src/utils/projects.ts:56 | inserting places the new element after the equal-dated ones already there |
| Ordering.SortDescStable | src/components/Photography.tsx:84 | equal dates keep their original order (the comparator returns 0 for them and the sort is stable) |
| Ordering.SortInPlace | src/utils/blog.ts:52 | the array sorted in place holds the newest-first stable sort of its old contents |
| Ordering.InsertNext | src/utils/blog.ts:52 | one insertion step makes the prefix the sorted insertion of the next element and leaves the rest alone |
| Ordering.ShiftSmaller | src/utils/blog.ts:52 | the elements before the returned slot stay put and are at least as new as the next one; those from the slot on are older and move up one place; the rest of the array is unchanged |
| Ordering.SortedCopy | src/utils/projects.ts:56 | sorting an array filled with a list yields the newest-first sort of that list |
| Ordering.FindFirst | src/utils/projects.ts:61 | the index found is the first one satisfying the predicate; none iff no element does |
| Ordering.FirstInSorted | src/utils/projects.ts:61 | finding in the newest-first sort succeeds iff some element matches; what it finds matches, is an element, and no matching element is newer |
| Ordering.FindFirstCons | src/utils/projects.ts:61 | the first match in `[y] + t` is `y` when it matches, else the first match in `t` one place on |
| Ordering.FindFirstWithKey | src/utils/projects.ts:56-61 | the first match among the elements of one key is the first element of the whole list that has that key and matches |
| Ordering.FirstAmongKey | src/utils/projects.ts:61 | the first match of a list is also the first match among the elements sharing its key |
| Ordering.EarliestOfKey | src/utils/projects.ts:56-61 | the first match among the elements of one key is the earliest element with that key that matches |
| Ordering.FirstInSortedEarliest | src/utils/projects.ts:56-61 | the first match after the stable sort is the earliest matching element among those with the largest key |
| Ordering.LookupMapped | src/utils/blog.ts:29-58 | for a list built by pushing one record per file, with the test and the key read off the file: found iff some file passes; what is found is such a file's record; no passing file has a larger key; among those with the largest key it is the first file's record |
| BlogCard.DefaultThumbnail | src/components/BlogCard.tsx:16 | a writeup gets the writeup placeholder; any other category the reflection one |
| BlogCard.ThumbnailUrl | src/components/BlogCard.tsx:34-40 | a missing or empty name or one without an image gives the placeholder; a mapped name gives its image; the result is never anything else |
| BlogCard.ImagePosition | src/components/BlogCard.tsx:43-46 | the two known images get their custom position, every other name "center center" |
| BlogCard.ShownTags | src/components/BlogCard.tsx:92 | at most three tags are listed, and they are the first ones |
| BlogCard.Overflow | src/components/BlogCard.tsx:100-104 | the badge appears iff there are more than three tags; the listed tags and the badge count account for every tag once |
| BlogCard.CardThumbnail | src/components/BlogCard.tsx:58 | a blog post always shows its category's placeholder |
| BlogCard.CardPosition | src/components/BlogCard.tsx:63 | a blog post's image is always centred |
| ProjectPost.AssetKey | src/components/ProjectPost.tsx:37-40 | a leading `/src/assets/` is dropped; any other path is its own key |
| ProjectPost.AssetKeyRoundTrip | src/components/ProjectPost.tsx:38-39 | prefixing a key with `/src/assets/` and taking the key gives it back |
| ProjectPost.ResolveSrc | src/components/ProjectPost.tsx:42 | the mapped (non-empty) URL when the key is known, otherwise the path unchanged, never anything else |
| ProjectPost.MarkdownImage | src/components/ProjectPost.tsx:33-54 | no image iff the source or the alternative text is missing or empty; otherwise the text and the resolved source |
| ProjectPost.DrawingPair | src/components/ProjectPost.tsx:57-82 | every image of a pair, in order, keeps its text and has its source resolved |
| ProjectPost.HeaderThumbnail | src/components/ProjectPost.tsx:207-214 | no header image iff no (or an empty) thumbnail; a mapped name gives its URL; an unmapped name its path under `/src/assets/` |
| ProjectPost.HeaderAgreesWithBody | src/components/ProjectPost.tsx:209 | the header resolves a name exactly as the body resolves `/src/assets/<name>` |
| ProjectPost.MatchPrefix | src/components/ProjectPost.tsx:106 | a match at the start of the text reports a well-formed image and the length of its rendering, which fits in the text |
| ProjectPost.MatchRenders | src/components/ProjectPost.tsx:106 | the matched text is exactly the rendering of the image reported |
| ProjectPost.MatchAt | src/components/ProjectPost.tsx:106 | text opening `![`, with the first ']' followed by '(' and then a ')', is matched up to that ')' |
| ProjectPost.MatchRendered | src/components/ProjectPost.tsx:109 | the pattern matched against a rendered well-formed image gives that image and its length |
| ProjectPost.Scan | src/components/ProjectPost.tsx:106-110 | every image the global match finds is well formed |
| ProjectPost.ScanRendered | src/components/ProjectPost.tsx:106-110 | scanning a sequence of rendered well-formed images gives them back in order |
| ProjectPost.ScanSkipsPlain | src/components/ProjectPost.tsx:106 | text without '!' before the references adds no image |
| ProjectPost.KeepComplete | src/components/ProjectPost.tsx:111 | an image is kept iff it is in the list and has both a text and a source |
| ProjectPost.KeepCompleteAppend | src/components/ProjectPost.tsx:111 | filtering a concatenation filters each part in turn, so the order is kept |
| ProjectPost.KeepCompleteAll | src/components/ProjectPost.tsx:111 | images that all have a text and a source are kept as they are, duplicates and order included |
| ProjectPost.DrawingImages | src/components/ProjectPost.tsx:106-111 | every image of a drawing is well formed and has both a text and a source |
| ProjectPost.DrawingRoundTrip | src/components/ProjectPost.tsx:106-111 | the drawing of rendered well-formed complete images is exactly those images, in order |
| ProjectPost.SectionParts | src/components/ProjectPost.tsx:103-129 | the parts of one section: a drawing of its complete images before the first END, then the text after it unless blank (`ProjectPost.SectionShape`, `ProjectPost.TextAfterFirstEnd`) |
| ProjectPost.ContentParts | src/components/ProjectPost.tsx:85-133 | the leading text when non-empty, then each later section's parts (`ProjectPost.LeadingPart`, `ProjectPost.PartsBound`) |
| ProjectPost.ProcessContent | src/components/ProjectPost.tsx:85-133 | the method returns exactly the leading text part followed by every section's parts |
| ProjectPost.PushSections | src/components/ProjectPost.tsx:102-130 | the loop appends every remaining section's parts in order |
| ProjectPost.PushSection | src/components/ProjectPost.tsx:103-129 | one section appends its drawing (when it has complete images) and then its text after the first END (when not blank) |
| ProjectPost.SectionShape | src/components/ProjectPost.tsx:103-129 | a section yields at most two parts and a drawing only with images |
| ProjectPost.SectionsBound | src/components/ProjectPost.tsx:102-130 | the sections yield at most two parts each |
| ProjectPost.PartsBound | src/components/ProjectPost.tsx:85-133 | the page has at most one part plus two per START marker |
| ProjectPost.LeadingPart | src/components/ProjectPost.tsx:90-99 | the first part is the text before the first START, present iff that text is non-empty (blank text included) |
| ProjectPost.NoEndNoText | src/components/ProjectPost.tsx:103-119 | a section without an END marker yields no text part |
| ProjectPost.TextAfterFirstEnd | src/components/ProjectPost.tsx:119 | a section's text part is all that follows its first END, later END markers included |
| ProjectPost.DrawingsComplete | src/components/ProjectPost.tsx:111-115 | every drawing part has at least one image and each has a text and a source |
| ProjectPost.MarkdownFreeOfStart | src/components/ProjectPost.tsx:87 | no text part contains a START marker |
| ProjectPost.SectionsFreeOfStart | src/components/ProjectPost.tsx:102-130 | sections free of START markers yield text parts free of them |
| Photography.PhotoName | src/components/Photography.tsx:27 | a photo's name is never empty |
| Photography.PhotoNameOf | src/components/Photography.tsx:27 | the name of `<dir>/<base>.<ext>` is `base` |
| Photography.DotFileIsUntitled | src/components/Photography.tsx:27 | a file whose name starts with '.' is "Untitled" |
| Photography.ExifDate | src/components/Photography.tsx:39-41 | the first non-empty of DateTime, DateTimeOriginal, DateTimeDigitized; none iff all are missing or empty |
| Photography.ExifRewrite | src/components/Photography.tsx:45 | same length; every ':' and '-' becomes '/'; nothing else changes |
| Photography.ExifRewriteExample | src/components/Photography.tsx:45 | an illustration of `ExifRewrite`'s pointwise contract on one input: "2023:07:14 18:30:05" becomes "2023/07/14 18/30/05", so the time's separators become '/' too |
| Photography.FirstDateAt | src/components/Photography.tsx:64 | the leftmost position, from a start, where the date pattern matches |
| Photography.FilenameDate | src/components/Photography.tsx:64-66 | none iff the pattern matches nowhere; otherwise the leftmost match with each '_' made '-' |
| Photography.FilenameDateAfter | src/components/Photography.tsx:64-66 | a name whose prefix has no digit yields the date written after it |
| Photography.CreatedDate | src/components/Photography.tsx:30-69 | the EXIF date when there is one, else the name's date, else the load time |
| Photography.ToPhoto | src/components/Photography.tsx:25-80 | the record of one file: its URL, its name and its created date (`Photography.CreatedDate`) |
| Photography.Photos | src/components/Photography.tsx:24-81 | one record per file in file order, each with the clock reading its own callback took |
| Photography.UndatedUsesOwnClock | src/components/Photography.tsx:30 | an undated photo's date is its own callback's clock reading |
| Photography.Gallery | src/components/Photography.tsx:24-84 | the records sorted newest first (`Photography.GalleryOrdered`) |
| Photography.GalleryOrdered | src/components/Photography.tsx:84 | a gallery has one photo per file, newest first, a permutation, with equal dates in file order |
| Photography.LoadGallery | src/components/Photography.tsx:21-89 | the loader returns exactly the newest-first gallery of its files, each undated photo with its own callback's clock reading |
| Photography.CurrentPhotos | src/components/Photography.tsx:171 | the sports gallery iff the sports tab is active, else the misc one |
| FadeUp.Matches | src/utils/scrollFadeUp.ts:1 | the selector: marked `fade-up`, and neither the element nor an ancestor is the sticky navigation or the theme dropdown |
| FadeUp.Select | src/utils/scrollFadeUp.ts:1 | an element is selected iff it is marked `fade-up` and neither it nor an ancestor is the sticky navigation or the theme dropdown |
| FadeUp.OnlyFadeUpSelected | src/utils/scrollFadeUp.ts:1 | other markers and marked elements inside excluded containers are never selected |
| FadeUp.ViewportTests | src/utils/scrollFadeUp.ts:33 | "out of view" implies "not in viewport", but not the converse: the two differ exactly at the edges |
| FadeUp.SeedStates | src/utils/scrollFadeUp.ts:120-127 | the seeded records cover exactly the selected elements and all carry the seeding time |
| FadeUp.SeedStatesVisible | src/utils/scrollFadeUp.ts:122-124 | each seeded record says whether its element overlapped the viewport |
| FadeUp.Controller.constructor | src/utils/scrollFadeUp.ts:3-8 | no observer, flag clear, empty state map, nothing pending |
| FadeUp.Controller.Reveal | src/utils/scrollFadeUp.ts:89-93 | the element gains `is-visible` and loses `fade-up-init`; nothing else changes |
| FadeUp.Controller.Hide | src/utils/scrollFadeUp.ts:106-110 | the element loses `is-visible` and gains `fade-up-init`; nothing else changes |
| FadeUp.Controller.Init | src/utils/scrollFadeUp.ts:10-138 | a call while initializing does nothing; terminal paths show all selected and schedule nothing; otherwise all selected are hidden, seeded, observed with 0.15 / -8%, and the reset and fallback are scheduled |
| FadeUp.Controller.RevealAll | src/utils/scrollFadeUp.ts:46-49 | every selected element is shown |
| FadeUp.Controller.HideAll | src/utils/scrollFadeUp.ts:67-70 | every selected element is hidden |
| FadeUp.Controller.SeedAndObserve | src/utils/scrollFadeUp.ts:120-127 | the state map gains the seeded records and the observer gains the selected elements |
| FadeUp.Controller.SeedOne | src/utils/scrollFadeUp.ts:122-126 | one element's record is set from its box and it is observed |
| FadeUp.Controller.OnEntry | src/utils/scrollFadeUp.ts:73-113 | within 100 ms of its last update an entry is ignored; otherwise the record is replaced and a reveal frame or a 150 ms hide re-check is scheduled; no class changes |
| FadeUp.Controller.OnRevealFrame | src/utils/scrollFadeUp.ts:89-93 | the frame shows the element |
| FadeUp.Controller.OnHideCheck | src/utils/scrollFadeUp.ts:100-112 | a hide frame is scheduled iff the box is still wholly above or below the viewport |
| FadeUp.Controller.OnHideFrame | src/utils/scrollFadeUp.ts:106-110 | the frame hides the element |
| FadeUp.Controller.OnFallback | src/utils/scrollFadeUp.ts:28-41 | the sweep shows exactly the selected in-viewport elements lacking `is-visible`, and hides nothing |
| FadeUp.Controller.RevealInView | src/utils/scrollFadeUp.ts:31-40 | the loop shows each listed in-viewport element lacking `is-visible` |
| FadeUp.Controller.OnFlagReset | src/utils/scrollFadeUp.ts:132-134 | the flag is cleared and nothing else changes |
| FadeUp.FallbackOfSelected | src/utils/scrollFadeUp.ts:30-35 | sweeping the selection reveals the same elements as the selector-filtered page |
| FadeUp.ReducedMotionLocksOut | src/utils/scrollFadeUp.ts:44-61 | after a reduced-motion call the flag stays set, no observer exists, no reset is pending, and a later call changes nothing |

## Left out

- Loading: the files are not read, and gray-matter is not run. Each markdown
  file arrives as its path, its parsed front matter and its body. Asynchrony
  (`await`, `Promise.all`) is left out because the results do not depend on
  it.
- Dates: `new Date(...)` is a parameter. Invalid dates (`NaN`, which makes
  the comparator inconsistent) are not modelled.
- Rendering: React rendering, ReactMarkdown and the lightbox are not
  modelled. Images inside a text part are resolved by
  `ProjectPost.MarkdownImage` when ReactMarkdown calls it; the model does not
  parse markdown itself.
- The `onError` fallback image of the blog card is not modelled. It is a
  browser event.
- The EXIF reader is not modelled, and neither are the image load, its
  5-second timeout or the `catch` branches. The EXIF tags arrive as a
  parameter, with `None` for an image that failed or timed out. The `catch`
  branch computes the same file-name date as the normal path.
- Console logging is left out.
- The React pages that call these functions are not part of this model.
  This includes the module that starts the scroll reveal; its options are
  ignored by the controller, as described above.
- FadeUp.Controller.Init: does not check that timers fire in order of their due times. The pending tasks are a multiset, and any of them may run next.
- FadeUp.Controller.Init: reads `Date.now()` once per call rather than once per element.
- FadeUp.Controller.OnEntry: the observer's own decision of when an entry intersects (threshold and margin) is left to the caller.
- Blog.CollectPosts: the source's `continue` is written as an `if` around
  the push. The behaviour is the same.
- ProjectPost.ResolveSrc: the asset map holds its own keys only. A JavaScript
  object lookup also finds the members inherited from `Object.prototype`, so
  a path such as `toString` or `constructor` resolves to a function there,
  not to the path itself.
- ProjectPost.HeaderThumbnail: the same inherited keys of the asset map are
  not modelled; a thumbnail named `constructor` gives a function in the
  source, not `/src/assets/constructor`.
- BlogCard.ThumbnailUrl: the image map holds its own keys only; inherited
  `Object.prototype` members found by the object lookup are not modelled.
- BlogCard.ImagePosition: the position map holds its own keys only;
  inherited `Object.prototype` members found by the object lookup are not
  modelled.
- FadeUp.Controller.OnEntry: takes one entry at a time. The observer's batch
  of entries is a sequence of such calls.
