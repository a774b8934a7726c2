/**
 * The blog index (src/utils/blog.ts). The markdown files arrive already
 * loaded: each is its glob path, the front matter gray-matter parsed from
 * it, and the body that follows the front matter. Dates are the
 * timestamps `new Date(date).getTime()` yields.
 */
module Blog {
  import opened Wrappers
  import opened Strings
  import opened Ordering
  import opened Seqs
  import opened ContentIndex

  /** The front-matter fields the index reads. */
  datatype FrontMatter = FrontMatter(title: Option<string>, date: int, tags: Option<seq<string>>)

  /** One markdown file found under the blog folder. */
  datatype SourceFile = SourceFile(path: string, data: FrontMatter, body: string)

  datatype BlogPost = BlogPost(
    slug: string,
    title: Option<string>,
    date: int,
    category: string,
    tags: seq<string>,
    content: string,
    readTime: nat)

  const Writeups := "writeups"
  const Reflections := "reflections"

  /** The category a path files its post under. */
  function CategoryOf(path: string): string {
    if Contains(path, "/writeups/") then Writeups else Reflections
  }

  /** Any file under a `writeups` folder is a writeup, whatever surrounds it. */
  lemma WriteupsFolder(before: string, after: string)
    ensures CategoryOf(before + "/writeups/" + after) == Writeups
  {
    var pat := "/writeups/";
    assert OccursAt(pat, pat, 0);
    OccursInPart(before, pat, after, pat, 0);
    ContainsIff(before + pat + after, pat);
  }

  /** A path without the `/writeups/` folder is a reflection, and the two categories differ. */
  lemma ReflectionsOtherwise(path: string)
    requires forall i :: !OccursAt(path, "/writeups/", i)
    ensures CategoryOf(path) == Reflections != Writeups
  {
    ContainsIff(path, "/writeups/");
  }

  /** `category && pathCategory !== category` is false: the file is not skipped. */
  predicate Wanted(category: Option<string>, pathCategory: string) {
    category.None? || category.value == "" || pathCategory == category.value
  }

  /** The record pushed for one file. */
  function ToPost(f: SourceFile): BlogPost {
    BlogPost(
      SlugOf(f.path), f.data.title, f.data.date, CategoryOf(f.path),
      f.data.tags.GetOr([]), f.body, ReadTime(f.body))
  }

  /** Missing tags become the empty list; the slug is a bare file name; reading takes a minute or more. */
  lemma PostDefaults(f: SourceFile)
    ensures f.data.tags.None? ==> ToPost(f).tags == []
    ensures f.data.tags.Some? ==> ToPost(f).tags == f.data.tags.value
    ensures '/' !in ToPost(f).slug
    ensures ToPost(f).readTime >= 1
  {
    SlugHasNoSlash(f.path);
  }

  function PostDate(p: BlogPost): int {
    p.date
  }

  /** The file test of the loop, for a given `category` argument. */
  function Keeps(category: Option<string>): SourceFile -> bool {
    (f: SourceFile) => Wanted(category, CategoryOf(f.path))
  }

  /** The posts the loop has pushed after visiting `files`, in file order. */
  function Collect(files: seq<SourceFile>, category: Option<string>): seq<BlogPost> {
    FilterMap(files, Keeps(category), ToPost)
  }

  /** A post is collected exactly when it comes from a file of a wanted category. */
  lemma CollectMembers(files: seq<SourceFile>, category: Option<string>, p: BlogPost)
    ensures p in Collect(files, category)
        <==> exists f :: f in files && Wanted(category, CategoryOf(f.path)) && p == ToPost(f)
  {
    FilterMapMembers(files, Keeps(category), ToPost, p);
  }

  /** Without a filter, every file yields one post, in file order. */
  lemma CollectAll(files: seq<SourceFile>, category: Option<string>)
    requires category.None? || category.value == ""
    ensures Collect(files, category) == MapSeq(files, ToPost)
    ensures |Collect(files, category)| == |files|
  {
    FilterMapAll(files, Keeps(category), ToPost);
  }

  /** The index `getBlogPosts(category)` returns, newest first. */
  function Index(files: seq<SourceFile>, category: Option<string>): seq<BlogPost> {
    SortDesc(Collect(files, category), PostDate)
  }

  /** The index holds exactly the posts of the files of a wanted category. */
  lemma IndexMembers(files: seq<SourceFile>, category: Option<string>, p: BlogPost)
    ensures p in Index(files, category)
        <==> exists f :: f in files && Wanted(category, CategoryOf(f.path)) && p == ToPost(f)
  {
    SortDescMembers(Collect(files, category), PostDate, p);
    CollectMembers(files, category, p);
  }

  /** With a non-empty category, only posts of that category are returned. */
  lemma IndexCategory(files: seq<SourceFile>, category: Option<string>)
    requires category.Some? && category.value != ""
    ensures forall p :: p in Index(files, category) ==> p.category == category.value
  {
    forall p | p in Index(files, category) ensures p.category == category.value {
      IndexMembers(files, category, p);
    }
  }

  /** The index is newest first and holds every collected post exactly as often. */
  lemma IndexOrdered(files: seq<SourceFile>, category: Option<string>)
    ensures SortedDesc(Index(files, category), PostDate)
    ensures multiset(Index(files, category)) == multiset(Collect(files, category))
  {
    SortDescSorted(Collect(files, category), PostDate);
    SortDescPerm(Collect(files, category), PostDate);
  }

  /** `getBlogPosts(category)`: the collecting loop, then the in-place sort. */
  method GetBlogPosts(files: seq<SourceFile>, category: Option<string>) returns (posts: seq<BlogPost>)
    ensures posts == Index(files, category)
  {
    var acc := CollectPosts(files, category);
    posts := SortedCopy(acc, PostDate);
  }

  /** The for-of loop of `getBlogPosts`: a file of another category is skipped (its `continue`), the rest are pushed. */
  method CollectPosts(files: seq<SourceFile>, category: Option<string>) returns (acc: seq<BlogPost>)
    ensures acc == Collect(files, category)
  {
    acc := [];
    var i := 0;
    while i < |files|
      invariant 0 <= i <= |files|
      invariant acc == Collect(files[..i], category)
    {
      var f := files[i];
      CollectStep(files, i, category);
      var pathCategory := CategoryOf(f.path);
      if !(category.Some? && category.value != "" && pathCategory != category.value) {
        acc := acc + [ToPost(f)];
      }
      i := i + 1;
    }
    assert files[..i] == files;
  }

  lemma CollectStep(files: seq<SourceFile>, i: nat, category: Option<string>)
    requires i < |files|
    ensures Collect(files[..i + 1], category)
         == Collect(files[..i], category)
          + (if Wanted(category, CategoryOf(files[i].path)) then [ToPost(files[i])] else [])
  {
    FilterMapStep(files, Keeps(category), ToPost, i);
  }

  /** `getBlogPost(slug)`: the first post, newest first over every category, with that slug. */
  method GetBlogPost(files: seq<SourceFile>, slug: string) returns (post: Option<BlogPost>)
    ensures post.Some? <==> exists f :: f in files && SlugOf(f.path) == slug
    ensures post.Some? ==> post.value.slug == slug
    ensures post.Some? ==> exists f :: f in files && post.value == ToPost(f)
    ensures post.Some? ==> forall f :: f in files && SlugOf(f.path) == slug ==> f.data.date <= post.value.date
    ensures post.Some? ==> exists i :: (0 <= i < |files| && post.value == ToPost(files[i]) && FileHasSlug(slug)(files[i])
      && forall j :: 0 <= j < i && FileHasSlug(slug)(files[j]) ==> FileDate(files[j]) < FileDate(files[i]))
  {
    var posts := GetBlogPosts(files, None);
    var found := FindFirst(posts, HasSlug(slug));
    post := if found.Some? then Some(posts[found.value]) else None;
    Lookup(files, slug);
    LookupEarliest(files, slug);
  }

  /** The test `post.slug === slug` of the lookup. */
  function HasSlug(slug: string): BlogPost -> bool {
    (p: BlogPost) => p.slug == slug
  }

  /** The lookup finds a post iff some file has that slug; it is the post of such a file, and no file with that slug is newer. */
  lemma Lookup(files: seq<SourceFile>, slug: string)
    ensures var posts := Index(files, None); var r := FindFirst(posts, HasSlug(slug));
      && (r.Some? <==> exists f :: f in files && SlugOf(f.path) == slug)
      && (r.Some? ==> posts[r.value].slug == slug && exists f :: f in files && posts[r.value] == ToPost(f))
      && (r.Some? ==> forall f :: f in files && SlugOf(f.path) == slug ==> f.data.date <= posts[r.value].date)
  {
    FileKeys(slug);
    LookupMapped(files, ToPost, PostDate, HasSlug(slug), FileDate, FileHasSlug(slug));
    CollectAll(files, None);
    assert Index(files, None) == SortDesc(MapSeq(files, ToPost), PostDate);
  }

  /** Among the newest files with that slug, the lookup finds the post of the first one in file order (the sort is stable). */
  lemma LookupEarliest(files: seq<SourceFile>, slug: string)
    ensures var posts := Index(files, None); var r := FindFirst(posts, HasSlug(slug));
      r.Some? ==> exists i :: (0 <= i < |files| && posts[r.value] == ToPost(files[i]) && FileHasSlug(slug)(files[i])
        && forall j :: 0 <= j < i && FileHasSlug(slug)(files[j]) ==> FileDate(files[j]) < FileDate(files[i]))
  {
    var sorted := SortDesc(MapSeq(files, ToPost), PostDate);
    var r := FindFirst(sorted, HasSlug(slug));
    FileKeys(slug);
    LookupMapped(files, ToPost, PostDate, HasSlug(slug), FileDate, FileHasSlug(slug));
    assert r.Some? ==> exists i :: (0 <= i < |files| && sorted[r.value] == ToPost(files[i]) && FileHasSlug(slug)(files[i])
        && forall j :: 0 <= j < i && FileHasSlug(slug)(files[j]) ==> FileDate(files[j]) < FileDate(files[i]));
    CollectAll(files, None);
    assert Index(files, None) == sorted;
  }


  /** The record of a file carries the file's date and slug. */
  lemma FileKeys(slug: string)
    ensures forall f :: PostDate(ToPost(f)) == FileDate(f) && HasSlug(slug)(ToPost(f)) == FileHasSlug(slug)(f)
  {
  }

  /** The date and the slug test of a file, read off the file itself. */
  function FileDate(f: SourceFile): int {
    f.data.date
  }

  function FileHasSlug(slug: string): SourceFile -> bool {
    (f: SourceFile) => SlugOf(f.path) == slug
  }
}
