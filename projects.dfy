/**
 * The project index (src/utils/projects.ts). As for the blog, every
 * markdown file arrives loaded: its glob path, its parsed front matter and
 * its body. Dates are the timestamps `new Date(date).getTime()` yields.
 * There is no category filter: every file becomes a project.
 */
module Projects {
  import opened Wrappers
  import opened Strings
  import opened Ordering
  import opened Seqs
  import opened ContentIndex

  /** The front-matter fields the index reads; absent ones are `None`. */
  datatype FrontMatter = FrontMatter(
    title: Option<string>,
    date: int,
    description: Option<string>,
    technologies: Option<seq<string>>,
    thumbnail: Option<string>,
    githubUrl: Option<string>,
    demoUrl: Option<string>,
    demoMessage: Option<string>,
    projectUrl: Option<string>)

  datatype SourceFile = SourceFile(path: string, data: FrontMatter, body: string)

  datatype Project = Project(
    slug: string,
    title: Option<string>,
    date: int,
    description: string,
    technologies: seq<string>,
    content: string,
    readTime: nat,
    thumbnailUrl: Option<string>,
    githubUrl: Option<string>,
    demoUrl: Option<string>,
    demoMessage: Option<string>,
    projectUrl: Option<string>)

  /**
   * The record pushed for one file. `data.description || ''` also maps an
   * empty description to the empty string, so `GetOr` is exact; an empty
   * technology list is truthy and is kept, as `GetOr` keeps it.
   */
  function ToProject(f: SourceFile): Project {
    var d := f.data;
    Project(
      SlugOf(f.path), d.title, d.date, d.description.GetOr(""), d.technologies.GetOr([]),
      f.body, ReadTime(f.body), d.thumbnail, d.githubUrl, d.demoUrl, d.demoMessage, d.projectUrl)
  }

  /** Missing fields take their defaults; the front matter's `thumbnail` becomes `thumbnailUrl`; the links pass through. */
  lemma ProjectFields(f: SourceFile)
    ensures var p := ToProject(f);
      && (f.data.description.None? ==> p.description == "")
      && (f.data.description.Some? ==> p.description == f.data.description.value)
      && (f.data.technologies.None? ==> p.technologies == [])
      && (f.data.technologies.Some? ==> p.technologies == f.data.technologies.value)
      && p.thumbnailUrl == f.data.thumbnail
      && p.githubUrl == f.data.githubUrl && p.demoUrl == f.data.demoUrl
      && p.demoMessage == f.data.demoMessage && p.projectUrl == f.data.projectUrl
      && '/' !in p.slug && p.readTime >= 1
  {
    SlugHasNoSlash(f.path);
  }

  function ProjectDate(p: Project): int {
    p.date
  }

  /** The projects the loop has pushed after visiting `files`: one per file, in file order. */
  function Collect(files: seq<SourceFile>): seq<Project> {
    MapSeq(files, ToProject)
  }

  /** The list `getProjects()` returns, newest first. */
  function Index(files: seq<SourceFile>): seq<Project> {
    SortDesc(Collect(files), ProjectDate)
  }

  /** The index is newest first and holds the project of each file exactly as often as files yield it. */
  lemma IndexOrdered(files: seq<SourceFile>)
    ensures |Index(files)| == |files|
    ensures SortedDesc(Index(files), ProjectDate)
    ensures multiset(Index(files)) == multiset(Collect(files))
  {
    SortDescSorted(Collect(files), ProjectDate);
    SortDescPerm(Collect(files), ProjectDate);
    assert |multiset(Index(files))| == |multiset(Collect(files))|;
  }

  /** A project is listed exactly when some file yields it. */
  lemma IndexMembers(files: seq<SourceFile>, p: Project)
    ensures p in Index(files) <==> exists f :: f in files && p == ToProject(f)
  {
    SortDescMembers(Collect(files), ProjectDate, p);
    MapSeqMembers(files, ToProject, p);
  }

  /** `getProjects()`: the for-of loop pushing one project per file, then the in-place sort. */
  method GetProjects(files: seq<SourceFile>) returns (projects: seq<Project>)
    ensures projects == Index(files)
  {
    var acc := CollectProjects(files);
    projects := SortedCopy(acc, ProjectDate);
  }

  /** The for-of loop of `getProjects`. */
  method CollectProjects(files: seq<SourceFile>) returns (acc: seq<Project>)
    ensures acc == Collect(files)
  {
    acc := [];
    var i := 0;
    while i < |files|
      invariant 0 <= i <= |files|
      invariant acc == Collect(files[..i])
    {
      MapSeqStep(files, ToProject, i);
      acc := acc + [ToProject(files[i])];
      i := i + 1;
    }
    assert files[..i] == files;
  }

  /** `getProject(slug)`: the first project, newest first, with that slug; `null` as `None`. */
  method GetProject(files: seq<SourceFile>, slug: string) returns (project: Option<Project>)
    ensures project.Some? <==> exists f :: f in files && SlugOf(f.path) == slug
    ensures project.Some? ==> project.value.slug == slug
    ensures project.Some? ==> exists f :: f in files && project.value == ToProject(f)
    ensures project.Some? ==> forall f :: f in files && SlugOf(f.path) == slug ==> f.data.date <= project.value.date
    ensures project.Some? ==> exists i :: (0 <= i < |files| && project.value == ToProject(files[i]) && FileHasSlug(slug)(files[i])
      && forall j :: 0 <= j < i && FileHasSlug(slug)(files[j]) ==> FileDate(files[j]) < FileDate(files[i]))
  {
    var projects := GetProjects(files);
    var found := FindFirst(projects, HasSlug(slug));
    project := if found.Some? then Some(projects[found.value]) else None;
    Lookup(files, slug);
    LookupEarliest(files, slug);
  }

  /** The test `project.slug === slug` of the lookup. */
  function HasSlug(slug: string): Project -> bool {
    (p: Project) => p.slug == slug
  }

  /** The lookup finds a project iff some file has that slug; it is the project of such a file, and no file with that slug is newer. */
  lemma Lookup(files: seq<SourceFile>, slug: string)
    ensures var projects := Index(files); var r := FindFirst(projects, HasSlug(slug));
      && (r.Some? <==> exists f :: f in files && SlugOf(f.path) == slug)
      && (r.Some? ==> projects[r.value].slug == slug && exists f :: f in files && projects[r.value] == ToProject(f))
      && (r.Some? ==> forall f :: f in files && SlugOf(f.path) == slug ==> f.data.date <= projects[r.value].date)
  {
    FileKeys(slug);
    LookupMapped(files, ToProject, ProjectDate, HasSlug(slug), FileDate, FileHasSlug(slug));
    assert Index(files) == SortDesc(MapSeq(files, ToProject), ProjectDate);
  }

  /** Among the newest files with that slug, the lookup finds the project of the first one in file order (the sort is stable). */
  lemma LookupEarliest(files: seq<SourceFile>, slug: string)
    ensures var projects := Index(files); var r := FindFirst(projects, HasSlug(slug));
      r.Some? ==> exists i :: (0 <= i < |files| && projects[r.value] == ToProject(files[i]) && FileHasSlug(slug)(files[i])
        && forall j :: 0 <= j < i && FileHasSlug(slug)(files[j]) ==> FileDate(files[j]) < FileDate(files[i]))
  {
    var sorted := SortDesc(MapSeq(files, ToProject), ProjectDate);
    var r := FindFirst(sorted, HasSlug(slug));
    FileKeys(slug);
    LookupMapped(files, ToProject, ProjectDate, HasSlug(slug), FileDate, FileHasSlug(slug));
    assert r.Some? ==> exists i :: (0 <= i < |files| && sorted[r.value] == ToProject(files[i]) && FileHasSlug(slug)(files[i])
        && forall j :: 0 <= j < i && FileHasSlug(slug)(files[j]) ==> FileDate(files[j]) < FileDate(files[i]));
    assert Index(files) == sorted;
  }


  /** The record of a file carries the file's date and slug. */
  lemma FileKeys(slug: string)
    ensures forall f :: ProjectDate(ToProject(f)) == FileDate(f) && HasSlug(slug)(ToProject(f)) == FileHasSlug(slug)(f)
  {
  }

  /** The date and the slug test of a file, read off the file itself. */
  function FileDate(f: SourceFile): int {
    f.data.date
  }

  function FileHasSlug(slug: string): SourceFile -> bool {
    (f: SourceFile) => SlugOf(f.path) == slug
  }
}
