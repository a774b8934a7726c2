/**
 * The photo galleries (src/components/Photography.tsx). Each image the
 * bundler found under a gallery folder arrives with its path, its bundled
 * URL and what the EXIF reader returned for it; the reader itself, the
 * image loading and its five-second timeout are not modelled. Dates are
 * timestamps: `new Date(s)` is the parameter `parse`, and the `new Date()`
 * a photo starts from is the parameter `now` (for a whole gallery, a clock
 * reading per file).
 */
module Photography {
  import opened Wrappers
  import opened Strings
  import opened Ordering
  import opened Seqs

  const Untitled := "Untitled"

  // ------------------------------------------------------------------ names

  /** `path.split('/').pop()?.split('.')[0] || 'Untitled'`. */
  function PhotoName(path: string): (name: string)
    ensures name != ""
  {
    var base := Before(LastSegment(path), ".");
    if base == "" then "Untitled" else base
  }

  /** The name of `<dir>/<base>.<ext>` is `base`, for a base without '/' or '.'. */
  lemma PhotoNameOf(dir: string, base: string, ext: string)
    requires base != "" && '/' !in base && '.' !in base && '/' !in ext
    ensures PhotoName(dir + "/" + base + "." + ext) == base
  {
    var file := base + "." + ext;
    assert dir + "/" + base + "." + ext == dir + "/" + file;
    assert '/' !in file by {
      forall i | 0 <= i < |file| ensures file[i] != '/' {
        if i < |base| { assert file[i] == base[i]; }
        else if i > |base| { assert file[i] == ext[i - |base| - 1]; }
      }
    }
    LastSegmentOf(dir, file);
    BeforeFirstChar(base, '.', ext);
  }

  /** A file whose name starts with '.' has nothing before its extension, so it is untitled. */
  lemma DotFileIsUntitled(dir: string, ext: string)
    requires '/' !in ext
    ensures PhotoName(dir + "/." + ext) == Untitled
  {
    var file := "." + ext;
    assert dir + "/." + ext == dir + "/" + file;
    assert '/' !in file by {
      forall i | 0 <= i < |file| ensures file[i] != '/' {
        if i > 0 { assert file[i] == ext[i - 1]; }
      }
    }
    LastSegmentOf(dir, file);
    BeforeFirstChar("", '.', ext);
    assert "" + ['.'] + ext == file;
  }

  // ------------------------------------------------------------- EXIF date

  /** What the EXIF reader returned for the three date tags; `None` for a tag that is absent. */
  datatype ExifTags = ExifTags(dateTime: Option<string>, original: Option<string>, digitized: Option<string>)

  /** `getTag('DateTime') || getTag('DateTimeOriginal') || getTag('DateTimeDigitized')`, `None` when all are falsy. */
  function ExifDate(tags: ExifTags): (date: Option<string>)
    ensures date.Some? ==> date.value != ""
    ensures tags.dateTime.Some? && tags.dateTime.value != "" ==> date == tags.dateTime
    ensures (tags.dateTime.None? || tags.dateTime.value == "") && tags.original.Some? && tags.original.value != ""
        ==> date == tags.original
    ensures date.Some? ==> date == tags.dateTime || date == tags.original || date == tags.digitized
    ensures date.None? <==>
      && (tags.dateTime.None? || tags.dateTime.value == "")
      && (tags.original.None? || tags.original.value == "")
      && (tags.digitized.None? || tags.digitized.value == "")
  {
    if tags.dateTime.Some? && tags.dateTime.value != "" then tags.dateTime
    else if tags.original.Some? && tags.original.value != "" then tags.original
    else if tags.digitized.Some? && tags.digitized.value != "" then tags.digitized
    else None
  }

  /**
   * `dateTime.replace(/:/g, '-').replace(/-/g, '/', 2)`. The third argument
   * of `replace` is ignored, so the second pass turns every '-' into '/'.
   */
  function ExifRewrite(s: string): (r: string)
    ensures |r| == |s|
    ensures forall i :: 0 <= i < |s| ==> r[i] == if s[i] == ':' || s[i] == '-' then '/' else s[i]
    ensures ':' !in r && '-' !in r
  {
    ReplaceAll(ReplaceAll(s, ':', '-'), '-', '/')
  }

  /**
   * An illustration only (`ExifRewrite`'s own contract already covers every input):
   * an EXIF time stamp comes out with '/' between all of its fields, the time's included.
   */
  lemma ExifRewriteExample()
    ensures ExifRewrite("2023:07:14 18:30:05") == "2023/07/14 18/30/05"
  {
    var r := ExifRewrite("2023:07:14 18:30:05");
    assert forall i :: 0 <= i < |r| ==> r[i] == "2023/07/14 18/30/05"[i];
  }

  // ---------------------------------------------------------- file name date

  predicate IsDigit(c: char) {
    '0' <= c <= '9'
  }

  predicate IsDateSep(c: char) {
    c == '-' || c == '_'
  }

  /** `/\d{4}[-_]\d{2}[-_]\d{2}/` matches at `i`. */
  predicate DateAt(s: string, i: nat) {
    && i + 10 <= |s|
    && IsDigit(s[i]) && IsDigit(s[i + 1]) && IsDigit(s[i + 2]) && IsDigit(s[i + 3])
    && IsDateSep(s[i + 4]) && IsDigit(s[i + 5]) && IsDigit(s[i + 6])
    && IsDateSep(s[i + 7]) && IsDigit(s[i + 8]) && IsDigit(s[i + 9])
  }

  /** The leftmost match at or after `from`. */
  function FirstDateAt(s: string, from: nat): (r: Option<nat>)
    ensures r.Some? ==> from <= r.value && DateAt(s, r.value)
    ensures r.Some? ==> forall j :: from <= j < r.value ==> !DateAt(s, j)
    ensures r.None? ==> forall j :: from <= j ==> !DateAt(s, j)
    decreases |s| - from
  {
    if from + 10 > |s| then None
    else if DateAt(s, from) then Some(from)
    else FirstDateAt(s, from + 1)
  }

  /** `name.match(/(\d{4}[-_]\d{2}[-_]\d{2})/)`, its group with every '_' made '-'. */
  function FilenameDate(name: string): (date: Option<string>)
    ensures date.None? <==> forall j :: !DateAt(name, j)
    ensures date.Some? ==>
      && |date.value| == 10 && DateAt(date.value, 0)
      && date.value[4] == '-' && date.value[7] == '-' && '_' !in date.value
    ensures date.Some? ==> exists i: nat ::
      && DateAt(name, i)
      && (forall j :: 0 <= j < i ==> !DateAt(name, j))
      && (forall k :: 0 <= k < 10 ==> date.value[k] == if name[i + k] == '_' then '-' else name[i + k])
  {
    match FirstDateAt(name, 0)
    case None => None
    case Some(i) => Some(ReplaceAll(name[i..i + 10], '_', '-'))
  }

  /** A file name whose prefix has no digit yields the date written after it. */
  lemma FilenameDateAfter(prefix: string, date: string, rest: string)
    requires forall c :: c in prefix ==> !IsDigit(c)
    requires |date| == 10 && DateAt(date, 0) && date[4] == '-' && date[7] == '-'
    ensures FilenameDate(prefix + date + rest) == Some(date)
  {
    var s := prefix + date + rest;
    forall j: nat | j < |prefix| ensures !DateAt(s, j) {
      assert s[j] == prefix[j] && prefix[j] in prefix;
    }
    assert s[|prefix|..|prefix| + 10] == date;
    assert DateAt(s, |prefix|) by {
      forall k | 0 <= k < 10 ensures s[|prefix| + k] == date[k] { }
    }
    var r := FirstDateAt(s, 0);
    assert r == Some(|prefix|);
    var d := ReplaceAll(s[|prefix|..|prefix| + 10], '_', '-');
    assert d == date;
  }

  // -------------------------------------------------------------- creation

  /** One image of a gallery: its glob path, its bundled URL, and the EXIF tags, `None` when the image did not load in time. */
  datatype PhotoFile = PhotoFile(path: string, src: string, exif: Option<ExifTags>)

  datatype PhotoData = PhotoData(src: string, name: string, createdDate: int)

  /**
   * `createdDate`: the parsed EXIF date if the reader found one (a `Date`
   * object is truthy even when invalid), else the parsed file-name date,
   * else the time the photo started loading.
   */
  function CreatedDate(exif: Option<string>, name: string, parse: string -> int, now: int): (date: int)
    ensures exif.Some? ==> date == parse(ExifRewrite(exif.value))
    ensures exif.None? && FilenameDate(name).Some? ==> date == parse(FilenameDate(name).value)
    ensures exif.None? && (forall j :: !DateAt(name, j)) ==> date == now
  {
    if exif.Some? then parse(ExifRewrite(exif.value))
    else match FilenameDate(name)
      case Some(d) => parse(d)
      case None => now
  }

  /** The EXIF string found for a file: none when the image failed or timed out. */
  function ExifOf(f: PhotoFile): Option<string> {
    if f.exif.Some? then ExifDate(f.exif.value) else None
  }

  /** The record one file of a gallery yields. */
  function ToPhoto(f: PhotoFile, parse: string -> int, now: int): PhotoData {
    var name := PhotoName(f.path);
    PhotoData(f.src, name, CreatedDate(ExifOf(f), name, parse, now))
  }

  function PhotoDate(p: PhotoData): int {
    p.createdDate
  }

  /**
   * The records of a gallery's files, in file order. Each callback of the
   * `map` reads its own `new Date()`: `clock(i)` is the time the callback
   * of the `i`-th file read.
   */
  function Photos(files: seq<PhotoFile>, parse: string -> int, clock: nat -> int): (photos: seq<PhotoData>)
    ensures |photos| == |files|
    ensures forall i :: 0 <= i < |files| ==> photos[i] == ToPhoto(files[i], parse, clock(i))
  {
    seq(|files|, i requires 0 <= i < |files| => ToPhoto(files[i], parse, clock(i)))
  }

  /** A gallery as the page keeps it: one photo per file, newest first. */
  function Gallery(files: seq<PhotoFile>, parse: string -> int, clock: nat -> int): seq<PhotoData> {
    SortDesc(Photos(files, parse, clock), PhotoDate)
  }

  /** A gallery holds one photo per file, newest first, and equal dates keep the file order. */
  lemma GalleryOrdered(files: seq<PhotoFile>, parse: string -> int, clock: nat -> int, k: int)
    ensures var photos := Photos(files, parse, clock);
      && |Gallery(files, parse, clock)| == |files|
      && SortedDesc(Gallery(files, parse, clock), PhotoDate)
      && multiset(Gallery(files, parse, clock)) == multiset(photos)
      && WithKey(Gallery(files, parse, clock), PhotoDate, k) == WithKey(photos, PhotoDate, k)
  {
    var photos := Photos(files, parse, clock);
    SortDescSorted(photos, PhotoDate);
    SortDescPerm(photos, PhotoDate);
    SortDescStable(photos, PhotoDate, k);
    assert |multiset(Gallery(files, parse, clock))| == |multiset(photos)|;
  }

  /** An undated photo carries the time its own callback read, not one shared by the gallery. */
  lemma UndatedUsesOwnClock(files: seq<PhotoFile>, parse: string -> int, clock: nat -> int, i: nat)
    requires i < |files| && ExifOf(files[i]).None? && forall j :: !DateAt(PhotoName(files[i].path), j)
    ensures Photos(files, parse, clock)[i].createdDate == clock(i)
  {
  }

  /** `loadSportsPhotos` / `loadMiscPhotos`: the records of all files, then the in-place sort. */
  method LoadGallery(files: seq<PhotoFile>, parse: string -> int, clock: nat -> int) returns (photos: seq<PhotoData>)
    ensures photos == Gallery(files, parse, clock)
  {
    var data := Photos(files, parse, clock);
    photos := SortedCopy(data, PhotoDate);
  }

  // ------------------------------------------------------------------- tabs

  datatype Tab = Sports | Misc

  /** `currentPhotos`: the sports gallery exactly when the sports tab is active. */
  function CurrentPhotos(tab: Tab, sports: seq<PhotoData>, misc: seq<PhotoData>): (shown: seq<PhotoData>)
    ensures tab == Sports ==> shown == sports
    ensures tab != Sports ==> shown == misc
  {
    if tab == Sports then sports else misc
  }
}
