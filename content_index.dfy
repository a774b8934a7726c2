/**
 * What the blog index (src/utils/blog.ts) and the project index
 * (src/utils/projects.ts) derive in the same way from a markdown file:
 * the reading time of its body and the slug of its path. The two source
 * files carry identical copies of this code; it is defined once here.
 */
module ContentIndex {
  import opened Wrappers
  import opened Strings

  const WordsPerMinute: nat := 200

  /** The number of pieces `content.trim().split(/\s+/)` yields. */
  function WordCount(content: string): (n: nat)
    ensures n >= 1
  {
    |SplitWs(Trim(content))|
  }

  /** `calculateReadTime`: `Math.ceil(words / 200)`. */
  function ReadTime(content: string): (minutes: nat)
    ensures minutes >= 1
    ensures WordsPerMinute * (minutes - 1) < WordCount(content) <= WordsPerMinute * minutes
  {
    (WordCount(content) + WordsPerMinute - 1) / WordsPerMinute
  }

  /** An empty or all-blank body still counts one word, so it reads in one minute. */
  lemma BlankReadsInOneMinute(content: string)
    requires Blank(content)
    ensures WordCount(content) == 1 && ReadTime(content) == 1
  {
    assert Trim(content) == [];
    assert FirstSpace([], 0).None?;
  }

  /** Non-empty words free of white space, joined by single spaces, count as exactly that many words. */
  lemma {:induction false} WordCountOfWords(words: seq<string>)
    requires |words| >= 1
    requires forall k :: 0 <= k < |words| ==> words[k] != [] && NoSpace(words[k])
    ensures WordCount(Join(words, " ")) == |words|
  {
    var s := Join(words, " ");
    JoinStartsWith(words);
    JoinEndsWith(words);
    TrimTrimmed(s);
    SplitWsJoin(words);
  }

  lemma {:induction false} JoinEndsWith(words: seq<string>)
    requires |words| >= 1 && words[|words| - 1] != []
    ensures var s := Join(words, " ");
      |s| > 0 && s[|s| - 1] == words[|words| - 1][|words[|words| - 1]| - 1]
    decreases |words|
  {
    if |words| > 1 {
      JoinEndsWith(words[1..]);
    }
  }

  /** `path.split('/').pop()?.replace('.md', '') || ''`. */
  function SlugOf(path: string): string {
    ReplaceFirst(LastSegment(path), ".md", "")
  }

  /** A slug never contains '/'. */
  lemma SlugHasNoSlash(path: string)
    ensures '/' !in SlugOf(path)
  {
    var seg := LastSegment(path);
    LastSegmentIsSuffix(path);
    match IndexOf(seg, ".md")
    case None =>
    case Some(k) =>
      assert SlugOf(path) == seg[..k] + seg[k + 3..];
      assert forall c :: c in seg[..k] ==> c in seg;
      assert forall c :: c in seg[k + 3..] ==> c in seg;
  }

  /** The slug of `<dir>/<name>.md` is `name`, for a name without '/' and without ".md". */
  lemma SlugOfMarkdownFile(dir: string, name: string)
    requires '/' !in name && !Contains(name, ".md")
    ensures SlugOf(dir + "/" + name + ".md") == name
  {
    var file := name + ".md";
    assert dir + "/" + name + ".md" == dir + "/" + file;
    assert '/' !in file by {
      forall i | 0 <= i < |file| ensures file[i] != '/' {
        if i < |name| { assert file[i] == name[i]; }
      }
    }
    LastSegmentOf(dir, file);
    MdFirstAt(name);
  }

  /** The first ".md" in `name + ".md"` is the appended one when `name` has none. */
  lemma MdFirstAt(name: string)
    requires !Contains(name, ".md")
    ensures ReplaceFirst(name + ".md", ".md", "") == name
  {
    var s := name + ".md";
    forall j: nat | j < |name| ensures !OccursAt(s, ".md", j) {
      if j + 3 <= |name| {
        if OccursAt(s, ".md", j) {
          assert s[j..j + 3] == name[j..j + 3];
          ContainsIff(name, ".md");
          assert OccursAt(name, ".md", j);
          assert false;
        }
      } else if j + 1 == |name| {
        assert s[j + 1] == '.';
      } else {
        assert s[j + 2] == '.';
      }
    }
    assert OccursAt(s, ".md", |name|);
    assert IndexOf(s, ".md") == Some(|name|);
    assert s[..|name|] == name;
  }
}
