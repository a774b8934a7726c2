/**
 * The few JavaScript string operations the site's helpers are built from,
 * with the semantics of the ECMAScript built-ins they stand for:
 * `indexOf`/`includes`, `split` and `join` with a string separator,
 * `replace` with a string pattern (first occurrence only), `trim`, and
 * `split(/\s+/)`.
 */
module Strings {
  import opened Wrappers

  /** `pat` occurs in `s` at index `i`. */
  predicate OccursAt(s: string, pat: string, i: nat) {
    i + |pat| <= |s| && s[i..i + |pat|] == pat
  }

  /** `s.indexOf(pat, from)`: the first occurrence of `pat` at or after `from`. */
  function IndexFrom(s: string, pat: string, from: nat): (r: Option<nat>)
    decreases |s| - from
    ensures r.Some? ==> from <= r.value && OccursAt(s, pat, r.value)
    ensures r.Some? ==> forall j :: from <= j < r.value ==> !OccursAt(s, pat, j)
    ensures r.None? ==> forall j :: from <= j ==> !OccursAt(s, pat, j)
  {
    if from + |pat| > |s| then None
    else if s[from..from + |pat|] == pat then Some(from)
    else IndexFrom(s, pat, from + 1)
  }

  /** `s.indexOf(pat)`, with `-1` as `None`. */
  function IndexOf(s: string, pat: string): Option<nat> {
    IndexFrom(s, pat, 0)
  }

  /** `s.includes(pat)`. */
  predicate Contains(s: string, pat: string) {
    IndexOf(s, pat).Some?
  }

  lemma ContainsIff(s: string, pat: string)
    ensures Contains(s, pat) <==> exists i :: OccursAt(s, pat, i)
  {
  }

  /** An occurrence inside a prefix, or inside a later part, is an occurrence in the whole. */
  lemma OccursInPart(a: string, b: string, c: string, pat: string, i: nat)
    requires OccursAt(b, pat, i)
    ensures OccursAt(a + b + c, pat, |a| + i)
  {
    assert (a + b + c)[|a| + i..|a| + i + |pat|] == b[i..i + |pat|];
  }

  lemma OccursInPrefix(s: string, k: nat, pat: string, i: nat)
    requires k <= |s| && OccursAt(s[..k], pat, i)
    ensures OccursAt(s, pat, i)
  {
    assert s[..k][i..i + |pat|] == s[i..i + |pat|];
  }

  /** A string that does not contain `pat` has no piece that does. */
  lemma NotContainsPart(a: string, b: string, c: string, pat: string)
    requires !Contains(a + b + c, pat)
    ensures !Contains(b, pat)
  {
    if Contains(b, pat) {
      var i := IndexOf(b, pat).value;
      OccursInPart(a, b, c, pat, i);
      ContainsIff(a + b + c, pat);
    }
  }

  lemma ContainsChar(s: string, c: char)
    ensures Contains(s, [c]) <==> c in s
  {
    if c in s {
      var i :| 0 <= i < |s| && s[i] == c;
      assert OccursAt(s, [c], i);
      ContainsIff(s, [c]);
    }
    if Contains(s, [c]) {
      var i := IndexOf(s, [c]).value;
      assert s[i..i + 1] == [c];
      assert s[i] == c;
    }
  }

  /** `s.startsWith(p)`. */
  predicate StartsWith(s: string, p: string) {
    |p| <= |s| && s[..|p|] == p
  }

  /** `s.indexOf(c)` for a single character. */
  function IndexOfChar(s: string, c: char): (r: Option<nat>)
    ensures r.Some? ==> r.value < |s| && s[r.value] == c && c !in s[..r.value]
    ensures r.None? ==> c !in s
  {
    if s == [] then None
    else if s[0] == c then Some(0)
    else match IndexOfChar(s[1..], c)
      case None => None
      case Some(i) => Some(i + 1)
  }

  /** `s.split(sep)` for a non-empty string separator. */
  function Split(s: string, sep: string): (parts: seq<string>)
    requires sep != []
    decreases |s|
    ensures |parts| >= 1
  {
    match IndexOf(s, sep)
    case None => [s]
    case Some(k) => [s[..k]] + Split(s[k + |sep|..], sep)
  }

  /** `parts.join(sep)`. */
  function Join(parts: seq<string>, sep: string): string {
    if |parts| == 0 then ""
    else if |parts| == 1 then parts[0]
    else parts[0] + sep + Join(parts[1..], sep)
  }

  /** Splitting and joining again with the same separator gives the string back. */
  lemma {:induction false} JoinSplit(s: string, sep: string)
    requires sep != []
    ensures Join(Split(s, sep), sep) == s
    decreases |s|
  {
    var r := IndexOf(s, sep);
    if r.Some? {
      var k := r.value;
      var rest := s[k + |sep|..];
      var tail := Split(rest, sep);
      JoinSplit(rest, sep);
      assert Split(s, sep) == [s[..k]] + tail;
      assert ([s[..k]] + tail)[1..] == tail;
      assert Join([s[..k]] + tail, sep) == s[..k] + sep + Join(tail, sep);
      assert s == s[..k] + s[k..k + |sep|] + rest;
    }
  }

  /** No piece produced by `split` contains the separator. */
  lemma {:induction false} SplitPiecesFree(s: string, sep: string)
    requires sep != []
    ensures forall p :: p in Split(s, sep) ==> !Contains(p, sep)
    decreases |s|
  {
    var r := IndexOf(s, sep);
    if r.Some? {
      var k := r.value;
      var head := s[..k];
      var tail := Split(s[k + |sep|..], sep);
      if Contains(head, sep) {
        var j := IndexOf(head, sep).value;
        OccursInPrefix(s, k, sep, j);
        assert false;
      }
      SplitPiecesFree(s[k + |sep|..], sep);
      assert Split(s, sep) == [head] + tail;
    }
  }

  /** The text before the first `sep` (all of `s` when there is none). */
  function Before(s: string, sep: string): string {
    match IndexOf(s, sep)
    case None => s
    case Some(k) => s[..k]
  }

  /** The text after the first `sep`, later occurrences included (empty when there is none). */
  function After(s: string, sep: string): string {
    match IndexOf(s, sep)
    case None => ""
    case Some(k) => s[k + |sep|..]
  }

  /** `s.split(sep)` taken apart as `[first, ...rest]`: `first` is what precedes the first `sep`, and `rest.join(sep)` what follows it. */
  lemma SplitFirstRest(s: string, sep: string)
    requires sep != []
    ensures Split(s, sep)[0] == Before(s, sep)
    ensures Join(Split(s, sep)[1..], sep) == After(s, sep)
  {
    match IndexOf(s, sep)
    case None =>
      assert Split(s, sep) == [s];
    case Some(k) =>
      SplitRest(s, sep, k);
  }

  lemma SplitRest(s: string, sep: string, k: nat)
    requires sep != [] && IndexOf(s, sep) == Some(k)
    ensures Split(s, sep)[0] == s[..k]
    ensures Join(Split(s, sep)[1..], sep) == s[k + |sep|..]
  {
    var rest := s[k + |sep|..];
    SplitCons(s, sep, k);
    JoinSplit(rest, sep);
    assert ([s[..k]] + Split(rest, sep))[1..] == Split(rest, sep);
  }

  /** Where the first separator is at `k`, the pieces are the text before it and the pieces of the rest. */
  lemma SplitCons(s: string, sep: string, k: nat)
    requires sep != [] && IndexOf(s, sep) == Some(k)
    ensures Split(s, sep) == [s[..k]] + Split(s[k + |sep|..], sep)
  {
  }

  /** `path.split('/').pop()`: the last '/'-separated segment. */
  function LastSegment(path: string): string {
    var parts := Split(path, "/");
    parts[|parts| - 1]
  }

  /** The last segment is the suffix of `path` after its last '/'. */
  lemma LastSegmentIsSuffix(path: string)
    ensures var r := LastSegment(path);
      && |r| <= |path| && path[|path| - |r|..] == r
      && '/' !in r
      && (|r| < |path| ==> path[|path| - |r| - 1] == '/')
  {
    LastSegmentNoSlash(path);
    LastSegmentSuffix(path);
  }

  lemma LastSegmentNoSlash(path: string)
    ensures '/' !in LastSegment(path)
  {
    var parts := Split(path, "/");
    SplitPiecesFree(path, "/");
    assert parts[|parts| - 1] in parts;
    ContainsChar(LastSegment(path), '/');
  }

  lemma {:induction false} LastSegmentSuffix(path: string)
    ensures var r := LastSegment(path);
      && |r| <= |path| && path[|path| - |r|..] == r
      && (|r| < |path| ==> path[|path| - |r| - 1] == '/')
    decreases |path|
  {
    var r := LastSegment(path);
    match IndexOf(path, "/")
    case None =>
      LastSegmentWhole(path);
    case Some(k) =>
      var rest := path[k + 1..];
      LastSegmentAfter(path, k);
      LastSegmentSuffix(rest);
      assert path[|path| - |r|..] == rest[|rest| - |r|..];
      if |r| < |rest| {
        assert path[|path| - |r| - 1] == rest[|rest| - |r| - 1];
      }
  }

  lemma LastSegmentWhole(path: string)
    requires IndexOf(path, "/").None?
    ensures LastSegment(path) == path
  {
    assert Split(path, "/") == [path];
  }

  lemma LastSegmentAfter(path: string, k: nat)
    requires IndexOf(path, "/") == Some(k)
    ensures k < |path| && path[k] == '/'
    ensures LastSegment(path) == LastSegment(path[k + 1..])
  {
    SplitCons(path, "/", k);
    assert path[k..k + 1] == "/";
    assert path[k] == path[k..k + 1][0];
  }

  /** The last segment of `dir/file` is `file` when `file` has no '/'. */
  lemma LastSegmentOf(dir: string, file: string)
    requires '/' !in file
    ensures LastSegment(dir + "/" + file) == file
  {
    var path := dir + "/" + file;
    var r := LastSegment(path);
    LastSegmentIsSuffix(path);
    assert path[|dir|] == '/';
    forall j | |dir| < j < |path| ensures path[j] != '/' {
      assert path[j] == file[j - |dir| - 1];
    }
    forall j | |path| - |r| <= j < |path| ensures path[j] != '/' {
      assert path[j] == r[j - (|path| - |r|)];
    }
    if |r| != |file| {
      assert false;
    }
  }

  /** The text before the first `c` in `a + [c] + b`, for `a` without `c`, is `a`. */
  lemma BeforeFirstChar(a: string, c: char, b: string)
    requires c !in a
    ensures Before(a + [c] + b, [c]) == a
  {
    var s := a + [c] + b;
    assert OccursAt(s, [c], |a|);
    forall j: nat | j < |a| ensures !OccursAt(s, [c], j) {
      assert s[j..j + 1] == [a[j]];
    }
    var r := IndexOf(s, [c]);
    assert r == Some(|a|);
    assert s[..|a|] == a;
  }

  /** `s.replace(pat, rep)` with a string pattern: only the first occurrence is replaced. */
  function ReplaceFirst(s: string, pat: string, rep: string): string {
    match IndexOf(s, pat)
    case None => s
    case Some(k) => s[..k] + rep + s[k + |pat|..]
  }

  /** `s.replace(/c/g, d)` for a single character `c`. */
  function ReplaceAll(s: string, c: char, d: char): string {
    seq(|s|, i requires 0 <= i < |s| => if s[i] == c then d else s[i])
  }

  /** Both of `trim`'s classes, ECMAScript WhiteSpace and LineTerminator (also `\s` in a regex). */
  predicate IsSpace(c: char) {
    || c == '\t' || c == '\n' || c == '\U{000B}' || c == '\U{000C}' || c == '\r' || c == ' '
    || c == '\U{00A0}' || c == '\U{1680}' || ('\U{2000}' <= c <= '\U{200A}')
    || c == '\U{2028}' || c == '\U{2029}' || c == '\U{202F}' || c == '\U{205F}'
    || c == '\U{3000}' || c == '\U{FEFF}'
  }

  /** Every character is white space (so `s.trim()` is falsy). */
  predicate Blank(s: string) {
    forall i :: 0 <= i < |s| ==> IsSpace(s[i])
  }

  /** No character is white space. */
  predicate NoSpace(s: string) {
    forall i :: 0 <= i < |s| ==> !IsSpace(s[i])
  }

  function TrimStart(s: string): (r: string)
    ensures |r| <= |s| && r == s[|s| - |r|..]
    ensures forall i :: 0 <= i < |s| - |r| ==> IsSpace(s[i])
    ensures r != [] ==> !IsSpace(r[0])
  {
    if |s| > 0 && IsSpace(s[0]) then TrimStart(s[1..]) else s
  }

  function TrimEnd(s: string): (r: string)
    ensures |r| <= |s| && r == s[..|r|]
    ensures forall i :: |r| <= i < |s| ==> IsSpace(s[i])
    ensures r != [] ==> !IsSpace(r[|r| - 1])
  {
    if |s| > 0 && IsSpace(s[|s| - 1]) then TrimEnd(s[..|s| - 1]) else s
  }

  /** `s.trim()`. */
  function Trim(s: string): (r: string)
    ensures r == [] <==> Blank(s)
    ensures r != [] ==> !IsSpace(r[0]) && !IsSpace(r[|r| - 1])
    ensures exists i, j :: 0 <= i <= j <= |s| && r == s[i..j] && Blank(s[..i]) && Blank(s[j..])
  {
    var t := TrimStart(s);
    var r := TrimEnd(t);
    assert Blank(s) ==> t == [] by {
      if t != [] { assert t[0] == s[|s| - |t|]; }
    }
    TrimSlice(s, t, r);
    r
  }

  /**
   * A string cut from the end of `s` past leading white space, then from its own start
   * before trailing white space, is a slice of `s` with only white space around it.
   */
  lemma TrimSlice(s: string, t: string, r: string)
    requires |t| <= |s| && t == s[|s| - |t|..]
    requires forall k :: 0 <= k < |s| - |t| ==> IsSpace(s[k])
    requires |r| <= |t| && r == t[..|r|]
    requires forall k :: |r| <= k < |t| ==> IsSpace(t[k])
    ensures exists i, j :: 0 <= i <= j <= |s| && r == s[i..j] && Blank(s[..i]) && Blank(s[j..])
  {
    var i := |s| - |t|;
    var j := i + |r|;
    assert r == s[i..j];
    assert Blank(s[..i]) by {
      forall k | 0 <= k < i ensures IsSpace(s[..i][k]) {
        assert s[..i][k] == s[k];
      }
    }
    assert Blank(s[j..]) by {
      forall k | 0 <= k < |s| - j ensures IsSpace(s[j..][k]) {
        assert s[j..][k] == t[|r| + k];
      }
    }
  }

  /** A string that neither starts nor ends with white space is its own trim. */
  lemma TrimTrimmed(s: string)
    requires s != [] && !IsSpace(s[0]) && !IsSpace(s[|s| - 1])
    ensures Trim(s) == s
  {
    var t := TrimStart(s);
    var r := TrimEnd(t);
  }

  /** The first white-space character at or after `i`. */
  function FirstSpace(s: string, i: nat): (r: Option<nat>)
    decreases |s| - i
    ensures r.Some? ==> i <= r.value < |s| && IsSpace(s[r.value])
    ensures r.Some? ==> forall j :: i <= j < r.value ==> !IsSpace(s[j])
    ensures r.None? ==> forall j :: i <= j < |s| ==> !IsSpace(s[j])
  {
    if i >= |s| then None
    else if IsSpace(s[i]) then Some(i)
    else FirstSpace(s, i + 1)
  }

  /** The end of the run of white space that starts at `i` (what a greedy `\s+` consumes). */
  function RunEnd(s: string, i: nat): (r: nat)
    requires i <= |s|
    decreases |s| - i
    ensures i <= r <= |s|
    ensures forall j :: i <= j < r ==> IsSpace(s[j])
    ensures r == |s| || !IsSpace(s[r])
  {
    if i < |s| && IsSpace(s[i]) then RunEnd(s, i + 1) else i
  }

  /** `s.split(/\s+/)`. */
  function SplitWs(s: string): (parts: seq<string>)
    decreases |s|
    ensures |parts| >= 1
  {
    match FirstSpace(s, 0)
    case None => [s]
    case Some(i) => [s[..i]] + SplitWs(s[RunEnd(s, i)..])
  }

  /**
   * Splitting a string that neither starts nor ends with white space gives
   * non-empty pieces free of white space: its words.
   */
  lemma {:induction false} SplitWsWords(s: string)
    requires s != [] && !IsSpace(s[0]) && !IsSpace(s[|s| - 1])
    ensures forall p :: p in SplitWs(s) ==> p != [] && NoSpace(p)
    decreases |s|
  {
    match FirstSpace(s, 0)
    case None =>
    case Some(i) =>
      var j := RunEnd(s, i);
      assert j < |s|;
      SplitWsWords(s[j..]);
  }

  /** Joining words with single spaces and splitting on white-space runs gives the words back. */
  lemma {:induction false} SplitWsJoin(words: seq<string>)
    requires |words| >= 1
    requires forall k :: 0 <= k < |words| ==> words[k] != [] && NoSpace(words[k])
    ensures SplitWs(Join(words, " ")) == words
    decreases |words|
  {
    var w := words[0];
    if |words| == 1 {
      assert FirstSpace(w, 0).None?;
    } else {
      var rest := Join(words[1..], " ");
      JoinStartsWith(words[1..]);
      var s := w + " " + rest;
      assert s[|w|] == ' ';
      assert forall j :: 0 <= j < |w| ==> s[j] == w[j];
      assert FirstSpace(s, 0) == Some(|w|);
      assert RunEnd(s, |w| + 1) == |w| + 1 by { assert s[|w| + 1] == rest[0]; }
      assert RunEnd(s, |w|) == |w| + 1;
      assert s[..|w|] == w;
      assert s[|w| + 1..] == rest;
      SplitWsJoin(words[1..]);
    }
  }

  lemma {:induction false} JoinStartsWith(words: seq<string>)
    requires |words| >= 1 && words[0] != []
    ensures |Join(words, " ")| > 0 && Join(words, " ")[0] == words[0][0]
  {
  }
}
