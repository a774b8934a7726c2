/**
 * The content helpers of the project page (src/components/ProjectPost.tsx):
 * resolving an image path to the bundled asset, the header thumbnail, and
 * `processContent`, which cuts a project's markdown into plain markdown
 * parts and side-by-side drawing parts. The bundler's URLs for the
 * imported assets are not known here, so the asset map is a parameter.
 */
module ProjectPost {
  import opened Wrappers
  import opened Strings
  import opened Ordering
  import opened Seqs

  const AssetPrefix := "/src/assets/"
  const DrawingStart := "DRAWING_PAIR_START"
  const DrawingEnd := "DRAWING_PAIR_END"

  // ---------------------------------------------------------------- assets

  /** The asset-map key of an image path: a leading `/src/assets/` is dropped. */
  function AssetKey(src: string): (key: string)
    ensures StartsWith(src, AssetPrefix) ==> key == src[|AssetPrefix|..]
    ensures !StartsWith(src, AssetPrefix) ==> key == src
  {
    if StartsWith(src, AssetPrefix) then
      assert OccursAt(src, AssetPrefix, 0);
      ReplaceFirst(src, AssetPrefix, "")
    else src
  }

  /** Prefixing a key with `/src/assets/` and resolving it gives the key back. */
  lemma AssetKeyRoundTrip(key: string)
    ensures AssetKey(AssetPrefix + key) == key
  {
    assert (AssetPrefix + key)[..|AssetPrefix|] == AssetPrefix;
    assert (AssetPrefix + key)[|AssetPrefix|..] == key;
  }

  /** `assetMap[assetKey] || src`: the bundled URL when there is a (non-empty) one, else the path unchanged. */
  function ResolveSrc(assetMap: map<string, string>, src: string): (url: string)
    ensures AssetKey(src) in assetMap && assetMap[AssetKey(src)] != "" ==> url == assetMap[AssetKey(src)]
    ensures AssetKey(src) !in assetMap ==> url == src
    ensures url == src || url in assetMap.Values
  {
    var key := AssetKey(src);
    if key in assetMap && assetMap[key] != "" then assetMap[key] else src
  }

  /** An image: its alternative text and its path. */
  datatype Image = Image(alt: string, src: string)

  /** `MarkdownImage`: nothing without both a source and an alternative text, else the resolved image. */
  function MarkdownImage(assetMap: map<string, string>, src: Option<string>, alt: Option<string>): (img: Option<Image>)
    ensures img.None? <==> src.None? || src.value == "" || alt.None? || alt.value == ""
    ensures img.Some? ==> img.value.alt == alt.value && img.value.src == ResolveSrc(assetMap, src.value)
  {
    if src.None? || src.value == "" || alt.None? || alt.value == "" then None
    else Some(Image(alt.value, ResolveSrc(assetMap, src.value)))
  }

  /** `DrawingPair`: every image of the pair resolved the same way, in order. */
  function DrawingPair(assetMap: map<string, string>, images: seq<Image>): (shown: seq<Image>)
    ensures |shown| == |images|
    ensures forall i :: 0 <= i < |images| ==>
      shown[i].alt == images[i].alt && shown[i].src == ResolveSrc(assetMap, images[i].src)
  {
    MapSeq(images, (img: Image) => Image(img.alt, ResolveSrc(assetMap, img.src)))
  }

  /** The header image: `assetMap[thumbnailUrl]`, else the path under `/src/assets/`; none without a thumbnail. */
  function HeaderThumbnail(assetMap: map<string, string>, thumbnail: Option<string>): (url: Option<string>)
    ensures url.None? <==> thumbnail.None? || thumbnail.value == ""
    ensures url.Some? && thumbnail.value in assetMap && assetMap[thumbnail.value] != ""
        ==> url.value == assetMap[thumbnail.value]
    ensures url.Some? && thumbnail.value !in assetMap ==> url.value == AssetPrefix + thumbnail.value
  {
    if thumbnail.None? || thumbnail.value == "" then None
    else if thumbnail.value in assetMap && assetMap[thumbnail.value] != "" then Some(assetMap[thumbnail.value])
    else Some("/src/assets/" + thumbnail.value)
  }

  /** The header resolves a thumbnail name exactly as the body resolves `/src/assets/<name>`. */
  lemma HeaderAgreesWithBody(assetMap: map<string, string>, name: string)
    requires name != ""
    ensures HeaderThumbnail(assetMap, Some(name)) == Some(ResolveSrc(assetMap, AssetPrefix + name))
  {
    AssetKeyRoundTrip(name);
  }

  // ------------------------------------------------------ image references

  /** The markdown text `![alt](src)`. */
  function Render(img: Image): string {
    "![" + img.alt + "](" + img.src + ")"
  }

  /** The images `![...](...)` can capture: no ']' in the text, no ')' in the path. */
  predicate WellFormed(img: Image) {
    ']' !in img.alt && ')' !in img.src
  }

  /**
   * A match of `/!\[([^\]]*)\]\(([^)]*)\)/` at the start of `t`, with its
   * length. The text runs to the first ']', the path to the first ')' after
   * it, so there is at most one match at a given position.
   */
  function MatchPrefix(t: string): (m: Option<(Image, nat)>)
    ensures m.Some? ==> m.value.1 == |Render(m.value.0)| <= |t| && WellFormed(m.value.0)
  {
    if |t| < 2 || t[0] != '!' || t[1] != '[' then None
    else
      var a := IndexOfChar(t[2..], ']');
      if a.None? || 3 + a.value >= |t| || t[3 + a.value] != '(' then None
      else
        var j := 2 + a.value;
        var b := IndexOfChar(t[j + 2..], ')');
        if b.None? then None
        else
          assert t[2..][..a.value] == t[2..j] && t[j + 2..][..b.value] == t[j + 2..j + 2 + b.value];
          Some((Image(t[2..j], t[j + 2..j + 2 + b.value]), j + 3 + b.value))
  }

  /** What the pattern matches is the rendering of the image it reports. */
  lemma MatchRenders(t: string)
    ensures var m := MatchPrefix(t); m.Some? ==> t[..m.value.1] == Render(m.value.0)
  {
    if MatchPrefix(t).Some? {
      var j := 2 + IndexOfChar(t[2..], ']').value;
      RenderAt(t, j, IndexOfChar(t[j + 2..], ')').value);
    }
  }

  /** Text with the brackets of an image reference at `0`, `1`, `j`, `j + 1` and `j + 2 + n` starts with the rendering of the image between them. */
  lemma RenderAt(t: string, j: nat, n: nat)
    requires 2 <= j && j + 2 + n < |t|
    requires t[0] == '!' && t[1] == '[' && t[j] == ']' && t[j + 1] == '(' && t[j + 2 + n] == ')'
    ensures t[..j + 3 + n] == Render(Image(t[2..j], t[j + 2..j + 2 + n]))
  {
    var alt, src := t[2..j], t[j + 2..j + 2 + n];
    assert t[..j + 3 + n] == t[..2] + alt + t[j..j + 2] + src + t[j + 2 + n..j + 3 + n];
    assert t[..2] == "![" && t[j..j + 2] == "](" && t[j + 2 + n..j + 3 + n] == ")";
  }

  /** Text with the brackets at `0`, `1`, `j`, `j + 1` and `j + 2 + n`, and none of the closing ones in between, is matched up to its first ')'. */
  lemma MatchAt(t: string, j: nat, n: nat)
    requires 2 <= j && j + 2 + n < |t|
    requires t[0] == '!' && t[1] == '[' && t[j] == ']' && t[j + 1] == '(' && t[j + 2 + n] == ')'
    requires ']' !in t[2..j] && ')' !in t[j + 2..j + 2 + n]
    ensures MatchPrefix(t) == Some((Image(t[2..j], t[j + 2..j + 2 + n]), j + 3 + n))
  {
    var u, v := t[2..], t[j + 2..];
    assert u[..j - 2] == t[2..j] && u[j - 2] == ']';
    IndexOfCharAt(u, ']', j - 2);
    assert v[..n] == t[j + 2..j + 2 + n] && v[n] == ')';
    IndexOfCharAt(v, ')', n);
    assert IndexOfChar(u, ']') == Some(j - 2) && IndexOfChar(v, ')') == Some(n);
  }

  /** A well-formed image is matched exactly, whatever follows it. */
  lemma MatchRendered(img: Image, rest: string)
    requires WellFormed(img)
    ensures MatchPrefix(Render(img) + rest) == Some((img, |Render(img)|))
  {
    var t := Render(img) + rest;
    var j := 2 + |img.alt|;
    RenderedLayout(img, rest);
    MatchAt(t, j, |img.src|);
  }

  /** Where the brackets of a rendered image sit. */
  lemma RenderedLayout(img: Image, rest: string)
    requires WellFormed(img)
    ensures var t := Render(img) + rest; var j := 2 + |img.alt|;
      && |t| > j + 2 + |img.src|
      && t[0] == '!' && t[1] == '[' && t[j] == ']' && t[j + 1] == '(' && t[j + 2 + |img.src|] == ')'
      && t[2..][..|img.alt|] == img.alt && ']' !in t[2..][..|img.alt|]
      && t[2..][|img.alt|] == ']'
      && t[j + 2..][..|img.src|] == img.src && ')' !in t[j + 2..][..|img.src|]
      && t[j + 2..][|img.src|] == ')'
      && t[2..j] == img.alt && t[j + 2..j + 2 + |img.src|] == img.src
  {
    var t := Render(img) + rest;
    assert t == "![" + img.alt + "](" + img.src + ")" + rest;
  }

  lemma IndexOfCharAt(s: string, c: char, k: nat)
    requires k < |s| && s[k] == c && c !in s[..k]
    ensures IndexOfChar(s, c) == Some(k)
  {
    assert s[k] in s;
    forall j | 0 <= j < k ensures s[j] != c {
      assert s[j] == s[..k][j];
    }
  }

  /** `text.match(/!\[([^\]]*)\]\(([^)]*)\)/g)`, each match taken apart again: the images, left to right. */
  function Scan(t: string): (images: seq<Image>)
    ensures forall img :: img in images ==> WellFormed(img)
    decreases |t|
  {
    if t == [] then []
    else match MatchPrefix(t)
      case Some((img, n)) => [img] + Scan(t[n..])
      case None => Scan(t[1..])
  }

  /** The rendered images, one after another. */
  function RenderAll(images: seq<Image>): string {
    if images == [] then "" else Render(images[0]) + RenderAll(images[1..])
  }

  /** Scanning rendered well-formed images gives them back. */
  lemma {:induction false} ScanRendered(images: seq<Image>)
    requires forall img :: img in images ==> WellFormed(img)
    ensures Scan(RenderAll(images)) == images
    decreases |images|
  {
    if images != [] {
      var r := Render(images[0]);
      var rest := RenderAll(images[1..]);
      assert RenderAll(images) == r + rest;
      MatchRendered(images[0], rest);
      assert (r + rest)[|r|..] == rest;
      assert Scan(r + rest) == [images[0]] + Scan(rest);
      assert forall img :: img in images[1..] ==> img in images;
      ScanRendered(images[1..]);
      assert [images[0]] + images[1..] == images;
    }
  }

  /** Text without '!' in front of a reference contributes no image. */
  lemma {:induction false} ScanSkipsPlain(text: string, t: string)
    requires '!' !in text
    ensures Scan(text + t) == Scan(t)
    decreases |text|
  {
    if text != [] {
      var u := text + t;
      assert u[0] == text[0] && u[0] in text;
      assert MatchPrefix(u).None?;
      assert Scan(u) == Scan(u[1..]);
      assert u[1..] == text[1..] + t;
      ScanSkipsPlain(text[1..], t);
    } else {
      assert text + t == t;
    }
  }

  /** `.filter(img => img.src && img.alt)`. */
  function KeepComplete(images: seq<Image>): (kept: seq<Image>)
    ensures |kept| <= |images|
    ensures forall img :: img in kept <==> img in images && img.alt != "" && img.src != ""
  {
    if images == [] then []
    else (if images[0].alt != "" && images[0].src != "" then [images[0]] else []) + KeepComplete(images[1..])
  }

  /** The images of a drawing section, with the incomplete ones dropped. */
  function DrawingImages(drawing: string): (images: seq<Image>)
    ensures forall img :: img in images ==> WellFormed(img) && img.alt != "" && img.src != ""
  {
    KeepComplete(Scan(drawing))
  }

  /** `.filter` keeps the order: filtering a concatenation filters each part in turn. */
  lemma {:induction false} KeepCompleteAppend(xs: seq<Image>, ys: seq<Image>)
    ensures KeepComplete(xs + ys) == KeepComplete(xs) + KeepComplete(ys)
    decreases |xs|
  {
    if xs != [] {
      assert (xs + ys)[0] == xs[0] && (xs + ys)[1..] == xs[1..] + ys;
      KeepCompleteAppend(xs[1..], ys);
      var head := if xs[0].alt != "" && xs[0].src != "" then [xs[0]] else [];
      AppendAssoc(head, KeepComplete(xs[1..]), KeepComplete(ys));
    } else {
      assert xs + ys == ys;
    }
  }

  /** Images that all have a text and a source are kept as they are, duplicates and order included. */
  lemma {:induction false} KeepCompleteAll(images: seq<Image>)
    requires forall img :: img in images ==> img.alt != "" && img.src != ""
    ensures KeepComplete(images) == images
    decreases |images|
  {
    if images != [] {
      assert images[0] in images;
      assert forall img :: img in images[1..] ==> img in images;
      KeepCompleteAll(images[1..]);
      assert [images[0]] + images[1..] == images;
    }
  }

  /** The drawing of rendered complete images holds those images, in the order they are written. */
  lemma DrawingRoundTrip(images: seq<Image>)
    requires forall img :: img in images ==> WellFormed(img) && img.alt != "" && img.src != ""
    ensures DrawingImages(RenderAll(images)) == images
  {
    ScanRendered(images);
    KeepCompleteAll(images);
  }

  // ---------------------------------------------------------------- parts

  /** One rendered block of the page. */
  datatype Part = Markdown(text: string) | Drawing(images: seq<Image>)

  /**
   * The parts one `DRAWING_PAIR_START` section yields: a drawing of the
   * complete images before its first END, then the text after that END
   * unless it is blank.
   */
  function SectionParts(section: string): seq<Part> {
    var images := DrawingImages(Before(section, DrawingEnd));
    var remaining := After(section, DrawingEnd);
    (if images != [] then [Drawing(images)] else [])
      + (if !Blank(remaining) then [Markdown(remaining)] else [])
  }

  /** The parts of the sections in order. */
  function SectionsParts(sections: seq<string>): seq<Part> {
    FlatMap(sections, SectionParts)
  }

  /** What `processContent` returns: the leading text, then the parts of every later section. */
  function ContentParts(content: string): seq<Part> {
    var sections := Split(content, DrawingStart);
    (if sections[0] != "" then [Markdown(sections[0])] else []) + SectionsParts(sections[1..])
  }

  /** `processContent`: the leading part, then a loop over the sections pushing each one's parts. */
  method ProcessContent(content: string) returns (parts: seq<Part>)
    ensures parts == ContentParts(content)
  {
    var sections := Split(content, DrawingStart);
    parts := [];
    if sections[0] != "" {
      AppendNil([Markdown(sections[0])]);
      parts := parts + [Markdown(sections[0])];
    }
    parts := PushSections(parts, sections[1..]);
  }

  /** The `forEach` over `sections.slice(1)`. */
  method PushSections(lead: seq<Part>, rest: seq<string>) returns (parts: seq<Part>)
    ensures parts == lead + SectionsParts(rest)
  {
    parts := lead;
    var i := 0;
    while i < |rest|
      invariant 0 <= i <= |rest|
      invariant parts == lead + SectionsParts(rest[..i])
    {
      FlatMapStep(rest, SectionParts, i);
      AppendAssoc(lead, SectionsParts(rest[..i]), SectionParts(rest[i]));
      parts := PushSection(parts, rest[i]);
      i := i + 1;
    }
    assert rest[..i] == rest;
  }

  /** The `forEach` callback of `processContent`: pushes one section's drawing, then its remaining text. */
  method PushSection(before: seq<Part>, section: string) returns (parts: seq<Part>)
    ensures parts == before + SectionParts(section)
  {
    var pieces := Split(section, DrawingEnd);
    var images := DrawingImages(pieces[0]);
    var remaining := Join(pieces[1..], DrawingEnd);
    SectionPartsOfPieces(section, images, remaining);
    ghost var drawing := if |images| > 0 then [Drawing(images)] else [];
    ghost var text := if Trim(remaining) != [] then [Markdown(remaining)] else [];
    AppendNil(before);
    parts := before;
    if |images| > 0 {
      parts := parts + [Drawing(images)];
    }
    assert parts == before + drawing;
    AppendNil(parts);
    var trimmed := Trim(remaining);
    if trimmed != [] {
      parts := parts + [Markdown(remaining)];
    }
    assert parts == before + drawing + text;
    AppendAssoc(before, drawing, text);
  }

  /** The parts of a section, in the terms the callback computes them: the split pieces, the rejoined rest and its trim. */
  lemma SectionPartsOfPieces(section: string, images: seq<Image>, remaining: string)
    requires images == DrawingImages(Split(section, DrawingEnd)[0])
    requires remaining == Join(Split(section, DrawingEnd)[1..], DrawingEnd)
    ensures SectionParts(section)
         == (if |images| > 0 then [Drawing(images)] else []) + (if Trim(remaining) != [] then [Markdown(remaining)] else [])
  {
    SplitFirstRest(section, DrawingEnd);
  }

  // ------------------------------------------------------------ properties

  /** A section yields at most a drawing and a text part, and only a drawing with images in it. */
  lemma SectionShape(section: string)
    ensures |SectionParts(section)| <= 2
    ensures forall p :: p in SectionParts(section) && p.Drawing? ==> p.images != []
  {
  }

  /** There are at most two parts per START marker, plus the leading one. */
  lemma {:induction false} SectionsBound(sections: seq<string>)
    ensures |SectionsParts(sections)| <= 2 * |sections|
    decreases |sections|
  {
    if sections != [] {
      SectionsBound(sections[..|sections| - 1]);
      SectionShape(sections[|sections| - 1]);
    }
  }

  lemma PartsBound(content: string)
    ensures |ContentParts(content)| <= 1 + 2 * (|Split(content, DrawingStart)| - 1)
  {
    var sections := Split(content, DrawingStart);
    SectionsBound(sections[1..]);
  }

  /** The leading part is the text before the first START, present exactly when that text is not empty (blank text included). */
  lemma LeadingPart(content: string)
    ensures var sections := Split(content, DrawingStart);
      sections[0] != "" ==> ContentParts(content)[0] == Markdown(sections[0])
    ensures var sections := Split(content, DrawingStart);
      sections[0] == "" ==> ContentParts(content) == SectionsParts(sections[1..])
  {
  }

  /** A section without an END marker yields no text part. */
  lemma NoEndNoText(section: string)
    requires !Contains(section, DrawingEnd)
    ensures forall p :: p in SectionParts(section) ==> p.Drawing?
  {
    assert After(section, DrawingEnd) == "";
  }

  /** A section's text part is what follows its first END, later END markers included. */
  lemma TextAfterFirstEnd(section: string)
    ensures forall p :: p in SectionParts(section) && p.Markdown? ==>
      exists head :: section == head + DrawingEnd + p.text && !Contains(head, DrawingEnd)
  {
    var r := IndexOf(section, DrawingEnd);
    if r.Some? {
      var k := r.value;
      var head := section[..k];
      assert section == head + DrawingEnd + After(section, DrawingEnd);
      if Contains(head, DrawingEnd) {
        OccursInPrefix(section, k, DrawingEnd, IndexOf(head, DrawingEnd).value);
        assert false;
      }
    } else {
      assert Blank(After(section, DrawingEnd));
    }
  }

  /** Every drawing has at least one image, and each has a text and a path. */
  lemma {:induction false} DrawingsComplete(sections: seq<string>)
    ensures forall p :: p in SectionsParts(sections) && p.Drawing? ==>
      p.images != [] && forall img :: img in p.images ==> WellFormed(img) && img.alt != "" && img.src != ""
    decreases |sections|
  {
    if sections != [] {
      DrawingsComplete(sections[..|sections| - 1]);
    }
  }

  /** No markdown part holds a START marker: every marker has been consumed by the split. */
  lemma {:induction false} MarkdownFreeOfStart(content: string)
    ensures forall p :: p in ContentParts(content) && p.Markdown? ==> !Contains(p.text, DrawingStart)
  {
    var sections := Split(content, DrawingStart);
    SplitPiecesFree(content, DrawingStart);
    SectionsFreeOfStart(sections[1..]);
    assert sections[0] in sections;
  }

  lemma {:induction false} SectionsFreeOfStart(sections: seq<string>)
    requires forall s :: s in sections ==> !Contains(s, DrawingStart)
    ensures forall p :: p in SectionsParts(sections) && p.Markdown? ==> !Contains(p.text, DrawingStart)
    decreases |sections|
  {
    if sections != [] {
      var last := sections[|sections| - 1];
      SectionsFreeOfStart(sections[..|sections| - 1]);
      assert last in sections;
      TextAfterFirstEnd(last);
      forall p | p in SectionParts(last) && p.Markdown? ensures !Contains(p.text, DrawingStart) {
        var head :| last == head + DrawingEnd + p.text && !Contains(head, DrawingEnd);
        assert last == head + DrawingEnd + p.text + "";
        NotContainsPart(head + DrawingEnd, p.text, "", DrawingStart);
      }
    }
  }
}
