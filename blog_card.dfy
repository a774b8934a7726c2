/**
 * The lookups of the blog card (src/components/BlogCard.tsx): which
 * thumbnail a post shows, where the image is anchored, and which tags
 * are listed. The bundler's URLs for the imported images are not known
 * here, so the thumbnail map is a parameter.
 */
module BlogCard {
  import opened Wrappers
  import Blog

  const WriteupThumbnail := "/default-writeup.png"
  const ReflectionThumbnail := "/default-reflection.png"
  const CenterCenter := "center center"
  const MaxShownTags: nat := 3

  /** The custom object positions: horizontal, then vertical. */
  const PositionMap: map<string, string> := map[
    "ChinaBlogPic.jpg" := "center 30%",
    "InternshipBlogPic.jpg" := "center 42%"]

  /** The placeholder for a post of `category`. */
  function DefaultThumbnail(category: string): (url: string)
    ensures category == Blog.Writeups ==> url == WriteupThumbnail
    ensures category != Blog.Writeups ==> url == ReflectionThumbnail
  {
    if category == "writeups" then "/default-writeup.png" else "/default-reflection.png"
  }

  /** `getThumbnailUrl`: the mapped image, unless the name is missing or empty or has no (non-empty) image. */
  function ThumbnailUrl(imageMap: map<string, string>, category: string, name: Option<string>): (url: string)
    ensures name.None? || name.value == "" ==> url == DefaultThumbnail(category)
    ensures name.Some? && name.value != "" && name.value in imageMap && imageMap[name.value] != ""
        ==> url == imageMap[name.value]
    ensures name.Some? && name.value !in imageMap ==> url == DefaultThumbnail(category)
    ensures url == DefaultThumbnail(category) || url in imageMap.Values
  {
    if name.None? || name.value == "" then DefaultThumbnail(category)
    else if name.value in imageMap && imageMap[name.value] != "" then imageMap[name.value]
    else DefaultThumbnail(category)
  }

  /** `getImagePosition`: the custom position of a known image, otherwise centred. */
  function ImagePosition(name: Option<string>): (pos: string)
    ensures name.Some? && name.value in PositionMap ==> pos == PositionMap[name.value]
    ensures name.None? || name.value !in PositionMap ==> pos == CenterCenter
  {
    if name.None? || name.value == "" then "center center"
    else if name.value in PositionMap && PositionMap[name.value] != "" then PositionMap[name.value]
    else "center center"
  }

  /** `tags.slice(0, 3)`. */
  function ShownTags(tags: seq<string>): (shown: seq<string>)
    ensures |shown| == if |tags| < MaxShownTags then |tags| else MaxShownTags
    ensures shown == tags[..|shown|]
  {
    if |tags| <= 3 then tags else tags[..3]
  }

  /** The `+k` badge: present only when tags were cut off; with the listed tags it accounts for every tag once. */
  function Overflow(tags: seq<string>): (badge: Option<nat>)
    ensures badge.Some? <==> |tags| > MaxShownTags
    ensures |ShownTags(tags)| + badge.GetOr(0) == |tags|
    ensures ShownTags(tags) + tags[|tags| - badge.GetOr(0)..] == tags
  {
    if |tags| > 3 then Some(|tags| - 3) else None
  }

  /**
   * The card asks for `post.thumbnailUrl`, a field the blog index never sets
   * (its posts have no thumbnail), so every card shows its category's placeholder.
   */
  function CardThumbnail(imageMap: map<string, string>, post: Blog.BlogPost): (url: string)
    ensures url == if post.category == Blog.Writeups then WriteupThumbnail else ReflectionThumbnail
  {
    ThumbnailUrl(imageMap, post.category, None)
  }

  /** Likewise every card image is centred. */
  function CardPosition(post: Blog.BlogPost): (pos: string)
    ensures pos == CenterCenter
  {
    ImagePosition(None)
  }
}
