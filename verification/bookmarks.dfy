/**
  The bookmark record of the dashboard (a row of the `bookmarks` table as the
  page holds it), the tag it is grouped under, and URL normalisation.
 */
module Bookmarks {
  import opened Wrappers
  import opened Text

  /**
    One row. `tag` is `None` for a `null`/missing tag; `createdAt` is the
    creation instant in milliseconds since the epoch, `None` when the row has
    no `created_at` or one that does not parse. The optional boolean flags
    read as `false` when missing.
   */
  datatype Bookmark = Bookmark(
    id: int,
    title: string,
    url: string,
    tag: Option<string>,
    userId: string,
    createdAt: Option<int>,
    favorite: bool,
    pinned: bool,
    isRead: bool,
    archived: bool)

  /** The tag a row is grouped and shown under when it has none of its own. */
  const DefaultTag: string := "General"

  lemma DefaultTagNotBlank()
    ensures Trim(DefaultTag) != [] && !AllSpace(DefaultTag)
  {
  }

  /**
    The grouping and filtering tag `b.tag && b.tag.trim() ? b.tag : 'General'`:
    a missing or blank tag reads as "General", any other tag is kept as stored,
    surrounding whitespace included.
   */
  function EffectiveTag(b: Bookmark): (r: string)
    ensures Trim(r) != []
    ensures r == DefaultTag || b.tag == Some(r)
    ensures (b.tag.None? || AllSpace(b.tag.value)) ==> r == DefaultTag
  {
    if b.tag.Some? && Trim(b.tag.value) != [] then b.tag.value else DefaultTag
  }

  /**
    The tag used in the search text, `b.tag || 'General'`: only a missing or
    empty tag reads as "General"; a whitespace-only tag is kept.
   */
  function SearchTag(b: Bookmark): (r: string)
    ensures r == DefaultTag || b.tag == Some(r)
    ensures r != []
  {
    if b.tag.Some? && b.tag.value != [] then b.tag.value else DefaultTag
  }

  /**
    The two tag readings disagree exactly on rows whose tag is non-empty but
    all whitespace: the grouping reads those as "General", the search text
    keeps the whitespace.
   */
  lemma SearchTagDiffers(b: Bookmark)
    ensures SearchTag(b) != EffectiveTag(b)
        <==> b.tag.Some? && b.tag.value != [] && AllSpace(b.tag.value)
  {
  }

  /** A stored tag of "General" and a blank tag are grouped together; nothing else is. */
  lemma EffectiveTagIsDefault(b: Bookmark)
    ensures EffectiveTag(b) == DefaultTag
        <==> b.tag.None? || AllSpace(b.tag.value) || b.tag.value == DefaultTag
  {
  }

  predicate HasScheme(s: string) {
    StartsWith(s, "http://") || StartsWith(s, "https://")
  }

  /**
    `normalizeUrl`: trims the input; a blank input stays empty, an input
    that already starts with `http://` or `https://` is kept, and anything
    else gets `https://` in front.
   */
  function NormalizeUrl(u: string): (r: string)
    ensures r == [] <==> AllSpace(u)
    ensures r != [] ==> HasScheme(r)
    ensures HasScheme(Trim(u)) ==> r == Trim(u)
    ensures !HasScheme(Trim(u)) && r != [] ==> r == "https://" + Trim(u)
  {
    var s := Trim(u);
    if s == [] then s
    else if HasScheme(s) then s
    else
      assert ("https://" + s)[..8] == "https://";
      "https://" + s
  }

  /** Normalising a normalised URL changes nothing. */
  lemma NormalizeUrlIdempotent(u: string)
    ensures NormalizeUrl(NormalizeUrl(u)) == NormalizeUrl(u)
  {
  }

  /** A bare host name gets `https://` in front. */
  lemma NormalizeUrlBareHost()
    ensures NormalizeUrl("example.com") == "https://example.com"
  {
    var h := "example.com";
    TrimOfTrimmed(h);
    assert h[..7][0] == 'e';
    assert h[..8][0] == 'e';
  }

  /** An `http://` URL is kept as it is. */
  lemma NormalizeUrlKeepsHttp()
    ensures NormalizeUrl("http://x.com") == "http://x.com"
  {
  }
}
