/**
  The two views the page derives from its bookmark list: the tag inventory
  shown as "Collections" (`uniqueTags`) and the list of cards actually shown
  (`filteredBookmarks`). Both are pure functions of the list and the filter
  inputs; the wall clock is the explicit `now`, in milliseconds.
 */
module Views {
  import opened Wrappers
  import opened Text
  import opened Seqs
  import opened Bookmarks

  /** The tag entry that selects every row. */
  const AllTag: string := "All"

  /** `(b.tag && b.tag.trim() ? b.tag : 'General')` over the whole list. */
  function EffectiveTags(bs: seq<Bookmark>): (r: seq<string>)
    ensures |r| == |bs|
    ensures forall i :: 0 <= i < |bs| ==> r[i] == EffectiveTag(bs[i])
  {
    if bs == [] then [] else [EffectiveTag(bs[0])] + EffectiveTags(bs[1..])
  }

  /** `uniqueTags`: "All", then the distinct effective tags of the rows. */
  function UniqueTags(bs: seq<Bookmark>): (r: seq<string>)
    ensures |r| >= 1 && r[0] == AllTag
    ensures |r| <= |bs| + 1
  {
    [AllTag] + Distinct(EffectiveTags(bs))
  }

  /**
    The tag inventory: "All" first; after it every entry is the effective tag
    of some row, and every row's effective tag is listed exactly once.
   */
  lemma UniqueTagsSpec(bs: seq<Bookmark>)
    ensures UniqueTags(bs)[0] == AllTag
    ensures forall k :: 1 <= k < |UniqueTags(bs)| ==>
              exists i :: 0 <= i < |bs| && EffectiveTag(bs[i]) == UniqueTags(bs)[k]
    ensures forall i :: 0 <= i < |bs| ==> EffectiveTag(bs[i]) in UniqueTags(bs)[1..]
    ensures NoDuplicates(UniqueTags(bs)[1..])
  {
    var tags := EffectiveTags(bs);
    var d := Distinct(tags);
    var r := UniqueTags(bs);
    assert r == [AllTag] + d;
    assert r[1..] == d;
    forall k | 1 <= k < |r|
      ensures exists i :: 0 <= i < |bs| && EffectiveTag(bs[i]) == r[k]
    {
      IndexAfterHead(AllTag, d, k);
      var i := FirstIndex(tags, r[k]);
      assert EffectiveTag(bs[i]) == r[k];
    }
  }

  /** The inventory lists the tags in the order in which they first occur in the list. */
  lemma UniqueTagsOrder(bs: seq<Bookmark>)
    ensures forall k, l :: 1 <= k < l < |UniqueTags(bs)| ==>
              FirstIndex(EffectiveTags(bs), UniqueTags(bs)[k])
              < FirstIndex(EffectiveTags(bs), UniqueTags(bs)[l])
  {
    var tags := EffectiveTags(bs);
    var d := Distinct(tags);
    var r := UniqueTags(bs);
    assert r == [AllTag] + d;
    DistinctFirstOccurrenceOrder(tags);
    forall k, l | 1 <= k < l < |r|
      ensures FirstIndex(tags, r[k]) < FirstIndex(tags, r[l])
    {
      IndexAfterHead(AllTag, d, k);
      IndexAfterHead(AllTag, d, l);
    }
  }

  lemma IndexAfterHead<T>(x: T, d: seq<T>, k: int)
    requires 1 <= k <= |d|
    ensures ([x] + d)[k] == d[k - 1]
  {
  }

  /** Two rows with different effective tags give "All" and the two tags, in row order. */
  lemma UniqueTagsOfTwo(b1: Bookmark, b2: Bookmark)
    requires EffectiveTag(b1) != EffectiveTag(b2)
    ensures UniqueTags([b1, b2]) == [AllTag, EffectiveTag(b1), EffectiveTag(b2)]
  {
    var x, y := EffectiveTag(b1), EffectiveTag(b2);
    assert EffectiveTags([b1, b2]) == [x, y] by {
      assert [b1, b2][1..] == [b2];
    }
    assert Distinct([x]) == [x] by {
      assert [x][..0] == [];
    }
    assert [x, y][..1] == [x];
  }

  /** A "Work" row and an untagged row give the inventory "All", "Work", "General". */
  lemma UniqueTagsExample(b1: Bookmark, b2: Bookmark)
    requires b1.tag == Some("Work") && b2.tag.None?
    ensures UniqueTags([b1, b2]) == [AllTag, "Work", DefaultTag]
  {
    TrimOfTrimmed("Work");
    assert EffectiveTag(b1) == "Work";
    assert EffectiveTag(b2) == DefaultTag;
    UniqueTagsOfTwo(b1, b2);
  }

  /** The view tabs above the list. */
  datatype ViewFilter = All | Recent | Favorites

  /** The "Recent" window: 24 hours in milliseconds. */
  const DayMillis: int := 24 * 60 * 60 * 1000

  /** How many rows "Recent" shows when no row is recent. */
  const RecentFallback: nat := 6

  function Min(a: nat, b: nat): nat {
    if a <= b then a else b
  }

  /**
    A row counts as recent when it has a non-zero timestamp no more than a
    day before `now` (a timestamp after `now` counts too).
   */
  predicate IsRecent(b: Bookmark, now: int)
    ensures b.createdAt == None || b.createdAt == Some(0) ==> !IsRecent(b, now)
    ensures b.createdAt.Some? && b.createdAt.value != 0 && now <= b.createdAt.value ==> IsRecent(b, now)
  {
    b.createdAt.Some? && b.createdAt.value != 0 && now - b.createdAt.value <= DayMillis
  }

  predicate TagMatches(b: Bookmark, selectedTag: string) {
    selectedTag == AllTag || EffectiveTag(b) == selectedTag
  }

  /** The search key: the search box trimmed and lower-cased. */
  function SearchKey(search: string): (k: string)
    ensures k == [] <==> AllSpace(search)
  {
    ToLower(Trim(search))
  }

  /** The text a search looks in: `${b.title} ${b.url} ${b.tag || 'General'}`, lower-cased. */
  function Haystack(b: Bookmark): (r: string)
    ensures r == ToLower(b.title) + " " + ToLower(b.url) + " " + ToLower(SearchTag(b))
    ensures forall i :: 0 <= i < |r| ==> !('A' <= r[i] <= 'Z')
  {
    ToLowerSpaced(b.title, b.url, SearchTag(b));
    ToLower(b.title + " " + b.url + " " + SearchTag(b))
  }

  predicate SearchMatches(b: Bookmark, key: string) {
    key == [] || Contains(Haystack(b), key)
  }

  /** The tag step: every row under "All", otherwise the rows whose effective tag is the selection. */
  function TagFiltered(bs: seq<Bookmark>, selectedTag: string): (r: seq<Bookmark>)
    ensures Subseq(r, bs)
    ensures forall b :: b in r <==> b in bs && TagMatches(b, selectedTag)
  {
    if selectedTag == AllTag then
      SubseqRefl(bs);
      bs
    else
      Filter(bs, (b: Bookmark) => EffectiveTag(b) == selectedTag)
  }

  /**
    The view step. "Favorites" keeps the favourite rows and "All" keeps every
    row; "Recent" keeps the recent rows, or the first six rows when none is
    recent.
   */
  function ViewFiltered(list: seq<Bookmark>, view: ViewFilter, now: int): (r: seq<Bookmark>)
    ensures Subseq(r, list)
    ensures view == Favorites ==> forall b :: b in r <==> b in list && b.favorite
    ensures view == All ==> r == list
  {
    match view
    case All =>
      SubseqRefl(list);
      list
    case Favorites =>
      Filter(list, (b: Bookmark) => b.favorite)
    case Recent =>
      var recent := Filter(list, (b: Bookmark) => IsRecent(b, now));
      if |recent| > 0 then recent
      else
        PrefixSubseq(list, Min(RecentFallback, |list|));
        list[..Min(RecentFallback, |list|)]
  }

  /** The search step: everything for a blank search, otherwise the rows whose text contains the key. */
  function SearchFiltered(list: seq<Bookmark>, key: string): (r: seq<Bookmark>)
    ensures Subseq(r, list)
    ensures forall b :: b in r <==> b in list && SearchMatches(b, key)
  {
    if key == [] then
      SubseqRefl(list);
      list
    else
      Filter(list, (b: Bookmark) => Contains(Haystack(b), key))
  }

  /** `filteredBookmarks`: the tag step, then the view step, then the search step; the shown rows keep the list's order. */
  function FilteredBookmarks(bs: seq<Bookmark>, selectedTag: string, view: ViewFilter,
                             search: string, now: int): (r: seq<Bookmark>)
    ensures Subseq(r, bs)
  {
    var l1 := TagFiltered(bs, selectedTag);
    var l2 := ViewFiltered(l1, view, now);
    SubseqTrans(l2, l1, bs);
    var l3 := SearchFiltered(l2, SearchKey(search));
    SubseqTrans(l3, l2, bs);
    l3
  }

  /** The tag step keeps each matching row as often as it occurs and drops every other row. */
  lemma TagFilteredCounts(bs: seq<Bookmark>, selectedTag: string)
    ensures forall b :: multiset(TagFiltered(bs, selectedTag))[b] ==
              if TagMatches(b, selectedTag) then multiset(bs)[b] else 0
  {
    if selectedTag != AllTag {
      FilterCounts(bs, (b: Bookmark) => EffectiveTag(b) == selectedTag);
    }
  }

  /** Likewise the "Favorites" step, and the "Recent" step whenever some row is recent. */
  lemma ViewFilteredCounts(list: seq<Bookmark>, view: ViewFilter, now: int)
    ensures view == Favorites ==>
              forall b :: multiset(ViewFiltered(list, view, now))[b] ==
                if b.favorite then multiset(list)[b] else 0
    ensures view == Recent && (exists i :: 0 <= i < |list| && IsRecent(list[i], now)) ==>
              forall b :: multiset(ViewFiltered(list, view, now))[b] ==
                if IsRecent(b, now) then multiset(list)[b] else 0
  {
    FilterCounts(list, (b: Bookmark) => b.favorite);
    FilterCounts(list, (b: Bookmark) => IsRecent(b, now));
  }

  /** Likewise the search step. */
  lemma SearchFilteredCounts(list: seq<Bookmark>, key: string)
    ensures forall b :: multiset(SearchFiltered(list, key))[b] ==
              if SearchMatches(b, key) then multiset(list)[b] else 0
  {
    if key != [] {
      FilterCounts(list, (b: Bookmark) => Contains(Haystack(b), key));
    }
  }

  /**
    What every shown row satisfies, whichever view is on: the shown rows are
    the list with some rows deleted and the order kept; under a selected tag
    each has that effective tag; under "Favorites" each is a favourite; with a
    non-blank search each row's text contains the key.
   */
  lemma FilteredBookmarksSound(bs: seq<Bookmark>, selectedTag: string, view: ViewFilter,
                               search: string, now: int)
    ensures Subseq(FilteredBookmarks(bs, selectedTag, view, search, now), bs)
    ensures forall b :: b in FilteredBookmarks(bs, selectedTag, view, search, now) ==>
              b in bs && TagMatches(b, selectedTag) && SearchMatches(b, SearchKey(search))
    ensures view == Favorites ==>
              forall b :: b in FilteredBookmarks(bs, selectedTag, view, search, now) ==> b.favorite
  {
    var l1 := TagFiltered(bs, selectedTag);
    var l2 := ViewFiltered(l1, view, now);
    var r := SearchFiltered(l2, SearchKey(search));
    SubseqTrans(l2, l1, bs);
    SubseqTrans(r, l2, bs);
    SubseqMembers(l2, l1);
  }

  /**
    Under "All" and "Favorites" the shown rows are exactly the rows that pass
    all three tests.
   */
  lemma FilteredBookmarksExact(bs: seq<Bookmark>, selectedTag: string, view: ViewFilter,
                               search: string, now: int)
    requires view != Recent
    ensures forall b :: b in FilteredBookmarks(bs, selectedTag, view, search, now) <==>
              && b in bs
              && TagMatches(b, selectedTag)
              && (view == Favorites ==> b.favorite)
              && SearchMatches(b, SearchKey(search))
  {
  }

  /**
    Under "All" and "Favorites" each row that passes all three tests is shown
    as many times as it occurs in the list, and no other row is shown.
   */
  lemma FilteredBookmarksCounts(bs: seq<Bookmark>, selectedTag: string, view: ViewFilter,
                                search: string, now: int)
    requires view != Recent
    ensures forall b :: multiset(FilteredBookmarks(bs, selectedTag, view, search, now))[b] ==
              if TagMatches(b, selectedTag) && (view == Favorites ==> b.favorite)
                 && SearchMatches(b, SearchKey(search))
              then multiset(bs)[b] else 0
  {
    var l1 := TagFiltered(bs, selectedTag);
    var l2 := ViewFiltered(l1, view, now);
    TagFilteredCounts(bs, selectedTag);
    ViewFilteredCounts(l1, view, now);
    SearchFilteredCounts(l2, SearchKey(search));
  }

  /**
    "Recent": when some tag-filtered row is recent, the rows shown before the
    search are exactly the tag-filtered rows with a non-zero timestamp at most
    a day old, so a row without a timestamp is never among them; when none is,
    they are the first six tag-filtered rows (all of them if fewer), whatever
    their timestamps.
   */
  lemma RecentView(list: seq<Bookmark>, now: int)
    ensures (exists i :: 0 <= i < |list| && IsRecent(list[i], now)) ==>
              forall b :: b in ViewFiltered(list, Recent, now) <==>
                && b in list
                && b.createdAt.Some? && b.createdAt.value != 0
                && now - b.createdAt.value <= DayMillis
    ensures (forall i :: 0 <= i < |list| ==> !IsRecent(list[i], now)) ==>
              ViewFiltered(list, Recent, now) == list[..Min(RecentFallback, |list|)]
  {
  }

  /** With ten rows and none recent, "Recent" with no tag and no search shows the first six. */
  lemma RecentFallbackExample(bs: seq<Bookmark>, now: int)
    requires |bs| == 10
    requires forall i :: 0 <= i < |bs| ==> !IsRecent(bs[i], now)
    ensures FilteredBookmarks(bs, AllTag, Recent, "", now) == bs[..6]
  {
  }
}
