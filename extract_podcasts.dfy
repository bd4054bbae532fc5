/**
 * The podcast extraction script: the loop that fills the `entries`
 * dictionary from the page's anchors, then `list(entries.values())` and the
 * sort by title. Reading the page, matching the HTML and writing the JSON
 * file lie outside this module; the anchors arrive already matched.
 */
module ExtractPodcasts {
  import opened Opt
  import opened PyStr
  import opened PodcastList
  import opened TitleSort

  /** The list the script writes for `anchors`. */
  function Extracted(anchors: seq<Anchor>): seq<Podcast> {
    SortByTitle(Collect(anchors))
  }

  /** The dictionary `entries` and its insertion order hold exactly `values`. */
  ghost predicate Holds(entries: map<string, Podcast>, order: seq<string>, values: seq<Podcast>) {
    && |order| == |values|
    && (forall k :: 0 <= k < |order| ==> order[k] == values[k].href && order[k] in entries && entries[order[k]] == values[k])
    && entries.Keys == HrefSet(values)
  }

  /** Inserting a new href keeps the dictionary and its order in step. */
  lemma HoldsInsert(entries: map<string, Podcast>, order: seq<string>, values: seq<Podcast>, e: Podcast)
    requires Holds(entries, order, values) && e.href !in HrefSet(values)
    ensures Holds(entries[e.href := e], order + [e.href], values + [e])
  {
    HrefSetAppend(values, e);
  }

  /** The script's `for href, inner in anchors:` loop. Python dictionaries
      remember insertion order; `order` is that order. */
  method CollectEntries(anchors: seq<Anchor>) returns (entries: map<string, Podcast>, order: seq<string>)
    ensures |order| == |Collect(anchors)|
    ensures forall k :: 0 <= k < |order| ==> order[k] in entries && entries[order[k]] == Collect(anchors)[k]
    ensures entries.Keys == HrefSet(Collect(anchors))
    ensures forall h :: h in entries ==> entries[h].href == h
  {
    entries, order := map[], [];
    for n := 0 to |anchors|
      invariant Holds(entries, order, CollectPrefix(anchors, n))
    {
      var a := anchors[n];
      var title := if a.titleText.Some? then Some(Strip(a.titleText.value)) else None;
      var descMatch := a.classDescription;
      if descMatch.None? {
        descMatch := a.spanText;
      }
      var description := if descMatch.Some? then Some(Strip(descMatch.value)) else None;
      var image := if a.imageSrc.Some? then Some(Strip(a.imageSrc.value)) else None;
      assert title == TitleOf(a) && description == DescriptionOf(a) && image == ImageOf(a);
      if title.None? || title.value == "" {
        continue;
      }
      if a.href !in entries {
        var entry := Podcast(title.value, a.href, SiteRoot + a.href, description, image);
        assert entry == EntryOf(a);
        HoldsInsert(entries, order, CollectPrefix(anchors, n), entry);
        entries := entries[a.href := entry];
        order := order + [a.href];
      }
    }
    forall h | h in entries ensures entries[h].href == h {
      HrefSetMembers(Collect(anchors), h);
      var k :| 0 <= k < |order| && Collect(anchors)[k].href == h;
    }
  }

  /** The whole script between reading the page and writing the file. */
  method ExtractPodcasts(anchors: seq<Anchor>) returns (podcasts: seq<Podcast>)
    ensures podcasts == Extracted(anchors)
  {
    var entries, order := CollectEntries(anchors);
    var values := seq(|order|, k requires 0 <= k < |order| => entries[order[k]]);
    assert values == Collect(anchors);
    var list := new Podcast[|values|](k requires 0 <= k < |values| => values[k]);
    assert list[..] == values;
    SortInPlace(list);
    podcasts := list[..];
  }

  /** The written list is sorted by title, keeps equal titles in insertion
      order, and is a permutation of the kept entries. */
  lemma ExtractedSortedStable(anchors: seq<Anchor>, t: string)
    ensures SortedByTitle(Extracted(anchors))
    ensures multiset(Extracted(anchors)) == multiset(Collect(anchors))
    ensures WithTitle(Extracted(anchors), t) == WithTitle(Collect(anchors), t)
    ensures |Extracted(anchors)| <= |anchors|
  {
    SortSorted(Collect(anchors));
    SortPermutation(Collect(anchors));
    SortStable(Collect(anchors), t);
    CollectLength(anchors, |anchors|);
    assert |Extracted(anchors)| == |multiset(Extracted(anchors))|;
  }

  /** The written entries: distinct hrefs, each well formed, each the record
      of the first titled anchor with its href, and one for every such anchor. */
  lemma ExtractedEntries(anchors: seq<Anchor>)
    ensures DistinctHrefs(Extracted(anchors))
    ensures forall e :: e in Extracted(anchors) ==> WellFormed(e)
    ensures forall e :: e in Extracted(anchors) ==>
      exists i :: 0 <= i < |anchors| && FirstOfHref(anchors, i) && EntryOf(anchors[i]) == e
    ensures forall i :: 0 <= i < |anchors| && FirstOfHref(anchors, i) ==> EntryOf(anchors[i]) in Extracted(anchors)
  {
    var kept := Collect(anchors);
    var r := Extracted(anchors);
    CollectHrefsDistinct(anchors, |anchors|);
    SortDistinct(kept);
    SortPermutation(kept);
    CollectWellFormed(anchors, |anchors|);
    forall e | e in r
      ensures WellFormed(e)
      ensures exists i :: 0 <= i < |anchors| && FirstOfHref(anchors, i) && EntryOf(anchors[i]) == e
    {
      assert e in multiset(r);
      var k :| 0 <= k < |kept| && kept[k] == e;
      CollectFromFirst(anchors, |anchors|, k);
    }
    forall i | 0 <= i < |anchors| && FirstOfHref(anchors, i) ensures EntryOf(anchors[i]) in r {
      CollectKeepsFirst(anchors, |anchors|, i);
      assert EntryOf(anchors[i]) in multiset(kept);
    }
  }
}
