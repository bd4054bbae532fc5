/**
 * The entry rules of the podcast extraction script: how one anchor of the
 * BNR podcasts page becomes an entry, and which entries the script keeps
 * (titled anchors only, the first anchor for each href), in the order the
 * script's dictionary holds them.
 */
module PodcastList {
  import opened Opt
  import opened PyStr

  /** One `<a href="podcast/...">` anchor of the page, already matched: its href
      and the raw first group of each pattern the script searches its inner HTML
      for (None when the pattern does not match). */
  datatype Anchor = Anchor(
    href: string,
    titleText: Option<string>,        // `<h2 ...>TEXT</h2>`
    classDescription: Option<string>, // `<span class="...VerticalCard2_description...">TEXT</span>`
    spanText: Option<string>,         // any `<span ...>TEXT</span>`
    imageSrc: Option<string>          // `src` of the first `<img ...>`
  )

  /** One entry of the generated podcasts list. */
  datatype Podcast = Podcast(
    title: string,
    href: string,
    absoluteUrl: string,
    description: Option<string>,
    image: Option<string>
  )

  const SiteRoot := "https://www.bnr.nl/"

  /** A matched group, stripped. */
  function StripMatch(m: Option<string>): (r: Option<string>)
    ensures r.None? <==> m.None?
    ensures m.Some? ==> r.value == Strip(m.value)
  {
    match m
    case None => None
    case Some(g) => Some(Strip(g))
  }

  /** The script's `title`: the stripped `<h2>` text, or None. */
  function TitleOf(a: Anchor): Option<string> {
    StripMatch(a.titleText)
  }

  /** An anchor survives `if not title: continue` exactly when its title is
      present and not blank. */
  predicate Titled(a: Anchor) {
    TitleOf(a).Some? && TitleOf(a).value != ""
  }

  /** The description: the class-specific span when there is one, else the
      first plain span, else None; stripped either way. */
  function DescriptionOf(a: Anchor): (r: Option<string>)
    ensures a.classDescription.Some? ==> r == Some(Strip(a.classDescription.value))
    ensures a.classDescription.None? && a.spanText.Some? ==> r == Some(Strip(a.spanText.value))
    ensures r.None? <==> a.classDescription.None? && a.spanText.None?
  {
    if a.classDescription.Some? then StripMatch(a.classDescription) else StripMatch(a.spanText)
  }

  /** The image: the stripped `src` of the first `<img>`, or None. */
  function ImageOf(a: Anchor): (r: Option<string>)
    ensures r.None? <==> a.imageSrc.None?
    ensures a.imageSrc.Some? ==> r == Some(Strip(a.imageSrc.value))
  {
    StripMatch(a.imageSrc)
  }

  /** The entry record the script builds for a titled anchor. */
  function EntryOf(a: Anchor): (e: Podcast)
    requires Titled(a)
    ensures e.title != "" && e.title == Strip(a.titleText.value)
    ensures e.href == a.href && e.absoluteUrl == SiteRoot + a.href
    ensures e.description == DescriptionOf(a) && e.image == ImageOf(a)
  {
    Podcast(TitleOf(a).value, a.href, SiteRoot + a.href, DescriptionOf(a), ImageOf(a))
  }

  /** What every entry the script writes looks like. */
  predicate WellFormed(e: Podcast) {
    e.title != "" && e.title == Strip(e.title) && e.absoluteUrl == SiteRoot + e.href
  }

  /** The hrefs of the entries of `s`: the key set of the script's `entries`. */
  function HrefSet(s: seq<Podcast>): set<string> {
    if s == [] then {} else HrefSet(s[..|s| - 1]) + {s[|s| - 1].href}
  }

  lemma {:induction false} HrefSetMembers(s: seq<Podcast>, h: string)
    ensures h in HrefSet(s) <==> exists k :: 0 <= k < |s| && s[k].href == h
  {
    if s != [] {
      HrefSetMembers(s[..|s| - 1], h);
      if h in HrefSet(s[..|s| - 1]) {
        var k :| 0 <= k < |s| - 1 && s[..|s| - 1][k].href == h;
        assert s[k].href == h;
      }
    }
  }

  lemma HrefSetAppend(s: seq<Podcast>, e: Podcast)
    ensures HrefSet(s + [e]) == HrefSet(s) + {e.href}
  {
    assert (s + [e])[..|s|] == s;
  }

  /** One pass of the loop body over anchor `a`: skip it when untitled
      (`continue`) or when its href is already a key, else add its record. */
  function Step(prev: seq<Podcast>, a: Anchor): seq<Podcast> {
    if !Titled(a) || a.href in HrefSet(prev) then prev else prev + [EntryOf(a)]
  }

  /** The keys after one pass: an untitled anchor adds none, a titled one
      adds its href (which may already be there). */
  lemma StepHrefs(prev: seq<Podcast>, a: Anchor)
    ensures HrefSet(Step(prev, a)) == if Titled(a) then HrefSet(prev) + {a.href} else HrefSet(prev)
  {
    if Titled(a) && a.href !in HrefSet(prev) {
      HrefSetAppend(prev, EntryOf(a));
    }
  }

  /** The values of the script's `entries` dictionary, in insertion order, once
      the loop has seen the first `n` anchors. */
  function CollectPrefix(anchors: seq<Anchor>, n: nat): seq<Podcast>
    requires n <= |anchors|
  {
    if n == 0 then [] else Step(CollectPrefix(anchors, n - 1), anchors[n - 1])
  }

  /** The values of `entries` after the whole loop. */
  function Collect(anchors: seq<Anchor>): seq<Podcast> {
    CollectPrefix(anchors, |anchors|)
  }

  /** Anchor `i` is titled and no titled anchor before it has the same href:
      it is the one whose fields the script keeps for that href. */
  predicate FirstOfHref(anchors: seq<Anchor>, i: int)
    requires 0 <= i < |anchors|
  {
    Titled(anchors[i])
    && forall j :: 0 <= j < i ==> !(Titled(anchors[j]) && anchors[j].href == anchors[i].href)
  }

  /** No two entries of `s` share an href. */
  predicate DistinctHrefs(s: seq<Podcast>) {
    forall i, j :: 0 <= i < j < |s| ==> s[i].href != s[j].href
  }

  lemma {:induction false} CollectLength(anchors: seq<Anchor>, n: nat)
    requires n <= |anchors|
    ensures |CollectPrefix(anchors, n)| <= n
  {
    if n > 0 {
      CollectLength(anchors, n - 1);
    }
  }

  /** No two entries share an href. */
  lemma {:induction false} CollectHrefsDistinct(anchors: seq<Anchor>, n: nat)
    requires n <= |anchors|
    ensures DistinctHrefs(CollectPrefix(anchors, n))
  {
    if n > 0 {
      var prev := CollectPrefix(anchors, n - 1);
      CollectHrefsDistinct(anchors, n - 1);
      HrefSetMembers(prev, anchors[n - 1].href);
    }
  }

  /** Every entry is well formed. */
  lemma {:induction false} CollectWellFormed(anchors: seq<Anchor>, n: nat)
    requires n <= |anchors|
    ensures forall e :: e in CollectPrefix(anchors, n) ==> WellFormed(e)
  {
    if n > 0 {
      CollectWellFormed(anchors, n - 1);
      var a := anchors[n - 1];
      if Titled(a) {
        StripIdempotent(a.titleText.value);
      }
    }
  }

  /** Every titled anchor's href has an entry. */
  lemma {:induction false} CollectCoversTitled(anchors: seq<Anchor>, n: nat, i: int)
    requires n <= |anchors| && 0 <= i < n && Titled(anchors[i])
    ensures anchors[i].href in HrefSet(CollectPrefix(anchors, n))
  {
    StepHrefs(CollectPrefix(anchors, n - 1), anchors[n - 1]);
    if i < n - 1 {
      CollectCoversTitled(anchors, n - 1, i);
    }
  }

  /** Each entry is the record of the first titled anchor with its href
      (first occurrence wins). */
  lemma {:induction false} CollectFromFirst(anchors: seq<Anchor>, n: nat, k: int)
    requires n <= |anchors| && 0 <= k < |CollectPrefix(anchors, n)|
    ensures exists i :: 0 <= i < n && FirstOfHref(anchors, i) && EntryOf(anchors[i]) == CollectPrefix(anchors, n)[k]
  {
    var prev := CollectPrefix(anchors, n - 1);
    if k < |prev| {
      CollectFromFirst(anchors, n - 1, k);
      assert CollectPrefix(anchors, n)[k] == prev[k];
    } else {
      var a := anchors[n - 1];
      forall j | 0 <= j < n - 1 && Titled(anchors[j]) ensures anchors[j].href != a.href {
        CollectCoversTitled(anchors, n - 1, j);
      }
      assert FirstOfHref(anchors, n - 1);
    }
  }

  /** The first titled anchor of each href contributes its record. */
  lemma {:induction false} CollectKeepsFirst(anchors: seq<Anchor>, n: nat, i: int)
    requires n <= |anchors| && 0 <= i < n && FirstOfHref(anchors, i)
    ensures EntryOf(anchors[i]) in CollectPrefix(anchors, n)
  {
    var prev := CollectPrefix(anchors, n - 1);
    if i < n - 1 {
      CollectKeepsFirst(anchors, n - 1, i);
    } else if anchors[i].href in HrefSet(prev) {
      HrefSetMembers(prev, anchors[i].href);
      var k :| 0 <= k < |prev| && prev[k].href == anchors[i].href;
      CollectFromFirst(anchors, n - 1, k);
      assert false;
    }
  }

  /** The entries depend only on the anchors the loop has seen. */
  lemma {:induction false} CollectPrefixAgree(a1: seq<Anchor>, a2: seq<Anchor>, n: nat)
    requires n <= |a1| && n <= |a2|
    requires forall k :: 0 <= k < n ==> a1[k] == a2[k]
    ensures CollectPrefix(a1, n) == CollectPrefix(a2, n)
  {
    if n > 0 {
      CollectPrefixAgree(a1, a2, n - 1);
    }
  }

  /** An anchor that is untitled, or whose href already has an entry, changes
      nothing. */
  lemma LaterAnchorIgnored(anchors: seq<Anchor>, a: Anchor)
    requires !Titled(a) || a.href in HrefSet(Collect(anchors))
    ensures Collect(anchors + [a]) == Collect(anchors)
  {
    CollectPrefixAgree(anchors + [a], anchors, |anchors|);
  }

  /** The loop passes over an untitled anchor and over one whose href is a key. */
  lemma SkipStep(prev: seq<Podcast>, a: Anchor)
    requires !Titled(a) || a.href in HrefSet(prev)
    ensures Step(prev, a) == prev
  {
  }

  /** Removing an anchor the loop skips, wherever it stands, changes nothing:
      one that is untitled, or whose href is already a key when the loop
      reaches it (a later duplicate). */
  lemma SkippedAnchorIgnored(anchors: seq<Anchor>, i: int)
    requires 0 <= i < |anchors|
    requires !Titled(anchors[i]) || anchors[i].href in HrefSet(CollectPrefix(anchors, i))
    ensures Collect(anchors[..i] + anchors[i + 1..]) == Collect(anchors)
  {
    SkipStep(CollectPrefix(anchors, i), anchors[i]);
    SkippedIgnoredFrom(anchors, i, |anchors|);
    var removed := anchors[..i] + anchors[i + 1..];
    assert |removed| == |anchors| - 1;
    assert Collect(removed) == CollectPrefix(removed, |anchors| - 1);
  }

  lemma {:induction false} SkippedIgnoredFrom(anchors: seq<Anchor>, i: int, n: nat)
    requires 0 <= i < n <= |anchors|
    requires Step(CollectPrefix(anchors, i), anchors[i]) == CollectPrefix(anchors, i)
    ensures |anchors[..i] + anchors[i + 1..]| == |anchors| - 1
    ensures CollectPrefix(anchors, n) == CollectPrefix(anchors[..i] + anchors[i + 1..], n - 1)
  {
    var removed := anchors[..i] + anchors[i + 1..];
    if n == i + 1 {
      assert forall k :: 0 <= k < i ==> removed[k] == anchors[k];
      CollectPrefixAgree(anchors, removed, i);
    } else {
      SkippedIgnoredFrom(anchors, i, n - 1);
      assert removed[n - 2] == anchors[n - 1];
    }
  }
}
