/**
 * `podcasts.sort(key=lambda x: x.get("title", ""))`: a stable sort of the
 * entries by title under Python's string order. Every entry the script builds
 * has a title, so the key is the title itself. The specification is a stable
 * insertion sort on sequences; `SortInPlace` performs it on an array.
 */
module TitleSort {
  import opened PyStr
  import opened PodcastList

  /** Titles never decrease along `s`. */
  predicate SortedByTitle(s: seq<Podcast>) {
    forall i, j :: 0 <= i < j < |s| ==> !Below(s[j].title, s[i].title)
  }

  /** The entries of `s` whose title is `t`, in the order `s` has them. */
  function WithTitle(s: seq<Podcast>, t: string): seq<Podcast> {
    if s == [] then []
    else WithTitle(s[..|s| - 1], t) + (if s[|s| - 1].title == t then [s[|s| - 1]] else [])
  }

  /** Where insertion puts `x`: scanning from the right, just after the first
      entry whose title is not above its own. */
  function InsertPos(s: seq<Podcast>, x: Podcast): (p: nat)
    ensures p <= |s|
  {
    if s == [] || !Below(x.title, s[|s| - 1].title) then |s| else InsertPos(s[..|s| - 1], x)
  }

  /** `s` with `x` inserted at `InsertPos(s, x)`. */
  function Insert(s: seq<Podcast>, x: Podcast): seq<Podcast> {
    var p := InsertPos(s, x);
    s[..p] + [x] + s[p..]
  }

  /** The list after the script's sort. */
  function SortByTitle(s: seq<Podcast>): seq<Podcast> {
    if s == [] then [] else Insert(SortByTitle(s[..|s| - 1]), s[|s| - 1])
  }

  /** The entry before the insertion point, if any, has a title not above
      `x.title`; every entry from it on has a title above it. */
  lemma {:induction false} InsertPosSpec(s: seq<Podcast>, x: Podcast)
    ensures var p := InsertPos(s, x);
      && (p == 0 || !Below(x.title, s[p - 1].title))
      && (forall k :: p <= k < |s| ==> Below(x.title, s[k].title))
  {
    if s != [] && Below(x.title, s[|s| - 1].title) {
      var n := |s| - 1;
      var t := s[..n];
      InsertPosSpec(t, x);
      assert forall k :: 0 <= k < n ==> t[k] == s[k];
    }
  }

  /** Those two facts pin the insertion point down. */
  lemma {:induction false} InsertPosUnique(s: seq<Podcast>, x: Podcast, j: nat)
    requires j <= |s|
    requires j == 0 || !Below(x.title, s[j - 1].title)
    requires forall k :: j <= k < |s| ==> Below(x.title, s[k].title)
    ensures InsertPos(s, x) == j
  {
    if j < |s| {
      var n := |s| - 1;
      var t := s[..n];
      assert forall k :: 0 <= k < n ==> t[k] == s[k];
      InsertPosUnique(t, x, j);
    }
  }

  lemma InsertMultiset(s: seq<Podcast>, x: Podcast)
    ensures multiset(Insert(s, x)) == multiset(s) + multiset{x}
  {
    var p := InsertPos(s, x);
    assert s == s[..p] + s[p..];
  }

  lemma InsertSorted(s: seq<Podcast>, x: Podcast)
    requires SortedByTitle(s)
    ensures SortedByTitle(Insert(s, x))
  {
    var p := InsertPos(s, x);
    InsertPosSpec(s, x);
    var out := s[..p] + [x] + s[p..];
    assert forall k :: 0 <= k < p ==> out[k] == s[k];
    assert forall k :: p < k < |out| ==> out[k] == s[k - 1];
    forall i, j | 0 <= i < j < |out| ensures !Below(out[j].title, out[i].title) {
      if j == p {
        if i < p - 1 {
          NotBelowTransitive(s[i].title, s[p - 1].title, x.title);
        }
      } else if i == p {
        if Below(s[j - 1].title, x.title) {
          BelowTransitive(x.title, s[j - 1].title, x.title);
          BelowIrreflexive(x.title);
        }
      }
    }
  }

  lemma {:induction false} WithTitleAppend(a: seq<Podcast>, b: seq<Podcast>, t: string)
    ensures WithTitle(a + b, t) == WithTitle(a, t) + WithTitle(b, t)
  {
    if b == [] {
      assert a + b == a;
    } else {
      var n := |b| - 1;
      WithTitleAppend(a, b[..n], t);
      assert (a + b)[..|a + b| - 1] == a + b[..n];
    }
  }

  lemma {:induction false} WithTitleNone(s: seq<Podcast>, t: string)
    requires forall k :: 0 <= k < |s| ==> s[k].title != t
    ensures WithTitle(s, t) == []
  {
    if s != [] {
      var n := |s| - 1;
      assert forall k :: 0 <= k < n ==> s[..n][k] == s[k];
      WithTitleNone(s[..n], t);
    }
  }

  /** Putting `x` between `before` and `after` adds it to the entries of its
      title last, as long as no entry of `after` shares that title. */
  lemma WithTitleBetween(before: seq<Podcast>, x: Podcast, after: seq<Podcast>, t: string)
    requires x.title == t ==> forall k :: 0 <= k < |after| ==> after[k].title != t
    ensures WithTitle(before + [x] + after, t)
         == WithTitle(before + after, t) + (if x.title == t then [x] else [])
  {
    assert WithTitle([x], t) == if x.title == t then [x] else [] by {
      assert [x][..0] == [];
    }
    WithTitleAppend(before, [x], t);
    WithTitleAppend(before + [x], after, t);
    WithTitleAppend(before, after, t);
    if x.title == t {
      WithTitleNone(after, t);
    }
  }

  /** Insertion keeps the entries of each title in their order, `x` last. */
  lemma InsertWithTitle(s: seq<Podcast>, x: Podcast, t: string)
    ensures WithTitle(Insert(s, x), t) == WithTitle(s, t) + (if x.title == t then [x] else [])
  {
    var p := InsertPos(s, x);
    InsertPosSpec(s, x);
    if x.title == t {
      forall k | 0 <= k < |s[p..]| ensures s[p..][k].title != t {
        assert s[p..][k] == s[p + k];
        BelowIrreflexive(t);
      }
    }
    WithTitleBetween(s[..p], x, s[p..], t);
    assert s[..p] + s[p..] == s;
  }

  /** The sorted list is sorted. */
  lemma {:induction false} SortSorted(s: seq<Podcast>)
    ensures SortedByTitle(SortByTitle(s))
  {
    if s != [] {
      SortSorted(s[..|s| - 1]);
      InsertSorted(SortByTitle(s[..|s| - 1]), s[|s| - 1]);
    }
  }

  /** The sorted list is a permutation of its input. */
  lemma {:induction false} SortPermutation(s: seq<Podcast>)
    ensures multiset(SortByTitle(s)) == multiset(s)
  {
    if s != [] {
      var n := |s| - 1;
      SortPermutation(s[..n]);
      InsertMultiset(SortByTitle(s[..n]), s[n]);
      assert s == s[..n] + [s[n]];
    }
  }

  /** The sort is stable: entries with equal titles keep their relative order. */
  lemma {:induction false} SortStable(s: seq<Podcast>, t: string)
    ensures WithTitle(SortByTitle(s), t) == WithTitle(s, t)
  {
    if s != [] {
      var n := |s| - 1;
      SortStable(s[..n], t);
      InsertWithTitle(SortByTitle(s[..n]), s[n], t);
    }
  }

  lemma InsertDistinct(s: seq<Podcast>, x: Podcast)
    requires DistinctHrefs(s)
    requires forall e :: e in s ==> e.href != x.href
    ensures DistinctHrefs(Insert(s, x))
  {
    var p := InsertPos(s, x);
    InsertPosSpec(s, x);
    var out := s[..p] + [x] + s[p..];
    assert forall k :: 0 <= k < p ==> out[k] == s[k];
    assert forall k :: p < k < |out| ==> out[k] == s[k - 1];
    forall i, j | 0 <= i < j < |out| ensures out[i].href != out[j].href {
      if i == p {
        assert s[j - 1] in s;
      } else if j == p {
        assert s[i] in s;
      }
    }
  }

  lemma InsertMembers(s: seq<Podcast>, x: Podcast)
    ensures forall e :: e in Insert(s, x) ==> e in s || e == x
  {
    var p := InsertPos(s, x);
    assert s == s[..p] + s[p..];
  }

  /** Every entry of the sorted list is an entry of its input. */
  lemma {:induction false} SortMembers(s: seq<Podcast>)
    ensures forall e :: e in SortByTitle(s) ==> e in s
  {
    if s != [] {
      var n := |s| - 1;
      SortMembers(s[..n]);
      InsertMembers(SortByTitle(s[..n]), s[n]);
      assert forall e :: e in s[..n] ==> e in s;
    }
  }

  /** Sorting cannot make two entries share an href. */
  lemma {:induction false} SortDistinct(s: seq<Podcast>)
    requires DistinctHrefs(s)
    ensures DistinctHrefs(SortByTitle(s))
  {
    if s != [] {
      var n := |s| - 1;
      var t := s[..n];
      assert forall k :: 0 <= k < n ==> t[k] == s[k];
      SortDistinct(t);
      SortMembers(t);
      forall e | e in SortByTitle(t) ensures e.href != s[n].href {
        var k :| 0 <= k < n && t[k] == e;
      }
      InsertDistinct(SortByTitle(t), s[n]);
    }
  }

  /** Shifts the entries of `a[..i]` whose titles are above `x.title` one
      place up, from the right, stopping at the first title that is not; `j`
      is the slot left free. */
  method ShiftPast(a: array<Podcast>, i: nat, x: Podcast) returns (j: nat)
    requires i < a.Length
    modifies a
    ensures j <= i
    ensures forall k :: 0 <= k < j ==> a[k] == old(a[k])
    ensures forall k :: j < k <= i ==> a[k] == old(a[k - 1])
    ensures forall k :: i < k < a.Length ==> a[k] == old(a[k])
    ensures j == 0 || !Below(x.title, old(a[j - 1]).title)
    ensures forall k :: j <= k < i ==> Below(x.title, old(a[k]).title)
  {
    j := i;
    while j > 0 && Below(x.title, a[j - 1].title)
      invariant j <= i
      invariant forall k :: 0 <= k < j ==> a[k] == old(a[k])
      invariant forall k :: j < k <= i ==> a[k] == old(a[k - 1])
      invariant forall k :: i < k < a.Length ==> a[k] == old(a[k])
      invariant forall k :: j <= k < i ==> Below(x.title, old(a[k]).title)
    {
      a[j] := a[j - 1];
      j := j - 1;
    }
  }

  /** Moves `a[i]` left past the entries of `a[..i]` whose titles are above
      its own: one step of the insertion sort. */
  method InsertAt(a: array<Podcast>, i: nat)
    requires i < a.Length
    modifies a
    ensures a[..i + 1] == Insert(old(a[..i]), old(a[i]))
    ensures a[i + 1..] == old(a[i + 1..])
  {
    ghost var sorted := a[..i];
    var x := a[i];
    var j := ShiftPast(a, i, x);
    InsertPosUnique(sorted, x, j);
    a[j] := x;
    ghost var out := sorted[..j] + [x] + sorted[j..];
    forall k | 0 <= k <= i ensures a[k] == out[k] {
      if k < j {
        assert out[k] == sorted[k];
      } else if j < k {
        assert out[k] == sorted[k - 1];
      }
    }
    assert a[..i + 1] == out;
    assert a[i + 1..] == old(a[i + 1..]);
  }

  /** The script's `podcasts.sort(...)`, as an insertion sort in place. */
  method SortInPlace(a: array<Podcast>)
    modifies a
    ensures a[..] == SortByTitle(old(a[..]))
  {
    ghost var original := a[..];
    for i := 0 to a.Length
      invariant a[..i] == SortByTitle(original[..i])
      invariant a[i..] == original[i..]
    {
      assert a[i] == original[i];
      InsertAt(a, i);
      assert original[..i + 1][..i] == original[..i];
    }
    assert a[..a.Length] == a[..];
    assert original[..a.Length] == original;
  }
}
