# news_podcast: widget rendering and podcast list extraction

This project models two small pieces of deterministic logic from the
news_podcast app and proves properties of them in Dafny.

- **The home-screen widget's update callback** (`PodcastWidgetProvider.onUpdate`).
  For every widget id it builds a view tree from the stored widget state. The
  title is the stored episode title, or "No Episode". The artwork is the decoded
  image, or the `ic_menu_recent_history` placeholder when there is no path or
  decoding throws. The play/pause label is "Pause" or "Play". Four tap actions
  are bound: the root container opens `MainActivity`, and the three buttons send
  the fixed background tokens `podcastWidget://playpause`, `podcastWidget://rewind`
  and `podcastWidget://forward`. Each tree is then submitted to the widget
  manager. Module `PodcastWidget` (`podcast_widget.dfy`) holds the pure choice
  functions and the reference tree `Render`. It also has classes for the framework
  objects: `RemoteViews` records what its setters set, and `AppWidgetManager` logs
  submissions. `PodcastWidgetProvider.OnUpdate` loops over the ids, and its result
  is proved equal to one `Render` per id, in id order.
- **The podcast list extraction script** (`tools/extract_podcasts.py`). It reads
  the anchors of the BNR podcasts page and drops those without a non-blank title.
  It keeps the first titled anchor for each href, builds one entry record per
  href, and writes the entries stably sorted by title. The modules are:
  - `PyStr` (`pystr.dfy`): Python's `str.strip()` and string `<`.
  - `PodcastList` (`podcast_list.dfy`): the entry rules and `Collect`, the
    insertion-ordered values of the `entries` dictionary.
  - `TitleSort` (`title_sort.dfy`): the stable sort specification and an
    in-place insertion sort on an array.
  - `ExtractPodcasts` (`extract_podcasts.dfy`): the script's loop over a map plus
    an insertion-order sequence, then `list(...)` and the sort.

`Opt` (`option.dfy`) is the optional-value datatype that both sides use.

Each anchor arrives already matched. It carries its href and the raw first group
of each pattern the script looks for: the `<h2>` title, the
`VerticalCard2_description` span, any span, and the first `<img>`'s `src`.
Image decoding is a function `string -> DecodeResult` passed in by the caller.

Two behaviours of the widget code are worth stating:
- Kotlin's `?:` replaces only a missing title, so a stored empty title is shown
  as the empty string.
- The ids are an `IntArray`, so a repeated id gets one submission per
  occurrence.

## Model

| member | source | states |
|---|---|---|
| `PodcastWidget.TitleText` | android/app/src/main/kotlin/com/example/news_podcast/PodcastWidgetProvider.kt:32-35 | the title is the stored `episode_title` when present, and "No Episode" when absent |
| `PodcastWidget.ArtworkOrDefault` | android/app/src/main/kotlin/com/example/news_podcast/PodcastWidgetProvider.kt:37-48 | no path gives the placeholder; a path that decodes gives that bitmap; the result is the placeholder exactly when the path is absent or decoding fails |
| `PodcastWidget.NoDecodeWithoutPath` | android/app/src/main/kotlin/com/example/news_podcast/PodcastWidgetProvider.kt:46-48 | without a path the artwork is the placeholder whatever the decoder does, so no decode is involved |
| `PodcastWidget.PlayPauseLabel` | android/app/src/main/kotlin/com/example/news_podcast/PodcastWidgetProvider.kt:50-53 | the label is "Pause" exactly when `is_playing` is stored as true, and "Play" otherwise, including when it is absent |
| `PodcastWidget.ActionUriRoundTrip` | android/app/src/main/kotlin/com/example/news_podcast/PodcastWidgetProvider.kt:55-73 | each of the three action tokens reads back from its URI as itself, so the three URIs are distinct |
| `PodcastWidget.RootLaunchesApp` | android/app/src/main/kotlin/com/example/news_podcast/PodcastWidgetProvider.kt:24-29 | the root container is always bound to launching `MainActivity` |
| `PodcastWidget.ButtonsSendFixedTokens` | android/app/src/main/kotlin/com/example/news_podcast/PodcastWidgetProvider.kt:55-73 | play/pause, rewind and forward send `podcastWidget://playpause`, `podcastWidget://rewind` and `podcastWidget://forward`; these four are the only bindings, and they are the same for every state and decoder |
| `PodcastWidget.RenderContent` | android/app/src/main/kotlin/com/example/news_podcast/PodcastWidgetProvider.kt:31-53 | the tree sets exactly the title and play/pause texts and the artwork image, to the values above |
| `PodcastWidget.Updates` | android/app/src/main/kotlin/com/example/news_podcast/PodcastWidgetProvider.kt:22-77 | one submission per input id, in input order, each carrying the rendered tree for the state |
| `PodcastWidget.UpdatesUniform` | android/app/src/main/kotlin/com/example/news_podcast/PodcastWidgetProvider.kt:22-77 | all widgets in one call get identical content, and an empty id array gives no submissions |
| `PodcastWidget.RemoteViews.constructor` | android/app/src/main/kotlin/com/example/news_podcast/PodcastWidgetProvider.kt:23 | a new tree for the widget layout has nothing set |
| `PodcastWidget.RemoteViews.SetTextViewText` | android/app/src/main/kotlin/com/example/news_podcast/PodcastWidgetProvider.kt:32-35 | records the text for one view and changes nothing else |
| `PodcastWidget.RemoteViews.SetImageViewBitmap` | android/app/src/main/kotlin/com/example/news_podcast/PodcastWidgetProvider.kt:42 | records a bitmap for one view and changes nothing else |
| `PodcastWidget.RemoteViews.SetImageViewResource` | android/app/src/main/kotlin/com/example/news_podcast/PodcastWidgetProvider.kt:44 | records a drawable for one view and changes nothing else |
| `PodcastWidget.RemoteViews.SetOnClickPendingIntent` | android/app/src/main/kotlin/com/example/news_podcast/PodcastWidgetProvider.kt:29 | records the tap action for one view and changes nothing else |
| `PodcastWidget.AppWidgetManager.UpdateAppWidget` | android/app/src/main/kotlin/com/example/news_podcast/PodcastWidgetProvider.kt:76 | appends exactly one submission, a copy of the tree as it stands, for the given id |
| `PodcastWidget.PodcastWidgetProvider.BuildViews` | android/app/src/main/kotlin/com/example/news_podcast/PodcastWidgetProvider.kt:23-74 | the step-by-step setter calls, with the try/catch as a fallback, build exactly the reference tree `Render` |
| `PodcastWidget.PodcastWidgetProvider.OnUpdate` | android/app/src/main/kotlin/com/example/news_podcast/PodcastWidgetProvider.kt:16-78 | the manager's log grows by exactly `Updates(ids, state, decoder)`: one complete submission per id, in order, with no error path |
| `PyStr.TrimStartSpec` | tools/extract_podcasts.py:17 | removes exactly the leading whitespace: the result is a suffix, what was removed is all whitespace, and the result does not start with whitespace |
| `PyStr.TrimEndSpec` | tools/extract_podcasts.py:17 | removes exactly the trailing whitespace, symmetrically |
| `PyStr.StripSpec` | tools/extract_podcasts.py:17 | the result is the slice between the leading and trailing whitespace, and neither of its ends is whitespace |
| `PyStr.StripEmptyIff` | tools/extract_podcasts.py:24-25 | a string strips to "" exactly when every character is whitespace (a "blank" title) |
| `PyStr.StripIdempotent` | tools/extract_podcasts.py:17 | stripping a stripped string changes nothing |
| `PyStr.BelowIrreflexive` | tools/extract_podcasts.py:36 | no string sorts below itself under Python's `<` |
| `PyStr.BelowTransitive` | tools/extract_podcasts.py:36 | Python's `<` on strings is transitive |
| `PyStr.BelowTotal` | tools/extract_podcasts.py:36 | any two distinct strings are ordered by `<` one way or the other |
| `PyStr.NotBelowTransitive` | tools/extract_podcasts.py:36 | "not above" (`<=`) on strings is transitive |
| `PodcastList.StripMatch` | tools/extract_podcasts.py:17 | a matched group becomes its stripped text, and no match becomes None |
| `PodcastList.DescriptionOf` | tools/extract_podcasts.py:18-21 | the description is the stripped `VerticalCard2_description` span if there is one, else the stripped first plain span, else None |
| `PodcastList.ImageOf` | tools/extract_podcasts.py:22-23 | the image is the stripped `src` of the first `<img>`, or None when there is none |
| `PodcastList.EntryOf` | tools/extract_podcasts.py:27-33 | an entry has a non-empty stripped title, the anchor's href, `absolute_url == "https://www.bnr.nl/" + href`, and the chosen description and image |
| `PodcastList.HrefSetMembers` | tools/extract_podcasts.py:26 | an href is a key of the dictionary exactly when some entry carries it |
| `PodcastList.StepHrefs` | tools/extract_podcasts.py:24-33 | one loop pass adds the anchor's href to the keys when the anchor is titled, whether or not it was already there, and adds nothing when it is untitled |
| `PodcastList.CollectLength` | tools/extract_podcasts.py:14-35 | there are never more entries than anchors |
| `PodcastList.CollectHrefsDistinct` | tools/extract_podcasts.py:26-33 | the entries' hrefs are pairwise distinct |
| `PodcastList.CollectWellFormed` | tools/extract_podcasts.py:24-33 | every entry has a non-empty, already-stripped title and `absolute_url` equal to the site root plus its href |
| `PodcastList.CollectCoversTitled` | tools/extract_podcasts.py:24-33 | every titled anchor's href has an entry |
| `PodcastList.CollectFromFirst` | tools/extract_podcasts.py:26-33 | each entry is the record of the first titled anchor with its href (first occurrence wins) |
| `PodcastList.CollectKeepsFirst` | tools/extract_podcasts.py:26-33 | the first titled anchor of each href contributes its record |
| `PodcastList.CollectPrefixAgree` | tools/extract_podcasts.py:14-33 | the entries after the first `n` anchors depend on those anchors only |
| `PodcastList.LaterAnchorIgnored` | tools/extract_podcasts.py:24-26 | an untitled anchor, or a later duplicate of a kept href, changes nothing |
| `PodcastList.SkipStep` | tools/extract_podcasts.py:24-26 | one loop pass over an untitled anchor, or over one whose href is already a key, leaves the entries as they are |
| `PodcastList.SkippedAnchorIgnored` | tools/extract_podcasts.py:24-33 | removing, from anywhere in the input, an anchor the loop skips (untitled, or whose href is already a key when the loop reaches it) leaves the entries unchanged |
| `TitleSort.InsertPosSpec` | tools/extract_podcasts.py:36 | the entry just before the insertion point has a title not above the new one, and every entry after it has a title above it |
| `TitleSort.InsertPosUnique` | tools/extract_podcasts.py:36 | any position with those two properties is the insertion point |
| `TitleSort.InsertMembers` | tools/extract_podcasts.py:36 | an insertion step introduces no entry other than the inserted one |
| `TitleSort.WithTitleAppend` | tools/extract_podcasts.py:36 | the entries of one title in a concatenation are those of the first part followed by those of the second |
| `TitleSort.WithTitleBetween` | tools/extract_podcasts.py:36 | placing an entry between two parts adds it last among the entries of its title, provided no entry of the second part has that title |
| `TitleSort.InsertMultiset` | tools/extract_podcasts.py:36 | an insertion step adds exactly the inserted entry |
| `TitleSort.InsertSorted` | tools/extract_podcasts.py:36 | an insertion step keeps a title-sorted list sorted |
| `TitleSort.InsertWithTitle` | tools/extract_podcasts.py:36 | an insertion step puts the new entry after every entry with the same title |
| `TitleSort.InsertDistinct` | tools/extract_podcasts.py:36 | inserting an entry with a new href keeps the hrefs distinct |
| `TitleSort.SortSorted` | tools/extract_podcasts.py:36 | the sorted list is ascending by title |
| `TitleSort.SortPermutation` | tools/extract_podcasts.py:36 | the sorted list is a permutation of its input |
| `TitleSort.SortStable` | tools/extract_podcasts.py:36 | for every title, the entries with that title keep their input order |
| `TitleSort.SortMembers` | tools/extract_podcasts.py:36 | every entry of the sorted list comes from its input |
| `TitleSort.SortDistinct` | tools/extract_podcasts.py:36 | sorting a list with distinct hrefs keeps them distinct |
| `TitleSort.ShiftPast` | tools/extract_podcasts.py:36 | entries below the free slot stay, those above move up one place, every title moved is above the key, and the one before the slot is not |
| `TitleSort.InsertAt` | tools/extract_podcasts.py:36 | shifting `a[i]` left past larger titles in place performs one insertion step and leaves the rest of the array alone |
| `TitleSort.SortInPlace` | tools/extract_podcasts.py:36 | the in-place sort leaves the array holding exactly the stable title sort of its old contents |
| `ExtractPodcasts.HoldsInsert` | tools/extract_podcasts.py:26-33 | adding a new href to the dictionary and its insertion order keeps them in step with the entry list |
| `ExtractPodcasts.CollectEntries` | tools/extract_podcasts.py:14-33 | the loop yields a dictionary whose insertion-ordered values are `Collect(anchors)`, whose keys are exactly the kept hrefs, and whose every value's `href` equals its key |
| `ExtractPodcasts.ExtractPodcasts` | tools/extract_podcasts.py:14-36 | the script's list is exactly the stable title sort of the first-wins entries |
| `ExtractPodcasts.ExtractedSortedStable` | tools/extract_podcasts.py:35-36 | the written list is sorted by title and stable for equal titles; it is a permutation of the kept entries and no longer than the anchor list |
| `ExtractPodcasts.ExtractedEntries` | tools/extract_podcasts.py:26-36 | the written entries have distinct hrefs and are well formed; each is the first titled anchor's record for its href, and every such anchor has its record in the list |

## Left out

- The Android framework calls (`RemoteViews`, `AppWidgetManager`, `SharedPreferences`, `HomeWidgetLaunchIntent`, `HomeWidgetBackgroundIntent`, `Uri.parse`, `Context`) are foreign APIs. Only their effect is modelled: recorded view values, tap actions and a submission log.
- `BitmapFactory.decodeFile` is a caller-supplied function that succeeds or fails. The real call returns `null` for an unreadable file instead of throwing. The widget would then receive a null bitmap rather than the placeholder. This behaviour is not modelled. Likewise `catch (e: Exception)` does not catch a Java `Error`: an `OutOfMemoryError` raised while decoding a large image would escape `onUpdate`, whereas the model's `DecodeFailed` always yields the placeholder.
- `PodcastWidget.PodcastWidgetProvider.OnUpdate`: the state is one snapshot for the whole call. The source reads the preferences again for every id, so a concurrent writer could make two ids of one call differ. The model does not capture this.
- A preference stored under one of the three keys with the wrong type, which makes the real getters throw, is not modelled.
- When the host calls `onUpdate`, and what the receiver of the background tokens does, lie outside this code.
- The regular expressions and the HTML patterns (extract_podcasts.py:13-22) are not modelled. The anchors arrive as records of the matched groups, and only the choice between matches is modelled.
- File and output I/O are not modelled: path resolution, the directory creation, `read_text(errors="ignore")`, `json.dumps` and `write_text` (extract_podcasts.py:5-11 and 38).
- `TitleSort.SortInPlace`: Python sorts with Timsort; the model uses a stable insertion sort with the same key and the same `<`. Sortedness, permutation and stability are proved for it. That another stable sort gives the same list is not proved here.
- The default `""` in `x.get("title", "")` is never used: every entry has a title.
