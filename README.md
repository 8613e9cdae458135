# A verified model of updateWiki.py

`updateWiki.py` keeps the Perfectly Generic Podcast wiki in step with the podcast's
RSS feed. For every feed entry newer than the newest entry that already has a wiki
page, oldest first, it:

- uploads the cover image;
- points the previous episode's `|next=` field at the new episode;
- creates the episode's page from a fixed template;
- adds the episode to the podcast's own page, "Perfectly Generic Podcast". This adds a
  list item after the previous episode's line and brings the panel roster up to date.

This project models that work in Dafny and proves what the script promises about it.

- **Text** (`text.dfy`): Python's string operations the script relies on.
  - `s.split(sep)`, `sep.join(parts)`, `sub in s`, `s.split('/')[-1]` and `list.index`.
  - The first-match comprehension `[s for s in xs if sub in s][0]`.
  - A reference definition of "replace every occurrence", which `join(split)` is proved
    equal to.
- **Sorting** (`sorting.dfy`): `sorted(panel, key=lambda s: s.lower())` as a stable
  insertion sort on an ASCII lower-case key. It is proved to be a permutation and to
  yield key order.
- **Feed** (`feed.dfy`): the feed entries (newest first) and `metadata`. That is the
  episode record with its number, the previous/next links and the end-of-feed cases.
- **Page** (`page.dfy`): `wikiformat`, both as a template function and as the
  step-by-step `+=` method the script runs. Proved facts:
  - how the page begins and ends;
  - the image and featuring fields;
  - the guests' order;
  - that the page splits back into its template lines.
- **EpisodeList** (`episode_list.dfy`): `mainpagetext` as specification functions plus
  the imperative methods the script runs (the list-item builder, the roster loop and
  the whole update). Proved facts:
  - where the item is inserted;
  - that lines outside the roster are untouched and that no roster line is lost;
  - that every contributor is linked and the host marked;
  - exactly when the update fails.
- **Reconcile** (`reconcile.dfy`): the `main` loop against a wiki held in memory. The
  wiki is a map from page title to text, plus a set of uploaded file names and a log of
  edits.
  - A `Site` class holds the wiki as mutable fields. Its methods run the boundary
    scan and the guarded edits.
  - Each method is proved equal to a specification function over wiki values.
  - Proved facts:
    - the boundary is the least index whose page exists;
    - every step writes at most three pages;
    - a successful run gives every new episode a page;
    - a second run over its result changes nothing.

Failures that the script raises as Python exceptions are modelled as `Result` or
`Option` values that say which failure it was.

Points where the model follows the code:

- The title is used verbatim as the page name.
- When no feed entry has a page, the boundary is 0, so nothing is added.
- The `|next=` patch replaces every marker and leaves a page without a marker as it
  was. The page is still written back.
- A single contributor gives `with [[A]] and [[A]] **`.
- The oldest feed entry has an empty `previous`. The empty string is contained in every
  line, so if `mainpagetext` is given that entry, its list item goes after line 0. The
  loop in `main` never reaches that entry: the entry below the boundary always has a
  page, so every episode the loop adds has a non-empty `previous` that links the next
  older entry (`Reconcile.RunHasPrevious`). The step on its own, applied to the oldest
  entry, reads and writes the page whose title is the empty string, as the script would.
- `featuring.index(name) == 0` holds for every occurrence of the host's name.

## Model

| member | source | states |
|---|---|---|
| Text.LastSegment | updateWiki.py:43 | `split('/')[-1]`: the file name holds no `/` and is either the whole string or the part after a `/` that ends it |
| Text.LastSegmentUnique | updateWiki.py:87-90 | that description of `split('/')[-1]` fixes the segment, so it is an independent definition of it |
| Feed.EpisodeNumber | updateWiki.py:86-90 | the number is "Bonus " plus the link's last segment when the link contains "bonus", otherwise the last segment itself |
| Feed.Unlink | updateWiki.py:49 | the slice `[2:-2]`: four characters shorter, or empty for a string of at most four; `UnlinkWikiLink` states its inverse |
| Feed.UnlinkWikiLink | updateWiki.py:49 | slicing `[2:-2]` off `[[title]]` gives the title back |
| Feed.Metadata | updateWiki.py:72-125 | title, link and featuring are copied from the entry; duration defaults to ""; the number is the one the link gives; `previous` is empty exactly at the last index and otherwise is `[[title]]` of entry i+1; `next` is empty exactly at index 0 and otherwise is `[[title]]` of entry i-1 |
| Feed.ChainLinks | updateWiki.py:104-116 | neighbouring records link each other: the newer one's `previous` is the older one's title and the older one's `next` the newer one's |
| Page.WikiFormat | updateWiki.py:128-151 | the template page: 26 fixed lines with the episode's fields filled in; its shape is stated by the lemmas below |
| Page.FormatPage | updateWiki.py:128-151 | appending the fields one at a time, with one guest link per loop turn, yields the template page |
| Page.AppendedInOrder | updateWiki.py:131-149 | the `+=` chain spells out the 26 template lines joined by newlines |
| Page.PageStarts | updateWiki.py:131 | the page opens with `{{Podcast episode` |
| Page.PageEnds | updateWiki.py:149 | the page ends with the two category lines |
| Page.PageImageField | updateWiki.py:133 | the page holds `|image1=` followed by the last segment of the image address |
| Page.PageFeaturingField | updateWiki.py:136-138 | the featuring field is the first contributor marked ` (host)<br>`, then every later contributor's link and `<br>`, in order |
| Page.GuestsInOrder | updateWiki.py:137-138 | the guest loop's text is the guests' `[[name]]<br>` items joined with nothing in between |
| Page.PageReadsBack | updateWiki.py:131-151 | when no field holds a newline, splitting the page at newlines gives back the 26 template lines, including the `|next=` and `|image1=` lines |
| Page.PageMentionsNext | updateWiki.py:143 | the page contains its `next` link, so an already linked page is not patched again |
| EpisodeList.EntryLine | updateWiki.py:159-165 | the list item: `* [[title]] with`, the contributors' links, `**`; its shape is stated by the lemmas below |
| EpisodeList.NewEpisodeLine | updateWiki.py:159-165 | building the item with one `, [[name]]` per middle contributor yields the list-item function |
| EpisodeList.EntryLineIsSentence | updateWiki.py:159-165 | with two or more contributors, the item is "with" plus the comma-separated links of all but the last, a comma only when there are more than two, then "and" plus the last link |
| EpisodeList.MiddleIsJoin | updateWiki.py:160-162 | the host's link followed by the loop's `, [[name]]` pieces equals the `", "`-join of their links |
| EpisodeList.SingleContributor | updateWiki.py:160-165 | one contributor is named twice: `with [[A]] and [[A]] **` |
| EpisodeList.EntryLineNamesAll | updateWiki.py:159-165 | the item links the episode and every contributor |
| EpisodeList.PreviousIndexIsFirst | updateWiki.py:171-172 | looking the first matching line up again by value finds the same position |
| EpisodeList.InsertAfterPrevious | updateWiki.py:168-175 | the item goes after the first line containing `previous`, and the step fails when none does; stated by `InsertionPlacement` |
| EpisodeList.InsertionPlacement | updateWiki.py:168-175 | insertion fails exactly when no line contains `previous`; otherwise the item sits at p+1, where line p is the first containing `previous`, one line is added, and removing the item gives the old lines back in order |
| EpisodeList.EmptyPreviousGoesSecond | updateWiki.py:171-175 | with an empty `previous` the item goes right after line 0 |
| EpisodeList.PanelBounds | updateWiki.py:181-183 | the roster span starts after the first `== Panel ==` line and ends at the first empty line after it; the header is reported missing exactly when no line is `== Panel ==` |
| EpisodeList.PanelEndMissingIff | updateWiki.py:182 | the panel end is missing exactly when no empty line follows the header |
| EpisodeList.AddMissing | updateWiki.py:188-190 | a roster that already links the contributor comes back unchanged; otherwise `* [[name]]` is added and the roster re-sorted |
| EpisodeList.Mentions | updateWiki.py:188 | `any('[[name]]' in s for s in panel)`: some roster line contains the contributor's link |
| EpisodeList.AddMissingSorted | updateWiki.py:189-190 | a roster that gained a line holds the old lines plus `* [[name]]` (as multisets) and is in lower-case key order |
| EpisodeList.AddMissingMentions | updateWiki.py:188-190 | after the addition the roster links the contributor and keeps every old line |
| EpisodeList.MarkHost | updateWiki.py:193-195 | the host step on the first line linking the host; stated by `MarkHostFails`, `MarkHostKeeps` and `MarkHostMarks` |
| EpisodeList.MarkHostFails | updateWiki.py:193-195 | the host step fails exactly when the first line linking the host lacks `]] (host)` and no line is exactly `* [[host]]` |
| EpisodeList.MarkHostKeeps | updateWiki.py:193-195 | a successful host step either returns the roster unchanged or appends ` (host)` to one line that is exactly `* [[host]]` and changes nothing else |
| EpisodeList.MarkHostMarks | updateWiki.py:193-195 | after a successful host step some line links the host and carries `]] (host)` |
| EpisodeList.HostTest | updateWiki.py:193 | `featuring.index(name) == 0` holds exactly for the occurrences of the first contributor's name |
| EpisodeList.SyncOne | updateWiki.py:186-195 | one roster iteration fails only on a missing host line; otherwise it keeps every line and links its contributor |
| EpisodeList.SyncOneMarksHost | updateWiki.py:193-195 | the iteration for the host leaves the host marked |
| EpisodeList.SyncPanel | updateWiki.py:186-195 | the roster loop fails only on a missing host line; otherwise it keeps every line, links every contributor it visits, and leaves the host marked |
| EpisodeList.SyncRoster | updateWiki.py:186-195 | the imperative roster loop, with its early exit, computes the roster function |
| EpisodeList.MainPageLines | updateWiki.py:154-198 | the updated page as lines: insert the item, cut out the roster span, run the roster loop, splice the result back; stated by the `MainPage*` lemmas |
| EpisodeList.MainPage | updateWiki.py:154-199 | the updated page lines joined with newlines |
| EpisodeList.UpdatedRoster | updateWiki.py:181-198 | the roster span of the updated page |
| EpisodeList.UpdatedRosterIsPanel | updateWiki.py:181-198 | the roster span of the updated page is exactly what the roster loop made of the old roster span |
| EpisodeList.MainPageFailures | updateWiki.py:160-195 | the update fails for want of contributors exactly when there are none; then for want of a previous line exactly when no line contains `previous`; then for want of a panel header exactly when the lines lack `== Panel ==`, and for want of an end exactly when the bounds lack one |
| EpisodeList.MainPageOutsideSpan | updateWiki.py:198 | every line before and after the roster span is as it was after the insertion |
| EpisodeList.MainPageKeepsLines | updateWiki.py:175-198 | every line of the old page and the new item survive in the new page as the start of some line, which may carry any extension |
| EpisodeList.MainPageLinksEpisode | updateWiki.py:154-199 | the new page text links the episode, so the guard at line 65 skips it on a second run |
| EpisodeList.MainPageLinksContributor | updateWiki.py:186-199 | the roster span of the new page, and so the new page text, links every contributor of the episode |
| EpisodeList.MainPageMarksHost | updateWiki.py:193-198 | after the update some line of the roster span links the host and carries `]] (host)` |
| EpisodeList.MainPageText | updateWiki.py:154-199 | the imperative update (insert, cut out the roster, run the loop, splice back, join) computes the page function |
| Sorting.SortByLower | updateWiki.py:190 | `sorted(panel, key=lambda s: s.lower())` as an insertion sort; keeps the length |
| Sorting.InsertByKeyPerm | updateWiki.py:190 | inserting adds exactly one element and keeps all others |
| Sorting.InsertByKeySorted | updateWiki.py:190 | inserting into a key-ordered roster keeps it key-ordered |
| Sorting.SortByLowerPerm | updateWiki.py:190 | the sort is a permutation |
| Sorting.SortByLowerSorted | updateWiki.py:190 | the sort yields lower-case key order |
| Sorting.LexLeTotal | updateWiki.py:190 | Python's string order is total |
| Sorting.LexLeTrans | updateWiki.py:190 | Python's string order is transitive |
| Sorting.InsertByKeyStable | updateWiki.py:190 | inserting into a key-ordered roster puts the new element after every element with the same key |
| Sorting.SortByLowerStable | updateWiki.py:190 | the sort is stable: for every key, the elements with that key keep their relative order |
| Text.Split | updateWiki.py:51 | `s.split(sep)`: never empty; its meaning is stated by `JoinSplitIsReplace`, `SplitJoinRoundTrip` and `SplitJoinLines` |
| Text.Join | updateWiki.py:52 | `sep.join(parts)`: the parts with `sep` between neighbours; stated by the same lemmas |
| Text.SplitJoinLines | updateWiki.py:168-199 | splitting newline-free lines joined by a newline gives the lines back |
| Text.Contains | updateWiki.py:50 | Python's `sub in s`; its meaning is stated by `ContainsIff` |
| Text.ContainsIff | updateWiki.py:50 | `sub in s` holds exactly when `sub` occurs at some position of `s` |
| Text.JoinSplitIsReplace | updateWiki.py:51-52 | `rep.join(s.split(pat))` is replacing every occurrence of `pat` by `rep` |
| Text.SplitJoinRoundTrip | updateWiki.py:168-199 | `sep.join(s.split(sep)) == s` |
| Text.IndexOf | updateWiki.py:172 | `list.index` finds the first position holding the value and fails exactly when it is absent |
| Text.FirstContaining | updateWiki.py:171 | the first element containing `sub`, with none before it; none when no element contains it |
| Reconcile.PageText | updateWiki.py:49 | `site.pages[name].text()`: the page's text, or "" for a page that does not exist |
| Reconcile.Site.Read | updateWiki.py:64 | `.text()` on the mutable site: `PageText` of the site's current state |
| Reconcile.EditPage | updateWiki.py:53 | an edit sets the named page to the given text, appends one record to the log and leaves the other pages and the files alone |
| Reconcile.Site.Edit | updateWiki.py:61 | the edit on the mutable site matches the edit function and appends the edit to the log |
| Reconcile.Site.Upload | updateWiki.py:45 | the upload adds the file name to the site's files and changes nothing else |
| Reconcile.FirstExisting | updateWiki.py:27-30 | the first index from i on whose page exists, with none before it; none when no later page exists |
| Reconcile.Boundary | updateWiki.py:26-30 | `lastOldIndex`: the first existing index, or 0; stated by `BoundaryIsLeast` |
| Reconcile.BoundaryIsLeast | updateWiki.py:26-30 | `lastOldIndex` is the least index whose page exists, and 0 when no page exists |
| Reconcile.Site.FindLastOldIndex | updateWiki.py:26-30 | the scan with its early `break` computes the boundary |
| Reconcile.RunHasPrevious | updateWiki.py:26-36 | every episode the loop adds has a non-empty `previous`, which links the next older feed entry |
| Reconcile.PatchNext | updateWiki.py:51-52 | `("|next=" + [[title]]).join(text.split("|next="))`; stated by the two lemmas below |
| Reconcile.PatchNextIsReplace | updateWiki.py:51-52 | the previous-page patch replaces every `|next=` by `|next=[[title]]` |
| Reconcile.PatchNextEffect | updateWiki.py:51-52 | a page without the marker comes back unchanged; a page with it then mentions the title |
| Reconcile.PatchPrevious | updateWiki.py:49-53 | when the previous page already mentions the title nothing changes; otherwise the previous page is set to its patched text and no other page changes; the files are kept, and a page that had the marker then mentions the title |
| Reconcile.PatchPreviousIdempotent | updateWiki.py:49-53 | patching twice leaves the pages as patching once |
| Reconcile.UploadImage | updateWiki.py:43-45 | after the step the image's file name is among the files, and the pages are untouched |
| Reconcile.CreatePage | updateWiki.py:60-61 | an existing page of that title leaves the wiki unchanged; otherwise the page is set to the template page; either way the episode has a page and no other page changed |
| Reconcile.UpdateList | updateWiki.py:64-67 | a list page that already mentions the title leaves the wiki unchanged; otherwise a failed update leaves the wiki unchanged and reports that update's error, and a successful one sets the list page to the updated text; on success the list page mentions the title, and no other page changes |
| Reconcile.Step | updateWiki.py:40-67 | one episode writes at most the previous page, its own page and the list page, and removes none; its image is uploaded; on success it has a page and the list page mentions it; it fails for want of contributors exactly when the entry has no tags |
| Reconcile.StepQuiet | updateWiki.py:44-67 | on a wiki where every guard already holds, a step changes nothing |
| Reconcile.TitlesMeaning | updateWiki.py:36 | the titles set of the first n entries is exactly the titles at indices below n |
| Reconcile.RunDown | updateWiki.py:36-67 | the loop from the boundary down to 0 removes no page and, when it succeeds, gives every visited episode a page |
| Reconcile.Sync | updateWiki.py:26-67 | the whole run: the boundary scan, then the loop from the boundary down to 0; stated by the lemmas below |
| Reconcile.SyncMirrorsFeed | updateWiki.py:26-67 | after a successful run every episode newer than the boundary has a page and no page was removed |
| Reconcile.SecondRunQuiet | updateWiki.py:26-67 | a second run over the wiki a successful run left behind returns that same wiki |
| Reconcile.Site.AddEpisode | updateWiki.py:40-67 | the loop body, in the script's order on the mutable site, matches the step function |
| Reconcile.Site.UpdatePreviousPage | updateWiki.py:49-53 | the guarded split/join edit on the site matches the patch function |
| Reconcile.Site.UpdateEpisodeList | updateWiki.py:64-67 | the guarded list-page edit on the site matches the list-update function |
| Reconcile.Site.Run | updateWiki.py:26-67 | the boundary scan followed by the reversed loop, stopping at the first error, matches the run function |

## Left out

- Fetching the feed with feedparser, and connecting and logging in to the wiki with mwclient (updateWiki.py:19-23): network I/O. The feed is a parameter, and the wiki is a value held in memory.
- The `imageinfo` lookup and the upload itself (updateWiki.py:44-45): remote calls. The upload adds the file name to the set of files.
- Summary extraction with BeautifulSoup (updateWiki.py:119-120): an HTML parser. The summary is an opaque string in each entry.
- Date formatting with `time.strftime` (updateWiki.py:96): a library call. The date is an opaque string in each entry.
- The attribute probe for the duration (updateWiki.py:99-102): modelled as an optional field that defaults to "".
- Progress output with `print` (updateWiki.py:32-33, 37, 69) and the call to `main()` (updateWiki.py:202). The one effect kept is the crash of line 32 on an empty feed, modelled as the `EmptyFeed` error.
- Sorting.Lower: `str.lower()` is modelled for ASCII letters only. Other characters are their own key, so the order of names that differ only in non-ASCII case is not modelled.
- Reconcile.Sync: an empty feed is modelled as the `EmptyFeed` error, where the script raises IndexError at line 32.
- EpisodeList.MarkHost: a roster that links the host nowhere cannot reach the host step, because the addition comes first. The model reports that case as a missing host line, where the script would raise IndexError at line 194.
- EpisodeList.SyncOne: "keeps every line" means every old line is the start of some new line. That allows duplicate lines to merge and any text to be appended; the exact change is stated only for the host step, by `MarkHostKeeps`.
- EpisodeList.MainPageKeepsLines: states that every old line is the start of some new line, which allows duplicate lines to merge and any extension. The exact form of each step is stated by `InsertionPlacement`, `MainPageOutsideSpan`, `AddMissingSorted` and `MarkHostKeeps`.
- EpisodeList.SyncPanel: "keeps every line" is stated as every old line surviving as a prefix of some new line. It is not stated as an exact count of lines, because the host step extends a line in place.
- EpisodeList.MainPageMarksHost: states that some line of the roster span links the host and carries the mark. That need not be the first line linking the host, which is the line the script's own test looks at.
- Exceptions raised by the wiki library (an edit refused, a page name rejected) are not modelled: every edit succeeds.
