/**
 * The update run of updateWiki.py (`main`), against a wiki held in memory: a map from
 * page title to page text, the set of uploaded file names, and the log of edits made.
 * The run finds the newest feed entry that already has a page, then adds the newer
 * episodes oldest first; every write is guarded so that work already done is not
 * done again.
 */
module Reconcile {
  import opened Text
  import opened Feed
  import opened Page
  import opened EpisodeList

  /** The title of the podcast's own page, which lists the episodes. */
  const ListPage: string := "Perfectly Generic Podcast"

  /** One `page.edit(text, summary)` call. */
  datatype EditRecord = EditRecord(page: string, text: string, summary: string)

  /** The state of the wiki as the run sees it. */
  datatype Wiki = Wiki(pages: map<string, string>, images: set<string>, log: seq<EditRecord>)

  /** Where the run stops with an exception. */
  datatype SyncError =
    | EmptyFeed                      // `d.entries[0]` in the first progress message
    | EpisodeWithoutContributors     // `md['featuring'][0]` in `wikiformat`
    | ListPageFailed(cause: ListError) // `mainpagetext` raised

  /** The wiki after a step or a run, and the error that ended it, if any. Edits made
      before an error stay made. */
  datatype Outcome = Outcome(wiki: Wiki, error: Option<SyncError>)

  /** `site.pages[name].text()`: the empty text for a page that does not exist. */
  function PageText(w: Wiki, name: string): string {
    if name in w.pages then w.pages[name] else ""
  }

  /** `site.pages[name].edit(text, summary)`: creates or overwrites the page. */
  function EditPage(w: Wiki, name: string, text: string, summary: string): (r: Wiki)
    ensures r.pages.Keys == w.pages.Keys + {name}
    ensures r.pages == w.pages[name := text] && PageText(r, name) == text
    ensures r.log == w.log + [EditRecord(name, text, summary)]
    ensures r.images == w.images
  {
    w.(pages := w.pages[name := text], log := w.log + [EditRecord(name, text, summary)])
  }

  // ---------------------------------------------------------------------------
  // The boundary between old and new episodes
  // ---------------------------------------------------------------------------

  /** The first feed index from `i` on whose title has a page. */
  function FirstExisting(pages: map<string, string>, feed: seq<Entry>, i: nat): (r: Option<nat>)
    requires i <= |feed|
    ensures r.Some? ==> i <= r.value < |feed| && feed[r.value].title in pages
    ensures r.Some? ==> forall j :: i <= j < r.value ==> feed[j].title !in pages
    ensures r.None? ==> forall j :: i <= j < |feed| ==> feed[j].title !in pages
    decreases |feed| - i
  {
    if i == |feed| then None
    else if feed[i].title in pages then Some(i)
    else FirstExisting(pages, feed, i + 1)
  }

  /** `lastOldIndex`: the first index whose page exists, and 0 when none does. */
  function Boundary(pages: map<string, string>, feed: seq<Entry>): nat
  {
    match FirstExisting(pages, feed, 0)
    case Some(i) => i
    case None => 0
  }

  /** The boundary is the least index whose page exists; with no such page it is 0,
      not the end of the feed, so nothing is added. */
  lemma BoundaryIsLeast(pages: map<string, string>, feed: seq<Entry>)
    ensures (forall j :: 0 <= j < |feed| ==> feed[j].title !in pages) ==> Boundary(pages, feed) == 0
    ensures |feed| > 0 ==> Boundary(pages, feed) < |feed|
    ensures forall j :: 0 <= j < Boundary(pages, feed) ==> feed[j].title !in pages
    ensures (exists j :: 0 <= j < |feed| && feed[j].title in pages) ==>
      feed[Boundary(pages, feed)].title in pages
  {
  }

  // ---------------------------------------------------------------------------
  // One episode
  // ---------------------------------------------------------------------------

  /** `'|next=[[T]]'.join(page.split('|next='))`. */
  function PatchNext(text: string, title: string): string {
    Join("|next=" + WikiLink(title), Split(text, "|next="))
  }

  /** The patch replaces every `|next=` marker by one that links the title. */
  lemma PatchNextIsReplace(text: string, title: string)
    ensures PatchNext(text, title) == ReplaceAll(text, "|next=", "|next=" + WikiLink(title))
  {
    JoinSplitIsReplace(text, "|next=", "|next=" + WikiLink(title));
  }

  /** A page without the marker comes back unchanged; a page with it then links the
      title. */
  lemma PatchNextEffect(text: string, title: string)
    ensures !Contains(text, "|next=") ==> PatchNext(text, title) == text
    ensures Contains(text, "|next=") ==> Contains(PatchNext(text, title), title)
  {
    PatchNextIsReplace(text, title);
    if Contains(text, "|next=") {
      var rep := "|next=" + WikiLink(title);
      ReplacePresent(text, "|next=", rep);
      ContainsWhole("|next=[[", title, "]]");
      assert "|next=[[" + title + "]]" == rep;
      ContainsTrans(PatchNext(text, title), rep, title);
    } else {
      ReplaceAbsent(text, "|next=", "|next=" + WikiLink(title));
    }
  }

  /** `b` keeps every page of `a`, and every page not named in `touched` keeps its text. */
  ghost predicate Agree(a: map<string, string>, b: map<string, string>, touched: set<string>) {
    a.Keys <= b.Keys && forall n :: n in a && n !in touched ==> b[n] == a[n]
  }

  /** The three writes of a step, each confined to its own page, together touch only
      those three pages. */
  lemma AgreeSteps(a: map<string, string>, b: map<string, string>, c: map<string, string>,
                   d: map<string, string>, prev: string, title: string)
    requires Agree(a, b, {prev}) && Agree(b, c, {title}) && Agree(c, d, {ListPage})
    ensures Agree(a, d, {prev, title, ListPage})
  {
  }

  lemma AgreeWiden(a: map<string, string>, b: map<string, string>, s: set<string>, t: set<string>)
    requires Agree(a, b, s) && s <= t
    ensures Agree(a, b, t)
  {
  }

  /** Upload the episode's image under its file name unless a file of that name exists. */
  function UploadImage(w: Wiki, image: string): (r: Wiki)
    ensures r.pages == w.pages && r.log == w.log
    ensures r.images == w.images + {LastSegment(image)}
  {
    var fn := LastSegment(image);
    if fn in w.images then w else w.(images := w.images + {fn})
  }

  /** Patch the previous episode's page unless it already mentions the title. */
  function PatchPrevious(w: Wiki, prev: string, title: string): (r: Wiki)
    ensures Agree(w.pages, r.pages, {prev}) && r.images == w.images
    ensures Contains(PageText(w, prev), title) ==> r == w
    ensures !Contains(PageText(w, prev), title) ==>
      r.pages == w.pages[prev := PatchNext(PageText(w, prev), title)]
    ensures Contains(PageText(w, prev), "|next=") ==> Contains(PageText(r, prev), title)
  {
    var prevpage := PageText(w, prev);
    if Contains(prevpage, title) then w
    else
      PatchNextEffect(prevpage, title);
      EditPage(w, prev, PatchNext(prevpage, title), "Added next episode")
  }

  /** Create the episode's page unless a page of that title exists. */
  function CreatePage(w: Wiki, md: Episode): (r: Wiki)
    requires |md.featuring| > 0
    ensures md.title in r.pages
    ensures md.title in w.pages ==> r == w
    ensures md.title !in w.pages ==> r.pages == w.pages[md.title := WikiFormat(md)]
    ensures Agree(w.pages, r.pages, {md.title}) && r.images == w.images
  {
    if md.title in w.pages then w
    else EditPage(w, md.title, WikiFormat(md), "Created page")
  }

  /** Add the episode to the list page unless the list page mentions its title. */
  function UpdateList(w: Wiki, md: Episode): (r: Outcome)
    requires |md.featuring| > 0
    ensures r.error.None? ==> Contains(PageText(r.wiki, ListPage), md.title)
    ensures r.error.Some? ==> r.wiki == w && r.error.value.ListPageFailed?
    ensures Contains(PageText(w, ListPage), md.title) ==> r == Outcome(w, None)
    ensures !Contains(PageText(w, ListPage), md.title) ==>
      match MainPage(PageText(w, ListPage), md)
      case Failure(e) => r == Outcome(w, Some(ListPageFailed(e)))
      case Success(t) => r.error.None? && r.wiki.pages == w.pages[ListPage := t]
    ensures Agree(w.pages, r.wiki.pages, {ListPage}) && r.wiki.images == w.images
  {
    var listpage := PageText(w, ListPage);
    if Contains(listpage, md.title) then Outcome(w, None)
    else match MainPage(listpage, md)
      case Failure(e) => Outcome(w, Some(ListPageFailed(e)))
      case Success(t) =>
        MainPageLinksEpisode(listpage, md);
        Outcome(EditPage(w, ListPage, t, "Updated episode list"), None)
  }

  /** The body of the loop for feed index `i`. It writes at most the previous page, the
      episode's page and the list page, and removes no page; when it succeeds the
      episode has a page and the list page mentions it; it fails for want of
      contributors exactly when the entry has no tags. */
  function Step(w: Wiki, feed: seq<Entry>, i: nat): (r: Outcome)
    requires i < |feed|
    ensures Agree(w.pages, r.wiki.pages, {Unlink(Metadata(feed, i).previous), feed[i].title, ListPage})
    ensures LastSegment(feed[i].imageHref) in r.wiki.images
    ensures r.error.None? ==> feed[i].title in r.wiki.pages
    ensures r.error.None? ==> Contains(PageText(r.wiki, ListPage), feed[i].title)
    ensures r.error == Some(EpisodeWithoutContributors) <==> feed[i].tags == []
  {
    var md := Metadata(feed, i);
    var touched := {Unlink(md.previous), md.title, ListPage};
    var w1 := UploadImage(w, md.image);
    var w2 := PatchPrevious(w1, Unlink(md.previous), md.title);
    if md.featuring == [] then
      AgreeWiden(w.pages, w2.pages, {Unlink(md.previous)}, touched);
      Outcome(w2, Some(EpisodeWithoutContributors))
    else
      var w3 := CreatePage(w2, md);
      var r := UpdateList(w3, md);
      AgreeSteps(w.pages, w2.pages, w3.pages, r.wiki.pages, Unlink(md.previous), md.title);
      r
  }

  /** Inside the run the loop never reaches the oldest feed entry, so the episode it
      handles always has a previous episode, and the page it patches is that
      episode's page. */
  lemma RunHasPrevious(w: Wiki, feed: seq<Entry>, i: nat)
    requires feed != [] && i < Boundary(w.pages, feed)
    ensures i < |feed| - 1
    ensures Metadata(feed, i).previous != ""
    ensures Unlink(Metadata(feed, i).previous) == feed[i + 1].title
  {
    BoundaryIsLeast(w.pages, feed);
  }

  /** Patching twice leaves the pages as patching once: after a patch that found the
      marker the page mentions the title and the guard holds; a patch that found none
      wrote the page back unchanged. */
  lemma PatchPreviousIdempotent(w: Wiki, prev: string, title: string)
    ensures PatchPrevious(PatchPrevious(w, prev, title), prev, title).pages ==
            PatchPrevious(w, prev, title).pages
  {
    var text := PageText(w, prev);
    PatchNextEffect(text, title);
    if !Contains(text, title) {
      var w1 := PatchPrevious(w, prev, title);
      assert PageText(w1, prev) == PatchNext(text, title);
      if !Contains(text, "|next=") {
        assert w1.pages[prev := text] == w1.pages;
      }
    }
  }

  /** On a wiki where every guard already holds, a step writes nothing. */
  lemma StepQuiet(w: Wiki, feed: seq<Entry>, i: nat)
    requires i < |feed|
    requires LastSegment(feed[i].imageHref) in w.images
    requires Contains(PageText(w, Unlink(Metadata(feed, i).previous)), feed[i].title)
    requires feed[i].tags != [] && feed[i].title in w.pages
    requires Contains(PageText(w, ListPage), feed[i].title)
    ensures Step(w, feed, i) == Outcome(w, None)
  {
  }

  // ---------------------------------------------------------------------------
  // The run
  // ---------------------------------------------------------------------------

  /** The titles of the first `n` feed entries. */
  function Titles(feed: seq<Entry>, n: nat): set<string>
    requires n <= |feed|
  {
    if n == 0 then {} else Titles(feed, n - 1) + {feed[n - 1].title}
  }

  /** `Titles` holds exactly the titles at indices below `n`. */
  lemma {:induction false} TitlesMeaning(feed: seq<Entry>, n: nat)
    requires n <= |feed|
    ensures forall i :: 0 <= i < n ==> feed[i].title in Titles(feed, n)
    ensures forall t :: t in Titles(feed, n) ==> exists i :: 0 <= i < n && feed[i].title == t
  {
    if n > 0 {
      TitlesMeaning(feed, n - 1);
    }
  }

  /** The loop over indices `n - 1` down to `0`, oldest new episode first; the first
      error ends it. It removes no page, and when it succeeds every episode it visited
      has a page. */
  function RunDown(w: Wiki, feed: seq<Entry>, n: nat): (r: Outcome)
    requires n <= |feed|
    ensures w.pages.Keys <= r.wiki.pages.Keys
    ensures r.error.None? ==> Titles(feed, n) <= r.wiki.pages.Keys
    decreases n
  {
    if n == 0 then Outcome(w, None)
    else
      var o := Step(w, feed, n - 1);
      if o.error.Some? then o else RunDown(o.wiki, feed, n - 1)
  }

  /** `main` after the connection: find the boundary, stop on an empty feed, add the
      new episodes. */
  function Sync(w: Wiki, feed: seq<Entry>): Outcome
  {
    if feed == [] then Outcome(w, Some(EmptyFeed))
    else
      BoundaryIsLeast(w.pages, feed);
      RunDown(w, feed, Boundary(w.pages, feed))
  }

  /** After a successful run every episode newer than the boundary has a page. */
  lemma SyncMirrorsFeed(w: Wiki, feed: seq<Entry>)
    requires Sync(w, feed).error.None?
    ensures forall i :: 0 <= i < Boundary(w.pages, feed) ==> feed[i].title in Sync(w, feed).wiki.pages
    ensures w.pages.Keys <= Sync(w, feed).wiki.pages.Keys
  {
    BoundaryIsLeast(w.pages, feed);
    TitlesMeaning(feed, Boundary(w.pages, feed));
  }

  /** Running again over the wiki a successful run left behind writes nothing: the
      newest episode now has a page, so the boundary is 0 and the loop is empty. */
  lemma SecondRunQuiet(w: Wiki, feed: seq<Entry>)
    requires Sync(w, feed).error.None?
    ensures Sync(Sync(w, feed).wiki, feed) == Sync(w, feed)
  {
    var w' := Sync(w, feed).wiki;
    SyncMirrorsFeed(w, feed);
    BoundaryIsLeast(w.pages, feed);
    BoundaryIsLeast(w'.pages, feed);
    if Boundary(w.pages, feed) > 0 {
      assert feed[0].title in w'.pages;
    } else if !(exists j :: 0 <= j < |feed| && feed[j].title in w.pages) {
      assert w' == w;
    } else {
      assert feed[0].title in w.pages;
    }
  }

  // ---------------------------------------------------------------------------
  // The wiki as a mutable object
  // ---------------------------------------------------------------------------

  /** The wiki site the run talks to: its pages, its files and the edits made. */
  class Site {
    var pages: map<string, string>
    var images: set<string>
    var log: seq<EditRecord>

    function State(): Wiki
      reads this
    {
      Wiki(pages, images, log)
    }

    constructor(w: Wiki)
      ensures State() == w
    {
      pages, images, log := w.pages, w.images, w.log;
    }

    /** `site.pages[name].text()` */
    function Read(name: string): string
      reads this
    {
      PageText(State(), name)
    }

    /** `site.pages[name].edit(text, summary)` */
    method Edit(name: string, text: string, summary: string)
      modifies this
      ensures State() == EditPage(old(State()), name, text, summary)
    {
      pages := pages[name := text];
      log := log + [EditRecord(name, text, summary)];
    }

    /** `site.upload(url=image, filename=fn)` */
    method Upload(fn: string)
      modifies this
      ensures State() == old(State()).(images := old(images) + {fn})
    {
      images := images + {fn};
    }

    /** The scan for `lastOldIndex`, stopping at the first page that exists. */
    method FindLastOldIndex(feed: seq<Entry>) returns (lastOldIndex: nat)
      ensures lastOldIndex == Boundary(pages, feed)
    {
      lastOldIndex := 0;
      for i := 0 to |feed|
        invariant lastOldIndex == 0
        invariant FirstExisting(pages, feed, 0) == FirstExisting(pages, feed, i)
      {
        if feed[i].title in pages {
          lastOldIndex := i;
          return;
        }
      }
    }

    /** The loop body for feed index `i`, in the source's order. */
    method AddEpisode(feed: seq<Entry>, i: nat) returns (err: Option<SyncError>)
      requires i < |feed|
      modifies this
      ensures Outcome(State(), err) == Step(old(State()), feed, i)
    {
      var epdata := Metadata(feed, i);
      var fn := LastSegment(epdata.image);
      if fn !in images {
        Upload(fn);
      }
      UpdatePreviousPage(Unlink(epdata.previous), epdata.title);
      if |epdata.featuring| == 0 {
        return Some(EpisodeWithoutContributors);
      }
      var epwiki := FormatPage(epdata);
      if epdata.title !in pages {
        Edit(epdata.title, epwiki, "Created page");
      }
      ghost var w3 := State();
      assert Step(old(State()), feed, i) == UpdateList(w3, epdata);
      err := UpdateEpisodeList(epdata);
    }

    /** Point the previous episode's `|next=` field at the new episode, unless that page
        already mentions it. */
    method UpdatePreviousPage(prev: string, title: string)
      modifies this
      ensures State() == PatchPrevious(old(State()), prev, title)
    {
      var prevpage := Read(prev);
      if !Contains(prevpage, title) {
        var splitpage := Split(prevpage, "|next=");
        var newPreviousPage := Join("|next=" + WikiLink(title), splitpage);
        Edit(prev, newPreviousPage, "Added next episode");
      }
    }

    /** The last part of the loop body: add the episode to the list page unless the
        list page already mentions it. */
    method UpdateEpisodeList(epdata: Episode) returns (err: Option<SyncError>)
      requires |epdata.featuring| > 0
      modifies this
      ensures Outcome(State(), err) == UpdateList(old(State()), epdata)
    {
      var episodeListPage := Read(ListPage);
      if !Contains(episodeListPage, epdata.title) {
        var newEpisodeListPage := MainPageText(episodeListPage, epdata);
        if newEpisodeListPage.Failure? {
          return Some(ListPageFailed(newEpisodeListPage.error));
        }
        Edit(ListPage, newEpisodeListPage.value, "Updated episode list");
      }
      return None;
    }

    /** The run: find the boundary, then add episodes `lastOldIndex - 1` down to `0`. */
    method Run(feed: seq<Entry>) returns (err: Option<SyncError>)
      modifies this
      ensures Outcome(State(), err) == Sync(old(State()), feed)
    {
      var lastOldIndex := FindLastOldIndex(feed);
      if |feed| == 0 {
        return Some(EmptyFeed);
      }
      BoundaryIsLeast(pages, feed);
      var i: nat := lastOldIndex;
      while i > 0
        invariant i <= lastOldIndex < |feed|
        invariant RunDown(old(State()), feed, lastOldIndex) == RunDown(State(), feed, i)
        decreases i
      {
        i := i - 1;
        err := AddEpisode(feed, i);
        if err.Some? {
          return;
        }
      }
      return None;
    }
  }
}
