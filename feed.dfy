/**
 * Feed entries and the episode record derived from them (`metadata` in updateWiki.py).
 * The feed is newest first: the entry at `i + 1` is the episode released before the
 * one at `i`.
 */
module Feed {
  import opened Text

  /** One RSS item, as the updater reads it. The publication date is kept as the text
      `time.strftime("%b %d, %Y", ...)` produces, and the summary as the text of the
      first paragraph of the item's HTML summary. */
  datatype Entry = Entry(
    title: string,
    link: string,
    imageHref: string,
    tags: seq<string>,
    published: string,
    duration: Option<string>,
    summary: string)

  /** The metadata dictionary `md` built for one episode. */
  datatype Episode = Episode(
    title: string,
    image: string,
    number: string,
    featuring: seq<string>,
    date: string,
    duration: string,
    previous: string,
    next: string,
    summary: string,
    link: string)

  /** Wiki-link markup `[[title]]`. */
  function WikiLink(title: string): (r: string)
    ensures |r| == |title| + 4
  {
    "[[" + title + "]]"
  }

  /** Python's `s[2:-2]`, used to recover a page title from its wiki link. */
  function Unlink(s: string): (r: string)
    ensures |s| >= 4 ==> |r| == |s| - 4
    ensures |s| <= 4 ==> r == ""
  {
    if |s| <= 4 then "" else s[2..|s| - 2]
  }

  /** Slicing the brackets off a wiki link gives the title back. */
  lemma UnlinkWikiLink(title: string)
    ensures Unlink(WikiLink(title)) == title
  {
    var l := WikiLink(title);
    if |title| > 0 {
      assert l[2..|l| - 2] == title;
    }
  }

  lemma UnlinkRecoversTitles()
    ensures forall title :: Unlink(WikiLink(title)) == title
  {
    forall title ensures Unlink(WikiLink(title)) == title {
      UnlinkWikiLink(title);
    }
  }

  /** The `number` field: the last path segment of the link, prefixed by "Bonus " when
      the link contains "bonus". */
  function EpisodeNumber(link: string): (n: string)
    ensures Contains(link, "bonus") ==>
      IsPrefix("Bonus ", n) && IsLastSegment(n[|"Bonus "|..], link)
    ensures !Contains(link, "bonus") ==> IsLastSegment(n, link)
  {
    if Contains(link, "bonus") then
      var n := "Bonus " + LastSegment(link);
      assert n[|"Bonus "|..] == LastSegment(link);
      n
    else LastSegment(link)
  }

  /** `metadata(feed, item)`: the record for the entry at `i`. The title is taken
      verbatim; `previous` links the older neighbour and `next` the newer one, and each
      is empty at its end of the feed. */
  function Metadata(feed: seq<Entry>, i: nat): (md: Episode)
    requires i < |feed|
    ensures md.title == feed[i].title && md.link == feed[i].link
    ensures md.number == EpisodeNumber(feed[i].link)
    ensures md.image == feed[i].imageHref && md.featuring == feed[i].tags
    ensures md.date == feed[i].published && md.summary == feed[i].summary
    ensures md.duration == (if feed[i].duration.Some? then feed[i].duration.value else "")
    ensures md.previous == "" <==> i == |feed| - 1
    ensures md.next == "" <==> i == 0
    ensures i < |feed| - 1 ==> md.previous == WikiLink(feed[i + 1].title)
    ensures i > 0 ==> md.next == WikiLink(feed[i - 1].title)
    ensures i < |feed| - 1 ==> Unlink(md.previous) == feed[i + 1].title
    ensures i > 0 ==> Unlink(md.next) == feed[i - 1].title
  {
    UnlinkRecoversTitles();
    var e := feed[i];
    var previous := if i == |feed| - 1 then "" else WikiLink(feed[i + 1].title);
    var next := if i == 0 then "" else WikiLink(feed[i - 1].title);
    Episode(
      e.title,
      e.imageHref,
      EpisodeNumber(e.link),
      e.tags,
      e.published,
      match e.duration case Some(d) => d case None => "",
      previous,
      next,
      e.summary,
      e.link)
  }

  /** Neighbouring records link to each other: the newer one's `previous` is the older
      one's title, and the older one's `next` is the newer one's title. */
  lemma ChainLinks(feed: seq<Entry>, i: nat)
    requires i + 1 < |feed|
    ensures Metadata(feed, i).previous == WikiLink(Metadata(feed, i + 1).title)
    ensures Metadata(feed, i + 1).next == WikiLink(Metadata(feed, i).title)
  {
  }
}
