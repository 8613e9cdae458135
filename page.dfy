/**
 * The page written for a new episode (`wikiformat` in updateWiki.py): an infobox of
 * one field per line, the summary, a "listen" line, a transcript placeholder and
 * two category tags.
 */
module Page {
  import opened Text
  import opened Feed

  /** `[[name]]<br>` for every guest, in order. */
  function Guests(gs: seq<string>): string
  {
    if gs == [] then ""
    else Guests(gs[..|gs| - 1]) + (WikiLink(gs[|gs| - 1]) + "<br>")
  }

  /** The value of the `featuring` field: the host first, marked as host, then the guests. */
  function Featuring(fs: seq<string>): string
    requires |fs| > 0
  {
    WikiLink(fs[0]) + " (host)<br>" + Guests(fs[1..])
  }

  /** An infobox line ` |key=value`. */
  function Field(key: string, value: string): string {
    " |" + key + "=" + value
  }

  /** The page, line by line. */
  function PageLines(md: Episode): (lines: seq<string>)
    requires |md.featuring| > 0
    ensures |lines| == 26
  {
    ["{{Podcast episode"]
    + [Field("title1", md.title)]
    + [Field("image1", LastSegment(md.image))]
    + [Field("caption1", md.link)]
    + [Field("episode", md.number)]
    + [Field("featuring", Featuring(md.featuring))]
    + [Field("release_date", md.date)]
    + [Field("duration", md.duration)]
    + [Field("transcriber", "")]
    + [Field("intro_music", "")]
    + [Field("outro_music", "")]
    + [Field("other_music", "")]
    + [Field("previous", md.previous)]
    + [Field("next", md.next)]
    + ["}}"]
    + [""]
    + [md.summary]
    + [""]
    + ["Listen to this episode at " + md.link]
    + [""]
    + ["== Transcript =="]
    + [""]
    + ["''This episode has not yet been transcribed.''"]
    + [""]
    + ["[[Category:Episodes]]"]
    + ["[[Category:Perfectly Generic Podcast]]"]
  }

  /** The page text: its lines joined by newlines. */
  function WikiFormat(md: Episode): string
    requires |md.featuring| > 0
  {
    Join("\n", PageLines(md))
  }

  lemma {:induction false} JoinExtendLast(sep: string, lines: seq<string>, x: string)
    requires |lines| > 0
    ensures Join(sep, lines[..|lines| - 1] + [lines[|lines| - 1] + x]) == Join(sep, lines) + x
  {
    if |lines| > 1 {
      var init := lines[..|lines| - 1];
      JoinAppend(sep, init, lines[|lines| - 1] + x);
      JoinAppend(sep, init, lines[|lines| - 1]);
      assert init + [lines[|lines| - 1]] == lines;
    }
  }

  lemma FieldExtend(text: string, key: string, value: string, more: string)
    ensures text + "\n" + Field(key, value) + more == text + "\n" + Field(key, value + more)
  {
  }

  /** Appending a newline and one more line to joined lines joins one line more. */
  lemma AppendLine(lines: seq<string>, text: string, x: string)
    requires |lines| > 0 && text == Join("\n", lines)
    ensures text + "\n" + x == Join("\n", lines + [x])
  {
    JoinAppend("\n", lines, x);
  }

  /** Appending the fields one by one, in the order the source does, spells out the
      template lines joined by newlines. */
  lemma AppendedInOrder(md: Episode)
    requires |md.featuring| > 0
    ensures
      "{{Podcast episode"
      + "\n" + Field("title1", md.title)
      + "\n" + Field("image1", LastSegment(md.image))
      + "\n" + Field("caption1", md.link)
      + "\n" + Field("episode", md.number)
      + "\n" + Field("featuring", Featuring(md.featuring))
      + "\n" + Field("release_date", md.date)
      + "\n" + Field("duration", md.duration)
      + "\n" + Field("transcriber", "")
      + "\n" + Field("intro_music", "")
      + "\n" + Field("outro_music", "")
      + "\n" + Field("other_music", "")
      + "\n" + Field("previous", md.previous)
      + "\n" + Field("next", md.next)
      + "\n" + "}}"
      + "\n" + ""
      + "\n" + md.summary
      + "\n" + ""
      + "\n" + ("Listen to this episode at " + md.link)
      + "\n" + ""
      + "\n" + "== Transcript =="
      + "\n" + ""
      + "\n" + "''This episode has not yet been transcribed.''"
      + "\n" + ""
      + "\n" + "[[Category:Episodes]]"
      + "\n" + "[[Category:Perfectly Generic Podcast]]"
      == WikiFormat(md)
  {
    var text, lines := "{{Podcast episode", ["{{Podcast episode"];
    AppendLine(lines, text, Field("title1", md.title));
    text, lines := text + "\n" + Field("title1", md.title), lines + [Field("title1", md.title)];
    AppendLine(lines, text, Field("image1", LastSegment(md.image)));
    text, lines := text + "\n" + Field("image1", LastSegment(md.image)), lines + [Field("image1", LastSegment(md.image))];
    AppendLine(lines, text, Field("caption1", md.link));
    text, lines := text + "\n" + Field("caption1", md.link), lines + [Field("caption1", md.link)];
    AppendLine(lines, text, Field("episode", md.number));
    text, lines := text + "\n" + Field("episode", md.number), lines + [Field("episode", md.number)];
    AppendLine(lines, text, Field("featuring", Featuring(md.featuring)));
    text, lines := text + "\n" + Field("featuring", Featuring(md.featuring)), lines + [Field("featuring", Featuring(md.featuring))];
    AppendLine(lines, text, Field("release_date", md.date));
    text, lines := text + "\n" + Field("release_date", md.date), lines + [Field("release_date", md.date)];
    AppendLine(lines, text, Field("duration", md.duration));
    text, lines := text + "\n" + Field("duration", md.duration), lines + [Field("duration", md.duration)];
    AppendLine(lines, text, Field("transcriber", ""));
    text, lines := text + "\n" + Field("transcriber", ""), lines + [Field("transcriber", "")];
    AppendLine(lines, text, Field("intro_music", ""));
    text, lines := text + "\n" + Field("intro_music", ""), lines + [Field("intro_music", "")];
    AppendLine(lines, text, Field("outro_music", ""));
    text, lines := text + "\n" + Field("outro_music", ""), lines + [Field("outro_music", "")];
    AppendLine(lines, text, Field("other_music", ""));
    text, lines := text + "\n" + Field("other_music", ""), lines + [Field("other_music", "")];
    AppendLine(lines, text, Field("previous", md.previous));
    text, lines := text + "\n" + Field("previous", md.previous), lines + [Field("previous", md.previous)];
    AppendLine(lines, text, Field("next", md.next));
    text, lines := text + "\n" + Field("next", md.next), lines + [Field("next", md.next)];
    AppendLine(lines, text, "}}");
    text, lines := text + "\n" + "}}", lines + ["}}"];
    AppendLine(lines, text, "");
    text, lines := text + "\n" + "", lines + [""];
    AppendLine(lines, text, md.summary);
    text, lines := text + "\n" + md.summary, lines + [md.summary];
    AppendLine(lines, text, "");
    text, lines := text + "\n" + "", lines + [""];
    AppendLine(lines, text, ("Listen to this episode at " + md.link));
    text, lines := text + "\n" + ("Listen to this episode at " + md.link), lines + [("Listen to this episode at " + md.link)];
    AppendLine(lines, text, "");
    text, lines := text + "\n" + "", lines + [""];
    AppendLine(lines, text, "== Transcript ==");
    text, lines := text + "\n" + "== Transcript ==", lines + ["== Transcript =="];
    AppendLine(lines, text, "");
    text, lines := text + "\n" + "", lines + [""];
    AppendLine(lines, text, "''This episode has not yet been transcribed.''");
    text, lines := text + "\n" + "''This episode has not yet been transcribed.''", lines + ["''This episode has not yet been transcribed.''"];
    AppendLine(lines, text, "");
    text, lines := text + "\n" + "", lines + [""];
    AppendLine(lines, text, "[[Category:Episodes]]");
    text, lines := text + "\n" + "[[Category:Episodes]]", lines + ["[[Category:Episodes]]"];
    AppendLine(lines, text, "[[Category:Perfectly Generic Podcast]]");
    text, lines := text + "\n" + "[[Category:Perfectly Generic Podcast]]", lines + ["[[Category:Perfectly Generic Podcast]]"];
  }

  /** The page text a user reads back line by line: when no field holds a newline,
      splitting the page at newlines gives exactly the 26 template lines, so every
      infobox field sits on its own line. */
  lemma PageReadsBack(md: Episode)
    requires |md.featuring| > 0
    requires forall k :: 0 <= k < 26 ==> '\n' !in PageLines(md)[k]
    ensures Split(WikiFormat(md), "\n") == PageLines(md)
    ensures Split(WikiFormat(md), "\n")[13] == " |next=" + md.next
    ensures Split(WikiFormat(md), "\n")[2] == " |image1=" + LastSegment(md.image)
  {
    SplitJoinLines(PageLines(md), '\n');
  }

  /** The page of an episode that is not the newest already links the newer episode,
      so its `|next=` field needs no patch later. */
  lemma PageMentionsNext(md: Episode)
    requires |md.featuring| > 0
    ensures Contains(WikiFormat(md), md.next)
  {
    var lines := PageLines(md);
    JoinContainsPart("\n", lines, 13);
    ContainsWhole(" |next=", md.next, "");
    assert " |next=" + md.next + "" == lines[13];
    ContainsTrans(WikiFormat(md), lines[13], md.next);
  }

  /** `t` ends `s`. */
  predicate EndsWith(s: string, t: string) {
    |t| <= |s| && s[|s| - |t|..] == t
  }

  lemma EndsWithAppended(a: string, t: string)
    ensures EndsWith(a + t, t)
  {
  }

  /** Each guest's link followed by `<br>`. */
  function GuestLinks(gs: seq<string>): (r: seq<string>)
    ensures |r| == |gs|
    ensures forall k :: 0 <= k < |gs| ==> r[k] == WikiLink(gs[k]) + "<br>"
  {
    if gs == [] then [] else GuestLinks(gs[..|gs| - 1]) + [WikiLink(gs[|gs| - 1]) + "<br>"]
  }

  /** The guests are listed in the order given, one link and one `<br>` each, with
      nothing else between them. */
  lemma {:induction false} GuestsInOrder(gs: seq<string>)
    ensures Guests(gs) == Join("", GuestLinks(gs))
  {
    if |gs| > 1 {
      var init := gs[..|gs| - 1];
      GuestsInOrder(init);
      assert GuestLinks(gs) == GuestLinks(init) + [WikiLink(gs[|gs| - 1]) + "<br>"];
      JoinAppend("", GuestLinks(init), WikiLink(gs[|gs| - 1]) + "<br>");
    } else if |gs| == 1 {
      assert gs[..0] == [];
    }
  }

  /** The page opens the episode infobox. */
  lemma PageStarts(md: Episode)
    requires |md.featuring| > 0
    ensures IsPrefix("{{Podcast episode", WikiFormat(md))
  {
    var lines := PageLines(md);
    assert WikiFormat(md) == lines[0] + ("\n" + Join("\n", lines[1..]));
  }

  lemma JoinLastTwo(sep: string, lines: seq<string>)
    requires |lines| > 2
    ensures Join(sep, lines) ==
      Join(sep, lines[..|lines| - 2]) + (sep + lines[|lines| - 2] + sep + lines[|lines| - 1])
  {
    var init := lines[..|lines| - 1];
    JoinLast(sep, lines);
    JoinLast(sep, init);
    assert init[..|init| - 1] == lines[..|lines| - 2];
  }

  lemma PageLastLines(md: Episode)
    requires |md.featuring| > 0
    ensures PageLines(md)[24] == "[[Category:Episodes]]"
    ensures PageLines(md)[25] == "[[Category:Perfectly Generic Podcast]]"
  {
  }

  /** The page closes with its two category tags. */
  lemma PageEnds(md: Episode)
    requires |md.featuring| > 0
    ensures EndsWith(WikiFormat(md), "\n" + "[[Category:Episodes]]" + "\n" + "[[Category:Perfectly Generic Podcast]]")
  {
    var lines := PageLines(md);
    JoinLastTwo("\n", lines);
    PageLastLines(md);
    EndsWithAppended(Join("\n", lines[..24]), "\n" + lines[24] + "\n" + lines[25]);
  }

  /** The image field names the file by the last segment of the image address. */
  lemma PageImageField(md: Episode)
    requires |md.featuring| > 0
    ensures Contains(WikiFormat(md), Field("image1", LastSegment(md.image)))
  {
    var lines := PageLines(md);
    JoinContainsPart("\n", lines, 2);
    assert lines[2] == Field("image1", LastSegment(md.image));
  }

  /** The featuring field marks the first contributor as host and links every other
      one, in order. */
  lemma PageFeaturingField(md: Episode)
    requires |md.featuring| > 0
    ensures Contains(WikiFormat(md),
      Field("featuring", WikiLink(md.featuring[0]) + " (host)<br>" + Join("", GuestLinks(md.featuring[1..]))))
  {
    var lines := PageLines(md);
    JoinContainsPart("\n", lines, 5);
    assert lines[5] == Field("featuring", Featuring(md.featuring));
    GuestsInOrder(md.featuring[1..]);
  }

  /** `wikiformat(md)`: builds the page by appending to `pagetext`, one field at a time
      and one guest per loop iteration, as the source does. */
  method FormatPage(md: Episode) returns (pagetext: string)
    requires |md.featuring| > 0
    ensures pagetext == WikiFormat(md)
  {
    pagetext := "{{Podcast episode";
    pagetext := pagetext + "\n" + Field("title1", md.title);
    pagetext := pagetext + "\n" + Field("image1", LastSegment(md.image));
    pagetext := pagetext + "\n" + Field("caption1", md.link);
    pagetext := pagetext + "\n" + Field("episode", md.number);
    ghost var head := pagetext;
    var host := WikiLink(md.featuring[0]) + " (host)<br>";
    pagetext := pagetext + "\n" + Field("featuring", host);
    ghost var before := pagetext;
    var guests := md.featuring[1..];
    for k := 0 to |guests|
      invariant pagetext == before + Guests(guests[..k])
    {
      assert guests[..k + 1][..k] == guests[..k];
      pagetext := pagetext + (WikiLink(guests[k]) + "<br>");
    }
    assert guests[..|guests|] == guests;
    FieldExtend(head, "featuring", host, Guests(guests));
    AppendedInOrder(md);
    pagetext := pagetext + "\n" + Field("release_date", md.date);
    pagetext := pagetext + "\n" + Field("duration", md.duration);
    pagetext := pagetext + "\n" + Field("transcriber", "") + "\n" + Field("intro_music", "")
                         + "\n" + Field("outro_music", "") + "\n" + Field("other_music", "");
    pagetext := pagetext + "\n" + Field("previous", md.previous);
    pagetext := pagetext + "\n" + Field("next", md.next);
    pagetext := pagetext + "\n" + "}}";
    pagetext := pagetext + "\n" + "" + "\n" + md.summary;
    pagetext := pagetext + "\n" + "" + "\n" + ("Listen to this episode at " + md.link);
    pagetext := pagetext + "\n" + "" + "\n" + "== Transcript ==" + "\n" + ""
                         + "\n" + "''This episode has not yet been transcribed.''";
    pagetext := pagetext + "\n" + "" + "\n" + "[[Category:Episodes]]"
                         + "\n" + "[[Category:Perfectly Generic Podcast]]";
  }
}
