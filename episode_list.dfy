/**
 * The podcast's own wiki page, "Perfectly Generic Podcast" (`mainpagetext` in
 * updateWiki.py). The page is handled as a list of lines: a list item for the new
 * episode goes right after the line that links the previous episode, and the panel
 * roster (the lines between `== Panel ==` and the next empty line) gains a line for
 * every contributor it lacks, is re-sorted by lower-cased text after each addition, and
 * gets its host line marked ` (host)`.
 */
module EpisodeList {
  import opened Text
  import opened Sorting
  import opened Feed

  /** Where `mainpagetext` raises instead of returning a page. */
  datatype ListError =
    | NoContributors       // `md['featuring'][0]` on an empty list
    | PreviousLineMissing  // `[...][0]` when no line contains `md['previous']`
    | PanelHeaderMissing   // `splitpage.index('== Panel ==')`
    | PanelEndMissing      // `splitpage[panelstart:].index('')`
    | HostLineMissing      // `panel.index('* [[host]]')`

  // ---------------------------------------------------------------------------
  // The list item for the new episode
  // ---------------------------------------------------------------------------

  /** `, [[name]]` for every name, in order. */
  function Middle(ms: seq<string>): string
  {
    if ms == [] then "" else Middle(ms[..|ms| - 1]) + (", " + WikiLink(ms[|ms| - 1]))
  }

  /** Python's `fs[1:-1]`: every contributor but the first and the last. */
  function Inner(fs: seq<string>): (ms: seq<string>)
    ensures |fs| <= 2 ==> ms == []
    ensures |fs| > 2 ==> |ms| == |fs| - 2 && forall k :: 0 <= k < |ms| ==> ms[k] == fs[k + 1]
  {
    if |fs| > 2 then fs[1..|fs| - 1] else []
  }

  /** `* [[title]] with [[f0]], [[f1]], ..., and [[fn]] **`; the comma before "and"
      only with more than two contributors, and the first contributor named twice when
      there is only one. */
  function EntryLine(title: string, fs: seq<string>): string
    requires |fs| > 0
  {
    "* " + WikiLink(title) + " with " + WikiLink(fs[0])
    + Middle(Inner(fs))
    + (if |fs| > 2 then "," else "")
    + " and " + WikiLink(fs[|fs| - 1]) + " **"
  }

  /** The wiki links of a list of names. */
  function Links(names: seq<string>): (ls: seq<string>)
    ensures |ls| == |names| && forall k :: 0 <= k < |names| ==> ls[k] == WikiLink(names[k])
  {
    if names == [] then [] else Links(names[..|names| - 1]) + [WikiLink(names[|names| - 1])]
  }

  /** The first contributor and the middle ones read as a comma-separated list. */
  lemma {:induction false} MiddleIsJoin(first: string, ms: seq<string>)
    ensures WikiLink(first) + Middle(ms) == Join(", ", Links([first] + ms))
    decreases |ms|
  {
    if ms == [] {
      assert Links([first]) == [WikiLink(first)];
    } else {
      var init, last := ms[..|ms| - 1], ms[|ms| - 1];
      var names := [first] + init;
      MiddleIsJoin(first, init);
      LinksAppend(names, last);
      JoinAppend(", ", Links(names), WikiLink(last));
      assert names + [last] == [first] + ms;
      calc {
        WikiLink(first) + Middle(ms);
        WikiLink(first) + (Middle(init) + (", " + WikiLink(last)));
        (WikiLink(first) + Middle(init)) + ", " + WikiLink(last);
        Join(", ", Links(names)) + ", " + WikiLink(last);
        Join(", ", Links(names + [last]));
      }
    }
  }

  lemma LinksAppend(names: seq<string>, x: string)
    ensures Links(names + [x]) == Links(names) + [WikiLink(x)]
  {
    assert (names + [x])[..|names|] == names;
  }

  /** The list item as a sentence: "with", the comma-separated list of all contributors
      but the last, a serial comma when there are more than two, "and" the last one. */
  lemma EntryLineIsSentence(title: string, fs: seq<string>)
    requires |fs| >= 2
    ensures EntryLine(title, fs) ==
      "* " + WikiLink(title) + " with " + Join(", ", Links(fs[..|fs| - 1]))
      + (if |fs| > 2 then "," else "") + " and " + WikiLink(fs[|fs| - 1]) + " **"
  {
    MiddleIsJoin(fs[0], Inner(fs));
    assert [fs[0]] + Inner(fs) == fs[..|fs| - 1];
  }

  /** With a single contributor the item names that contributor twice. */
  lemma SingleContributor(title: string, a: string)
    ensures EntryLine(title, [a]) == "* [[" + title + "]] with [[" + a + "]] and [[" + a + "]] **"
  {
  }

  lemma {:induction false} MiddleNamesAll(ms: seq<string>)
    ensures forall k :: 0 <= k < |ms| ==> Contains(Middle(ms), WikiLink(ms[k]))
    decreases |ms|
  {
    if ms != [] {
      var init := ms[..|ms| - 1];
      var last := WikiLink(ms[|ms| - 1]);
      MiddleNamesAll(init);
      assert Middle(ms) == Middle(init) + (", " + last);
      forall k | 0 <= k < |ms| ensures Contains(Middle(ms), WikiLink(ms[k])) {
        if k < |ms| - 1 {
          assert ms[k] == init[k];
          ContainsLeft(Middle(init), ", " + last, WikiLink(ms[k]));
        } else {
          ContainsSelf(last);
          ContainsRight(", ", last, last);
          ContainsRight(Middle(init), ", " + last, last);
        }
      }
    }
  }

  /** The list item links the episode and every one of its contributors. */
  lemma EntryLineNamesAll(title: string, fs: seq<string>)
    requires |fs| > 0
    ensures Contains(EntryLine(title, fs), WikiLink(title))
    ensures forall k :: 0 <= k < |fs| ==> Contains(EntryLine(title, fs), WikiLink(fs[k]))
  {
    var t0 := "* " + WikiLink(title);
    ContainsSelf(WikiLink(title));
    ContainsRight("* ", WikiLink(title), WikiLink(title));
    EntryLinePrefix(title, fs, t0, WikiLink(title));
    forall k | 0 <= k < |fs| ensures Contains(EntryLine(title, fs), WikiLink(fs[k])) {
      EntryLineLinksContributor(title, fs, k);
    }
  }

  /** Whatever the item's first part up to the host contains, the item contains. */
  lemma EntryLinePrefix(title: string, fs: seq<string>, t: string, sub: string)
    requires |fs| > 0
    requires t == "* " + WikiLink(title) || t == "* " + WikiLink(title) + " with " + WikiLink(fs[0])
    requires Contains(t, sub)
    ensures Contains(EntryLine(title, fs), sub)
  {
    var t2 := "* " + WikiLink(title) + " with " + WikiLink(fs[0]);
    var rest := Middle(Inner(fs)) + (if |fs| > 2 then "," else "") + " and " + WikiLink(fs[|fs| - 1]) + " **";
    assert EntryLine(title, fs) == t2 + rest;
    ContainsExtended(t, t2 + rest, sub);
  }

  lemma EntryLineLinksContributor(title: string, fs: seq<string>, k: nat)
    requires k < |fs|
    ensures Contains(EntryLine(title, fs), WikiLink(fs[k]))
  {
    var t2 := "* " + WikiLink(title) + " with " + WikiLink(fs[0]);
    var t3 := t2 + Middle(Inner(fs));
    var t5 := t3 + (if |fs| > 2 then "," else "") + " and ";
    var t6 := t5 + WikiLink(fs[|fs| - 1]);
    assert EntryLine(title, fs) == t6 + " **";
    ContainsSelf(WikiLink(fs[k]));
    if k == 0 {
      ContainsRight("* " + WikiLink(title) + " with ", WikiLink(fs[0]), WikiLink(fs[0]));
      EntryLinePrefix(title, fs, t2, WikiLink(fs[0]));
    } else if k == |fs| - 1 {
      ContainsRight(t5, WikiLink(fs[k]), WikiLink(fs[k]));
      ContainsLeft(t6, " **", WikiLink(fs[k]));
    } else {
      MiddleNamesAll(Inner(fs));
      assert Inner(fs)[k - 1] == fs[k];
      ContainsRight(t2, Middle(Inner(fs)), WikiLink(fs[k]));
      ContainsExtended(t3, t6 + " **", WikiLink(fs[k]));
    }
  }

  /** Builds the list item as the source does: the first contributor, then one
      `, [[name]]` per middle contributor, then the serial comma and the last one. */
  method NewEpisodeLine(title: string, fs: seq<string>) returns (line: string)
    requires |fs| > 0
    ensures line == EntryLine(title, fs)
  {
    line := "* " + WikiLink(title) + " with " + WikiLink(fs[0]);
    ghost var head := line;
    var middle := Inner(fs);
    for k := 0 to |middle|
      invariant line == head + Middle(middle[..k])
    {
      assert middle[..k + 1][..k] == middle[..k];
      line := line + (", " + WikiLink(middle[k]));
    }
    assert middle[..|middle|] == middle;
    if |fs| > 2 {
      line := line + ",";
    }
    line := line + " and " + WikiLink(fs[|fs| - 1]) + " **";
  }

  // ---------------------------------------------------------------------------
  // Inserting the item after the previous episode's line
  // ---------------------------------------------------------------------------

  /** `prevline` is the first line containing `previous`, `prevind` is
      `splitpage.index(prevline)`, and the item is inserted at `prevind + 1`. */
  function InsertAfterPrevious(lines: seq<string>, previous: string, entry: string)
    : Result<seq<string>, ListError>
  {
    match FirstContaining(lines, previous)
    case None => Failure(PreviousLineMissing)
    case Some(p) =>
      assert lines[p] in lines;
      var prevind := IndexOf(lines, lines[p]).value;
      Success(lines[..prevind + 1] + [entry] + lines[prevind + 1..])
  }

  /** Looking the first matching line up again by value finds that same line: an
      earlier equal line would itself contain `previous`. */
  lemma PreviousIndexIsFirst(lines: seq<string>, previous: string)
    requires AnyContains(lines, previous)
    ensures IndexOf(lines, lines[FirstContaining(lines, previous).value]) ==
            Some(FirstContaining(lines, previous).value)
  {
    var p := FirstContaining(lines, previous).value;
    assert lines[p] in lines;
    var q := IndexOf(lines, lines[p]).value;
    assert Contains(lines[q], previous);
  }

  /** The item lands right after the first line containing `previous`; taking it out
      again gives the original lines, so no line is lost or moved. The insertion fails
      exactly when no line contains `previous`. */
  lemma InsertionPlacement(lines: seq<string>, previous: string, entry: string)
    ensures InsertAfterPrevious(lines, previous, entry).Failure? <==> !AnyContains(lines, previous)
    ensures InsertAfterPrevious(lines, previous, entry).Failure? ==>
      InsertAfterPrevious(lines, previous, entry).error == PreviousLineMissing
    ensures AnyContains(lines, previous) ==>
      var p := FirstContaining(lines, previous).value;
      var r := InsertAfterPrevious(lines, previous, entry).value;
      |r| == |lines| + 1 && r[p + 1] == entry && r[..p + 1] + r[p + 2..] == lines
      && Contains(r[p], previous)
      && forall j :: 0 <= j < p ==> !Contains(r[j], previous)
  {
    if AnyContains(lines, previous) {
      PreviousIndexIsFirst(lines, previous);
      var p := FirstContaining(lines, previous).value;
      var r := InsertAfterPrevious(lines, previous, entry).value;
      assert r == lines[..p + 1] + [entry] + lines[p + 1..];
      assert r[..p + 1] == lines[..p + 1];
      assert r[p + 2..] == lines[p + 1..];
      assert lines[..p + 1] + lines[p + 1..] == lines;
    }
  }

  /** An empty `previous` (the oldest episode of the feed) is contained in every line,
      so the item goes after the first line. */
  lemma EmptyPreviousGoesSecond(lines: seq<string>, entry: string)
    requires |lines| > 0
    ensures InsertAfterPrevious(lines, "", entry) == Success([lines[0], entry] + lines[1..])
  {
    assert IsPrefix("", lines[0]);
    assert FirstContaining(lines, "") == Some(0);
    assert IndexOf(lines, lines[0]) == Some(0);
    assert lines[..1] + [entry] == [lines[0], entry];
  }

  // ---------------------------------------------------------------------------
  // The panel roster
  // ---------------------------------------------------------------------------

  /** `panelstart` and `panelend`: the span after the `== Panel ==` line, up to the
      first empty line after it. */
  function PanelBounds(lines: seq<string>): (r: Result<(nat, nat), ListError>)
    ensures r.Success? ==>
      var (start, end) := r.value;
      0 < start <= end < |lines|
      && lines[start - 1] == "== Panel ==" && "== Panel ==" !in lines[..start - 1]
      && lines[end] == "" && "" !in lines[start..end]
    ensures r.Failure? && r.error == PanelHeaderMissing <==> "== Panel ==" !in lines
    ensures r.Failure? ==> r.error == PanelHeaderMissing || r.error == PanelEndMissing
  {
    match IndexOf(lines, "== Panel ==")
    case None => Failure(PanelHeaderMissing)
    case Some(h) =>
      var start := h + 1;
      match IndexOf(lines[start..], "")
      case None => Failure(PanelEndMissing)
      case Some(e) =>
        assert lines[start..][..e] == lines[start..start + e];
        Success((start, start + e))
  }

  /** The panel end is missing exactly when no empty line follows the header. */
  lemma PanelEndMissingIff(lines: seq<string>)
    requires "== Panel ==" in lines
    ensures PanelBounds(lines) == Failure(PanelEndMissing) <==>
      "" !in lines[IndexOf(lines, "== Panel ==").value + 1..]
  {
  }

  /** `any('[[name]]' in s for s in panel)`. */
  predicate Mentions(panel: seq<string>, name: string) {
    AnyContains(panel, WikiLink(name))
  }

  /** Some line of `b` is `x`, possibly with text appended to it. */
  ghost predicate KeptIn(x: string, b: seq<string>) {
    exists j :: 0 <= j < |b| && IsPrefix(x, b[j])
  }

  /** Every line of `a` survives in `b`, possibly with text appended to it. */
  ghost predicate Keeps(a: seq<string>, b: seq<string>) {
    forall i :: 0 <= i < |a| ==> KeptIn(a[i], b)
  }

  /** Some roster line links `name` and carries the host mark. */
  ghost predicate HostMarked(panel: seq<string>, name: string) {
    exists i {:trigger Contains(panel[i], WikiLink(name))} ::
      0 <= i < |panel| && Contains(panel[i], WikiLink(name)) && Contains(panel[i], "]] (host)")
  }

  /** The roster line added for a missing contributor. */
  function RosterLine(name: string): string {
    "* " + WikiLink(name)
  }

  /** Append `* [[name]]` when no line links `name`, and re-sort by lower-cased text. */
  function AddMissing(panel: seq<string>, name: string): (r: seq<string>)
    ensures Mentions(panel, name) ==> r == panel
  {
    if Mentions(panel, name) then panel else SortByLower(panel + [RosterLine(name)])
  }

  /** A roster that gained a line holds the old lines and `* [[name]]`, in key order. */
  lemma AddMissingSorted(panel: seq<string>, name: string)
    requires !Mentions(panel, name)
    ensures Sorted(AddMissing(panel, name))
    ensures multiset(AddMissing(panel, name)) == multiset(panel) + multiset{RosterLine(name)}
  {
    SortByLowerSorted(panel + [RosterLine(name)]);
    SortByLowerPerm(panel + [RosterLine(name)]);
  }

  /** When the first line linking the host lacks `]] (host)`, append ` (host)` to the
      line that is exactly `* [[host]]`. A roster that links the host nowhere cannot
      reach this step (the addition comes first); it is reported as a missing host
      line, where the source would raise an IndexError. */
  function MarkHost(panel: seq<string>, name: string): Result<seq<string>, ListError>
  {
    match FirstContaining(panel, WikiLink(name))
    case None => Failure(HostLineMissing)
    case Some(f) =>
      if Contains(panel[f], "]] (host)") then Success(panel)
      else match IndexOf(panel, RosterLine(name))
        case None => Failure(HostLineMissing)
        case Some(j) => Success(panel[j := panel[j] + " (host)"])
  }

  /** A host step after the addition keeps the old lines, links the host, and fails only
      on a missing host line. */
  lemma MarkHostOutcome(panel: seq<string>, p: seq<string>, name: string)
    requires Keeps(panel, p) && Mentions(p, name)
    ensures MarkHost(p, name).Failure? ==> MarkHost(p, name).error == HostLineMissing
    ensures MarkHost(p, name).Success? ==>
      Keeps(panel, MarkHost(p, name).value) && Mentions(MarkHost(p, name).value, name)
  {
    MarkHostFails(p, name);
    if MarkHost(p, name).Success? {
      MarkHostKeeps(p, name);
      KeepsTrans(panel, p, MarkHost(p, name).value);
      KeepsMentions(p, MarkHost(p, name).value, name);
    }
  }

  /** One iteration of the roster loop, for contributor `fs[k]`. The host test is
      `md['featuring'].index(i) == 0`. */
  function SyncOne(panel: seq<string>, fs: seq<string>, k: nat): (r: Result<seq<string>, ListError>)
    requires k < |fs|
    ensures r.Failure? ==> r.error == HostLineMissing
    ensures r.Success? ==> Keeps(panel, r.value) && Mentions(r.value, fs[k])
  {
    var p := AddMissing(panel, fs[k]);
    AddMissingMentions(panel, fs[k]);
    if IndexOf(fs, fs[k]) == Some(0) then
      MarkHostOutcome(panel, p, fs[k]);
      MarkHost(p, fs[k])
    else Success(p)
  }

  /** The roster loop from contributor `k` on; the first failure ends it. A finished
      loop keeps every line, links every contributor it visited, and, when it started
      from the host, leaves the host marked. */
  function SyncPanel(panel: seq<string>, fs: seq<string>, k: nat): (r: Result<seq<string>, ListError>)
    requires k <= |fs|
    ensures r.Failure? ==> r.error == HostLineMissing
    ensures r.Success? ==> Keeps(panel, r.value)
    ensures r.Success? ==> forall j :: k <= j < |fs| ==> Mentions(r.value, fs[j])
    ensures r.Success? && k == 0 < |fs| ==> HostMarked(r.value, fs[0])
    decreases |fs| - k
  {
    if k == |fs| then
      KeepsRefl(panel);
      Success(panel)
    else match SyncOne(panel, fs, k)
      case Failure(e) => Failure(e)
      case Success(p) =>
        var r := SyncPanel(p, fs, k + 1);
        if r.Success? then
          KeepsTrans(panel, p, r.value);
          MentionsCarried(p, r.value, fs, k);
          if k == 0 then
            SyncOneMarksHost(panel, fs, 0);
            KeepsHostMarked(p, r.value, fs[0]);
            r
          else r
        else r
  }

  /** A kept roster still links the contributor of the step that produced it. */
  lemma MentionsCarried(p: seq<string>, q: seq<string>, fs: seq<string>, k: nat)
    requires k < |fs| && Keeps(p, q) && Mentions(p, fs[k])
    requires forall j :: k < j < |fs| ==> Mentions(q, fs[j])
    ensures forall j :: k <= j < |fs| ==> Mentions(q, fs[j])
  {
    KeepsMentions(p, q, fs[k]);
  }

  /** `featuring.index(name) == 0` holds for every occurrence of the host's name and
      for no one else. */
  lemma HostTest(fs: seq<string>, k: nat)
    requires k < |fs|
    ensures IndexOf(fs, fs[k]) == Some(0) <==> fs[k] == fs[0]
  {
    assert fs[k] in fs;
  }

  lemma AnyContainsAt(xs: seq<string>, sub: string, k: nat)
    requires k < |xs| && Contains(xs[k], sub)
    ensures AnyContains(xs, sub)
  {
  }

  lemma KeepsPointwise(a: seq<string>, b: seq<string>)
    requires |a| <= |b| && forall i :: 0 <= i < |a| ==> IsPrefix(a[i], b[i])
    ensures Keeps(a, b)
  {
    forall i | 0 <= i < |a| ensures KeptIn(a[i], b) {
      assert IsPrefix(a[i], b[i]);
    }
  }

  lemma KeepsRefl(a: seq<string>)
    ensures Keeps(a, a)
  {
    forall i | 0 <= i < |a| ensures IsPrefix(a[i], a[i]) {
    }
    KeepsPointwise(a, a);
  }

  lemma KeepsSubmultiset(a: seq<string>, b: seq<string>)
    requires multiset(a) <= multiset(b)
    ensures Keeps(a, b)
  {
    forall i | 0 <= i < |a| ensures KeptIn(a[i], b) {
      assert a[i] in multiset(a);
      var j :| 0 <= j < |b| && b[j] == a[i];
      assert IsPrefix(a[i], b[j]);
    }
  }

  lemma RosterLineMentions(name: string)
    ensures Contains(RosterLine(name), WikiLink(name))
  {
    ContainsSelf(WikiLink(name));
    ContainsRight("* ", WikiLink(name), WikiLink(name));
  }

  /** After the addition the roster links the contributor, and every old line is
      still there. */
  lemma AddMissingMentions(panel: seq<string>, name: string)
    ensures Mentions(AddMissing(panel, name), name)
    ensures Keeps(panel, AddMissing(panel, name))
  {
    var r := AddMissing(panel, name);
    if !Mentions(panel, name) {
      AddMissingSorted(panel, name);
      assert RosterLine(name) in multiset(r);
      var k :| 0 <= k < |r| && r[k] == RosterLine(name);
      RosterLineMentions(name);
      AnyContainsAt(r, WikiLink(name), k);
      KeepsSubmultiset(panel, r);
    } else {
      KeepsRefl(panel);
    }
  }

  /** A successful host step keeps every line, one of them possibly gaining ` (host)`:
      it returns the roster as it was, or appends ` (host)` to a line that is exactly
      `* [[name]]` and changes nothing else. */
  lemma MarkHostKeeps(panel: seq<string>, name: string)
    requires Mentions(panel, name) && MarkHost(panel, name).Success?
    ensures |MarkHost(panel, name).value| == |panel|
    ensures Keeps(panel, MarkHost(panel, name).value)
    ensures MarkHost(panel, name).value == panel
      || exists j :: 0 <= j < |panel| && panel[j] == RosterLine(name)
           && MarkHost(panel, name).value == panel[j := panel[j] + " (host)"]
  {
    var r := MarkHost(panel, name).value;
    forall i | 0 <= i < |panel| ensures IsPrefix(panel[i], r[i]) {
    }
    KeepsPointwise(panel, r);
  }

  /** After a successful host step a line links the host and carries the mark. */
  lemma MarkHostMarks(panel: seq<string>, name: string)
    requires Mentions(panel, name) && MarkHost(panel, name).Success?
    ensures HostMarked(MarkHost(panel, name).value, name)
  {
    var f := FirstContaining(panel, WikiLink(name)).value;
    if !Contains(panel[f], "]] (host)") {
      var j := IndexOf(panel, RosterLine(name)).value;
      MarkedLine(name);
      assert MarkHost(panel, name).value[j] == RosterLine(name) + " (host)";
    }
  }

  /** The host step fails only when the first line linking the host lacks the mark
      and no line is exactly `* [[host]]`. */
  lemma MarkHostFails(panel: seq<string>, name: string)
    requires Mentions(panel, name)
    ensures MarkHost(panel, name).Failure? <==>
      !Contains(panel[FirstContaining(panel, WikiLink(name)).value], "]] (host)")
      && RosterLine(name) !in panel
    ensures MarkHost(panel, name).Failure? ==> MarkHost(panel, name).error == HostLineMissing
  {
  }

  /** `* [[name]] (host)` links `name` and carries the host mark. */
  lemma MarkedLine(name: string)
    ensures Contains(RosterLine(name) + " (host)", WikiLink(name))
    ensures Contains(RosterLine(name) + " (host)", "]] (host)")
  {
    ContainsSelf(WikiLink(name));
    ContainsRight("* ", WikiLink(name), WikiLink(name));
    ContainsLeft(RosterLine(name), " (host)", WikiLink(name));
    ContainsSelf("]] (host)");
    assert RosterLine(name) + " (host)" == "* [[" + name + "]] (host)";
    ContainsRight("* [[" + name, "]] (host)", "]] (host)");
  }

  lemma KeepsTrans(a: seq<string>, b: seq<string>, c: seq<string>)
    requires Keeps(a, b) && Keeps(b, c)
    ensures Keeps(a, c)
  {
    forall i | 0 <= i < |a| ensures KeptIn(a[i], c) {
      var j :| 0 <= j < |b| && IsPrefix(a[i], b[j]);
      assert KeptIn(b[j], c);
      var m :| 0 <= m < |c| && IsPrefix(b[j], c[m]);
      PrefixTrans(a[i], b[j], c[m]);
    }
  }

  lemma KeepsMentions(a: seq<string>, b: seq<string>, name: string)
    requires Keeps(a, b) && Mentions(a, name)
    ensures Mentions(b, name)
  {
    var i := FirstContaining(a, WikiLink(name)).value;
    var j :| 0 <= j < |b| && IsPrefix(a[i], b[j]);
    ContainsExtended(a[i], b[j], WikiLink(name));
    AnyContainsAt(b, WikiLink(name), j);
  }

  lemma KeepsHostMarked(a: seq<string>, b: seq<string>, name: string)
    requires Keeps(a, b) && HostMarked(a, name)
    ensures HostMarked(b, name)
  {
    var i :| 0 <= i < |a| && Contains(a[i], WikiLink(name)) && Contains(a[i], "]] (host)");
    var j :| 0 <= j < |b| && IsPrefix(a[i], b[j]);
    ContainsExtended(a[i], b[j], WikiLink(name));
    ContainsExtended(a[i], b[j], "]] (host)");
  }

  /** The roster step for the host leaves the host marked. */
  lemma SyncOneMarksHost(panel: seq<string>, fs: seq<string>, k: nat)
    requires k < |fs| && SyncOne(panel, fs, k).Success? && fs[k] == fs[0]
    ensures HostMarked(SyncOne(panel, fs, k).value, fs[0])
  {
    AddMissingMentions(panel, fs[k]);
    HostTest(fs, k);
    MarkHostMarks(AddMissing(panel, fs[k]), fs[k]);
  }

  // ---------------------------------------------------------------------------
  // The whole page
  // ---------------------------------------------------------------------------

  /** The page's lines after `mainpagetext`, or where it raises. */
  function MainPageLines(pg: string, md: Episode): Result<seq<string>, ListError>
  {
    if md.featuring == [] then Failure(NoContributors)
    else
      var entry := EntryLine(md.title, md.featuring);
      match InsertAfterPrevious(Split(pg, "\n"), md.previous, entry)
      case Failure(e) => Failure(e)
      case Success(lines) =>
        match PanelBounds(lines)
        case Failure(e) => Failure(e)
        case Success((start, end)) =>
          match SyncPanel(lines[start..end], md.featuring, 0)
          case Failure(e) => Failure(e)
          case Success(panel) => Success(lines[..start] + panel + lines[end..])
  }

  /** `mainpagetext(pg, md)`: the lines joined back with newlines. */
  function MainPage(pg: string, md: Episode): Result<string, ListError>
  {
    match MainPageLines(pg, md)
    case Failure(e) => Failure(e)
    case Success(lines) => Success(Join("\n", lines))
  }

  /** Why the update can fail: no contributors, then no line with the previous
      episode, then no panel header, no panel end, or no exact host line. */
  lemma MainPageFailures(pg: string, md: Episode)
    ensures MainPage(pg, md) == Failure(NoContributors) <==> md.featuring == []
    ensures md.featuring != [] ==>
      (MainPage(pg, md) == Failure(PreviousLineMissing) <==> !AnyContains(Split(pg, "\n"), md.previous))
    ensures md.featuring != [] && AnyContains(Split(pg, "\n"), md.previous) ==>
      var lines := InsertAfterPrevious(Split(pg, "\n"), md.previous, EntryLine(md.title, md.featuring)).value;
      (MainPage(pg, md) == Failure(PanelHeaderMissing) <==> "== Panel ==" !in lines)
      && (MainPage(pg, md) == Failure(PanelEndMissing) <==> PanelBounds(lines) == Failure(PanelEndMissing))
  {
    if md.featuring != [] {
      InsertionPlacement(Split(pg, "\n"), md.previous, EntryLine(md.title, md.featuring));
    }
  }

  lemma KeepsSplice(lines: seq<string>, start: nat, end: nat, panel: seq<string>)
    requires start <= end <= |lines| && Keeps(lines[start..end], panel)
    ensures Keeps(lines, lines[..start] + panel + lines[end..])
  {
    var out := lines[..start] + panel + lines[end..];
    forall i | 0 <= i < |lines| ensures KeptIn(lines[i], out) {
      if i < start {
        assert out[i] == lines[i];
        assert IsPrefix(lines[i], out[i]);
      } else if i < end {
        assert lines[start..end][i - start] == lines[i];
        assert KeptIn(lines[i], panel);
        var j :| 0 <= j < |panel| && IsPrefix(lines[i], panel[j]);
        assert out[start + j] == panel[j];
      } else {
        var m := start + |panel| + (i - end);
        assert out[m] == lines[i];
        assert IsPrefix(lines[i], out[m]);
      }
    }
  }

  /** A successful update leaves every line outside the roster span as it was (the
      roster header included), and the span is the synchronised roster. */
  lemma MainPageOutsideSpan(pg: string, md: Episode)
    requires MainPageLines(pg, md).Success?
    ensures
      var lines := InsertAfterPrevious(Split(pg, "\n"), md.previous, EntryLine(md.title, md.featuring)).value;
      var (start, end) := PanelBounds(lines).value;
      var out := MainPageLines(pg, md).value;
      out[..start] == lines[..start] && out[|out| - (|lines| - end)..] == lines[end..]
  {
    var lines, start, end, panel := MainPageParts(pg, md);
    SpliceOutside(lines, start, end, panel);
  }

  lemma SpliceOutside(lines: seq<string>, start: nat, end: nat, panel: seq<string>)
    requires start <= end <= |lines|
    ensures var out := lines[..start] + panel + lines[end..];
      out[..start] == lines[..start] && out[|out| - (|lines| - end)..] == lines[end..]
  {
    var out := lines[..start] + panel + lines[end..];
    assert out[..start] == lines[..start];
    assert out[|out| - (|lines| - end)..] == lines[end..];
  }

  /** The intermediate values of a successful update, named. */
  lemma MainPageParts(pg: string, md: Episode)
    returns (lines: seq<string>, start: nat, end: nat, panel: seq<string>)
    requires MainPageLines(pg, md).Success?
    ensures md.featuring != []
    ensures InsertAfterPrevious(Split(pg, "\n"), md.previous, EntryLine(md.title, md.featuring)) == Success(lines)
    ensures PanelBounds(lines) == Success((start, end))
    ensures SyncPanel(lines[start..end], md.featuring, 0) == Success(panel)
    ensures MainPageLines(pg, md).value == lines[..start] + panel + lines[end..]
  {
    lines := InsertAfterPrevious(Split(pg, "\n"), md.previous, EntryLine(md.title, md.featuring)).value;
    start, end := PanelBounds(lines).value.0, PanelBounds(lines).value.1;
    panel := SyncPanel(lines[start..end], md.featuring, 0).value;
  }

  /** A successful update keeps every line of the old page, possibly extended, and
      the new list item. */
  lemma MainPageKeepsLines(pg: string, md: Episode)
    requires MainPageLines(pg, md).Success?
    ensures Keeps(Split(pg, "\n"), MainPageLines(pg, md).value)
    ensures KeptIn(EntryLine(md.title, md.featuring), MainPageLines(pg, md).value)
  {
    var lines, start, end, panel := MainPageParts(pg, md);
    var out := MainPageLines(pg, md).value;
    var pglines := Split(pg, "\n");
    var entry := EntryLine(md.title, md.featuring);
    InsertionPlacement(pglines, md.previous, entry);
    var p := FirstContaining(pglines, md.previous).value;
    InsertKeeps(pglines, lines, p, entry);
    KeepsSplice(lines, start, end, panel);
    KeepsTrans(pglines, lines, out);
    KeptInKept(lines, out, p + 1);
  }

  /** Lines with one item inserted keep every old line and the item. */
  lemma InsertKeeps(old_lines: seq<string>, lines: seq<string>, p: nat, entry: string)
    requires |lines| == |old_lines| + 1 && p + 1 < |lines|
    requires lines[p + 1] == entry && lines[..p + 1] + lines[p + 2..] == old_lines
    ensures Keeps(old_lines, lines) && KeptIn(entry, lines)
  {
    forall i | 0 <= i < |old_lines| ensures KeptIn(old_lines[i], lines) {
      var j := if i <= p then i else i + 1;
      assert lines[j] == old_lines[i];
      assert IsPrefix(old_lines[i], lines[j]);
    }
    assert IsPrefix(entry, lines[p + 1]);
  }

  lemma KeptInKept(a: seq<string>, b: seq<string>, i: nat)
    requires Keeps(a, b) && i < |a|
    ensures KeptIn(a[i], b)
  {
  }

  /** A successful update links the new episode. Because the page then contains the
      title, the updater's guard skips the page on a second run. */
  lemma MainPageLinksEpisode(pg: string, md: Episode)
    requires MainPage(pg, md).Success?
    ensures Contains(MainPage(pg, md).value, WikiLink(md.title))
    ensures Contains(MainPage(pg, md).value, md.title)
  {
    var out := MainPageLines(pg, md).value;
    var text := MainPage(pg, md).value;
    var entry := EntryLine(md.title, md.featuring);
    MainPageKeepsLines(pg, md);
    var j :| 0 <= j < |out| && IsPrefix(entry, out[j]);
    EntryLineNamesAll(md.title, md.featuring);
    ContainsExtended(entry, out[j], WikiLink(md.title));
    JoinContainsPart("\n", out, j);
    ContainsTrans(text, out[j], WikiLink(md.title));
    ContainsWhole("[[", md.title, "]]");
    ContainsTrans(text, WikiLink(md.title), md.title);
  }

  /** A line that contains `sub` puts `sub` in the joined page. */
  lemma MentionsJoined(out: seq<string>, sub: string)
    requires AnyContains(out, sub)
    ensures Contains(Join("\n", out), sub)
  {
    var m := FirstContaining(out, sub).value;
    JoinContainsPart("\n", out, m);
    ContainsTrans(Join("\n", out), out[m], sub);
  }

  lemma SpliceMentions(lines: seq<string>, start: nat, end: nat, panel: seq<string>, sub: string)
    requires start <= end <= |lines| && AnyContains(panel, sub)
    ensures AnyContains(lines[..start] + panel + lines[end..], sub)
  {
    var m := FirstContaining(panel, sub).value;
    var out := lines[..start] + panel + lines[end..];
    assert out[start + m] == panel[m];
    AnyContainsAt(out, sub, start + m);
  }

  /** The roster span of the updated page: what lies between the lines before the old
      span and the lines after it. */
  function UpdatedRoster(pg: string, md: Episode): seq<string>
    requires MainPageLines(pg, md).Success?
  {
    var lines := InsertAfterPrevious(Split(pg, "\n"), md.previous, EntryLine(md.title, md.featuring)).value;
    var (start, end) := PanelBounds(lines).value;
    var out := MainPageLines(pg, md).value;
    out[start..|out| - (|lines| - end)]
  }

  /** The roster span of the updated page is what the roster loop makes of the roster
      span of the page after the insertion, and it keeps every line of that span. */
  lemma UpdatedRosterIsPanel(pg: string, md: Episode)
    returns (lines: seq<string>, start: nat, end: nat, panel: seq<string>)
    requires MainPageLines(pg, md).Success?
    ensures InsertAfterPrevious(Split(pg, "\n"), md.previous, EntryLine(md.title, md.featuring)) == Success(lines)
    ensures PanelBounds(lines) == Success((start, end)) && start <= end <= |lines|
    ensures SyncPanel(lines[start..end], md.featuring, 0) == Success(panel)
    ensures MainPageLines(pg, md).value == lines[..start] + panel + lines[end..]
    ensures UpdatedRoster(pg, md) == panel
    ensures Keeps(lines[start..end], UpdatedRoster(pg, md))
  {
    lines, start, end, panel := MainPageParts(pg, md);
    SpliceMiddle(lines, start, end, panel);
  }

  lemma SpliceMiddle(lines: seq<string>, start: nat, end: nat, panel: seq<string>)
    requires start <= end <= |lines|
    ensures var out := lines[..start] + panel + lines[end..];
      out[start..|out| - (|lines| - end)] == panel
  {
  }

  /** A successful update links every contributor of the episode in the roster span,
      and so in the page. */
  lemma MainPageLinksContributor(pg: string, md: Episode, k: nat)
    requires MainPage(pg, md).Success? && k < |md.featuring|
    ensures Mentions(UpdatedRoster(pg, md), md.featuring[k])
    ensures Contains(MainPage(pg, md).value, WikiLink(md.featuring[k]))
  {
    var lines, start, end, panel := UpdatedRosterIsPanel(pg, md);
    SpliceMentions(lines, start, end, panel, WikiLink(md.featuring[k]));
    MentionsJoined(MainPageLines(pg, md).value, WikiLink(md.featuring[k]));
  }

  /** After a successful update a line of the roster span links the host and carries
      the mark. */
  lemma MainPageMarksHost(pg: string, md: Episode)
    requires MainPageLines(pg, md).Success?
    ensures md.featuring != [] && HostMarked(UpdatedRoster(pg, md), md.featuring[0])
  {
    var lines, start, end, panel := UpdatedRosterIsPanel(pg, md);
  }

  /** The roster loop of `mainpagetext`, over the cut-out span. */
  method SyncRoster(panel0: seq<string>, fs: seq<string>) returns (r: Result<seq<string>, ListError>)
    ensures r == SyncPanel(panel0, fs, 0)
  {
    var panel := panel0;
    for k := 0 to |fs|
      invariant SyncPanel(panel0, fs, 0) == SyncPanel(panel, fs, k)
    {
      var name := fs[k];
      ghost var before := panel;
      if !Mentions(panel, name) {
        panel := SortByLower(panel + [RosterLine(name)]);
      }
      AddMissingMentions(before, name);
      if IndexOf(fs, name) == Some(0) {
        var f := FirstContaining(panel, WikiLink(name)).value;
        if !Contains(panel[f], "]] (host)") {
          var j := IndexOf(panel, RosterLine(name));
          if j.None? {
            return Failure(HostLineMissing);
          }
          panel := panel[j.value := panel[j.value] + " (host)"];
        }
      }
    }
    return Success(panel);
  }

  /** `mainpagetext`, step by step as the source runs it: build the item, split the
      page, insert after the previous episode, cut out the roster, run the roster loop,
      splice the roster back and join. */
  method MainPageText(pg: string, md: Episode) returns (r: Result<string, ListError>)
    ensures r == MainPage(pg, md)
  {
    if |md.featuring| == 0 {
      return Failure(NoContributors);
    }
    var newEpisode := NewEpisodeLine(md.title, md.featuring);
    var splitpage := Split(pg, "\n");
    var found := FirstContaining(splitpage, md.previous);
    if found.None? {
      return Failure(PreviousLineMissing);
    }
    var prevline := splitpage[found.value];
    assert prevline in splitpage;
    var prevind := IndexOf(splitpage, prevline).value;
    splitpage := splitpage[..prevind + 1] + [newEpisode] + splitpage[prevind + 1..];

    var bounds := PanelBounds(splitpage);
    if bounds.Failure? {
      return Failure(bounds.error);
    }
    var (panelstart, panelend) := bounds.value;
    var panel := SyncRoster(splitpage[panelstart..panelend], md.featuring);
    if panel.Failure? {
      return Failure(panel.error);
    }
    splitpage := splitpage[..panelstart] + panel.value + splitpage[panelend..];
    return Success(Join("\n", splitpage));
  }
}
