/**
 * Python string primitives used by the wiki updater, over `string` (= `seq<char>`):
 * `sub in s`, `s.split(sep)`, `sep.join(parts)`, `list.index(x)` and
 * `s.split('/')[-1]`, each with the lemmas that say what it means.
 */
module Text {

  datatype Option<+T> = None | Some(value: T)

  /** The outcome of an operation that raises where Python raises. */
  datatype Result<+T, +E> = Success(value: T) | Failure(error: E)

  /** `s.startswith(p)` */
  predicate IsPrefix(p: string, s: string) {
    |p| <= |s| && s[..|p|] == p
  }

  /** Python's `sub in s`. */
  predicate Contains(s: string, sub: string)
    decreases |s|
  {
    IsPrefix(sub, s) || (|s| > 0 && Contains(s[1..], sub))
  }

  /** `sub` occurs in `s` starting at position `i`. */
  ghost predicate OccursAt(s: string, sub: string, i: int) {
    0 <= i && i + |sub| <= |s| && s[i..i + |sub|] == sub
  }

  /** `Contains` is substring search: it holds exactly when `sub` occurs somewhere in `s`. */
  lemma {:induction false} ContainsIff(s: string, sub: string)
    ensures Contains(s, sub) <==> exists i :: OccursAt(s, sub, i)
    decreases |s|
  {
    if IsPrefix(sub, s) {
      assert OccursAt(s, sub, 0);
    } else if |s| > 0 {
      ContainsIff(s[1..], sub);
      if Contains(s[1..], sub) {
        var i :| OccursAt(s[1..], sub, i);
        assert s[1..][i..i + |sub|] == s[i + 1..i + 1 + |sub|];
        assert OccursAt(s, sub, i + 1);
      }
      assert !OccursAt(s, sub, 0);
      forall i | OccursAt(s, sub, i) && i > 0 ensures OccursAt(s[1..], sub, i - 1) {
        assert s[1..][i - 1..i - 1 + |sub|] == s[i..i + |sub|];
      }
    }
  }

  /** An occurrence inside `b` is still an occurrence in any `a + b + c`. */
  lemma ContainsInfix(a: string, b: string, c: string, sub: string)
    requires Contains(b, sub)
    ensures Contains(a + b + c, sub)
  {
    ContainsIff(b, sub);
    var i :| OccursAt(b, sub, i);
    assert (a + b + c)[|a| + i..|a| + i + |sub|] == b[i..i + |sub|];
    assert OccursAt(a + b + c, sub, |a| + i);
    ContainsIff(a + b + c, sub);
  }

  /** Substring search is transitive. */
  lemma ContainsTrans(s: string, m: string, sub: string)
    requires Contains(s, m) && Contains(m, sub)
    ensures Contains(s, sub)
  {
    ContainsIff(s, m);
    ContainsIff(m, sub);
    var i :| OccursAt(s, m, i);
    var j :| OccursAt(m, sub, j);
    forall k | 0 <= k < |sub| ensures s[i + j + k] == sub[k] {
      assert m[j + k] == sub[k];
      assert s[i..i + |m|][j + k] == s[i + j + k];
    }
    assert s[i + j..i + j + |sub|] == sub;
    assert OccursAt(s, sub, i + j);
    ContainsIff(s, sub);
  }

  /** Every string contains itself, so it is found inside any string that has it as an infix. */
  lemma ContainsWhole(a: string, b: string, c: string)
    ensures Contains(a + b + c, b)
  {
    assert IsPrefix(b, b);
    ContainsInfix(a, b, c, b);
  }

  lemma ContainsSelf(s: string)
    ensures Contains(s, s)
  {
    assert IsPrefix(s, s);
  }

  /** An occurrence in `a` is still one after appending `b`. */
  lemma ContainsLeft(a: string, b: string, sub: string)
    requires Contains(a, sub)
    ensures Contains(a + b, sub)
  {
    ContainsInfix([], a, b, sub);
    assert [] + a + b == a + b;
  }

  /** An occurrence in `b` is still one after prepending `a`. */
  lemma ContainsRight(a: string, b: string, sub: string)
    requires Contains(b, sub)
    ensures Contains(a + b, sub)
  {
    ContainsInfix(a, b, [], sub);
    assert a + b + [] == a + b;
  }

  /** An occurrence in `x` is still one in every string that starts with `x`. */
  lemma ContainsExtended(x: string, y: string, sub: string)
    requires IsPrefix(x, y) && Contains(x, sub)
    ensures Contains(y, sub)
  {
    assert y == x + y[|x|..];
    ContainsLeft(x, y[|x|..], sub);
  }

  lemma PrefixTrans(a: string, b: string, c: string)
    requires IsPrefix(a, b) && IsPrefix(b, c)
    ensures IsPrefix(a, c)
  {
    assert c[..|b|][..|a|] == c[..|a|];
  }

  /** Python's `s.split(sep)` for a non-empty separator: scanning left to right,
      every non-overlapping occurrence of `sep` ends one part. */
  function Split(s: string, sep: string): (parts: seq<string>)
    requires |sep| > 0
    ensures |parts| > 0
    decreases |s|
  {
    if IsPrefix(sep, s) then [""] + Split(s[|sep|..], sep)
    else if s == [] then [""]
    else
      var rest := Split(s[1..], sep);
      [[s[0]] + rest[0]] + rest[1..]
  }

  /** Python's `sep.join(parts)`. */
  function Join(sep: string, parts: seq<string>): string
  {
    if parts == [] then ""
    else if |parts| == 1 then parts[0]
    else parts[0] + sep + Join(sep, parts[1..])
  }

  /** Reference definition of "replace every occurrence of `pat` by `rep`",
      scanning left to right over non-overlapping occurrences. */
  function ReplaceAll(s: string, pat: string, rep: string): string
    requires |pat| > 0
    decreases |s|
  {
    if IsPrefix(pat, s) then rep + ReplaceAll(s[|pat|..], pat, rep)
    else if s == [] then ""
    else [s[0]] + ReplaceAll(s[1..], pat, rep)
  }

  lemma JoinCons(sep: string, c: char, first: string, rest: seq<string>)
    ensures Join(sep, [[c] + first] + rest) == [c] + Join(sep, [first] + rest)
  {
    if rest != [] {
      assert ([[c] + first] + rest)[1..] == rest;
      assert ([first] + rest)[1..] == rest;
    }
  }

  lemma JoinEmptyFirst(sep: string, rest: seq<string>)
    requires rest != []
    ensures Join(sep, [""] + rest) == sep + Join(sep, rest)
  {
    assert ([""] + rest)[1..] == rest;
  }

  /** `rep.join(s.split(pat))` replaces every occurrence of `pat` in `s` by `rep`. */
  lemma {:induction false} JoinSplitIsReplace(s: string, pat: string, rep: string)
    requires |pat| > 0
    ensures Join(rep, Split(s, pat)) == ReplaceAll(s, pat, rep)
    decreases |s|
  {
    if IsPrefix(pat, s) {
      var rest := Split(s[|pat|..], pat);
      assert Split(s, pat) == [""] + rest;
      JoinSplitIsReplace(s[|pat|..], pat, rep);
      JoinEmptyFirst(rep, rest);
    } else if s != [] {
      var rest := Split(s[1..], pat);
      assert Split(s, pat) == [[s[0]] + rest[0]] + rest[1..];
      JoinSplitIsReplace(s[1..], pat, rep);
      JoinCons(rep, s[0], rest[0], rest[1..]);
      assert [rest[0]] + rest[1..] == rest;
    }
  }

  /** Replacing by the pattern itself changes nothing, so `sep.join(s.split(sep)) == s`. */
  lemma {:induction false} ReplaceBySelf(s: string, pat: string)
    requires |pat| > 0
    ensures ReplaceAll(s, pat, pat) == s
    decreases |s|
  {
    if IsPrefix(pat, s) {
      ReplaceBySelf(s[|pat|..], pat);
      assert s == s[..|pat|] + s[|pat|..];
    } else if s != [] {
      ReplaceBySelf(s[1..], pat);
      assert s == [s[0]] + s[1..];
    }
  }

  lemma SplitJoinRoundTrip(s: string, sep: string)
    requires |sep| > 0
    ensures Join(sep, Split(s, sep)) == s
  {
    JoinSplitIsReplace(s, sep, sep);
    ReplaceBySelf(s, sep);
  }

  /** Where `pat` does not occur, the replacement leaves `s` as it is. */
  lemma {:induction false} ReplaceAbsent(s: string, pat: string, rep: string)
    requires |pat| > 0 && !Contains(s, pat)
    ensures ReplaceAll(s, pat, rep) == s
    decreases |s|
  {
    if s != [] {
      ReplaceAbsent(s[1..], pat, rep);
      assert s == [s[0]] + s[1..];
    }
  }

  /** Where `pat` occurs, the replacement text occurs in the result. */
  lemma {:induction false} ReplacePresent(s: string, pat: string, rep: string)
    requires |pat| > 0 && Contains(s, pat)
    ensures Contains(ReplaceAll(s, pat, rep), rep)
    decreases |s|
  {
    if IsPrefix(pat, s) {
      ContainsWhole("", rep, ReplaceAll(s[|pat|..], pat, rep));
      assert "" + rep + ReplaceAll(s[|pat|..], pat, rep) == ReplaceAll(s, pat, rep);
    } else {
      ReplacePresent(s[1..], pat, rep);
      ContainsInfix([s[0]], ReplaceAll(s[1..], pat, rep), "", rep);
      assert [s[0]] + ReplaceAll(s[1..], pat, rep) + "" == ReplaceAll(s, pat, rep);
    }
  }

  /** Every part is found in the joined text. */
  lemma {:induction false} JoinContainsPart(sep: string, parts: seq<string>, k: nat)
    requires k < |parts|
    ensures Contains(Join(sep, parts), parts[k])
  {
    if |parts| == 1 {
      ContainsWhole("", parts[0], "");
      assert "" + parts[0] + "" == parts[0];
    } else if k == 0 {
      ContainsWhole("", parts[0], sep + Join(sep, parts[1..]));
      assert "" + parts[0] + (sep + Join(sep, parts[1..])) == Join(sep, parts);
    } else {
      JoinContainsPart(sep, parts[1..], k - 1);
      ContainsInfix(parts[0] + sep, Join(sep, parts[1..]), "", parts[k]);
      assert parts[0] + sep + Join(sep, parts[1..]) + "" == Join(sep, parts);
    }
  }

  /** Splitting at a one-character separator distributes over a text that has that
      separator between two halves. */
  lemma {:induction false} SplitAtChar(a: string, c: char, b: string)
    ensures Split(a + [c] + b, [c]) == Split(a, [c]) + Split(b, [c])
    decreases |a|
  {
    var s := a + [c] + b;
    if a == [] {
      assert s == [c] + b;
      assert IsPrefix([c], s);
      assert s[1..] == b;
    } else if a[0] == c {
      assert IsPrefix([c], s) && IsPrefix([c], a);
      assert s[1..] == a[1..] + [c] + b;
      SplitAtChar(a[1..], c, b);
    } else {
      var ra, rb := Split(a[1..], [c]), Split(b, [c]);
      assert s[0] == a[0];
      assert !IsPrefix([c], s) && !IsPrefix([c], a);
      assert s[1..] == a[1..] + [c] + b;
      SplitAtChar(a[1..], c, b);
      HeadTail(ra, rb);
      assert Split(s, [c]) == [[a[0]] + ra[0]] + (ra + rb)[1..];
      assert Split(a, [c]) == [[a[0]] + ra[0]] + ra[1..];
    }
  }

  lemma HeadTail(xs: seq<string>, ys: seq<string>)
    requires |xs| > 0
    ensures (xs + ys)[0] == xs[0] && (xs + ys)[1..] == xs[1..] + ys
  {
  }

  /** A text free of the separator character splits into one part: itself. */
  lemma {:induction false} SplitNoSeparator(s: string, c: char)
    requires c !in s
    ensures Split(s, [c]) == [s]
    decreases |s|
  {
    if s != [] {
      assert s[0] != c;
      SplitNoSeparator(s[1..], c);
      assert s == [s[0]] + s[1..];
    }
  }

  /** No part produced by splitting at a character holds that character. */
  lemma {:induction false} SplitPartsFree(s: string, c: char)
    ensures forall k :: 0 <= k < |Split(s, [c])| ==> c !in Split(s, [c])[k]
    decreases |s|
  {
    if IsPrefix([c], s) {
      SplitPartsFree(s[1..], c);
    } else if s != [] {
      assert s[0] != c;
      SplitPartsFree(s[1..], c);
    }
  }

  /** Joining lines that hold no separator character and splitting again gives the lines back. */
  lemma {:induction false} SplitJoinLines(lines: seq<string>, c: char)
    requires |lines| > 0
    requires forall k :: 0 <= k < |lines| ==> c !in lines[k]
    ensures Split(Join([c], lines), [c]) == lines
  {
    if |lines| == 1 {
      SplitNoSeparator(lines[0], c);
    } else {
      SplitJoinLines(lines[1..], c);
      SplitNoSeparator(lines[0], c);
      SplitAtChar(lines[0], c, Join([c], lines[1..]));
      assert [lines[0]] + lines[1..] == lines;
    }
  }

  /** The last part of a join follows the last separator. */
  lemma {:induction false} JoinLast(sep: string, parts: seq<string>)
    requires |parts| > 1
    ensures Join(sep, parts) == Join(sep, parts[..|parts| - 1]) + sep + parts[|parts| - 1]
  {
    if |parts| > 2 {
      JoinLast(sep, parts[1..]);
      assert parts[1..][..|parts| - 2] == parts[..|parts| - 1][1..];
    }
  }

  /** Joining one more part appends the separator and that part. */
  lemma JoinAppend(sep: string, lines: seq<string>, x: string)
    requires |lines| > 0
    ensures Join(sep, lines + [x]) == Join(sep, lines) + sep + x
  {
    JoinLast(sep, lines + [x]);
    assert (lines + [x])[..|lines|] == lines;
  }

  /** `seg` is what `s.split('/')[-1]` yields: it holds no slash and is either all of
      `s` or the part after a slash that ends `s`. */
  ghost predicate IsLastSegment(seg: string, s: string) {
    '/' !in seg &&
    (seg == s || (|seg| < |s| && s[|s| - |seg| - 1] == '/' && s[|s| - |seg|..] == seg))
  }

  /** Python's `s.split('/')[-1]`: the text after the last slash. */
  function LastSegment(s: string): (r: string)
    ensures IsLastSegment(r, s)
  {
    var parts := Split(s, "/");
    SplitPartsFree(s, '/');
    SplitJoinRoundTrip(s, "/");
    if |parts| > 1 then JoinLast("/", parts); parts[|parts| - 1]
    else parts[0]
  }

  /** Every character after a last segment's start is not a slash, and a proper last
      segment is preceded by one, so no other last segment can be longer. */
  lemma LastSegmentNotShorter(s: string, a: string, b: string)
    requires IsLastSegment(a, s) && IsLastSegment(b, s)
    ensures |b| <= |a|
  {
    assert b == s[|s| - |b|..];
    forall k | |s| - |b| <= k < |s| ensures s[k] != '/' {
      assert s[k] == b[k - (|s| - |b|)];
    }
    if a != s {
      assert s[|s| - |a| - 1] == '/';
    }
  }

  /** That description fixes the segment, so it is an independent definition of `LastSegment`. */
  lemma LastSegmentUnique(s: string, a: string, b: string)
    requires IsLastSegment(a, s) && IsLastSegment(b, s)
    ensures a == b
  {
    LastSegmentNotShorter(s, a, b);
    LastSegmentNotShorter(s, b, a);
    assert a == s[|s| - |a|..];
    assert b == s[|s| - |b|..];
  }

  /** Python's `xs.index(x)`: the first position holding `x`, or None where
      Python raises ValueError. */
  function IndexOf(xs: seq<string>, x: string): (r: Option<nat>)
    ensures r.Some? ==> r.value < |xs| && xs[r.value] == x && x !in xs[..r.value]
    ensures r.None? <==> x !in xs
  {
    if xs == [] then None
    else if xs[0] == x then Some(0)
    else match IndexOf(xs[1..], x)
      case None => None
      case Some(k) => assert xs[..k + 1] == [xs[0]] + xs[1..][..k]; Some(k + 1)
  }

  /** `[s for s in xs if sub in s][0]` as a position: the first element containing `sub`. */
  function FirstContaining(xs: seq<string>, sub: string): (r: Option<nat>)
    ensures r.Some? ==> r.value < |xs| && Contains(xs[r.value], sub)
    ensures r.Some? ==> forall j {:trigger Contains(xs[j], sub)} :: 0 <= j < r.value ==> !Contains(xs[j], sub)
    ensures r.None? ==> forall j {:trigger Contains(xs[j], sub)} :: 0 <= j < |xs| ==> !Contains(xs[j], sub)
  {
    if xs == [] then None
    else if Contains(xs[0], sub) then Some(0)
    else match FirstContaining(xs[1..], sub)
      case None => None
      case Some(k) => Some(k + 1)
  }

  /** Python's `any(sub in s for s in xs)`. */
  predicate AnyContains(xs: seq<string>, sub: string) {
    FirstContaining(xs, sub).Some?
  }
}
