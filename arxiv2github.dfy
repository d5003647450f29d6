/**
  Repository mentions in the plain text of a paper (arxiv2github.py).

  `search_in_string` scans the text for every occurrence of a marker. Each
  capture runs from the occurrence to the first space or period among the
  `WINDOW` characters after the marker, or to the end of the text when there
  is none. The cursor then moves to the end of the marker (not of the capture),
  so captures may overlap. The loop also captures once more on its final,
  unsuccessful search. The captures are then made unique, sorted, and `''`
  is dropped.
 */
module Arxiv2Github {
  import opened Strings
  import opened Unique

  /** How many characters after the marker are searched for a terminator. */
  const WINDOW: nat := 100

  /** The marker `arxiv2github` looks for. */
  const GITHUB_MARKER: string := "github.com/"

  /** The characters that end a mention. */
  predicate IsTerminator(c: char) {
    c == ' ' || c == '.'
  }

  /**
    `hit_end` for a marker that ends at `from`: the first space or period in
    `s[from..from + WINDOW]`, or the length of `s` when there is none.
   */
  function HitEnd(s: string, from: nat): (e: nat)
    ensures e <= |s| && (from <= |s| ==> from <= e)
  {
    var space := Find(s, " ", from, from + WINDOW);
    var period := Find(s, ".", from, from + WINDOW);
    if space == -1 && period == -1 then |s|
    else if space == -1 then period
    else if period == -1 then space
    else if space < period then space else period
  }

  /** `HitEnd` stops at the first space or period of the window, or runs to the end of the text. */
  lemma HitEndSpec(s: string, from: nat)
    ensures HitEnd(s, from) < |s| ==>
      from <= HitEnd(s, from) < from + WINDOW && IsTerminator(s[HitEnd(s, from)])
    ensures forall i :: from <= i < HitEnd(s, from) && i < from + WINDOW ==> !IsTerminator(s[i])
  {
    var space := Find(s, " ", from, from + WINDOW);
    var period := Find(s, ".", from, from + WINDOW);
    TerminatorSearch(s, from, space, period);
  }

  /** What the two `find` calls of `HitEnd` say about the terminators in the window. */
  lemma TerminatorSearch(s: string, from: nat, space: int, period: int)
    requires space == Find(s, " ", from, from + WINDOW)
    requires period == Find(s, ".", from, from + WINDOW)
    ensures space != -1 ==> from <= space < from + WINDOW && space < |s| && s[space] == ' '
    ensures period != -1 ==> from <= period < from + WINDOW && period < |s| && s[period] == '.'
    ensures forall i :: from <= i < from + WINDOW && i < |s| && (space == -1 || i < space) ==> s[i] != ' '
    ensures forall i :: from <= i < from + WINDOW && i < |s| && (period == -1 || i < period) ==> s[i] != '.'
  {
    OccursAtChar(s, ' ', space);
    OccursAtChar(s, '.', period);
    forall i | from <= i < from + WINDOW && i < |s| && (space == -1 || i < space)
      ensures s[i] != ' '
    {
      OccursAtChar(s, ' ', i);
    }
    forall i | from <= i < from + WINDOW && i < |s| && (period == -1 || i < period)
      ensures s[i] != '.'
    {
      OccursAtChar(s, '.', i);
    }
  }

  /** `string[hit:hit_end]`, where `hit` is an occurrence of the marker or the final -1. */
  function Capture(s: string, m: string, hit: int): string
    requires hit >= -1 && |m| > 0
  {
    Slice(s, hit, HitEnd(s, hit + |m|))
  }

  /**
    The occurrences the loop finds from cursor `start` on: each search starts at
    the previous occurrence plus the length of the marker.
   */
  function Hits(s: string, m: string, start: nat): seq<nat>
    requires |m| > 0
    decreases |s| - start
  {
    var hit := Find(s, m, start, |s|);
    if hit == -1 then [] else [hit] + Hits(s, m, hit + |m|)
  }

  /**
    The occurrences found from `start` on are real occurrences at or after
    `start`, in increasing order, each at least one marker length after the
    one before.
   */
  lemma {:induction false} HitsOccur(s: string, m: string, start: nat)
    requires |m| > 0
    ensures forall i :: 0 <= i < |Hits(s, m, start)| ==>
      start <= Hits(s, m, start)[i] && OccursAt(s, m, Hits(s, m, start)[i])
    ensures forall i :: 0 <= i < |Hits(s, m, start)| - 1 ==> Hits(s, m, start)[i] + |m| <= Hits(s, m, start)[i + 1]
    decreases |s| - start
  {
    var hit := Find(s, m, start, |s|);
    if hit != -1 {
      var rest := Hits(s, m, hit + |m|);
      HitsOccur(s, m, hit + |m|);
      var hits := Hits(s, m, start);
      assert hits == [hit] + rest;
      forall i | 0 <= i < |hits| ensures start <= hits[i] && OccursAt(s, m, hits[i]) {
        if i > 0 {
          assert hits[i] == rest[i - 1];
        }
      }
      forall i | 0 <= i < |hits| - 1 ensures hits[i] + |m| <= hits[i + 1] {
        assert hits[i + 1] == rest[i];
        if i > 0 {
          assert hits[i] == rest[i - 1];
        }
      }
    }
  }

  /** The captures for a list of occurrences, in the same order. */
  function Captures(s: string, m: string, hits: seq<nat>): seq<string>
    requires |m| > 0
  {
    seq(|hits|, i requires 0 <= i < |hits| => Capture(s, m, hits[i]))
  }

  lemma CapturesSnoc(s: string, m: string, hits: seq<nat>, h: nat)
    requires |m| > 0
    ensures Captures(s, m, hits + [h]) == Captures(s, m, hits) + [Capture(s, m, h)]
  {
  }

  /** Everything the loop appends: one capture per occurrence, then the capture of the final -1. */
  function RawMatches(s: string, m: string): seq<string>
    requires |m| > 0
  {
    Captures(s, m, Hits(s, m, 0)) + [Capture(s, m, -1)]
  }

  /**
    `search_in_string(string, search_term)`. The marker must not be empty: with
    an empty marker the source's loop never ends.
   */
  method SearchInString(s: string, m: string) returns (matches: seq<string>)
    requires |m| > 0
    ensures matches == UniqueNonEmpty(RawMatches(s, m))
    ensures StrictlySorted(matches) && [] !in matches
    ensures forall x :: x in matches <==> x in RawMatches(s, m) && x != []
  {
    var start: nat := 0;
    var hit: int := 0;  // any value but -1 enters the loop; the source starts from NaN
    var found: seq<string> := [];
    ghost var seen: seq<nat> := [];
    while hit != -1
      invariant Progress(s, m, hit, start, seen, found)
      decreases if hit == -1 then 0 else 1, |s| - start
    {
      ghost var start0, seen0, found0 := start, seen, found;
      hit := Find(s, m, start, |s|);
      found := found + [Capture(s, m, hit)];
      if hit != -1 {
        seen := seen + [hit];
      }
      start := hit + |m|;
      SearchStep(s, m, start0, seen0, found0, hit, start, seen, found);
    }
    matches := UniqueNonEmpty(found);
  }

  /** The search cursor is at `start` after the occurrences `seen` were found. */
  predicate Reached(s: string, m: string, start: nat, seen: seq<nat>)
    requires |m| > 0
  {
    start <= |s| && seen + Hits(s, m, start) == Hits(s, m, 0)
  }

  /**
    The state of the loop of `SearchInString`: while searching, the captures of
    the occurrences found so far; after the final search, all of `RawMatches`.
   */
  predicate Progress(s: string, m: string, hit: int, start: nat, seen: seq<nat>, found: seq<string>)
    requires |m| > 0
  {
    if hit == -1 then found == RawMatches(s, m)
    else Reached(s, m, start, seen) && found == Captures(s, m, seen)
  }

  /** One round of the loop of `SearchInString` keeps `Progress`, and makes progress. */
  lemma SearchStep(s: string, m: string, start0: nat, seen0: seq<nat>, found0: seq<string>,
                   hit: int, start: nat, seen: seq<nat>, found: seq<string>)
    requires |m| > 0 && Reached(s, m, start0, seen0) && found0 == Captures(s, m, seen0)
    requires hit == Find(s, m, start0, |s|) && start == hit + |m|
    requires found == found0 + [Capture(s, m, hit)]
    requires seen == if hit == -1 then seen0 else seen0 + [hit]
    ensures Progress(s, m, hit, start, seen, found)
    ensures hit != -1 ==> start0 < start
  {
    if hit == -1 {
      assert Hits(s, m, start0) == [];
      assert seen0 == Hits(s, m, 0);
    } else {
      var rest := Hits(s, m, hit + |m|);
      assert Hits(s, m, start0) == [hit] + rest;
      assert (seen0 + [hit]) + rest == seen0 + ([hit] + rest);
      CapturesSnoc(s, m, seen0, hit);
    }
  }

  /** `arxiv2github` once the paper's text is at hand: the mentions of `github.com/`. */
  method Arxiv2Github(text: string) returns (mentions: seq<string>)
    ensures mentions == UniqueNonEmpty(RawMatches(text, GITHUB_MARKER))
    ensures forall x :: x in mentions ==> HasPrefix(x, GITHUB_MARKER) || (|text| > 0 && x == text[|text| - 1..])
  {
    mentions := SearchInString(text, GITHUB_MARKER);
    forall x | x in mentions
      ensures HasPrefix(x, GITHUB_MARKER) || (|text| > 0 && x == text[|text| - 1..])
    {
      RawMatchShape(text, GITHUB_MARKER, x);
    }
  }

  /**
    A capture at an occurrence of the marker: a piece of the text that starts
    with the marker. When it stops before the end of the text it stops at a
    space or period fewer than `WINDOW` characters past the marker, with no
    space or period in between. When it runs to the end of the text there is
    no space or period in the window, though there may be some beyond it.
   */
  lemma CaptureAtHit(s: string, m: string, h: nat)
    requires |m| > 0 && OccursAt(s, m, h)
    ensures h + |Capture(s, m, h)| <= |s| && Capture(s, m, h) == s[h..h + |Capture(s, m, h)|]
    ensures HasPrefix(Capture(s, m, h), m)
    ensures h + |Capture(s, m, h)| < |s| ==>
      |Capture(s, m, h)| < |m| + WINDOW && IsTerminator(s[h + |Capture(s, m, h)|])
    ensures forall k :: h + |m| <= k < h + |Capture(s, m, h)| && k < h + |m| + WINDOW ==> !IsTerminator(s[k])
  {
    CaptureIsSlice(s, m, h);
    HitEndSpec(s, h + |m|);
    var c := Capture(s, m, h);
    assert c[..|m|] == s[h..h + |m|];
  }

  /** A capture at an occurrence is the text from the occurrence to `HitEnd`. */
  lemma CaptureIsSlice(s: string, m: string, h: nat)
    requires |m| > 0 && OccursAt(s, m, h)
    ensures h + |m| <= HitEnd(s, h + |m|) <= |s|
    ensures Capture(s, m, h) == s[h..HitEnd(s, h + |m|)]
  {
    var e := HitEnd(s, h + |m|);
    assert SliceIndex(h, |s|) == h && SliceIndex(e, |s|) == e;
  }

  /**
    The capture of the final, unsuccessful search (`hit == -1`): `string[-1:hit_end]`
    is either empty or the last character of the text, and it is the last
    character exactly when the text is not empty and holds no space or period
    in the window that starts one before the marker's length.
   */
  lemma FinalCapture(s: string, m: string)
    requires |m| > 0
    ensures Capture(s, m, -1) == [] || (|s| > 0 && Capture(s, m, -1) == s[|s| - 1..])
    ensures Capture(s, m, -1) != [] <==>
      |s| > 0 && forall i :: |m| - 1 <= i < |m| - 1 + WINDOW && i < |s| ==> !IsTerminator(s[i])
  {
    var e := HitEnd(s, |m| - 1);
    HitEndSpec(s, |m| - 1);
    if e < |s| {
      assert |m| - 1 <= e < |m| - 1 + WINDOW && IsTerminator(s[e]);
    }
  }

  /** Every element of `RawMatches` starts with the marker, except possibly the final capture. */
  lemma RawMatchShape(s: string, m: string, x: string)
    requires |m| > 0 && x in RawMatches(s, m)
    ensures HasPrefix(x, m) || x == [] || (|s| > 0 && x == s[|s| - 1..])
  {
    var hits := Hits(s, m, 0);
    HitsOccur(s, m, 0);
    var i :| 0 <= i < |RawMatches(s, m)| && RawMatches(s, m)[i] == x;
    if i < |hits| {
      CaptureAtHit(s, m, hits[i]);
    } else {
      FinalCapture(s, m);
    }
  }

  /**
    Text without the marker does not necessarily give nothing: it gives the
    text's last character when the window of the final search holds no space
    or period, and nothing otherwise.
   */
  lemma NoMarkerNoHits(s: string, m: string)
    requires |m| > 0 && !Contains(s, m)
    ensures RawMatches(s, m) == [Capture(s, m, -1)]
    ensures UniqueNonEmpty(RawMatches(s, m)) == (if Capture(s, m, -1) == [] then [] else [Capture(s, m, -1)])
  {
    assert Hits(s, m, 0) == [];
    var c := Capture(s, m, -1);
    assert SortedUnique([c]) == Insert(c, SortedUnique([])) == [c];
    assert [c][1..] == [];
    assert WithoutEmpty([c]) == if c == [] then [] else [c];
  }

  /** The quirk on an example: `"v1"` holds no mention, yet yields `["1"]`. */
  lemma NoMarkerExample()
    ensures UniqueNonEmpty(RawMatches("v1", GITHUB_MARKER)) == ["1"]
  {
    assert !Contains("v1", GITHUB_MARKER);
    NoMarkerNoHits("v1", GITHUB_MARKER);
    assert HitEnd("v1", |GITHUB_MARKER| - 1) == 2;
    assert Capture("v1", GITHUB_MARKER, -1) == "1";
  }

  /**
    No occurrence of the marker is missed unless it starts inside an earlier
    occurrence's marker: each one from `start` on is found, or lies within the
    marker of an occurrence that was found.
   */
  lemma {:induction false} HitsCover(s: string, m: string, start: nat, p: nat)
    requires |m| > 0 && start <= p && OccursAt(s, m, p)
    ensures exists i :: 0 <= i < |Hits(s, m, start)| && Hits(s, m, start)[i] <= p < Hits(s, m, start)[i] + |m|
    decreases |s| - start
  {
    var hit := Find(s, m, start, |s|);
    assert hit != -1 && hit <= p;
    var rest := Hits(s, m, hit + |m|);
    var hits := Hits(s, m, start);
    assert hits == [hit] + rest;
    if p < hit + |m| {
      assert hits[0] == hit;
    } else {
      HitsCover(s, m, hit + |m|, p);
      var i :| 0 <= i < |rest| && rest[i] <= p < rest[i] + |m|;
      assert hits[i + 1] == rest[i];
    }
  }

  /** Two occurrences of `github.com/` never overlap: its first character does not recur in it. */
  lemma GithubMarkerDisjoint(s: string, h: nat, p: nat)
    requires OccursAt(s, GITHUB_MARKER, h) && OccursAt(s, GITHUB_MARKER, p) && h < p
    ensures h + |GITHUB_MARKER| <= p
  {
    assert forall k :: 0 < k < |GITHUB_MARKER| ==> GITHUB_MARKER[k] != 'g';
    assert s[p] == s[p..p + |GITHUB_MARKER|][0] == 'g';
    assert forall k :: h <= k < h + |GITHUB_MARKER| ==> s[k] == s[h..h + |GITHUB_MARKER|][k - h];
  }

  /**
    Every occurrence of `github.com/` is captured, including one that lies
    inside an earlier capture; so captures can overlap (see `OverlapExample`).
   */
  lemma EveryGithubMentionCaptured(s: string, p: nat)
    requires OccursAt(s, GITHUB_MARKER, p)
    ensures p in Hits(s, GITHUB_MARKER, 0)
    ensures Capture(s, GITHUB_MARKER, p) in RawMatches(s, GITHUB_MARKER)
  {
    HitsCover(s, GITHUB_MARKER, 0, p);
    var hits := Hits(s, GITHUB_MARKER, 0);
    var i :| 0 <= i < |hits| && hits[i] <= p < hits[i] + |GITHUB_MARKER|;
    HitsOccur(s, GITHUB_MARKER, 0);
    if hits[i] < p {
      GithubMarkerDisjoint(s, hits[i], p);
    }
    assert hits[i] == p;
    assert RawMatches(s, GITHUB_MARKER)[i] == Captures(s, GITHUB_MARKER, hits)[i];
  }

  /** `find` returns the first occurrence in its range, so an occurrence with none before it is the answer. */
  lemma FindIs(s: string, sub: string, start: nat, end: nat, r: nat)
    requires |sub| > 0 && start <= r && r + |sub| <= end && OccursAt(s, sub, r)
    requires forall i :: start <= i < r ==> !OccursAt(s, sub, i)
    ensures Find(s, sub, start, end) == r
  {
  }

  /** A terminator in the window with none before it is where the capture ends. */
  lemma HitEndAt(s: string, from: nat, e: nat)
    requires from <= e < |s| && e < from + WINDOW && IsTerminator(s[e])
    requires forall i :: from <= i < e ==> !IsTerminator(s[i])
    ensures HitEnd(s, from) == e
  {
    HitEndSpec(s, from);
  }

  /** Without a terminator in the window the capture runs to the end of the text. */
  lemma HitEndNone(s: string, from: nat)
    requires from <= |s|
    requires forall i :: from <= i < |s| && i < from + WINDOW ==> !IsTerminator(s[i])
    ensures HitEnd(s, from) == |s|
  {
    HitEndSpec(s, from);
  }

  /** The text of `OverlapExample`. */
  const OVERLAP_TEXT: string := "github.com/a/github.com/b"

  /** The marker occurs in `OVERLAP_TEXT` at 0 and at 13, inside the capture of the first. */
  lemma OverlapHits()
    ensures Hits(OVERLAP_TEXT, GITHUB_MARKER, 0) == [0, 13]
  {
    var s, m := OVERLAP_TEXT, GITHUB_MARKER;
    assert s[0..11] == m;
    FindIs(s, m, 0, |s|, 0);
    assert s[13..24] == m;
    assert s[11..22][0] == 'a' && s[12..23][0] == '/';
    FindIs(s, m, 11, |s|, 13);
    assert Find(s, m, 24, |s|) == -1;
    assert Hits(s, m, 24) == [];
  }

  /** On `OVERLAP_TEXT` the period of the second marker, at 19, is the first terminator after 10. */
  lemma OverlapFirstTerminator(from: nat)
    requires from == 10 || from == 11
    ensures HitEnd(OVERLAP_TEXT, from) == 19
  {
    var s := OVERLAP_TEXT;
    assert forall i :: 10 <= i < 19 ==> !IsTerminator(s[i]);
    assert IsTerminator(s[19]);
    HitEndAt(s, from, 19);
  }

  /** The capture at the first marker stops at the period of the second. */
  lemma OverlapFirstCapture()
    ensures Capture(OVERLAP_TEXT, GITHUB_MARKER, 0) == "github.com/a/github"
  {
    OverlapFirstTerminator(11);
    assert OVERLAP_TEXT[0..19] == "github.com/a/github";
  }

  /** The capture at the second marker runs to the end of the text. */
  lemma OverlapSecondCapture()
    ensures Capture(OVERLAP_TEXT, GITHUB_MARKER, 13) == "github.com/b"
  {
    assert !IsTerminator(OVERLAP_TEXT[24]);
    HitEndNone(OVERLAP_TEXT, 24);
    assert OVERLAP_TEXT[13..25] == "github.com/b";
  }

  /** The capture of the final -1 is empty: `string[-1:19]` is an empty range. */
  lemma OverlapFinalCapture()
    ensures Capture(OVERLAP_TEXT, GITHUB_MARKER, -1) == []
  {
    OverlapFirstTerminator(10);
  }

  /** Strings that agree up to index `k` and differ there are ordered by their characters at `k`. */
  lemma {:induction false} LessAt(a: string, b: string, k: nat)
    requires k < |a| && k < |b| && a[..k] == b[..k] && a[k] < b[k]
    ensures Less(a, b)
  {
    if k > 0 {
      assert a[0] == a[..k][0] == b[..k][0] == b[0];
      assert a[1..][..k - 1] == a[..k][1..] == b[..k][1..] == b[1..][..k - 1];
      LessAt(a[1..], b[1..], k - 1);
    }
  }

  /** The two mentions of `OVERLAP_TEXT` in ascending order. */
  lemma OverlapOrder()
    ensures Less("github.com/a/github", "github.com/b")
  {
    var a, b: string := "github.com/a/github", "github.com/b";
    assert a[..11] == b[..11];
    LessAt(a, b, 11);
  }

  /** What the loop appends on `OVERLAP_TEXT`: the captures at 0 and 13, then the final one. */
  lemma OverlapRawMatches()
    ensures RawMatches(OVERLAP_TEXT, GITHUB_MARKER) ==
      [Capture(OVERLAP_TEXT, GITHUB_MARKER, 0), Capture(OVERLAP_TEXT, GITHUB_MARKER, 13), Capture(OVERLAP_TEXT, GITHUB_MARKER, -1)]
  {
    OverlapHits();
  }

  /** Two ordered non-empty captures and an empty one give exactly those two, in order. */
  lemma TwoMentions(c0: string, c1: string)
    requires c0 != [] && Less(c0, c1)
    ensures UniqueNonEmpty([c0, c1, []]) == [c0, c1]
  {
    assert Less(c0, c1) && c1 != [];
    assert StrictlySorted([c0, c1]);
    StrictlySortedDetermined(UniqueNonEmpty([c0, c1, []]), [c0, c1]);
  }

  /**
    Overlapping captures on an example: in `github.com/a/github.com/b` the first
    capture stops at the period of the second marker, and the second marker is
    found again, inside the first capture.
   */
  lemma OverlapExample()
    ensures UniqueNonEmpty(RawMatches(OVERLAP_TEXT, GITHUB_MARKER)) == ["github.com/a/github", "github.com/b"]
  {
    OverlapRawMatches();
    OverlapFirstCapture();
    OverlapSecondCapture();
    OverlapFinalCapture();
    OverlapOrder();
    TwoMentions("github.com/a/github", "github.com/b");
  }
}
