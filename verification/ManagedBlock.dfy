/** Keeping the managed section of an agents file up to date: found by its two
    markers, replaced in place, otherwise appended. */
module ManagedBlock {
  import opened Wrappers
  import opened Text

  const MARKER := "<!-- roteiro-managed -->"

  /** The text between the section's two markers. It names no marker, and it
      does not end in a blank line. */
  ghost predicate IsBody(body: string) {
    && Count(body) == 0
    && !(|body| >= 2 && body[|body| - 2..] == "\n\n")
  }

  function Section(body: string): string {
    MARKER + body + MARKER + "\n"
  }

  // ---- Searching ------------------------------------------------------------

  /** How many markers a text holds. */
  function Count(s: string): nat {
    if |s| < |MARKER| then 0
    else (if s[..|MARKER|] == MARKER then 1 else 0) + Count(s[1..])
  }

  /** From the first marker to the end of the second, if there are two. */
  function MarkedRange(content: string, marker: string): (r: Option<(nat, nat)>)
    ensures r.Some? ==> r.value.0 <= r.value.1 <= |content|
  {
    match Find(content, marker)
    case None => None
    case Some(start) =>
      var after := start + |marker|;
      match Find(content[after..], marker)
      case None => None
      case Some(second) => Some((start, after + second + |marker|))
  }

  function ManagedBlockRange(content: string): (r: Option<(nat, nat)>)
    ensures r.Some? ==> r.value.0 <= r.value.1 <= |content|
  {
    MarkedRange(content, MARKER)
  }

  function TrimEnd(s: string): string {
    if s != [] && IsSpace(s[|s| - 1]) then TrimEnd(s[..|s| - 1]) else s
  }

  function Separator(existing: string): string {
    (if existing != [] && existing[|existing| - 1] == '\n' then "" else "\n") + "\n"
  }

  /** The file's text after one run. */
  function Updated(existing: string, body: string): string {
    match ManagedBlockRange(existing)
    case Some((start, end)) => existing[..start] + TrimEnd(Section(body)) + existing[end..]
    case None => if existing == "" then Section(body) else existing + Separator(existing) + Section(body)
  }

  class AgentsFile {
    var content: Option<string>

    /** Create or update the section; a file already up to date is not written. */
    method Ensure(body: string) returns (changed: bool)
      modifies this
      ensures var existing := old(content).GetOr("");
              && (changed <==> Updated(existing, body) != existing)
              && content == if changed then Some(Updated(existing, body)) else old(content)
    {
      var section := Section(body);
      var existing := content.GetOr("");
      var updated: string;
      match ManagedBlockRange(existing) {
        case Some((start, end)) =>
          updated := existing[..start];
          updated := updated + TrimEnd(section);
          updated := updated + existing[end..];
        case None =>
          if existing == "" {
            updated := section;
          } else {
            updated := existing;
            if existing[|existing| - 1] != '\n' {
              updated := updated + "\n";
            }
            updated := updated + "\n";
            updated := updated + section;
            assert updated == existing + Separator(existing) + section;
          }
      }
      if updated == existing {
        return false;
      }
      content := Some(updated);
      changed := true;
    }
  }

  // ---- No marker straddles a splice -----------------------------------------

  /** Only its first character is `<`: the marker has no proper border. */
  lemma MarkerHasNoBorder()
    ensures |MARKER| == 24 && MARKER[0] == '<'
    ensures forall k :: 0 < k < |MARKER| ==> MARKER[k] != '<'
    ensures '\n' !in MARKER && MARKER[|MARKER| - 1] == '>'
  {
  }

  lemma {:induction false} CountSkipsInside(k: nat, b: string)
    requires 1 <= k <= |MARKER|
    ensures Count(MARKER[k..] + b) == Count(b)
    decreases |MARKER| - k
  {
    MarkerHasNoBorder();
    if k == |MARKER| {
      assert MARKER[k..] + b == b;
    } else {
      var s := MARKER[k..] + b;
      assert s[0] == MARKER[k];
      assert s[1..] == MARKER[k + 1..] + b;
      CountSkipsInside(k + 1, b);
      if |s| >= |MARKER| {
        assert s[..|MARKER|][0] == s[0];
      } else {
        ShortHasNone(s);
        ShortHasNone(s[1..]);
      }
    }
  }

  lemma ShortHasNone(s: string)
    requires |s| < |MARKER|
    ensures Count(s) == 0
  {
  }

  /** Around a marker the counts on either side simply add. */
  lemma {:induction false} CountAroundMarker(a: string, b: string)
    ensures Count(a + MARKER + b) == Count(a) + 1 + Count(b)
  {
    MarkerHasNoBorder();
    var s := a + MARKER + b;
    if a == [] {
      assert s == MARKER + b && s[1..] == MARKER[1..] + b;
      CountSkipsInside(1, b);
    } else {
      assert s[1..] == a[1..] + MARKER + b;
      CountAroundMarker(a[1..], b);
      if |a| < |MARKER| {
        assert s[..|MARKER|][|a|] == s[|a|] == MARKER[0];
        ShortHasNone(a);
        ShortHasNone(a[1..]);
      } else {
        assert s[..|MARKER|] == a[..|MARKER|];
      }
    }
  }

  /** A newline is never inside a marker. */
  lemma {:induction false} CountAroundNewline(a: string, b: string)
    ensures Count(a + "\n" + b) == Count(a) + Count(b)
  {
    MarkerHasNoBorder();
    var s := a + "\n" + b;
    if a == [] {
      assert s[1..] == b;
      if |s| >= |MARKER| {
        assert s[..|MARKER|][0] == '\n';
      } else {
        ShortHasNone(b);
      }
    } else {
      assert s[1..] == a[1..] + "\n" + b;
      CountAroundNewline(a[1..], b);
      if |a| < |MARKER| {
        ShortHasNone(a);
        ShortHasNone(a[1..]);
        if |s| >= |MARKER| {
          assert s[..|MARKER|][|a|] == '\n';
        } else {
          ShortHasNone(s);
          ShortHasNone(s[1..]);
        }
      } else {
        assert s[..|MARKER|] == a[..|MARKER|];
      }
    }
  }

  /** The first marker of a text whose front holds none is where it is put. */
  lemma {:induction false} FindAfter(a: string, b: string)
    requires Count(a) == 0
    ensures Find(a + MARKER + b, MARKER) == Some(|a|)
  {
    MarkerHasNoBorder();
    var s := a + MARKER + b;
    if a == [] {
      assert s[..|MARKER|] == MARKER;
    } else {
      assert s[1..] == a[1..] + MARKER + b;
      if |a| < |MARKER| {
        ShortHasNone(a[1..]);
        assert s[..|MARKER|][|a|] == s[|a|] == MARKER[0];
      } else {
        assert s[..|MARKER|] == a[..|MARKER|];
      }
      FindAfter(a[1..], b);
    }
  }

  lemma {:induction false} FindSplits(s: string)
    ensures Find(s, MARKER).None? <==> Count(s) == 0
    ensures Find(s, MARKER).Some? ==>
              var i := Find(s, MARKER).value;
              s == s[..i] + MARKER + s[i + |MARKER|..] && Count(s[..i]) == 0
  {
    MarkerHasNoBorder();
    hide *;
    FindUnfolds(s);
    EmptyHasNone();
    if |s| >= |MARKER| && s[..|MARKER|] == MARKER {
      assert s == s[..0] + MARKER + s[0 + |MARKER|..];
      assert s[..0] == "";
    } else if |s| >= |MARKER| {
      FindSplits(s[1..]);
      if Find(s, MARKER).Some? {
        var i := Find(s, MARKER).value;
        CountOfLaterFront(s, i);
        assert s == s[..i] + s[i..i + |MARKER|] + s[i + |MARKER|..];
      }
    }
  }

  lemma FindUnfolds(s: string)
    ensures |s| < |MARKER| ==> Find(s, MARKER) == None && Count(s) == 0
    ensures |s| >= |MARKER| && s[..|MARKER|] == MARKER ==> Find(s, MARKER) == Some(0) && Count(s) >= 1
    ensures |s| >= |MARKER| && s[..|MARKER|] != MARKER ==>
              && |s| > 0 && Count(s) == Count(s[1..])
              && (Find(s, MARKER).Some? <==> Find(s[1..], MARKER).Some?)
              && (Find(s, MARKER).Some? ==> Find(s, MARKER).value == Find(s[1..], MARKER).value + 1)
  {
    MarkerHasNoBorder();
    hide MARKER;
  }

  lemma CountOfLaterFront(s: string, i: nat)
    requires 0 < i <= |s| && |s| >= |MARKER| && s[..|MARKER|] != MARKER && Count(s[1..][..i - 1]) == 0
    ensures Count(s[..i]) == 0
  {
    hide MARKER;
    assert s[..i][1..] == s[1..][..i - 1];
    if i >= |MARKER| {
      assert s[..i][..|MARKER|] == s[..|MARKER|];
    } else {
      ShortHasNone(s[..i]);
    }
  }

  /** A text with two markers or more, cut at its first two. */
  lemma TwoMarkers(s: string) returns (pre: string, mid: string, post: string)
    requires Count(s) >= 2
    ensures s == pre + MARKER + mid + MARKER + post && Count(pre) == 0 && Count(mid) == 0
    ensures Count(s) == 2 + Count(post)
  {
    hide *;
    FindSplits(s);
    var i := Find(s, MARKER).value;
    pre := s[..i];
    var rest := s[i + |MARKER|..];
    CountAroundMarker(pre, rest);
    FindSplits(rest);
    var j := Find(rest, MARKER).value;
    mid, post := rest[..j], rest[j + |MARKER|..];
    CountAroundMarker(mid, post);
    Regrouped(pre, MARKER, mid, post);
  }

  // The facts about texts around a marker do not depend on what it spells.

  lemma Regrouped(pre: string, marker: string, mid: string, post: string)
    ensures pre + marker + mid + marker + post == pre + marker + (mid + marker + post)
    ensures pre + (marker + mid + marker) + post == pre + marker + mid + marker + post
  {
  }

  lemma CutAfter(pre: string, marker: string, rest: string)
    ensures |pre| + |marker| <= |pre + marker + rest|
    ensures (pre + marker + rest)[|pre| + |marker|..] == rest
  {
  }

  lemma CutAroundTwo(pre: string, marker: string, mid: string, post: string)
    ensures var s, end := pre + marker + mid + marker + post, |pre| + |marker| + |mid| + |marker|;
            end <= |s| && s[..|pre|] == pre && s[end..] == post
  {
  }

  lemma RangeOfTwo(pre: string, mid: string, post: string)
    requires Count(pre) == 0 && Count(mid) == 0
    ensures ManagedBlockRange(pre + MARKER + mid + MARKER + post)
            == Some((|pre|, |pre| + |MARKER| + |mid| + |MARKER|))
  {
    hide *;
    FindAfter(pre, mid + MARKER + post);
    FindAfter(mid, post);
    RangeIs(pre, MARKER, mid, post);
    RangeIsMarked(pre + MARKER + mid + MARKER + post);
  }

  lemma RangeIsMarked(s: string)
    ensures ManagedBlockRange(s) == MarkedRange(s, MARKER)
  {
    hide MARKER, MarkedRange;
  }

  lemma RangeIs(pre: string, marker: string, mid: string, post: string)
    requires Find(pre + marker + (mid + marker + post), marker) == Some(|pre|)
    requires Find(mid + marker + post, marker) == Some(|mid|)
    ensures MarkedRange(pre + marker + mid + marker + post, marker)
            == Some((|pre|, |pre| + |marker| + |mid| + |marker|))
  {
    hide *;
    var rest := mid + marker + post;
    Regrouped(pre, marker, mid, post);
    CutAfter(pre, marker, rest);
    MarkedRangeUnfolds(pre + marker + rest, marker, |pre|, |mid|);
  }

  lemma MarkedRangeUnfolds(s: string, marker: string, i: nat, j: nat)
    requires Find(s, marker) == Some(i) && i + |marker| <= |s| && Find(s[i + |marker|..], marker) == Some(j)
    ensures MarkedRange(s, marker) == Some((i, i + |marker| + j + |marker|))
  {
    hide Find;
  }

  lemma NoRange(s: string)
    ensures ManagedBlockRange(s).None? <==> Count(s) <= 1
  {
    FindSplits(s);
    if Find(s, MARKER).Some? {
      var i := Find(s, MARKER).value;
      CountAroundMarker(s[..i], s[i + |MARKER|..]);
      FindSplits(s[i + |MARKER|..]);
    }
  }

  lemma SectionTrimmed(body: string)
    ensures TrimEnd(Section(body)) == MARKER + body + MARKER
  {
    MarkerHasNoBorder();
    var s := Section(body);
    assert s[..|s| - 1] == MARKER + body + MARKER;
    var t := MARKER + body + MARKER;
    assert t[|t| - 1] == MARKER[|MARKER| - 1];
  }

  lemma UpdatedUnfolds(s: string, body: string, start: nat, end: nat)
    requires ManagedBlockRange(s) == Some((start, end)) && start <= end <= |s|
    ensures Updated(s, body) == s[..start] + TrimEnd(Section(body)) + s[end..]
  {
    hide MARKER, ManagedBlockRange, TrimEnd, Section;
  }

  /** With two markers, the text outside them is kept byte for byte and what
      was between them is replaced. */
  lemma UpdatedInPlace(pre: string, mid: string, post: string, body: string)
    requires Count(pre) == 0 && Count(mid) == 0
    ensures Updated(pre + MARKER + mid + MARKER + post, body) == pre + MARKER + body + MARKER + post
  {
    hide *;
    RangeOfTwo(pre, mid, post);
    SectionTrimmed(body);
    CutAroundTwo(pre, MARKER, mid, post);
    UpdatedUnfolds(pre + MARKER + mid + MARKER + post, body, |pre|, |pre| + |MARKER| + |mid| + |MARKER|);
    Regrouped(pre, MARKER, body, post);
  }

  lemma SectionIs(front: string, body: string)
    ensures front + Section(body) == front + MARKER + body + MARKER + "\n"
    ensures front + Section(body) == front + MARKER + (body + MARKER + "\n")
  {
    hide MARKER;
  }

  lemma UpdatedAppends(s: string, body: string)
    requires Count(s) <= 1
    ensures Updated(s, body) == (if s == "" then "" else s + Separator(s)) + Section(body)
    ensures Count(if s == "" then "" else s + Separator(s)) == Count(s)
  {
    hide MARKER, Find, Count, Section;
    NoRange(s);
    if s == "" {
      assert "" + Section(body) == Section(body);
    } else {
      EmptyHasNone();
      CountAroundNewline(s, "");
      assert s + "\n" + "" == s + "\n";
      CountAroundNewline(s + "\n", "");
      assert s + "\n" + "\n" + "" == s + ("\n" + "\n");
      assert s + ("" + "\n") == s + "\n";
    }
  }

  // ---- What a run promises --------------------------------------------------

  /** A second run changes nothing, unless the file held exactly one stray
      marker: then the second run pairs it with the block the first one added. */
  lemma IdempotentIff(s: string, body: string)
    requires IsBody(body)
    ensures Updated(Updated(s, body), body) == Updated(s, body) <==> Count(s) != 1
  {
    hide MARKER, Find, Count, Section, Updated;
    if Count(s) >= 2 {
      var pre, mid, post := TwoMarkers(s);
      UpdatedInPlace(pre, mid, post, body);
      UpdatedInPlace(pre, body, post, body);
    } else if Count(s) == 0 {
      UpdatedAppends(s, body);
      var front := if s == "" then "" else s + Separator(s);
      SectionIs(front, body);
      UpdatedInPlace(front, body, "\n", body);
    } else {
      StrayMarkerIsPaired(s, body);
    }
  }

  /** The two runs over a file with one marker: the user's text after the
      marker is kept by the first and replaced by the second. */
  lemma StrayMarkerIsPaired(s: string, body: string)
    requires IsBody(body) && Count(s) == 1
    ensures Find(s, MARKER).Some?
    ensures var i := Find(s, MARKER).value;
            && Updated(s, body) == s + Separator(s) + Section(body)
            && Updated(Updated(s, body), body) == s[..i] + MARKER + body + MARKER + (body + MARKER + "\n")
    ensures Updated(Updated(s, body), body) != Updated(s, body)
  {
    MarkerHasNoBorder();
    hide MARKER, Find, Count, Section, Updated, Separator;
    FindSplits(s);
    var i := Find(s, MARKER).value;
    var pre, mid, tail := s[..i], s[i + |MARKER|..], body + MARKER + "\n";
    CountAroundMarker(pre, mid);
    EmptyHasNone();
    UpdatedAppends(s, body);
    var gap := mid + Separator(s);
    assert s + Separator(s) == pre + MARKER + gap;
    CountAroundMarker(pre, gap);
    SectionIs(s + Separator(s), body);
    assert Updated(s, body) == pre + MARKER + gap + MARKER + tail;
    UpdatedInPlace(pre, gap, tail, body);
    if Updated(Updated(s, body), body) == Updated(s, body) {
      SameCut(pre, gap, body, tail);
      GapEndsBlank(s, i);
    }
  }

  lemma EmptyHasNone()
    ensures Count("") == 0 && Count("\n") == 0
  {
  }

  lemma SameCut(pre: string, a: string, b: string, tail: string)
    requires Count(a) == 0 && Count(b) == 0
    requires pre + MARKER + a + MARKER + tail == pre + MARKER + b + MARKER + tail
    ensures a == b
  {
    hide *;
    Regrouped(pre, MARKER, a, tail);
    Regrouped(pre, MARKER, b, tail);
    var x, y := a + MARKER + tail, b + MARKER + tail;
    assert (pre + MARKER + x)[|pre + MARKER|..] == x;
    assert (pre + MARKER + y)[|pre + MARKER|..] == y;
    FindAfter(a, tail);
    FindAfter(b, tail);
    assert a == x[..|a|] && b == y[..|b|];
  }

  lemma GapEndsBlank(s: string, i: nat)
    requires i + |MARKER| <= |s| && s[i..i + |MARKER|] == MARKER
    ensures var gap := s[i + |MARKER|..] + Separator(s);
            |gap| >= 2 && gap[|gap| - 2..] == "\n\n"
  {
    MarkerHasNoBorder();
    hide MARKER;
    var mid := s[i + |MARKER|..];
    assert s[i + |MARKER| - 1] == s[i..i + |MARKER|][|MARKER| - 1] == '>';
    if s[|s| - 1] == '\n' {
      assert Separator(s) == "\n";
      assert mid[|mid| - 1] == '\n';
      EndsBlank(mid[..|mid| - 1]);
      assert mid + "\n" == mid[..|mid| - 1] + "\n\n";
    } else {
      assert Separator(s) == "\n\n";
      EndsBlank(mid);
    }
  }

  lemma EndsBlank(a: string)
    ensures (a + "\n\n")[|a + "\n\n"| - 2..] == "\n\n"
  {
  }

  /** Whatever the file held, a third run changes nothing more. */
  lemma SettlesAfterTwoRuns(s: string, body: string)
    requires IsBody(body)
    ensures Updated(Updated(Updated(s, body), body), body) == Updated(Updated(s, body), body)
  {
    hide MARKER, Find, Count, Section, Updated;
    if Count(s) != 1 {
      IdempotentIff(s, body);
    } else {
      StrayMarkerIsPaired(s, body);
      FindSplits(s);
      var pre := s[..Find(s, MARKER).value];
      UpdatedInPlace(pre, body, body + MARKER + "\n", body);
    }
  }

  /** A run keeps the user's text: everything before the first marker and after
      the second, or the whole file when it has fewer than two. */
  lemma KeepsUserText(s: string, body: string)
    requires IsBody(body)
    ensures Count(s) <= 1 ==> s <= Updated(s, body)
    ensures Count(s) >= 2 ==>
              exists pre, mid, post :: s == pre + MARKER + mid + MARKER + post && Count(pre) == 0 && Count(mid) == 0
                                       && Updated(s, body) == pre + MARKER + body + MARKER + post
  {
    hide MARKER, Find, Count, Section, Updated;
    if Count(s) <= 1 {
      UpdatedAppends(s, body);
    } else {
      var pre, mid, post := TwoMarkers(s);
      UpdatedInPlace(pre, mid, post, body);
    }
  }

  /** What a run leaves of a file with fewer than two markers: the section
      alone, or the file, its last line ended, a blank line and the section. */
  lemma AppendedTextIs(s: string, body: string)
    requires Count(s) <= 1
    ensures s == "" ==> Updated(s, body) == MARKER + body + MARKER + "\n"
    ensures s != "" && s[|s| - 1] == '\n' ==>
              Updated(s, body) == s + "\n" + MARKER + body + MARKER + "\n"
    ensures s != "" && s[|s| - 1] != '\n' ==>
              Updated(s, body) == s + "\n\n" + MARKER + body + MARKER + "\n"
  {
    hide *;
    UpdatedAppends(s, body);
    SectionIs(if s == "" then "" else s + Separator(s), body);
    SeparatorIs(s);
    assert "" + MARKER == MARKER;
  }

  lemma SeparatorIs(s: string)
    ensures s != "" && s[|s| - 1] == '\n' ==> s + Separator(s) == s + "\n"
    ensures s != "" && s[|s| - 1] != '\n' ==> s + Separator(s) == s + "\n\n"
  {
    assert "" + "\n" == "\n" && "\n" + "\n" == "\n\n";
  }

  /** How many markers a run leaves: one block when there was none or one, and
      otherwise no more and no fewer than before. */
  lemma MarkersAfterRun(s: string, body: string)
    requires IsBody(body)
    ensures Count(Updated(s, body)) == if Count(s) <= 1 then Count(s) + 2 else Count(s)
  {
    hide MARKER, Find, Count, Section, Updated;
    EmptyHasNone();
    if Count(s) <= 1 {
      UpdatedAppends(s, body);
      var front := if s == "" then "" else s + Separator(s);
      SectionIs(front, body);
      CountAroundMarker(front, body + MARKER + "\n");
      CountAroundMarker(body, "\n");
    } else {
      var pre, mid, post := TwoMarkers(s);
      UpdatedInPlace(pre, mid, post, body);
      Regrouped(pre, MARKER, body, post);
      CountAroundMarker(pre, body + MARKER + post);
      CountAroundMarker(body, post);
    }
  }
}
