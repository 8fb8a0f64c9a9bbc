/** Which test binaries a log shows started and finished, and whether a cell is
    complete. It starts from lines already recognised; the patterns that
    recognise them are not part of this model. */
module CellReport {
  import opened Wrappers
  import opened Sequences

  datatype Counts = Counts(passed: nat, failed: nat, ignored: nat)

  datatype LogLine =
    | Running(executable: string)
    | DocTests(crate: string)
    | Result(verdict: string, counts: Counts)
    | Noise

  class Target {
    const title: string
    const executable: string
    var started: bool
    var verdict: Option<string>
    var counts: Option<Counts>

    constructor (title: string, executable: string)
      ensures this.title == title && this.executable == executable && !started && verdict == None && counts == None
    {
      this.title, this.executable := title, executable;
      started, verdict, counts := false, None, None;
    }
  }

  // ---- What a log says ------------------------------------------------------

  predicate IsHeading(l: LogLine) {
    l.Running? || l.DocTests?
  }

  /** The heading in force at the end of the lines. */
  function Heading(lines: seq<LogLine>): Option<LogLine> {
    if lines == [] then None
    else if IsHeading(lines[|lines| - 1]) then Some(lines[|lines| - 1])
    else Heading(lines[..|lines| - 1])
  }

  predicate StartedIn(lines: seq<LogLine>, e: string) {
    exists i :: 0 <= i < |lines| && lines[i] == Running(e)
  }

  /** The last result credited to an executable: one whose heading names it. */
  function ResultFor(lines: seq<LogLine>, e: string): (r: Option<LogLine>)
    ensures r.Some? ==> r.value.Result?
  {
    if lines == [] then None
    else
      var front, l := lines[..|lines| - 1], lines[|lines| - 1];
      if l.Result? && Heading(front) == Some(Running(e)) then Some(l) else ResultFor(front, e)
  }

  /** The doc-test runs, each with the last result under its heading. */
  function DocRuns(lines: seq<LogLine>): seq<(string, Option<string>)> {
    if lines == [] then []
    else
      var front, l := lines[..|lines| - 1], lines[|lines| - 1];
      var runs := DocRuns(front);
      if l.DocTests? then runs + [(l.crate, None)]
      else if l.Result? && Heading(front).Some? && Heading(front).value.DocTests? && runs != [] then
        runs[|runs| - 1 := (runs[|runs| - 1].0, Some(l.verdict))]
      else runs
  }

  /** A result line, and the heading it stands under, with no heading between. */
  ghost predicate Credits(lines: seq<LogLine>, i: int, j: int, e: string) {
    && 0 <= i < j < |lines|
    && lines[i] == Running(e) && lines[j].Result?
    && forall k :: i < k < j ==> !IsHeading(lines[k])
  }

  lemma {:induction false} HeadingIs(lines: seq<LogLine>, e: string) returns (i: int)
    ensures Heading(lines) == Some(Running(e)) ==>
              0 <= i < |lines| && lines[i] == Running(e) && forall k :: i < k < |lines| ==> !IsHeading(lines[k])
    ensures (exists h :: 0 <= h < |lines| && lines[h] == Running(e)
                         && forall k :: h < k < |lines| ==> !IsHeading(lines[k]))
            ==> Heading(lines) == Some(Running(e))
  {
    i := 0;
    if lines != [] {
      var front := lines[..|lines| - 1];
      if IsHeading(lines[|lines| - 1]) {
        i := |lines| - 1;
      } else {
        i := HeadingIs(front, e);
        if exists h :: 0 <= h < |lines| && lines[h] == Running(e)
                       && forall k :: h < k < |lines| ==> !IsHeading(lines[k]) {
          var h :| 0 <= h < |lines| && lines[h] == Running(e) && forall k :: h < k < |lines| ==> !IsHeading(lines[k]);
          assert front[h] == lines[h];
          assert forall k :: h < k < |front| ==> front[k] == lines[k];
        }
      }
    }
  }

  /** A result is credited to the nearest heading before it, and to no other;
      an executable shows the last one credited to it. */
  lemma {:induction false} ResultForIs(lines: seq<LogLine>, e: string)
    ensures ResultFor(lines, e).Some? <==> exists i, j :: Credits(lines, i, j, e)
    ensures ResultFor(lines, e).Some? ==>
              exists i, j :: Credits(lines, i, j, e) && lines[j] == ResultFor(lines, e).value
                             && forall i', j' :: Credits(lines, i', j', e) ==> j' <= j
  {
    if lines != [] {
      var front, last := lines[..|lines| - 1], |lines| - 1;
      ResultForIs(front, e);
      var h := HeadingIs(front, e);
      forall i, j | Credits(lines, i, j, e) && j == last ensures Heading(front) == Some(Running(e)) {
        assert front[i] == lines[i] && forall k :: i < k < |front| ==> front[k] == lines[k];
      }
      forall i, j ensures Credits(front, i, j, e) <==> Credits(lines, i, j, e) && j < last {
        CreditsPrefix(lines, last, i, j, e);
      }
      if lines[last].Result? && Heading(front) == Some(Running(e)) {
        assert Credits(lines, h, last, e);
      } else {
        assert forall i, j :: Credits(lines, i, j, e) ==> j < last;
      }
    }
  }

  lemma CreditsPrefix(lines: seq<LogLine>, n: nat, i: int, j: int, e: string)
    requires n <= |lines|
    ensures Credits(lines[..n], i, j, e) <==> Credits(lines, i, j, e) && j < n
  {
    if 0 <= i < j < n {
      assert forall k :: i <= k <= j ==> lines[..n][k] == lines[k];
    }
  }

  // ---- Reading the log ------------------------------------------------------

  /** The targets by executable; a later target of the same name replaces an
      earlier one, which then no line can mark. */
  method ByExecutable(targets: seq<Target>) returns (m: map<string, Target>)
    ensures forall e :: e in m ==> m[e] in targets && m[e].executable == e
    ensures forall e :: e in m <==> exists i :: 0 <= i < |targets| && targets[i].executable == e
    ensures forall i ::
              0 <= i < |targets| && (forall j :: i < j < |targets| ==> targets[j].executable != targets[i].executable)
              ==> m[targets[i].executable] == targets[i]
  {
    m := map[];
    for k := 0 to |targets|
      invariant forall e :: e in m ==> m[e] in targets[..k] && m[e].executable == e
      invariant forall e :: e in m <==> exists i :: 0 <= i < k && targets[i].executable == e
      invariant forall i :: 0 <= i < k && (forall j :: i < j < k ==> targets[j].executable != targets[i].executable) ==>
                  m[targets[i].executable] == targets[i]
    {
      m := m[targets[k].executable := targets[k]];
    }
  }

  ghost predicate Marks(m: map<string, Target>, lines: seq<LogLine>)
    reads m.Values
  {
    forall e :: e in m ==>
      && (m[e].started <==> StartedIn(lines, e))
      && m[e].verdict == (match ResultFor(lines, e) case None => None case Some(l) => Some(l.verdict))
      && m[e].counts == (match ResultFor(lines, e) case None => None case Some(l) => Some(l.counts))
  }

  ghost predicate Keyed(m: map<string, Target>) {
    forall e :: e in m ==> m[e].executable == e
  }

  lemma LineReads(lines: seq<LogLine>, l: LogLine, e: string)
    ensures StartedIn(lines + [l], e) <==> StartedIn(lines, e) || l == Running(e)
    ensures ResultFor(lines + [l], e) ==
            if l.Result? && Heading(lines) == Some(Running(e)) then Some(l) else ResultFor(lines, e)
    ensures Heading(lines + [l]) == if IsHeading(l) then Some(l) else Heading(lines)
  {
    var all := lines + [l];
    assert all[..|all| - 1] == lines;
    if StartedIn(lines, e) {
      var i :| 0 <= i < |lines| && lines[i] == Running(e);
      assert all[i] == Running(e);
    }
    if l == Running(e) {
      assert all[|lines|] == l;
    }
    if StartedIn(all, e) && l != Running(e) {
      var i :| 0 <= i < |all| && all[i] == Running(e);
      assert lines[i] == all[i];
    }
  }

  lemma DocReads(lines: seq<LogLine>, l: LogLine)
    ensures DocRuns(lines + [l]) ==
            var runs := DocRuns(lines);
            if l.DocTests? then runs + [(l.crate, None)]
            else if l.Result? && Heading(lines).Some? && Heading(lines).value.DocTests? && runs != [] then
              runs[|runs| - 1 := (runs[|runs| - 1].0, Some(l.verdict))]
            else runs
  {
    assert (lines + [l])[..|lines + [l]| - 1] == lines;
  }

  /** One line of the log, against the heading in force before it. */
  method ReadLine(l: LogLine, m: map<string, Target>, current: Option<Target>, ghost lines: seq<LogLine>)
      returns (current': Option<Target>)
    requires Keyed(m) && Marks(m, lines)
    requires current == CurrentTarget(m, Heading(lines))
    modifies m.Values
    ensures Marks(m, lines + [l])
    ensures current' == CurrentTarget(m, Heading(lines + [l]))
  {
    hide StartedIn, ResultFor, Heading;
    forall e
      ensures StartedIn(lines + [l], e) <==> StartedIn(lines, e) || l == Running(e)
      ensures ResultFor(lines + [l], e) ==
              if l.Result? && Heading(lines) == Some(Running(e)) then Some(l) else ResultFor(lines, e)
      ensures Heading(lines + [l]) == if IsHeading(l) then Some(l) else Heading(lines)
    {
      LineReads(lines, l, e);
    }
    LineReads(lines, l, "");
    current' := current;
    match l {
      case Running(e) =>
        if e in m {
          current' := Some(m[e]);
          m[e].started := true;
        } else {
          current' := None;
        }
      case DocTests(_) =>
        current' := None;
      case Result(verdict, counts) =>
        if current.Some? {
          current.value.verdict := Some(verdict);
          current.value.counts := Some(counts);
        }
      case Noise =>
    }
  }

  function CurrentTarget(m: map<string, Target>, heading: Option<LogLine>): Option<Target> {
    if heading.Some? && heading.value.Running? && heading.value.executable in m then Some(m[heading.value.executable])
    else None
  }

  lemma NothingRead(m: map<string, Target>)
    requires forall e :: e in m ==> !m[e].started && m[e].verdict == None && m[e].counts == None
    ensures Marks(m, []) && Heading([]) == None && DocRuns([]) == []
  {
  }

  /** Mark every target the log shows, and collect the doc-test runs. */
  method ParseLog(lines: seq<LogLine>, m: map<string, Target>)
      returns (doctests: seq<(string, Option<string>)>, sawTestOutput: bool)
    requires Keyed(m) && forall e :: e in m ==> !m[e].started && m[e].verdict == None && m[e].counts == None
    modifies m.Values
    ensures Marks(m, lines)
    ensures doctests == DocRuns(lines)
    ensures sawTestOutput <==> exists i :: 0 <= i < |lines| && lines[i].Result?
  {
    hide Marks, Heading, DocRuns;
    NothingRead(m);
    doctests, sawTestOutput := [], false;
    var current: Option<Target>, currentDoctest: Option<nat> := None, None;
    for i := 0 to |lines|
      invariant Marks(m, lines[..i])
      invariant current == CurrentTarget(m, Heading(lines[..i]))
      invariant doctests == DocRuns(lines[..i])
      invariant if Heading(lines[..i]).Some? && Heading(lines[..i]).value.DocTests?
                then doctests != [] && currentDoctest == Some(|doctests| - 1) else currentDoctest == None
      invariant sawTestOutput <==> exists k :: 0 <= k < i && lines[k].Result?
    {
      var l := lines[i];
      assert lines[..i + 1] == lines[..i] + [l];
      DocReads(lines[..i], l);
      LineReads(lines[..i], l, "");
      current := ReadLine(l, m, current, lines[..i]);
      match l {
        case Running(_) =>
          currentDoctest := None;
        case DocTests(crate) =>
          doctests := doctests + [(crate, None)];
          currentDoctest := Some(|doctests| - 1);
        case Result(verdict, _) =>
          sawTestOutput := true;
          if currentDoctest.Some? {
            doctests := doctests[currentDoctest.value := (doctests[currentDoctest.value].0, Some(verdict))];
          }
        case Noise =>
      }
    }
    assert lines[..|lines|] == lines;
  }

  /** The report's verdict on the marked targets. */
  method Verdict(targets: seq<Target>) returns (complete: bool)
    ensures complete <==> targets != [] && forall t :: t in targets ==> t.started && t.verdict.Some?
  {
    if targets == [] {
      return false;
    }
    complete := true;
    for i := 0 to |targets|
      invariant complete <==> forall k :: 0 <= k < i ==> targets[k].started && targets[k].verdict.Some?
    {
      if !targets[i].started || targets[i].verdict.None? {
        complete := false;
      }
    }
  }

  /** The log covers an executable: a heading names it, and a result follows
      before any other heading. */
  ghost predicate Covered(lines: seq<LogLine>, e: string) {
    exists i, j :: Credits(lines, i, j, e)
  }

  ghost predicate CellComplete(executables: seq<string>, lines: seq<LogLine>) {
    executables != [] && Distinct(executables) && forall e :: e in executables ==> Covered(lines, e)
  }

  function Executables(targets: seq<Target>): (r: seq<string>)
    ensures |r| == |targets| && forall i :: 0 <= i < |targets| ==> r[i] == targets[i].executable
  {
    seq(|targets|, i requires 0 <= i < |targets| => targets[i].executable)
  }

  /** A cell is reported complete exactly when there are targets, no two share
      an executable, and the log covers every one. */
  method ReportCell(targets: seq<Target>, lines: seq<LogLine>) returns (complete: bool)
    requires Distinct(targets)
    requires forall t :: t in targets ==> !t.started && t.verdict == None && t.counts == None
    modifies targets
    ensures complete <==> CellComplete(Executables(targets), lines)
  {
    var m := ByExecutable(targets);
    var _, _ := ParseLog(lines, m);
    complete := Verdict(targets);
    MarkedMeansCovered(targets, lines, m);
  }

  lemma MarkedMeansCovered(targets: seq<Target>, lines: seq<LogLine>, m: map<string, Target>)
    requires Distinct(targets) && Keyed(m) && Marks(m, lines)
    requires forall e :: e in m ==> m[e] in targets
    requires forall i :: 0 <= i < |targets| ==> targets[i].executable in m
    requires forall i ::
               0 <= i < |targets| && (forall j :: i < j < |targets| ==> targets[j].executable != targets[i].executable)
               ==> m[targets[i].executable] == targets[i]
    requires forall t :: t in targets && t !in m.Values ==> !t.started
    ensures (targets != [] && forall t :: t in targets ==> t.started && t.verdict.Some?)
                <==> CellComplete(Executables(targets), lines)
  {
    hide ResultFor, StartedIn;
    var es := Executables(targets);
    forall e ensures ResultFor(lines, e).Some? <==> Covered(lines, e)
      ensures Covered(lines, e) ==> StartedIn(lines, e)
    {
      ResultForIs(lines, e);
      CoveredIsStarted(lines, e);
    }
    if Distinct(es) {
      forall i | 0 <= i < |targets| ensures m[es[i]] == targets[i] {
      }
      if forall t :: t in targets ==> t.started && t.verdict.Some? {
        forall e | e in es ensures Covered(lines, e) {
          var i :| 0 <= i < |es| && es[i] == e;
          assert targets[i] in targets && m[e] == targets[i];
        }
      }
      if forall e :: e in es ==> Covered(lines, e) {
        forall t | t in targets ensures t.started && t.verdict.Some? {
          var i :| 0 <= i < |targets| && targets[i] == t;
          assert es[i] in es && m[es[i]] == t;
        }
      }
    } else {
      var i, j :| 0 <= i < j < |es| && es[i] == es[j];
      var t := if m[es[i]] == targets[i] then targets[j] else targets[i];
      assert t in targets && t !in m.Values && !t.started;
    }
  }

  lemma CoveredIsStarted(lines: seq<LogLine>, e: string)
    ensures Covered(lines, e) ==> StartedIn(lines, e)
  {
  }

  /** Extending a log never turns a complete cell into an incomplete one. */
  lemma ExtendingKeepsComplete(executables: seq<string>, lines: seq<LogLine>, more: seq<LogLine>)
    requires CellComplete(executables, lines)
    ensures CellComplete(executables, lines + more)
  {
    forall e | e in executables ensures Covered(lines + more, e) {
      assert Covered(lines, e);
      var i, j :| Credits(lines, i, j, e);
      assert (lines + more)[..|lines|] == lines;
      CreditsPrefix(lines + more, |lines|, i, j, e);
    }
  }

  /** Cutting a log before a target's first result makes the cell incomplete:
      a truncated run cannot read as a whole one. */
  lemma TruncationIsSeen(executables: seq<string>, lines: seq<LogLine>, n: nat, e: string)
    requires n <= |lines| && e in executables
    requires forall i, j :: Credits(lines, i, j, e) ==> n <= j
    ensures !CellComplete(executables, lines[..n])
  {
    forall i, j ensures !Credits(lines[..n], i, j, e) {
      CreditsPrefix(lines, n, i, j, e);
    }
  }

  // ---- The verdict, read off the log -----------------------------------------

  /** Lines `h` and `j` stand with neither a `Running` nor a `Doc-tests` line
      between them. */
  ghost predicate Adjacent(lines: seq<LogLine>, h: int, j: int) {
    0 <= h < j < |lines| && forall k :: h < k < j ==> !lines[k].Running? && !lines[k].DocTests?
  }

  /** A cell is complete exactly when there are targets, no two share an
      executable, and each has its `Running` line followed by a result with no
      heading of either kind between. */
  lemma CompleteIff(executables: seq<string>, lines: seq<LogLine>)
    ensures CellComplete(executables, lines) <==>
            && executables != []
            && (forall i, j :: 0 <= i < j < |executables| ==> executables[i] != executables[j])
            && forall e :: e in executables ==>
                 exists h, j :: Adjacent(lines, h, j) && lines[h] == Running(e) && lines[j].Result?
  {
    forall e ensures Covered(lines, e) <==>
                     exists h, j :: Adjacent(lines, h, j) && lines[h] == Running(e) && lines[j].Result? {
      CoveredIff(lines, e);
    }
  }

  lemma CoveredIff(lines: seq<LogLine>, e: string)
    ensures Covered(lines, e) <==> exists h, j :: Adjacent(lines, h, j) && lines[h] == Running(e) && lines[j].Result?
  {
    forall h, j ensures Credits(lines, h, j, e)
        <==> Adjacent(lines, h, j) && lines[h] == Running(e) && lines[j].Result? {
    }
  }

  /** What a marked target says: started iff the log runs it; its verdict and
      counts those of the last result adjacent to a line that runs it, and none
      if there is none. */
  lemma MarkIs(m: map<string, Target>, lines: seq<LogLine>, e: string)
    requires Marks(m, lines) && e in m
    ensures m[e].started <==> Running(e) in lines
    ensures m[e].verdict.None? <==> !exists h, j :: Adjacent(lines, h, j) && lines[h] == Running(e) && lines[j].Result?
    ensures m[e].counts.None? <==> m[e].verdict.None?
    ensures m[e].verdict.Some? ==>
              exists h, j ::
                && Adjacent(lines, h, j) && lines[h] == Running(e)
                && lines[j] == Result(m[e].verdict.value, m[e].counts.value)
                && forall h', j' :: Adjacent(lines, h', j') && lines[h'] == Running(e) && lines[j'].Result? ==> j' <= j
  {
    ResultForIs(lines, e);
    CoveredIff(lines, e);
    forall h, j ensures Credits(lines, h, j, e)
        <==> Adjacent(lines, h, j) && lines[h] == Running(e) && lines[j].Result? {
    }
    assert Running(e) in lines <==> exists i :: 0 <= i < |lines| && lines[i] == Running(e);
    hide Credits, Adjacent;
  }

  /** No heading of either kind follows line `i`. */
  ghost predicate QuietAfter(lines: seq<LogLine>, i: int)
    requires 0 <= i < |lines|
  {
    forall k :: i < k < |lines| ==> !lines[k].Running? && !lines[k].DocTests?
  }

  /** The verdict of the last result adjacent to line `i`. */
  ghost function VerdictUnder(lines: seq<LogLine>, i: int): Option<string>
    requires 0 <= i < |lines|
    decreases |lines|
  {
    if |lines| == i + 1 then None
    else
      var front, l := lines[..|lines| - 1], lines[|lines| - 1];
      if l.Result? && QuietAfter(front, i) then Some(l.verdict) else VerdictUnder(front, i)
  }

  lemma AdjacentSnoc(front: seq<LogLine>, l: LogLine, i: int, j: int)
    requires 0 <= i < |front|
    ensures QuietAfter(front + [l], i) <==> QuietAfter(front, i) && !l.Running? && !l.DocTests?
    ensures j < |front| ==> (Adjacent(front + [l], i, j) <==> Adjacent(front, i, j))
    ensures Adjacent(front + [l], i, |front|) <==> QuietAfter(front, i)
  {
    var all := front + [l];
    assert forall k :: 0 <= k < |front| ==> all[k] == front[k];
    assert all[|front|] == l;
  }

  lemma {:induction false} VerdictUnderIs(lines: seq<LogLine>, i: int)
    requires 0 <= i < |lines|
    ensures VerdictUnder(lines, i).None? <==> !exists j :: Adjacent(lines, i, j) && lines[j].Result?
    ensures VerdictUnder(lines, i).Some? ==>
              exists j :: Adjacent(lines, i, j) && lines[j].Result? && lines[j].verdict == VerdictUnder(lines, i).value
                          && forall j' :: Adjacent(lines, i, j') && lines[j'].Result? ==> j' <= j
    decreases |lines|
  {
    if |lines| > i + 1 {
      var front, l := lines[..|lines| - 1], lines[|lines| - 1];
      assert lines == front + [l];
      VerdictUnderIs(front, i);
      forall j ensures (Adjacent(lines, i, j) && lines[j].Result?) <==>
                       (Adjacent(front, i, j) && front[j].Result?)
                       || (j == |front| && l.Result? && QuietAfter(front, i)) {
        AdjacentSnoc(front, l, i, j);
        if j > |front| {
          assert !Adjacent(lines, i, j);
        }
      }
      hide Adjacent, QuietAfter;
      if l.Result? && QuietAfter(front, i) {
        assert Adjacent(lines, i, |front|) && lines[|front|] == l by {
          AdjacentSnoc(front, l, i, 0);
        }
        forall j' | Adjacent(lines, i, j') && lines[j'].Result? ensures j' <= |front| {
          AdjacentIsInside(lines, i, j');
        }
      }
    }
  }

  lemma AdjacentIsInside(lines: seq<LogLine>, i: int, j: int)
    requires Adjacent(lines, i, j)
    ensures 0 <= i < j < |lines|
  {
  }

  /** Each `Doc-tests` line is a run, in order, with the verdict of the last
      result adjacent to it, if any. */
  lemma DocRunIs(lines: seq<LogLine>, i: int)
    requires 0 <= i < |lines| && lines[i].DocTests?
    ensures var q := |DocRuns(lines[..i])|;
            && q < |DocRuns(lines)| && DocRuns(lines)[q].0 == lines[i].crate
            && (DocRuns(lines)[q].1.None? <==> !exists j :: Adjacent(lines, i, j) && lines[j].Result?)
            && (DocRuns(lines)[q].1.Some? ==>
                  exists j :: Adjacent(lines, i, j) && lines[j].Result? && lines[j].verdict == DocRuns(lines)[q].1.value
                              && forall j' :: Adjacent(lines, i, j') && lines[j'].Result? ==> j' <= j)
  {
    hide *;
    DocRunHas(lines, i);
    VerdictUnderIs(lines, i);
  }

  lemma {:induction false} DocRunHas(lines: seq<LogLine>, i: int)
    requires 0 <= i < |lines| && lines[i].DocTests?
    ensures var q := |DocRuns(lines[..i])|;
            q < |DocRuns(lines)| && DocRuns(lines)[q] == (lines[i].crate, VerdictUnder(lines, i))
    ensures QuietAfter(lines, i) ==>
              Heading(lines) == Some(lines[i]) && |DocRuns(lines)| == |DocRuns(lines[..i])| + 1
    ensures !QuietAfter(lines, i) ==>
              |DocRuns(lines)| > |DocRuns(lines[..i])| + 1 || (Heading(lines).Some? && Heading(lines).value.Running?)
    decreases |lines|
  {
    hide DocRuns, Heading;
    var front, l := lines[..|lines| - 1], lines[|lines| - 1];
    assert lines == front + [l];
    DocReads(front, l);
    LineReads(front, l, "");
    if i == |front| {
      assert lines[..i] == front;
    } else {
      assert front[..i] == lines[..i];
      DocRunHas(front, i);
      AdjacentSnoc(front, l, i, 0);
      hide QuietAfter;
    }
  }

  /** There is one run for each `Doc-tests` line. */
  lemma {:induction false} DocRunsAreCounted(lines: seq<LogLine>)
    ensures |DocRuns(lines)| == |set i | 0 <= i < |lines| && lines[i].DocTests?|
  {
    var found := set i | 0 <= i < |lines| && lines[i].DocTests?;
    if lines == [] {
      assert found == {};
    } else {
      var front, l := lines[..|lines| - 1], lines[|lines| - 1];
      assert lines == front + [l];
      DocRunsAreCounted(front);
      DocReads(front, l);
      var before := set i | 0 <= i < |front| && front[i].DocTests?;
      assert found == before + if l.DocTests? then {|front|} else {};
      assert |front| !in before;
    }
  }
}
