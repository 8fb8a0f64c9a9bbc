/** The closed-world check of the directory of extracted runtime files: every
    regular file there is embedded in the binary, so every one must be pinned. */
module RuntimeFiles {
  import opened Wrappers
  import opened Sequences
  import opened Text

  type Bytes = seq<bv8>

  datatype Pin = Pin(name: string, size: nat, digest: string)

  /** What the file system says of one entry. */
  datatype Kind =
    | Symlink(target: Option<string>)
    | Directory
    | Special
    | Regular(content: Option<Bytes>, mode: nat)

  datatype DirEntry = DirEntry(name: string, kind: Kind)

  /** One step of listing the directory; either failure ends the check. */
  datatype Listed =
    | Unlistable
    | Unstatable(name: string)
    | Found(entry: DirEntry)

  datatype Directory =
    | NotADirectory(path: string)
    | CannotList
    | Listing(steps: seq<Listed>)

  datatype Finding =
    | StrayLink(target: string)
    | UnreadableLink
    | IsDirectory
    | NotAFile
    | Unpinned
    | UnreadableFile
    | Differs(pin: Pin, digest: string, size: nat)
    | PrivilegedMode(mode: nat)

  datatype Verdict = Verified | Ignored | Problem(finding: Finding)

  datatype Refusal =
    | StubMode
    | NoDirectory(path: string)
    | Aborted(step: Listed)
    | ListingFailed
    | DidNotCheckOut(problems: seq<string>)

  const MANIFEST := ".boxlite-runtime-files"

  /** Whether mode `m` has the set-user-ID (0o4000) or set-group-ID (0o2000)
      bit. */
  predicate Privileged(m: nat) {
    m / 0x800 % 2 == 1 || m / 0x400 % 2 == 1
  }

  /** Privileged is what has either of the two bits above the sticky bit and
      its nine permissions. */
  lemma PrivilegedIff(m: nat)
    ensures Privileged(m) <==> m / 0x400 % 4 != 0
  {
    assert m / 0x800 == m / 0x400 / 2;
  }

  function FindPin(pins: seq<Pin>, name: string): (r: Option<Pin>)
    ensures r.Some? ==> r.value in pins && r.value.name == name
    ensures r.None? ==> forall p :: p in pins ==> p.name != name
  {
    if pins == [] then None
    else if pins[0].name == name then Some(pins[0])
    else FindPin(pins[1..], name)
  }

  predicate IsPinned(pins: seq<Pin>, name: string) {
    exists p :: p in pins && p.name == name
  }

  function CheckEntry(e: DirEntry, pins: seq<Pin>, sha256: Bytes -> string): Verdict {
    match e.kind
    case Symlink(None) => Problem(UnreadableLink)
    case Symlink(Some(target)) =>
      if IsPinned(pins, target) then Ignored else Problem(StrayLink(target))
    case Directory => Problem(IsDirectory)
    case Special => Problem(NotAFile)
    case Regular(content, mode) =>
      if e.name == MANIFEST then Ignored
      else
        var pin := FindPin(pins, e.name);
        if pin.None? then Problem(Unpinned)
        else if content.None? then Problem(UnreadableFile)
        else
          var digest := sha256(content.value);
          if |content.value| != pin.value.size || digest != pin.value.digest then
            Problem(Differs(pin.value, digest, |content.value|))
          else if Privileged(mode) then Problem(PrivilegedMode(mode))
          else Verified
  }

  // ---- What a directory has to look like ------------------------------------

  /** Embedded in the binary: a regular file other than the manifest. */
  predicate IsEmbedded(e: DirEntry) {
    e.kind.Regular? && e.name != MANIFEST
  }

  /** The bytes on disk are the ones pinned for that name. */
  ghost predicate MatchesItsPin(e: DirEntry, pins: seq<Pin>, sha256: Bytes -> string) {
    && e.kind.Regular?
    && e.kind.content.Some?
    && FindPin(pins, e.name) == Some(Pin(e.name, |e.kind.content.value|, sha256(e.kind.content.value)))
    && !Privileged(e.kind.mode)
  }

  ghost predicate Acceptable(e: DirEntry, pins: seq<Pin>, sha256: Bytes -> string) {
    if IsEmbedded(e) then MatchesItsPin(e, pins, sha256)
    else
      || e.kind.Regular?
      || (e.kind.Symlink? && e.kind.target.Some? && IsPinned(pins, e.kind.target.value))
  }

  /** Nothing but the pinned files is embedded, each with its pinned bytes and
      no privileged mode, every pinned file is there, and all the rest is the
      manifest or a link to a pinned sibling. */
  ghost predicate ClosedWorld(entries: seq<DirEntry>, pins: seq<Pin>, sha256: Bytes -> string) {
    && (forall e :: e in entries ==> Acceptable(e, pins, sha256))
    && (forall p :: p in pins ==> p.name in Embedded(entries))
  }

  /** The names of the embedded files. */
  function Embedded(entries: seq<DirEntry>): (r: seq<string>)
    ensures forall n :: n in r <==> exists e :: e in entries && e.name == n && IsEmbedded(e)
  {
    if entries == [] then []
    else
      var init, last := entries[..|entries| - 1], entries[|entries| - 1];
      assert entries == init + [last];
      if IsEmbedded(last) then Embedded(init) + [last.name] else Embedded(init)
  }

  lemma CheckEntryMeansAcceptable(e: DirEntry, pins: seq<Pin>, sha256: Bytes -> string)
    ensures !CheckEntry(e, pins, sha256).Problem? <==> Acceptable(e, pins, sha256)
    ensures CheckEntry(e, pins, sha256).Verified? <==> IsEmbedded(e) && Acceptable(e, pins, sha256)
  {
  }

  // ---- The report -----------------------------------------------------------

  /** How findings are put into words, after the name of the entry. */
  type Wording = Finding -> string

  /** The `i`-th pin is the first of that name. */
  ghost predicate FirstPin(pins: seq<Pin>, name: string, i: int) {
    0 <= i < |pins| && pins[i].name == name && forall j :: 0 <= j < i ==> pins[j].name != name
  }

  lemma {:induction false} FindPinIs(pins: seq<Pin>, name: string)
    ensures forall i :: FirstPin(pins, name, i) ==> 0 <= i < |pins| && FindPin(pins, name) == Some(pins[i])
    ensures FindPin(pins, name).Some? <==> exists i :: FirstPin(pins, name, i)
  {
    if pins != [] {
      FindPinIs(pins[1..], name);
      forall i | pins[0].name != name ensures FirstPin(pins, name, i + 1) <==> FirstPin(pins[1..], name, i) {
        assert FirstPin(pins[1..], name, i) ==> forall j :: 1 <= j < i + 1 ==> pins[1..][j - 1] == pins[j];
        assert FirstPin(pins, name, i + 1) ==> forall j :: 0 <= j < i ==> pins[1..][j] == pins[j + 1];
      }
      if pins[0].name == name {
        assert FirstPin(pins, name, 0);
      } else {
        assert forall i :: FirstPin(pins, name, i) ==> i > 0 && FirstPin(pins, name, (i - 1) + 1);
        assert FindPin(pins[1..], name).Some? ==>
            exists i :: FirstPin(pins[1..], name, i) && FirstPin(pins, name, i + 1);
      }
    }
  }

  /** What is found wrong with an entry, and when. */
  lemma FindingIs(e: DirEntry, pins: seq<Pin>, sha256: Bytes -> string, i: int)
    ensures var r := CheckEntry(e, pins, sha256);
            match e.kind
            case Symlink(None) => r == Problem(UnreadableLink)
            case Symlink(Some(target)) =>
              if exists p :: p in pins && p.name == target then r == Ignored else r == Problem(StrayLink(target))
            case Directory => r == Problem(IsDirectory)
            case Special => r == Problem(NotAFile)
            case Regular(content, mode) =>
              && (r == Ignored <==> e.name == ".boxlite-runtime-files")
              && (r == Problem(Unpinned) <==> r != Ignored && forall p :: p in pins ==> p.name != e.name)
              && (e.name != ".boxlite-runtime-files" && FirstPin(pins, e.name, i) ==>
                    if content.None? then r == Problem(UnreadableFile)
                    else if pins[i].size != |content.value| || pins[i].digest != sha256(content.value) then
                      r == Problem(Differs(pins[i], sha256(content.value), |content.value|))
                    else r == if mode / 0x400 % 4 != 0 then Problem(PrivilegedMode(mode)) else Verified)
  {
    hide FindPin, Privileged;
    FindPinIs(pins, e.name);
    if e.kind.Regular? {
      PrivilegedIff(e.kind.mode);
    }
  }

  /** The closed world, spelled out: every regular file is the manifest or has
      the size and digest of the first pin of its name and neither privileged
      bit; every link's target is a pinned name; there is nothing else; and every
      pin has its file. */
  lemma ClosedWorldIff(entries: seq<DirEntry>, pins: seq<Pin>, sha256: Bytes -> string)
    ensures ClosedWorld(entries, pins, sha256) <==>
            && (forall e :: e in entries ==>
                  match e.kind
                  case Symlink(target) => target.Some? && exists p :: p in pins && p.name == target.value
                  case Regular(content, mode) =>
                    || e.name == ".boxlite-runtime-files"
                    || (content.Some? && mode / 0x400 % 4 == 0
                        && exists i :: FirstPin(pins, e.name, i) && pins[i].size == |content.value|
                                       && pins[i].digest == sha256(content.value))
                  case _ => false)
            && (forall p :: p in pins ==>
                  p.name != ".boxlite-runtime-files"
                  && exists e :: e in entries && e.name == p.name && e.kind.Regular?)
  {
    hide Embedded, Acceptable;
    EmbeddedAre(entries);
    forall e ensures Acceptable(e, pins, sha256) <==>
                     match e.kind
                     case Symlink(target) => target.Some? && exists p :: p in pins && p.name == target.value
                     case Regular(content, mode) =>
                       || e.name == ".boxlite-runtime-files"
                       || (content.Some? && mode / 0x400 % 4 == 0
                           && exists i :: FirstPin(pins, e.name, i) && pins[i].size == |content.value|
                                          && pins[i].digest == sha256(content.value))
                     case _ => false {
      AcceptableIff(e, pins, sha256);
    }
  }

  lemma AcceptableIff(e: DirEntry, pins: seq<Pin>, sha256: Bytes -> string)
    ensures Acceptable(e, pins, sha256) <==>
            match e.kind
            case Symlink(target) => target.Some? && exists p :: p in pins && p.name == target.value
            case Regular(content, mode) =>
              || e.name == ".boxlite-runtime-files"
              || (content.Some? && mode / 0x400 % 4 == 0
                  && exists i :: FirstPin(pins, e.name, i) && pins[i].size == |content.value|
                                 && pins[i].digest == sha256(content.value))
            case _ => false
  {
    hide FindPin, Privileged, FirstPin;
    FindPinIs(pins, e.name);
    if e.kind.Regular? {
      PrivilegedIff(e.kind.mode);
    }
  }

  lemma EmbeddedAre(entries: seq<DirEntry>)
    ensures forall n :: n in Embedded(entries) <==>
              n != ".boxlite-runtime-files" && exists e :: e in entries && e.name == n && e.kind.Regular?
  {
  }

  function EntryLine(e: DirEntry, finding: Finding, words: Wording): string {
    "  " + e.name + words(finding)
  }

  function MissingLine(name: string, platform: string): string {
    "  " + name + " is missing, and it is pinned for " + platform
  }

  predicate Mentioned(problems: seq<string>, name: string) {
    exists p :: p in problems && Find(p, name).Some?
  }

  lemma NameIsInItsLine(before: string, name: string, after: string)
    ensures Find(before + name + after, name).Some?
    decreases |before|
  {
    var line := before + name + after;
    if before == "" {
      assert line[..|name|] == name;
    } else {
      assert line[1..] == before[1..] + name + after;
      NameIsInItsLine(before[1..], name, after);
    }
  }

  /** Every listing step yielded an entry. */
  ghost predicate AllFound(steps: seq<Listed>) {
    forall s :: s in steps ==> s.Found?
  }

  function Entries(steps: seq<Listed>): (r: seq<DirEntry>)
    requires AllFound(steps)
    ensures |r| == |steps| && forall i :: 0 <= i < |steps| ==> r[i] == steps[i].entry
  {
    seq(|steps|, i requires 0 <= i < |steps| => steps[i].entry)
  }

  /** Which line, if any, the report holds about `e`. */
  ghost predicate Reported(e: DirEntry, problems: seq<string>, pins: seq<Pin>,
                           sha256: Bytes -> string, words: Wording) {
    var verdict := CheckEntry(e, pins, sha256);
    verdict.Problem? ==> EntryLine(e, verdict.finding, words) in problems
  }

  /** The names of the entries that are verified. */
  function VerifiedNames(entries: seq<DirEntry>, pins: seq<Pin>, sha256: Bytes -> string): seq<string> {
    if entries == [] then []
    else
      VerifiedNames(entries[..|entries| - 1], pins, sha256)
      + var e := entries[|entries| - 1];
        if CheckEntry(e, pins, sha256).Verified? then [e.name] else []
  }

  /** A line for each entry that is a problem. */
  function WalkLines(entries: seq<DirEntry>, pins: seq<Pin>, sha256: Bytes -> string, words: Wording): seq<string> {
    if entries == [] then []
    else
      WalkLines(entries[..|entries| - 1], pins, sha256, words)
      + var e := entries[|entries| - 1];
        if CheckEntry(e, pins, sha256).Problem? then [EntryLine(e, CheckEntry(e, pins, sha256).finding, words)] else []
  }

  /** The names seen are those of the verified entries. */
  ghost predicate SeenAre(entries: seq<DirEntry>, pins: seq<Pin>, sha256: Bytes -> string, seen: seq<string>) {
    && seen == VerifiedNames(entries, pins, sha256)
    && forall n :: n in seen <==> exists e :: e in entries && e.name == n && CheckEntry(e, pins, sha256).Verified?
  }

  ghost predicate AllReported(entries: seq<DirEntry>, pins: seq<Pin>, sha256: Bytes -> string,
                              words: Wording, problems: seq<string>)
  {
    && problems == WalkLines(entries, pins, sha256, words)
    && forall e :: e in entries ==> Reported(e, problems, pins, sha256, words)
  }

  /** No problem so far means that every entry was acceptable, and that what was
      seen is what gets embedded. */
  ghost predicate QuietMeansClosed(entries: seq<DirEntry>, pins: seq<Pin>, sha256: Bytes -> string,
                                   seen: seq<string>, problems: seq<string>)
  {
    && (problems == [] <==> forall e :: e in entries ==> Acceptable(e, pins, sha256))
    && (problems == [] ==> seen == Embedded(entries))
  }

  /** What the walk has recorded: the names verified so far, and one line for
      each entry that was not acceptable. */
  ghost predicate Walked(entries: seq<DirEntry>, pins: seq<Pin>, sha256: Bytes -> string,
                         words: Wording, seen: seq<string>, problems: seq<string>)
  {
    && SeenAre(entries, pins, sha256, seen)
    && AllReported(entries, pins, sha256, words, problems)
    && QuietMeansClosed(entries, pins, sha256, seen, problems)
  }

  lemma NothingWalked(pins: seq<Pin>, sha256: Bytes -> string, words: Wording)
    ensures Walked([], pins, sha256, words, [], [])
  {
  }

  function SeenWith(seen: seq<string>, e: DirEntry, verdict: Verdict): seq<string> {
    if verdict.Verified? then seen + [e.name] else seen
  }

  function LinesWith(problems: seq<string>, e: DirEntry, verdict: Verdict, words: Wording): seq<string> {
    if verdict.Problem? then problems + [EntryLine(e, verdict.finding, words)] else problems
  }

  lemma WalkedOneMore(entries: seq<DirEntry>, e: DirEntry, pins: seq<Pin>, sha256: Bytes -> string,
                      words: Wording, seen: seq<string>, problems: seq<string>)
    requires Walked(entries, pins, sha256, words, seen, problems)
    ensures var verdict := CheckEntry(e, pins, sha256);
            Walked(entries + [e], pins, sha256, words,
                   SeenWith(seen, e, verdict), LinesWith(problems, e, verdict, words))
  {
    hide *;
    WalkedParts(entries, pins, sha256, words, seen, problems);
    SeenOneMore(entries, e, pins, sha256, seen);
    ReportedOneMore(entries, e, pins, sha256, words, problems);
    ClosedOneMore(entries, e, pins, sha256, words, seen, problems);
    var verdict := CheckEntry(e, pins, sha256);
    WalkedParts(entries + [e], pins, sha256, words, SeenWith(seen, e, verdict), LinesWith(problems, e, verdict, words));
  }

  lemma WalkedParts(entries: seq<DirEntry>, pins: seq<Pin>, sha256: Bytes -> string,
                    words: Wording, seen: seq<string>, problems: seq<string>)
    ensures Walked(entries, pins, sha256, words, seen, problems) <==>
            && SeenAre(entries, pins, sha256, seen)
            && AllReported(entries, pins, sha256, words, problems)
            && QuietMeansClosed(entries, pins, sha256, seen, problems)
  {
    hide SeenAre, AllReported, QuietMeansClosed;
  }

  lemma SeenOneMore(entries: seq<DirEntry>, e: DirEntry, pins: seq<Pin>, sha256: Bytes -> string, seen: seq<string>)
    requires SeenAre(entries, pins, sha256, seen)
    ensures SeenAre(entries + [e], pins, sha256, SeenWith(seen, e, CheckEntry(e, pins, sha256)))
  {
    hide CheckEntry;
    assert (entries + [e])[..|entries|] == entries;
    assert forall x :: x in entries + [e] <==> x in entries || x == e;
  }

  lemma ReportedOneMore(entries: seq<DirEntry>, e: DirEntry, pins: seq<Pin>, sha256: Bytes -> string,
                        words: Wording, problems: seq<string>)
    requires AllReported(entries, pins, sha256, words, problems)
    ensures AllReported(entries + [e], pins, sha256, words, LinesWith(problems, e, CheckEntry(e, pins, sha256), words))
  {
    hide CheckEntry, EntryLine;
    var lines := LinesWith(problems, e, CheckEntry(e, pins, sha256), words);
    assert (entries + [e])[..|entries|] == entries;
    forall x | x in entries + [e] ensures Reported(x, lines, pins, sha256, words) {
      if x in entries {
        StillReported(x, problems, lines, pins, sha256, words);
      }
    }
  }

  lemma StillReported(e: DirEntry, problems: seq<string>, more: seq<string>, pins: seq<Pin>,
                      sha256: Bytes -> string, words: Wording)
    requires Reported(e, problems, pins, sha256, words) && problems <= more
    ensures Reported(e, more, pins, sha256, words)
  {
    hide CheckEntry, EntryLine;
  }

  lemma ClosedOneMore(entries: seq<DirEntry>, e: DirEntry, pins: seq<Pin>, sha256: Bytes -> string,
                      words: Wording, seen: seq<string>, problems: seq<string>)
    requires QuietMeansClosed(entries, pins, sha256, seen, problems)
    ensures var verdict := CheckEntry(e, pins, sha256);
            QuietMeansClosed(entries + [e], pins, sha256, SeenWith(seen, e, verdict),
                LinesWith(problems, e, verdict, words))
  {
    hide CheckEntry, Acceptable, EntryLine;
    CheckEntryMeansAcceptable(e, pins, sha256);
    assert (entries + [e])[..|entries|] == entries;
    assert forall x :: x in entries + [e] <==> x in entries || x == e;
  }

  method WalkEntries(steps: seq<Listed>, pins: seq<Pin>, sha256: Bytes -> string, words: Wording)
    returns (seen: seq<string>, problems: seq<string>, aborted: Option<Listed>)
    ensures aborted.None? <==> AllFound(steps)
    ensures aborted.Some? ==>
              exists i :: 0 <= i < |steps| && steps[i] == aborted.value && !steps[i].Found?
                          && AllFound(steps[..i])
    ensures aborted.None? ==>
              Walked(Entries(steps), pins, sha256, words, seen, problems)
  {
    hide CheckEntry, Walked, EntryLine;
    seen, problems := [], [];
    NothingWalked(pins, sha256, words);
    for i := 0 to |steps|
      invariant AllFound(steps[..i])
      invariant Walked(Entries(steps[..i]), pins, sha256, words, seen, problems)
    {
      assert steps[..i + 1] == steps[..i] + [steps[i]];
      if !steps[i].Found? {
        return seen, problems, Some(steps[i]);
      }
      var e := steps[i].entry;
      assert Entries(steps[..i + 1]) == Entries(steps[..i]) + [e];
      WalkedOneMore(Entries(steps[..i]), e, pins, sha256, words, seen, problems);
      match CheckEntry(e, pins, sha256) {
        case Verified => seen := seen + [e.name];
        case Ignored =>
        case Problem(finding) => problems := problems + [EntryLine(e, finding, words)];
      }
    }
    assert steps[..|steps|] == steps;
    aborted := None;
  }

  /** Pin `i` gets a line of its own exactly when it is absent and its name is
      contained neither in a line about an entry nor in the line of an earlier
      pin. */
  ghost predicate HasOwnLine(pins: seq<Pin>, i: nat, seen: seq<string>, found: seq<string>, platform: string)
    requires i < |pins|
    decreases i
  {
    && pins[i].name !in seen
    && (forall l :: l in found ==> !Contains(l, pins[i].name))
    && (forall j :: 0 <= j < i && HasOwnLine(pins, j, seen, found, platform) ==>
          !Contains(MissingLine(pins[j].name, platform), pins[i].name))
  }

  /** The lines of the first `n` pins that get one. */
  ghost function OwnLines(pins: seq<Pin>, n: nat, seen: seq<string>, found: seq<string>, platform: string): seq<string>
    requires n <= |pins|
  {
    if n == 0 then []
    else
      OwnLines(pins, n - 1, seen, found, platform)
      + if HasOwnLine(pins, n - 1, seen, found, platform) then [MissingLine(pins[n - 1].name, platform)] else []
  }

  lemma {:induction false} OwnLinesAre(pins: seq<Pin>, n: nat, seen: seq<string>, found: seq<string>, platform: string)
    requires n <= |pins|
    ensures forall l :: l in OwnLines(pins, n, seen, found, platform) <==>
              exists j :: 0 <= j < n && HasOwnLine(pins, j, seen, found, platform)
                  && l == MissingLine(pins[j].name, platform)
  {
    hide HasOwnLine, MissingLine;
    if n > 0 {
      OwnLinesAre(pins, n - 1, seen, found, platform);
    }
  }

  /** The search of the lines so far decides whether pin `n` gets its own. */
  lemma SearchDecides(pins: seq<Pin>, n: nat, seen: seq<string>, found: seq<string>, platform: string)
    requires n < |pins|
    ensures HasOwnLine(pins, n, seen, found, platform) <==>
            pins[n].name !in seen && !Mentioned(found + OwnLines(pins, n, seen, found, platform), pins[n].name)
  {
    hide MissingLine, Contains, Find, OwnLines;
    var name, own := pins[n].name, OwnLines(pins, n, seen, found, platform);
    OwnLinesAre(pins, n, seen, found, platform);
    forall l ensures Find(l, name).Some? <==> Contains(l, name) {
      FindIffContains(l, name);
    }
    assert Mentioned(found + own, name) <==>
      (exists l :: l in found && Contains(l, name)) || (exists l :: l in own && Contains(l, name));
    if HasOwnLine(pins, n, seen, found, platform) {
      forall l | l in own ensures !Contains(l, name) {
        var j :| 0 <= j < n && HasOwnLine(pins, j, seen, found, platform) && l == MissingLine(pins[j].name, platform);
      }
    } else if name !in seen && forall l :: l in found ==> !Contains(l, name) {
      var j :| 0 <= j < n && HasOwnLine(pins, j, seen, found, platform)
          && Contains(MissingLine(pins[j].name, platform), name);
      assert MissingLine(pins[j].name, platform) in own;
    }
  }

  /** Pins without a verified file. A pin some earlier line already names is not
      given a line of its own, but every one is named somewhere. */
  method ReportMissing(pins: seq<Pin>, seen: seq<string>, found: seq<string>, platform: string)
    returns (problems: seq<string>)
    ensures found <= problems
    ensures problems == [] <==> found == [] && forall p :: p in pins ==> p.name in seen
    ensures forall p :: p in pins ==> p.name in seen || Mentioned(problems, p.name)
    ensures problems == found + OwnLines(pins, |pins|, seen, found, platform)
  {
    hide Find, MissingLine, Contains, HasOwnLine, Mentioned;
    problems := found;
    for i := 0 to |pins|
      invariant found <= problems
      invariant problems == [] <==> found == [] && forall p :: p in pins[..i] ==> p.name in seen
      invariant forall p :: p in pins[..i] ==> p.name in seen || Mentioned(problems, p.name)
      invariant problems == found + OwnLines(pins, i, seen, found, platform)
    {
      assert pins[..i + 1] == pins[..i] + [pins[i]];
      var name := pins[i].name;
      SearchDecides(pins, i, seen, found, platform);
      MentionsGrow(problems, MissingLine(name, platform));
      if name !in seen && !Mentioned(problems, name) {
        MissingLineNames(name, platform);
        problems := problems + [MissingLine(name, platform)];
      }
    }
    assert pins[..|pins|] == pins;
  }

  lemma MentionsGrow(problems: seq<string>, line: string)
    ensures forall n :: Mentioned(problems, n) ==> problems != [] && Mentioned(problems + [line], n)
    ensures forall n :: Find(line, n).Some? ==> Mentioned(problems + [line], n)
  {
    hide Find;
    assert (problems + [line])[|problems|] == line;
  }

  lemma MissingLineNames(name: string, platform: string)
    ensures Find(MissingLine(name, platform), name).Some?
  {
    NameIsInItsLine("  ", name, " is missing, and it is pinned for " + platform);
    assert MissingLine(name, platform)
      == "  " + name + (" is missing, and it is pinned for " + platform);
  }

  /** The lines about the entries, then those of the absent pins that get one. */
  ghost function Report(entries: seq<DirEntry>, pins: seq<Pin>, platform: string,
                        sha256: Bytes -> string, words: Wording): seq<string>
  {
    var found := WalkLines(entries, pins, sha256, words);
    found + OwnLines(pins, |pins|, VerifiedNames(entries, pins, sha256), found, platform)
  }

  /** Every unacceptable entry has its line, and every pin is either on disk as
      pinned or named in some line. */
  ghost predicate Explains(problems: seq<string>, entries: seq<DirEntry>, pins: seq<Pin>,
                           sha256: Bytes -> string, words: Wording)
  {
    && (forall e :: e in entries ==> Reported(e, problems, pins, sha256, words))
    && (forall p :: p in pins ==> Mentioned(problems, p.name) || OnDisk(p.name, entries, pins, sha256))
  }

  ghost predicate OnDisk(name: string, entries: seq<DirEntry>, pins: seq<Pin>, sha256: Bytes -> string) {
    exists e :: e in entries && e.name == name && MatchesItsPin(e, pins, sha256)
  }

  lemma ReportIs(entries: seq<DirEntry>, pins: seq<Pin>, platform: string, sha256: Bytes -> string, words: Wording,
                 seen: seq<string>, found: seq<string>)
    requires Walked(entries, pins, sha256, words, seen, found)
    ensures Report(entries, pins, platform, sha256, words) == found + OwnLines(pins, |pins|, seen, found, platform)
  {
  }

  lemma SeenDecides(entries: seq<DirEntry>, pins: seq<Pin>, sha256: Bytes -> string, words: Wording,
                    seen: seq<string>, found: seq<string>, problems: seq<string>)
    requires Walked(entries, pins, sha256, words, seen, found)
    requires found <= problems
    requires problems == [] <==> found == [] && forall p :: p in pins ==> p.name in seen
    requires forall p :: p in pins ==> p.name in seen || Mentioned(problems, p.name)
    ensures problems == [] <==> ClosedWorld(entries, pins, sha256)
    ensures problems == [] ==> seen == Embedded(entries)
    ensures Explains(problems, entries, pins, sha256, words)
  {
    hide CheckEntry, Mentioned, EntryLine, MatchesItsPin, Embedded, VerifiedNames, WalkLines;
    forall p | p in pins && p.name in seen
      ensures OnDisk(p.name, entries, pins, sha256)
    {
      var e :| e in entries && e.name == p.name && CheckEntry(e, pins, sha256).Verified?;
      CheckEntryMeansAcceptable(e, pins, sha256);
      assert MatchesItsPin(e, pins, sha256);
    }
    forall e | e in entries
      ensures Reported(e, problems, pins, sha256, words)
    {
      assert Reported(e, found, pins, sha256, words);
    }
  }

  method VerifyExtracted(dir: Directory, pins: seq<Pin>, platform: string,
                         sha256: Bytes -> string, words: Wording)
    returns (r: Result<nat, Refusal>)
    ensures dir.NotADirectory? ==>
              r == Failure(if dir.path == "/nonexistent" then StubMode else NoDirectory(dir.path))
    ensures dir.CannotList? ==> r == Failure(ListingFailed)
    ensures dir.Listing? && !AllFound(dir.steps) ==>
              r.Failure? && r.error.Aborted?
              && exists i :: 0 <= i < |dir.steps| && dir.steps[i] == r.error.step
                             && !dir.steps[i].Found? && AllFound(dir.steps[..i])
    ensures dir.Listing? && AllFound(dir.steps) ==>
              var entries := Entries(dir.steps);
              && (r.Success? <==> ClosedWorld(entries, pins, sha256))
              && (r.Success? ==> r.value == |Embedded(entries)|)
              && (r.Failure? ==>
                    && r.error.DidNotCheckOut?
                    && r.error.problems != []
                    && r.error.problems == Report(entries, pins, platform, sha256, words)
                    && Explains(r.error.problems, entries, pins, sha256, words))
  {
    hide *;
    if dir.NotADirectory? {
      return Failure(if dir.path == "/nonexistent" then StubMode else NoDirectory(dir.path));
    }
    if dir.CannotList? {
      return Failure(ListingFailed);
    }
    var seen, found, aborted := WalkEntries(dir.steps, pins, sha256, words);
    if aborted.Some? {
      return Failure(Aborted(aborted.value));
    }
    var problems := ReportMissing(pins, seen, found, platform);
    SeenDecides(Entries(dir.steps), pins, sha256, words, seen, found, problems);
    ReportIs(Entries(dir.steps), pins, platform, sha256, words, seen, found);
    r := if problems == [] then Success(|seen|) else Failure(DidNotCheckOut(problems));
  }

  // ---- What acceptance means ------------------------------------------------

  function PinNames(pins: seq<Pin>): (r: seq<string>)
    ensures |r| == |pins| && forall i :: 0 <= i < |pins| ==> r[i] == pins[i].name
  {
    seq(|pins|, i requires 0 <= i < |pins| => pins[i].name)
  }

  /** The number reported is the number of pins: with one entry a name and one
      pin a name, an accepted directory embeds exactly the pinned names. */
  lemma AcceptedIsExactlyThePinned(entries: seq<DirEntry>, pins: seq<Pin>, sha256: Bytes -> string)
    requires forall i, j :: 0 <= i < j < |entries| ==> entries[i].name != entries[j].name
    requires Distinct(PinNames(pins))
    requires ClosedWorld(entries, pins, sha256)
    ensures Elements(Embedded(entries)) == Elements(PinNames(pins))
    ensures |Embedded(entries)| == |pins|
  {
    EmbeddedOnce(entries);
    forall n
      ensures n in Embedded(entries) <==> n in PinNames(pins)
    {
      if n in Embedded(entries) {
        var e :| e in entries && e.name == n && IsEmbedded(e);
        assert Acceptable(e, pins, sha256);
        var k :| 0 <= k < |pins| && pins[k].name == n;
        assert PinNames(pins)[k] == n;
      }
    }
    DistinctSize(Embedded(entries));
    DistinctSize(PinNames(pins));
  }

  lemma AcceptedBytesArePinned(entries: seq<DirEntry>, pins: seq<Pin>, sha256: Bytes -> string,
                               e: DirEntry, p: Pin)
    requires Distinct(PinNames(pins))
    requires ClosedWorld(entries, pins, sha256)
    requires e in entries && IsEmbedded(e) && p in pins && p.name == e.name
    ensures e.kind.content.Some? && |e.kind.content.value| == p.size
    ensures sha256(e.kind.content.value) == p.digest && !Privileged(e.kind.mode)
  {
    assert Acceptable(e, pins, sha256);
    var q := FindPin(pins, e.name).value;
    var i :| 0 <= i < |pins| && pins[i] == p;
    var j :| 0 <= j < |pins| && pins[j] == q;
    assert PinNames(pins)[i] == PinNames(pins)[j];
  }

  lemma {:induction false} EmbeddedOnce(entries: seq<DirEntry>)
    requires forall i, j :: 0 <= i < j < |entries| ==> entries[i].name != entries[j].name
    ensures Distinct(Embedded(entries))
  {
    if entries != [] {
      var init, last := entries[..|entries| - 1], entries[|entries| - 1];
      EmbeddedOnce(init);
      forall k | 0 <= k < |init|
        ensures init[k].name != last.name
      {
        assert entries[k] == init[k];
      }
      assert last.name !in Embedded(init);
    }
  }

  lemma {:induction false} DistinctSize<T>(s: seq<T>)
    requires Distinct(s)
    ensures |Elements(s)| == |s|
  {
    if s != [] {
      var init, last := s[..|s| - 1], s[|s| - 1];
      DistinctSize(init);
      assert s == init + [last];
      assert Elements(s) == Elements(init) + {last};
      assert last !in init;
    }
  }

  /** With "lib" absent and "lib.so" altered, the whole report is the line about
      "lib.so": it already contains "lib", which gets no line of its own. */
  lemma AbsentPinHidesBehindALongerName(sha256: Bytes -> string, words: Wording, platform: string)
    requires sha256([]) != ""
    ensures var pins := [Pin("lib", 0, ""), Pin("lib.so", 0, "")];
            var altered := DirEntry("lib.so", Regular(Some([]), 0));
            && CheckEntry(altered, pins, sha256).Problem?
            && var line := EntryLine(altered, CheckEntry(altered, pins, sha256).finding, words);
            && Report([altered], pins, platform, sha256, words) == [line]
            && !HasOwnLine(pins, 0, VerifiedNames([altered], pins, sha256), [line], platform)
  {
    hide HasOwnLine, Contains, Find, MissingLine, EntryLine;
    var pins := [Pin("lib", 0, ""), Pin("lib.so", 0, "")];
    var altered := DirEntry("lib.so", Regular(Some([]), 0));
    assert pins[1..] == [Pin("lib.so", 0, "")];
    assert FindPin(pins, "lib.so") == FindPin(pins[1..], "lib.so") == Some(pins[1]);
    var line := EntryLine(altered, CheckEntry(altered, pins, sha256).finding, words);
    assert [altered][..0] == [];
    assert VerifiedNames([altered], pins, sha256) == [] && WalkLines([altered], pins, sha256, words) == [line];
    NoOwnLines(pins, altered, line, platform, CheckEntry(altered, pins, sha256).finding, words);
    assert [line] + [] == [line];
  }

  lemma NoOwnLines(pins: seq<Pin>, altered: DirEntry, line: string, platform: string, finding: Finding, words: Wording)
    requires pins == [Pin("lib", 0, ""), Pin("lib.so", 0, "")] && altered.name == "lib.so"
    requires line == EntryLine(altered, finding, words)
    ensures OwnLines(pins, 2, [], [line], platform) == [] && !HasOwnLine(pins, 0, [], [line], platform)
  {
    hide Contains, Find, MissingLine;
    assert line == "  " + "lib" + (".so" + words(finding)) == "  " + "lib.so" + words(finding);
    NameIsInItsLine("  ", "lib", ".so" + words(finding));
    NameIsInItsLine("  ", "lib.so", words(finding));
    FindIffContains(line, "lib");
    FindIffContains(line, "lib.so");
    assert line in [line];
    assert !HasOwnLine(pins, 0, [], [line], platform) && !HasOwnLine(pins, 1, [], [line], platform);
    assert OwnLines(pins, 2, [], [line], platform) == OwnLines(pins, 1, [], [line], platform) + [];
    assert OwnLines(pins, 1, [], [line], platform) == OwnLines(pins, 0, [], [line], platform) + [];
  }
}
