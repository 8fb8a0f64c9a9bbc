/** From a configuration to the flat list of resolved workspace groups. */
module WorkspaceResolution {
  import opened Wrappers
  import opened Sequences
  import opened IncludeGraph
  import opened IncludeFold
  import UniqueNames

  /** A repository found by discovery: its path, and its directory name if it
      has one. */
  datatype StandaloneRepo = StandaloneRepo(path: string, fileName: Option<string>)

  function OwnView(expand: string -> string, w: NamedWorkspace): GroupView {
    GroupView(w.name, MapAll(expand, w.roots.GetOr([])), MapAll(expand, w.repos.GetOr([])),
              true, w.includeWorktrees.GetOr(false))
  }

  function DefaultView(expand: string -> string, t: WorkspaceTable): GroupView {
    GroupView(DEFAULT_NAME, MapAll(expand, t.roots.GetOr([])), MapAll(expand, t.repos.GetOr([])),
              true, t.includeWorktrees.GetOr(false))
  }

  function Met(cfg: Config, w: NamedWorkspace): Result<seq<string>, ConfigError> {
    WalkAll(cfg, w.includes.GetOr([]), [w.name])
  }

  /** `own`, then the members of every name met below `w`, each new path once. */
  function Composed(cfg: Config, expand: string -> string, w: NamedWorkspace, own: GroupView): GroupView {
    match Met(cfg, w)
    case Failure(_) => own
    case Success(met) =>
      own.(roots := AppendNew(own.roots, RootsOf(cfg, expand, met)),
           repos := AppendNew(own.repos, ReposOf(cfg, expand, met)))
  }

  /** Compose one workspace. The cost is one call per `includes` entry of the
      workspace and of each name it reaches, however many paths reach it. */
  method ComposeGroup(cfg: Config, expand: string -> string, w: NamedWorkspace, group: Group)
    returns (r: Result<(), ConfigError>, ghost calls: nat, ghost order: seq<string>)
    requires Distinct(IncludableNames(cfg)) && w in cfg.workspaces
    modifies group
    ensures r.Success? <==> Met(cfg, w).Success?
    ensures r.Failure? ==> r.error == Met(cfg, w).error
    ensures r.Success? ==> group.View() == Composed(cfg, expand, w, old(group.View()))
    ensures r.Success? ==> Distinct(order) && forall x :: x in order <==> Reaches(cfg, w.name, x)
    ensures r.Success? ==> calls == |w.includes.GetOr([])| + EdgeCount(cfg, order)
  {
    var fold := new Fold.StartingAt(cfg, expand, w.name, group);
    r := FoldEach(cfg, expand, w.includes.GetOr([]), fold);
    calls, order := fold.calls, fold.done;
    if r.Success? {
      DeclaredIsOwn(cfg, w);
      forall x ensures x in order <==> Reaches(cfg, w.name, x) {
        WalkMeetsExactlyTheReachable(cfg, w.name, x);
        assert x in order <==> x in Elements(order);
        assert x in Met(cfg, w).value <==> x in Elements(Met(cfg, w).value);
      }
    }
  }

  ghost predicate DistinctGroups(out: seq<Group>) {
    && Distinct(out)
    && forall i, j :: 0 <= i < j < |out| ==> out[i].name != out[j].name
  }

  /** The error of the first workspace, in written order, that has a group and
      cannot be composed. */
  ghost function FirstFailure(cfg: Config, out: seq<Group>, ws: seq<NamedWorkspace>): Option<ConfigError> {
    if ws == [] then None
    else if Met(cfg, ws[0]).Failure? && exists g :: g in out && g.name == ws[0].name then Some(Met(cfg, ws[0]).error)
    else FirstFailure(cfg, out, ws[1..])
  }

  method FindGroup(out: seq<Group>, name: string) returns (i: nat)
    ensures i <= |out|
    ensures i < |out| ==> out[i].name == name
    ensures forall k :: 0 <= k < i ==> out[k].name != name
  {
    i := 0;
    while i < |out| && out[i].name != name
      invariant i <= |out|
      invariant forall k :: 0 <= k < i ==> out[k].name != name
    {
      i := i + 1;
    }
  }

  /** A group after the workspaces `ws` have been composed: its own workspace,
      when among them, has been; no other workspace touches it. */
  function AfterFolding(cfg: Config, expand: string -> string, ws: seq<NamedWorkspace>, own: GroupView): GroupView {
    match FindWorkspace(ws, own.name)
    case None => own
    case Some(w) => Composed(cfg, expand, w, own)
  }

  lemma {:induction false} FindInSnoc(ws: seq<NamedWorkspace>, w: NamedWorkspace, name: string)
    ensures FindWorkspace(ws + [w], name) ==
            if FindWorkspace(ws, name).Some? then FindWorkspace(ws, name)
            else if w.name == name then Some(w) else None
  {
    if ws == [] {
      assert ws + [w] == [w];
      assert [w][1..] == [];
    } else {
      assert (ws + [w])[1..] == ws[1..] + [w];
      FindInSnoc(ws[1..], w, name);
    }
  }

  ghost function Views(out: seq<Group>): (r: seq<GroupView>)
    reads out
    ensures |r| == |out| && forall i :: 0 <= i < |out| ==> r[i] == out[i].View()
  {
    seq(|out|, i requires 0 <= i < |out| reads out => out[i].View())
  }

  /** One turn of the loop below: find the workspace's group and compose it. */
  method ComposeOne(cfg: Config, expand: string -> string, w: NamedWorkspace, out: seq<Group>)
      returns (r: Result<(), ConfigError>)
    requires Distinct(IncludableNames(cfg)) && w in cfg.workspaces && DistinctGroups(out)
    modifies out
    ensures r.Failure? <==> Met(cfg, w).Failure? && exists g :: g in out && g.name == w.name
    ensures r.Failure? ==> r.error == Met(cfg, w).error
    ensures r.Success? ==> forall i :: 0 <= i < |out| ==>
              out[i].View() == if out[i].name == w.name
                  then Composed(cfg, expand, w, old(out[i].View())) else old(out[i].View())
  {
    r := Success(());
    if w.includes.GetOr([]) == [] {
      EmptyIncludesCompose(cfg, expand, w);
      return;
    }
    var i := FindGroup(out, w.name);
    if i < |out| {
      var composed, _, _ := ComposeGroup(cfg, expand, w, out[i]);
      return composed;
    }
  }

  /** Every composed workspace gains what its includes reach; every other
      group keeps exactly what it had. */
  method FoldIncludes(cfg: Config, expand: string -> string, out: seq<Group>) returns (r: Result<(), ConfigError>)
    requires Distinct(IncludableNames(cfg)) && DistinctGroups(out)
    modifies out
    ensures match FirstFailure(cfg, out, cfg.workspaces)
            case None => r.Success?
            case Some(e) => r == Failure(e)
    ensures r.Success? ==> forall i :: 0 <= i < |out| ==>
              out[i].View() == AfterFolding(cfg, expand, cfg.workspaces, old(out[i].View()))
  {
    var ws := cfg.workspaces;
    hide AfterFolding, Composed, Met;
    ghost var was := Views(out);
    FoldingNothing(cfg, expand);
    for k := 0 to |ws|
      invariant FirstFailure(cfg, out, ws) == FirstFailure(cfg, out, ws[k..])
      invariant forall i :: 0 <= i < |out| ==> out[i].View() == AfterFolding(cfg, expand, ws[..k], was[i])
    {
      var w := ws[k];
      assert ws[k..][0] == w && ws[k..][1..] == ws[k + 1..];
      FoldingStep(cfg, expand, k);
      r := ComposeOne(cfg, expand, w, out);
      if r.Failure? {
        return;
      }
    }
    assert ws[..|ws|] == ws;
    r := Success(());
  }

  lemma FoldingNothing(cfg: Config, expand: string -> string)
    ensures forall own: GroupView :: AfterFolding(cfg, expand, [], own) == own
  {
  }

  lemma FoldingStep(cfg: Config, expand: string -> string, k: nat)
    requires Distinct(IncludableNames(cfg)) && k < |cfg.workspaces|
    ensures forall own: GroupView :: AfterFolding(cfg, expand, cfg.workspaces[..k + 1], own) ==
              if own.name == cfg.workspaces[k].name
              then Composed(cfg, expand, cfg.workspaces[k], own)
              else AfterFolding(cfg, expand, cfg.workspaces[..k], own)
    ensures forall own: GroupView :: own.name == cfg.workspaces[k].name ==>
                AfterFolding(cfg, expand, cfg.workspaces[..k], own) == own
  {
    var ws := cfg.workspaces;
    assert ws[..k + 1] == ws[..k] + [ws[k]];
    NamesDiffer(cfg);
    forall own: GroupView
      ensures AfterFolding(cfg, expand, ws[..k + 1], own) ==
              if own.name == ws[k].name then Composed(cfg, expand, ws[k], own)
              else AfterFolding(cfg, expand, ws[..k], own)
      ensures own.name == ws[k].name ==> FindWorkspace(ws[..k], own.name).None?
    {
      FindInSnoc(ws[..k], ws[k], own.name);
    }
  }

  lemma NamesDiffer(cfg: Config)
    requires Distinct(IncludableNames(cfg))
    ensures forall i, j :: 0 <= i < j < |cfg.workspaces| ==> cfg.workspaces[i].name != cfg.workspaces[j].name
    ensures !cfg.workspace.IsEmpty() ==> forall w :: w in cfg.workspaces ==> w.name != DEFAULT_NAME
  {
    var names := IncludableNames(cfg);
    var offset := if cfg.workspace.IsEmpty() then 0 else 1;
    assert forall i :: 0 <= i < |cfg.workspaces| ==> names[offset + i] == cfg.workspaces[i].name;
    assert offset == 1 ==> names[0] == DEFAULT_NAME;
  }

  lemma EmptyIncludesCompose(cfg: Config, expand: string -> string, w: NamedWorkspace)
    requires w.includes.GetOr([]) == []
    ensures Met(cfg, w).Success? && forall own :: Composed(cfg, expand, w, own) == own
  {
  }

  /** The linked groups as declared, before any fold. */
  function LinkedViews(cfg: Config, expand: string -> string): seq<GroupView> {
    (if cfg.workspace.IsEmpty() then [] else [DefaultView(expand, cfg.workspace)])
    + seq(|cfg.workspaces|, i requires 0 <= i < |cfg.workspaces| => OwnView(expand, cfg.workspaces[i]))
  }

  function ViewNames(views: seq<GroupView>): (r: seq<string>)
    ensures |r| == |views| && forall i :: 0 <= i < |views| ==> r[i] == views[i].name
  {
    seq(|views|, i requires 0 <= i < |views| => views[i].name)
  }

  function LinkedOffset(cfg: Config): nat {
    if cfg.workspace.IsEmpty() then 0 else 1
  }

  lemma LinkedNames(cfg: Config, expand: string -> string)
    ensures ViewNames(LinkedViews(cfg, expand)) == IncludableNames(cfg)
    ensures |LinkedViews(cfg, expand)| == |IncludableNames(cfg)| == LinkedOffset(cfg) + |cfg.workspaces|
    ensures !cfg.workspace.IsEmpty() ==>
              LinkedViews(cfg, expand)[0] == DefaultView(expand, cfg.workspace)
                  && IncludableNames(cfg)[0] == DEFAULT_NAME
  {
  }

  lemma LinkedAt(cfg: Config, expand: string -> string, k: nat)
    requires k < |cfg.workspaces|
    ensures LinkedOffset(cfg) + k < |LinkedViews(cfg, expand)| == |IncludableNames(cfg)|
    ensures LinkedViews(cfg, expand)[LinkedOffset(cfg) + k] == OwnView(expand, cfg.workspaces[k])
    ensures IncludableNames(cfg)[LinkedOffset(cfg) + k] == cfg.workspaces[k].name
  {
  }

  ghost predicate Repeated(names: seq<string>, n: string) {
    exists i, j :: 0 <= i < j < |names| && names[i] == names[j] == n
  }

  /** The first `n` declared names are distinct, and are the used ones. */
  ghost predicate NamesTaken(names: seq<string>, n: nat, used: set<string>) {
    n <= |names| && Distinct(names[..n]) && used == Elements(names[..n])
  }

  lemma NamesTakenStep(names: seq<string>, n: nat, used: set<string>)
    requires NamesTaken(names, n, used)
    ensures n == |names| ==> Distinct(names) && used == Elements(names)
    ensures n < |names| && names[n] in used ==> Repeated(names, names[n]) && !Distinct(names)
    ensures n < |names| && names[n] !in used ==> NamesTaken(names, n + 1, used + {names[n]})
  {
    if n < |names| {
      if names[n] in used {
        var i :| 0 <= i < n && names[..n][i] == names[n];
      }
      assert names[..n + 1] == names[..n] + [names[n]];
    } else {
      assert names[..n] == names;
    }
  }

  lemma NoNamesTaken(names: seq<string>)
    ensures NamesTaken(names, 0, {})
  {
  }

  method AppendGroup(out: seq<Group>, v: GroupView) returns (out': seq<Group>)
    requires Distinct(out)
    ensures |out'| == |out| + 1 && out'[..|out|] == out && fresh(out'[|out|])
    ensures out'[|out|].View() == v && Distinct(out')
  {
    var g := new Group(v.name, v.roots, v.repos, v.linked, v.includeWorktrees);
    out' := out + [g];
  }

  /** One linked group per declaration, refusing the first repeated name. */
  method LinkedGroups(cfg: Config, expand: string -> string) returns (r: Result<(seq<Group>, set<string>), ConfigError>)
    ensures r.Success? <==> Distinct(IncludableNames(cfg))
    ensures r.Failure? ==> r.error.DuplicateName? && Repeated(IncludableNames(cfg), r.error.name)
    ensures r.Success? ==>
              && fresh(r.value.0)
              && Distinct(r.value.0)
              && Views(r.value.0) == LinkedViews(cfg, expand)
              && r.value.1 == Elements(IncludableNames(cfg))
  {
    hide LinkedViews, OwnView, DefaultView, IncludableNames, ViewNames, NamesTaken;
    LinkedNames(cfg, expand);
    ghost var names, linked := IncludableNames(cfg), LinkedViews(cfg, expand);
    ghost var offset := LinkedOffset(cfg);
    var out: seq<Group>, used: set<string> := [], {};
    NoNamesTaken(names);
    if !cfg.workspace.IsEmpty() {
      NamesTakenStep(names, 0, used);
      used := used + {DEFAULT_NAME};
      out := AppendGroup(out, DefaultView(expand, cfg.workspace));
    }
    for k := 0 to |cfg.workspaces|
      invariant |out| == offset + k && fresh(out) && Distinct(out)
      invariant forall i :: 0 <= i < |out| ==> out[i].View() == linked[i]
      invariant NamesTaken(names, offset + k, used)
    {
      var w := cfg.workspaces[k];
      LinkedAt(cfg, expand, k);
      NamesTakenStep(names, offset + k, used);
      if w.name in used {
        return Failure(DuplicateName(w.name));
      }
      used := used + {w.name};
      out := AppendGroup(out, OwnView(expand, w));
    }
    NamesTakenStep(names, |names|, used);
    r := Success((out, used));
  }

  function BaseName(repo: StandaloneRepo): string {
    repo.fileName.GetOr("repo")
  }

  /** The unlinked group of one repository, under the first name free of the
      linked ones and of the standalone groups before it. */
  ghost predicate Standalone(used: set<string>, earlier: seq<GroupView>, repo: StandaloneRepo, v: GroupView) {
    && v == GroupView(v.name, [], [repo.path], false, false)
    && v.name !in used + Elements(ViewNames(earlier))
    && UniqueNames.FirstFree(used + Elements(ViewNames(earlier)), BaseName(repo), v.name)
  }

  ghost predicate AllStandalone(used: set<string>, repos: seq<StandaloneRepo>, views: seq<GroupView>) {
    && |views| == |repos|
    && forall i :: 0 <= i < |repos| ==> Standalone(used, views[..i], repos[i], views[i])
  }

  lemma AllStandaloneSnoc(used: set<string>, views: seq<GroupView>, repos: seq<StandaloneRepo>, repo: StandaloneRepo,
      v: GroupView)
    requires AllStandalone(used, repos, views) && v == GroupView(v.name, [], [repo.path], false, false)
    requires v.name !in used + Elements(ViewNames(views))
    requires UniqueNames.FirstFree(used + Elements(ViewNames(views)), BaseName(repo), v.name)
    ensures AllStandalone(used, repos + [repo], views + [v])
    ensures used + Elements(ViewNames(views + [v])) == used + Elements(ViewNames(views)) + {v.name}
  {
    assert ViewNames(views + [v]) == ViewNames(views) + [v.name];
    assert Standalone(used, views, repo, v);
    hide Standalone;
    assert (views + [v])[..|views|] == views;
    assert forall i :: 0 <= i < |views| ==> (views + [v])[..i] == views[..i];
  }

  /** Name every standalone repository, recording each name as used. */
  method StandaloneViews(used: set<string>, repos: seq<StandaloneRepo>) returns (views: seq<GroupView>)
    ensures AllStandalone(used, repos, views)
  {
    hide AllStandalone, ViewNames, UniqueNames.FirstFree;
    views := [];
    var taken := used;
    StandaloneNone(used);
    for k := 0 to |repos|
      invariant taken == used + Elements(ViewNames(views)) && AllStandalone(used, repos[..k], views)
    {
      var name, taken' := UniqueNames.DedupeWorkspaceName(taken, BaseName(repos[k]));
      var v := GroupView(name, [], [repos[k].path], false, false);
      AllStandaloneSnoc(used, views, repos[..k], repos[k], v);
      assert repos[..k + 1] == repos[..k] + [repos[k]];
      views := views + [v];
      taken := taken';
    }
    assert repos[..|repos|] == repos;
  }

  method StandaloneGroups(used: set<string>, repos: seq<StandaloneRepo>) returns (out: seq<Group>)
    ensures fresh(out) && AllStandalone(used, repos, Views(out))
  {
    hide AllStandalone;
    var views := StandaloneViews(used, repos);
    out := [];
    for k := 0 to |views|
      invariant |out| == k && fresh(out) && Distinct(out)
      invariant forall i :: 0 <= i < k ==> out[i].View() == views[i]
    {
      out := AppendGroup(out, views[k]);
    }
    assert Views(out) == views;
  }

  lemma StandaloneNone(used: set<string>)
    ensures AllStandalone(used, [], []) && used + Elements(ViewNames([])) == used
  {
  }

  /** What resolution promises of a configuration it accepts: the declared
      linked groups, folded, and then the standalone ones. */
  ghost predicate Resolved(cfg: Config, expand: string -> string, repos: seq<StandaloneRepo>, out: seq<GroupView>) {
    var linked := LinkedViews(cfg, expand);
    && |out| == |linked| + |repos|
    && (forall i :: 0 <= i < |linked| ==> out[i] == AfterFolding(cfg, expand, cfg.workspaces, linked[i]))
    && AllStandalone(Elements(IncludableNames(cfg)), repos, out[|linked|..])
  }

  ghost predicate Refusal(cfg: Config, standalone: Result<seq<StandaloneRepo>, string>, e: ConfigError) {
    match e
    case DuplicateName(n) => Repeated(IncludableNames(cfg), n)
    case Discovery(message) => standalone == Failure(message)
    case _ => RealError(cfg, e)
  }

  /** The linked groups, folded. */
  method FoldedGroups(cfg: Config, expand: string -> string) returns (r: Result<(seq<Group>, set<string>), ConfigError>)
    ensures r.Success? <==> Distinct(IncludableNames(cfg)) && EveryIncludeDeclared(cfg) && Acyclic(cfg)
    ensures r.Failure? ==>
              (r.error.DuplicateName? && Repeated(IncludableNames(cfg), r.error.name)) || RealError(cfg, r.error)
    ensures r.Success? ==>
              && fresh(r.value.0)
              && r.value.1 == Elements(IncludableNames(cfg))
              && |r.value.0| == |LinkedViews(cfg, expand)|
              && forall i :: 0 <= i < |r.value.0| ==>
                   r.value.0[i].View() == AfterFolding(cfg, expand, cfg.workspaces, LinkedViews(cfg, expand)[i])
  {
    hide LinkedViews, IncludableNames, AfterFolding, EveryIncludeDeclared, Acyclic, RealError;
    r := LinkedGroups(cfg, expand);
    if r.Failure? {
      return;
    }
    var groups := r.value.0;
    GroupsAreNamed(cfg, expand, groups);
    var folded := FoldIncludes(cfg, expand, groups);
    FoldOutcome(cfg, groups);
    if folded.Failure? {
      return Failure(folded.error);
    }
  }

  lemma GroupsAreNamed(cfg: Config, expand: string -> string, groups: seq<Group>)
    requires Distinct(IncludableNames(cfg)) && Distinct(groups) && Views(groups) == LinkedViews(cfg, expand)
    ensures DistinctGroups(groups) && ViewNames(Views(groups)) == IncludableNames(cfg)
  {
    LinkedNames(cfg, expand);
    assert forall i :: 0 <= i < |groups| ==> groups[i].name == ViewNames(Views(groups))[i];
  }

  /** A configuration resolves exactly when its linked names are distinct, every
      included name is declared, no includes chain closes on itself and
      discovery succeeds; a refusal names a real defect. */
  method ResolvedWorkspaces(cfg: Config, expand: string -> string, standalone: Result<seq<StandaloneRepo>, string>)
    returns (r: Result<seq<Group>, ConfigError>)
    ensures r.Success? <==>
              Distinct(IncludableNames(cfg)) && EveryIncludeDeclared(cfg) && Acyclic(cfg) && standalone.Success?
    ensures r.Success? ==> fresh(r.value) && Resolved(cfg, expand, standalone.value, Views(r.value))
    ensures r.Failure? ==> Refusal(cfg, standalone, r.error)
  {
    hide LinkedViews, IncludableNames, AfterFolding, EveryIncludeDeclared, Acyclic, RealError, AllStandalone, Resolved;
    var folded := FoldedGroups(cfg, expand);
    if folded.Failure? {
      RealErrorKinds(cfg, folded.error);
      r := Failure(folded.error);
      return;
    }
    if standalone.Failure? {
      r := Failure(Discovery(standalone.error));
      return;
    }
    var alone := StandaloneGroups(folded.value.1, standalone.value);
    assert Views(folded.value.0 + alone) == Views(folded.value.0) + Views(alone);
    ResolvedFromParts(cfg, expand, standalone.value, Views(folded.value.0), Views(alone));
    r := Success(folded.value.0 + alone);
  }

  lemma ResolvedFromParts(
    cfg: Config, expand: string -> string, repos: seq<StandaloneRepo>, folded: seq<GroupView>, alone: seq<GroupView>)
    requires |folded| == |LinkedViews(cfg, expand)|
    requires forall i :: 0 <= i < |folded| ==>
                 folded[i] == AfterFolding(cfg, expand, cfg.workspaces, LinkedViews(cfg, expand)[i])
    requires AllStandalone(Elements(IncludableNames(cfg)), repos, alone)
    ensures Resolved(cfg, expand, repos, folded + alone)
  {
    hide AfterFolding, LinkedViews, IncludableNames;
    assert (folded + alone)[|folded|..] == alone;
  }

  lemma RealErrorKinds(cfg: Config, e: ConfigError)
    ensures RealError(cfg, e) ==> !e.DuplicateName? && !e.Discovery?
  {
  }

  lemma FoldingKeepsName(cfg: Config, expand: string -> string, own: GroupView)
    ensures AfterFolding(cfg, expand, cfg.workspaces, own).name == own.name
  {
  }

  /** No two resolved groups share a name. */
  lemma ResolvedNamesAreUnique(
    cfg: Config, expand: string -> string, repos: seq<StandaloneRepo>, out: seq<GroupView>, i: nat, j: nat)
    requires Distinct(IncludableNames(cfg)) && Resolved(cfg, expand, repos, out)
    requires i < j < |out|
    ensures out[i].name != out[j].name
  {
    hide UniqueNames.FirstFree, LinkedViews, IncludableNames, AfterFolding;
    LinkedNames(cfg, expand);
    var linked := LinkedViews(cfg, expand);
    if i < |linked| {
      FoldingKeepsName(cfg, expand, linked[i]);
      assert out[i].name == IncludableNames(cfg)[i];
    }
    if j < |linked| {
      FoldingKeepsName(cfg, expand, linked[j]);
      assert out[j].name == IncludableNames(cfg)[j];
    } else {
      var alone, k := out[|linked|..], j - |linked|;
      assert Standalone(Elements(IncludableNames(cfg)), alone[..k], repos[k], alone[k]);
      if i >= |linked| {
        assert ViewNames(alone[..k])[i - |linked|] in Elements(ViewNames(alone[..k]));
      }
    }
  }

  /** Folding over every declared group fails exactly on an undeclared name or
      a cycle, and then with an error that is real. */
  lemma FoldOutcome(cfg: Config, groups: seq<Group>)
    requires Distinct(IncludableNames(cfg)) && ViewNames(Views(groups)) == IncludableNames(cfg)
    ensures FirstFailure(cfg, groups, cfg.workspaces).None? <==> EveryIncludeDeclared(cfg) && Acyclic(cfg)
    ensures var f := FirstFailure(cfg, groups, cfg.workspaces); f.Some? ==> RealError(cfg, f.value)
  {
    forall w | w in cfg.workspaces ensures exists g :: g in groups && g.name == w.name {
      KnownNamesAreExactlyTheDeclared(cfg, w.name);
      DeclaredIsOwn(cfg, w);
      var i :| 0 <= i < |groups| && ViewNames(Views(groups))[i] == w.name;
      assert groups[i] in groups;
    }
    FirstFailureMeans(cfg, groups, cfg.workspaces);
    EveryWalkSucceedsIff(cfg);
  }

  lemma {:induction false} FirstFailureMeans(cfg: Config, groups: seq<Group>, ws: seq<NamedWorkspace>)
    requires Distinct(IncludableNames(cfg))
    requires forall w :: w in ws ==> w in cfg.workspaces && exists g :: g in groups && g.name == w.name
    ensures FirstFailure(cfg, groups, ws).None? <==> forall w :: w in ws ==> Met(cfg, w).Success?
    ensures FirstFailure(cfg, groups, ws).Some? ==> RealError(cfg, FirstFailure(cfg, groups, ws).value)
  {
    if ws != [] {
      assert ws[0] in ws;
      DeclaredIsOwn(cfg, ws[0]);
      WalkAllErrorsAreReal(cfg, ws[0].includes.GetOr([]), [ws[0].name]);
      FirstFailureMeans(cfg, groups, ws[1..]);
      assert forall w :: w in ws <==> w == ws[0] || w in ws[1..];
    }
  }

  // ---- What composing a workspace means -------------------------------------

  /** The composed lists: the declared ones untouched in front, then exactly
      the new members of every reachable workspace. */
  lemma ComposedMembership(cfg: Config, expand: string -> string, w: NamedWorkspace, own: GroupView, x: string)
    requires Distinct(IncludableNames(cfg)) && w in cfg.workspaces && Met(cfg, w).Success?
    ensures own.roots <= Composed(cfg, expand, w, own).roots
    ensures own.repos <= Composed(cfg, expand, w, own).repos
    ensures x in Composed(cfg, expand, w, own).roots <==>
              x in own.roots || exists n :: Reaches(cfg, w.name, n) && x in RootsOfOne(cfg, expand)(n)
    ensures x in Composed(cfg, expand, w, own).repos <==>
              x in own.repos || exists n :: Reaches(cfg, w.name, n) && x in ReposOfOne(cfg, expand)(n)
  {
    DeclaredIsOwn(cfg, w);
    forall n ensures n in Met(cfg, w).value <==> Reaches(cfg, w.name, n) {
      WalkMeetsExactlyTheReachable(cfg, w.name, n);
    }
    FlattenMember(RootsOfOne(cfg, expand), Met(cfg, w).value, x);
    FlattenMember(ReposOfOne(cfg, expand), Met(cfg, w).value, x);
  }

  /** What `list` has beyond `own` is new to it, distinct, and in the order in
      which `read` first mentions it. */
  ghost predicate FirstMetOrder(list: seq<string>, own: seq<string>, read: seq<string>) {
    && own <= list
    && forall i, j :: |own| <= i < j < |list| ==> InFirstMetOrder(list, own, read, i, j)
  }

  ghost predicate InFirstMetOrder(list: seq<string>, own: seq<string>, read: seq<string>, i: nat, j: nat) {
    && i < |list| && j < |list|
    && list[i] !in own && list[j] !in own && list[i] != list[j]
    && FirstIndex(read, list[i]) < FirstIndex(read, list[j])
  }

  lemma AppendedInOrder(own: seq<string>, read: seq<string>)
    ensures FirstMetOrder(AppendNew(own, read), own, read)
  {
    hide AppendNew, FirstIndex;
    var list := AppendNew(own, read);
    forall i, j | |own| <= i < j < |list| ensures InFirstMetOrder(list, own, read, i, j) {
      AppendNewOrder(own, read, i, j);
    }
  }

  /** What a composed group gains, roots and repos alike, is new to it, distinct,
      and in the order a depth-first reading of the includes first meets it. */
  lemma ComposedOrder(cfg: Config, expand: string -> string, w: NamedWorkspace, own: GroupView)
    requires Met(cfg, w).Success?
    ensures var met, composed := Met(cfg, w).value, Composed(cfg, expand, w, own);
            && FirstMetOrder(composed.roots, own.roots, RootsOf(cfg, expand, met))
            && FirstMetOrder(composed.repos, own.repos, ReposOf(cfg, expand, met))
  {
    hide FirstMetOrder, AppendNew, RootsOf, ReposOf, Met;
    var met := Met(cfg, w).value;
    AppendedInOrder(own.roots, RootsOf(cfg, expand, met));
    AppendedInOrder(own.repos, ReposOf(cfg, expand, met));
  }

  /** Writing the `[[workspaces]]` entries in another order changes no composed
      group and refuses no configuration that was accepted. */
  lemma ResolutionIgnoresEntryOrder(cfg: Config, cfg': Config, expand: string -> string, w: NamedWorkspace,
      own: GroupView)
    requires cfg.workspace == cfg'.workspace && multiset(cfg.workspaces) == multiset(cfg'.workspaces)
    requires Distinct(IncludableNames(cfg)) && Distinct(IncludableNames(cfg'))
    ensures Met(cfg, w).Success? <==> Met(cfg', w).Success?
    ensures Composed(cfg, expand, w, own) == Composed(cfg', expand, w, own)
  {
    forall n ensures DeclaredMembers(cfg, n) == DeclaredMembers(cfg', n) {
      PermutedConfigDeclaresTheSame(cfg, cfg', n);
    }
    WalkIgnoresDeclarationOrder(cfg, cfg', w.includes.GetOr([]), [w.name]);
    if Met(cfg, w).Success? {
      SameMembers(cfg, cfg', expand, Met(cfg, w).value);
    }
  }

  lemma {:induction false} SameMembers(cfg: Config, cfg': Config, expand: string -> string, names: seq<string>)
    requires forall n :: DeclaredMembers(cfg, n) == DeclaredMembers(cfg', n)
    ensures RootsOf(cfg, expand, names) == RootsOf(cfg', expand, names)
    ensures ReposOf(cfg, expand, names) == ReposOf(cfg', expand, names)
  {
    if names != [] {
      SameMembers(cfg, cfg', expand, names[1..]);
    }
  }

  // ---- What a resolved group holds, read off the configuration --------------

  /** The list begins with the paths as written, each expanded. */
  ghost predicate BeginsWith(list: seq<string>, written: seq<string>, expand: string -> string) {
    && |written| <= |list|
    && forall i :: 0 <= i < |written| ==> list[i] == expand(written[i])
  }

  /** One of the written paths expands to `x`. */
  ghost predicate Lists(written: seq<string>, expand: string -> string, x: string) {
    exists p :: p in written && x == expand(p)
  }

  /** An include edge is an entry of the written list of a workspace; the legacy
      table has no such list. */
  lemma EdgeIsWritten(cfg: Config, a: string, b: string)
    requires Distinct(IncludableNames(cfg))
    ensures Edge(cfg, a, b) <==>
            exists w :: w in cfg.workspaces && w.name == a && w.includes.Some? && b in w.includes.value
  {
    hide IncludableNames;
    forall w | w in cfg.workspaces && w.name == a ensures Edge(cfg, a, b) <==> b in w.includes.GetOr([]) {
      DeclaredIsOwn(cfg, w);
    }
  }

  /** What a name contributes to a workspace that includes it. */
  lemma MembersAsWritten(cfg: Config, expand: string -> string, n: string, x: string)
    requires Distinct(IncludableNames(cfg))
    ensures x in RootsOfOne(cfg, expand)(n) <==>
            || (exists v :: v in cfg.workspaces && v.name == n && Lists(v.roots.GetOr([]), expand, x))
            || (n == "default" && Lists(cfg.workspace.roots.GetOr([]), expand, x))
    ensures x in ReposOfOne(cfg, expand)(n) <==>
            || (exists v :: v in cfg.workspaces && v.name == n && Lists(v.repos.GetOr([]), expand, x))
            || (n == "default" && Lists(cfg.workspace.repos.GetOr([]), expand, x))
  {
    hide IncludableNames, Lists;
    OnlyOneAnswers(cfg, n);
    match DeclaredMembers(cfg, n) {
      case None =>
      case Some(d) =>
        ExpandedLists(d.roots, expand, x);
        ExpandedLists(d.repos, expand, x);
    }
    NothingListed(expand, x);
  }

  lemma ExpandedLists(written: seq<string>, expand: string -> string, x: string)
    ensures x in MapAll(expand, written) <==> Lists(written, expand, x)
  {
    if x in MapAll(expand, written) {
      var i :| 0 <= i < |written| && MapAll(expand, written)[i] == x;
      assert written[i] in written;
    }
    if Lists(written, expand, x) {
      var p :| p in written && x == expand(p);
      var i :| 0 <= i < |written| && written[i] == p;
      assert MapAll(expand, written)[i] == x;
    }
  }

  lemma NothingListed(expand: string -> string, x: string)
    ensures !Lists([], expand, x)
  {
  }

  /** A name is answered by the one workspace that has it, or, if none does, by
      the legacy table when it names anything. */
  lemma OnlyOneAnswers(cfg: Config, n: string)
    requires Distinct(IncludableNames(cfg))
    ensures forall v :: v in cfg.workspaces && v.name == n ==>
              DeclaredMembers(cfg, n) ==
              Some(Declared(v.roots.GetOr([]), v.repos.GetOr([]), v.includes.GetOr([])))
              && (n == "default" ==> cfg.workspace.roots.GetOr([]) == [] && cfg.workspace.repos.GetOr([]) == [])
    ensures (forall v :: v in cfg.workspaces ==> v.name != n) ==>
              DeclaredMembers(cfg, n) ==
              if n == "default" && (cfg.workspace.roots.GetOr([]) != [] || cfg.workspace.repos.GetOr([]) != [])
              then Some(Declared(cfg.workspace.roots.GetOr([]), cfg.workspace.repos.GetOr([]), []))
              else None
  {
    forall v | v in cfg.workspaces && v.name == n
      ensures DeclaredMembers(cfg, n) ==
              Some(Declared(v.roots.GetOr([]), v.repos.GetOr([]), v.includes.GetOr([])))
      ensures n == "default" ==> cfg.workspace.roots.GetOr([]) == [] && cfg.workspace.repos.GetOr([]) == []
    {
      DeclaredIsOwn(cfg, v);
      NamesDiffer(cfg);
    }
  }

  /** The group of an entry: named, flagged and listed as written, then exactly
      what the entries and the legacy table it reaches list. */
  lemma LinkedGroupIs(
    cfg: Config, expand: string -> string, repos: seq<StandaloneRepo>, out: seq<GroupView>, k: nat)
    requires Distinct(IncludableNames(cfg)) && EveryIncludeDeclared(cfg) && Acyclic(cfg)
    requires Resolved(cfg, expand, repos, out) && k < |cfg.workspaces|
    ensures var w := cfg.workspaces[k];
            var at := k + if cfg.workspace.roots.GetOr([]) == [] && cfg.workspace.repos.GetOr([]) == [] then 0 else 1;
            && at < |out|
            && out[at].name == w.name && out[at].linked
            && out[at].includeWorktrees == (w.includeWorktrees == Some(true))
            && BeginsWith(out[at].roots, w.roots.GetOr([]), expand)
            && BeginsWith(out[at].repos, w.repos.GetOr([]), expand)
            && (w.includes.GetOr([]) == [] ==>
                  |out[at].roots| == |w.roots.GetOr([])| && |out[at].repos| == |w.repos.GetOr([])|)
    ensures var w := cfg.workspaces[k];
            var at := k + if cfg.workspace.roots.GetOr([]) == [] && cfg.workspace.repos.GetOr([]) == [] then 0 else 1;
            forall x ::
              && (x in out[at].roots <==>
                    || Lists(w.roots.GetOr([]), expand, x)
                    || (exists v :: v in cfg.workspaces && Reaches(cfg, w.name, v.name)
                                    && Lists(v.roots.GetOr([]), expand, x))
                    || (Reaches(cfg, w.name, "default") && Lists(cfg.workspace.roots.GetOr([]), expand, x)))
              && (x in out[at].repos <==>
                    || Lists(w.repos.GetOr([]), expand, x)
                    || (exists v :: v in cfg.workspaces && Reaches(cfg, w.name, v.name)
                                    && Lists(v.repos.GetOr([]), expand, x))
                    || (Reaches(cfg, w.name, "default") && Lists(cfg.workspace.repos.GetOr([]), expand, x)))
  {
    hide IncludableNames, Acyclic, EveryIncludeDeclared, Reaches, Composed, Lists;
    var w := cfg.workspaces[k];
    var own := OwnView(expand, w);
    assert w in cfg.workspaces;
    GroupAt(cfg, expand, repos, out, k);
    EveryWalkSucceedsIff(cfg);
    EmptyIncludesAdd(cfg, expand, w, own);
    ComposedMembership(cfg, expand, w, own, "");
    forall x
      ensures x in Composed(cfg, expand, w, own).roots <==>
              || Lists(w.roots.GetOr([]), expand, x)
              || (exists v ::
                    v in cfg.workspaces && Reaches(cfg, w.name, v.name) && Lists(v.roots.GetOr([]), expand, x))
              || (Reaches(cfg, w.name, "default") && Lists(cfg.workspace.roots.GetOr([]), expand, x))
      ensures x in Composed(cfg, expand, w, own).repos <==>
              || Lists(w.repos.GetOr([]), expand, x)
              || (exists v ::
                    v in cfg.workspaces && Reaches(cfg, w.name, v.name) && Lists(v.repos.GetOr([]), expand, x))
              || (Reaches(cfg, w.name, "default") && Lists(cfg.workspace.repos.GetOr([]), expand, x))
    {
      GroupMember(cfg, expand, w, x);
    }
  }

  lemma GroupAt(cfg: Config, expand: string -> string, repos: seq<StandaloneRepo>, out: seq<GroupView>, k: nat)
    requires Distinct(IncludableNames(cfg))
    requires Resolved(cfg, expand, repos, out) && k < |cfg.workspaces|
    ensures LinkedOffset(cfg) + k < |out|
    ensures out[LinkedOffset(cfg) + k] == Composed(cfg, expand, cfg.workspaces[k], OwnView(expand, cfg.workspaces[k]))
  {
    hide IncludableNames, Composed, LinkedViews, AfterFolding;
    LinkedAt(cfg, expand, k);
    AfterFoldingIs(cfg, expand, k);
  }

  lemma AfterFoldingIs(cfg: Config, expand: string -> string, k: nat)
    requires Distinct(IncludableNames(cfg)) && k < |cfg.workspaces|
    ensures var own := OwnView(expand, cfg.workspaces[k]);
            AfterFolding(cfg, expand, cfg.workspaces, own) == Composed(cfg, expand, cfg.workspaces[k], own)
  {
    hide IncludableNames, Composed;
    NamesDiffer(cfg);
    var w := cfg.workspaces[k];
    assert w in cfg.workspaces;
    var v := FindWorkspace(cfg.workspaces, w.name).value;
    var j :| 0 <= j < |cfg.workspaces| && cfg.workspaces[j] == v;
  }

  lemma EmptyIncludesAdd(cfg: Config, expand: string -> string, w: NamedWorkspace, own: GroupView)
    ensures w.includes.GetOr([]) == [] ==> Composed(cfg, expand, w, own) == own
    ensures Composed(cfg, expand, w, own).name == own.name && Composed(cfg, expand, w, own).linked == own.linked
    ensures Composed(cfg, expand, w, own).includeWorktrees == own.includeWorktrees
  {
    if w.includes.GetOr([]) == [] {
      EmptyIncludesCompose(cfg, expand, w);
    }
  }

  lemma GroupMember(cfg: Config, expand: string -> string, w: NamedWorkspace, x: string)
    requires Distinct(IncludableNames(cfg)) && w in cfg.workspaces && Met(cfg, w).Success?
    ensures x in Composed(cfg, expand, w, OwnView(expand, w)).roots <==>
            || Lists(w.roots.GetOr([]), expand, x)
            || (exists v :: v in cfg.workspaces && Reaches(cfg, w.name, v.name) && Lists(v.roots.GetOr([]), expand, x))
            || (Reaches(cfg, w.name, "default") && Lists(cfg.workspace.roots.GetOr([]), expand, x))
    ensures x in Composed(cfg, expand, w, OwnView(expand, w)).repos <==>
            || Lists(w.repos.GetOr([]), expand, x)
            || (exists v :: v in cfg.workspaces && Reaches(cfg, w.name, v.name) && Lists(v.repos.GetOr([]), expand, x))
            || (Reaches(cfg, w.name, "default") && Lists(cfg.workspace.repos.GetOr([]), expand, x))
  {
    hide IncludableNames, Reaches, Composed, Lists, RootsOfOne, ReposOfOne, Met;
    ComposedMembership(cfg, expand, w, OwnView(expand, w), x);
    ExpandedLists(w.roots.GetOr([]), expand, x);
    ExpandedLists(w.repos.GetOr([]), expand, x);
    forall n
      ensures x in RootsOfOne(cfg, expand)(n) <==>
              || (exists v :: v in cfg.workspaces && v.name == n && Lists(v.roots.GetOr([]), expand, x))
              || (n == "default" && Lists(cfg.workspace.roots.GetOr([]), expand, x))
      ensures x in ReposOfOne(cfg, expand)(n) <==>
              || (exists v :: v in cfg.workspaces && v.name == n && Lists(v.repos.GetOr([]), expand, x))
              || (n == "default" && Lists(cfg.workspace.repos.GetOr([]), expand, x))
    {
      MembersAsWritten(cfg, expand, n, x);
    }
  }

  /** The legacy table, when it names anything, is the first group, as written. */
  lemma DefaultGroupIs(cfg: Config, expand: string -> string, repos: seq<StandaloneRepo>, out: seq<GroupView>)
    requires Distinct(IncludableNames(cfg)) && Resolved(cfg, expand, repos, out)
    requires cfg.workspace.roots.GetOr([]) != [] || cfg.workspace.repos.GetOr([]) != []
    ensures out != [] && out[0].name == "default" && out[0].linked
    ensures out[0].includeWorktrees == (cfg.workspace.includeWorktrees == Some(true))
    ensures BeginsWith(out[0].roots, cfg.workspace.roots.GetOr([]), expand)
    ensures BeginsWith(out[0].repos, cfg.workspace.repos.GetOr([]), expand)
    ensures |out[0].roots| == |cfg.workspace.roots.GetOr([])| && |out[0].repos| == |cfg.workspace.repos.GetOr([])|
  {
    hide IncludableNames, Composed;
    NamesDiffer(cfg);
    LinkedNames(cfg, expand);
  }

  /** The group of the i-th discovered repository: its path alone, unlinked,
      under its directory name (`repo` if it has none) or, where an earlier
      group has that name, the first free one of name-2, name-3 and so on. */
  lemma StandaloneGroupIs(
    cfg: Config, expand: string -> string, repos: seq<StandaloneRepo>, out: seq<GroupView>, i: nat)
    requires Distinct(IncludableNames(cfg)) && Resolved(cfg, expand, repos, out) && i < |repos|
    ensures |out| == |IncludableNames(cfg)| + |repos|
    ensures var at := |IncludableNames(cfg)| + i;
            var base := if repos[i].fileName.Some? then repos[i].fileName.value else "repo";
            && !out[at].linked && !out[at].includeWorktrees
            && out[at].roots == [] && out[at].repos == [repos[i].path]
            && ((forall j :: 0 <= j < at ==> out[j].name != base) ==> out[at].name == base)
            && ((exists j :: 0 <= j < at && out[j].name == base) ==>
                  exists n: nat :: 2 <= n && IsNumbered(out[at].name, base, n)
                    && (forall j :: 0 <= j < at ==> out[j].name != out[at].name)
                    && forall m: nat, name :: 2 <= m < n && IsNumbered(name, base, m) ==>
                         exists j :: 0 <= j < at && out[j].name == name)
  {
    hide IncludableNames, LinkedViews, AfterFolding, UniqueNames.FirstFree, IsNumbered;
    LinkedNames(cfg, expand);
    var n := |IncludableNames(cfg)|;
    var used, alone, at := Elements(IncludableNames(cfg)), out[n..], n + i;
    assert Standalone(used, alone[..i], repos[i], alone[i]);
    var taken := used + Elements(ViewNames(alone[..i]));
    forall name ensures name in taken <==> exists j :: 0 <= j < at && out[j].name == name {
      TakenBefore(cfg, expand, repos, out, i, name);
    }
    FirstFreeIs(taken, BaseName(repos[i]), out[at].name);
  }

  /** `base-n`, the number as a numeral reads. */
  ghost predicate IsNumbered(name: string, base: string, n: nat) {
    exists digits :: name == base + "-" + digits && digits != "" && digits[0] != '0' && UniqueNames.Reading(digits) == n
                     && forall c :: c in digits ==> '0' <= c <= '9'
  }

  lemma TakenBefore(
    cfg: Config, expand: string -> string, repos: seq<StandaloneRepo>, out: seq<GroupView>, i: nat, name: string)
    requires Resolved(cfg, expand, repos, out) && i < |repos|
    requires |LinkedViews(cfg, expand)| == |IncludableNames(cfg)|
    ensures |out| == |IncludableNames(cfg)| + |repos|
    ensures var n := |IncludableNames(cfg)|;
            name in Elements(IncludableNames(cfg)) + Elements(ViewNames(out[n..][..i]))
            <==> exists j :: 0 <= j < n + i && out[j].name == name
  {
    hide IncludableNames, LinkedViews, AfterFolding, AllStandalone;
    LinkedNames(cfg, expand);
    var n := |IncludableNames(cfg)|;
    forall j | 0 <= j < n ensures out[j].name == IncludableNames(cfg)[j] {
      FoldingKeepsName(cfg, expand, LinkedViews(cfg, expand)[j]);
      assert ViewNames(LinkedViews(cfg, expand))[j] == LinkedViews(cfg, expand)[j].name;
    }
    var earlier := ViewNames(out[n..][..i]);
    assert forall j :: 0 <= j < i ==> earlier[j] == out[n + j].name;
    if j :| 0 <= j < n + i && out[j].name == name {
      if j >= n {
        assert earlier[j - n] == name;
      }
    }
  }

  lemma FirstFreeIs(taken: set<string>, base: string, name: string)
    requires UniqueNames.FirstFree(taken, base, name)
    ensures base !in taken ==> name == base
    ensures base in taken ==>
              exists n: nat :: 2 <= n && IsNumbered(name, base, n) && name !in taken
                && forall m: nat, other :: 2 <= m < n && IsNumbered(other, base, m) ==> other in taken
  {
    if base in taken {
      var n: nat :| 2 <= n && name == UniqueNames.Candidate(base, n) && name !in taken
        && forall m: nat {:trigger UniqueNames.Candidate(base, m)} :: 2 <= m < n ==>
            UniqueNames.Candidate(base, m) in taken;
      NumberedIsCandidate(base, n, name);
      forall m: nat, other | 2 <= m < n && IsNumbered(other, base, m) ensures other in taken {
        NumberedIsCandidate(base, m, other);
      }
    }
  }

  lemma NumberedIsCandidate(base: string, n: nat, name: string)
    requires n > 0
    ensures IsNumbered(name, base, n) <==> name == UniqueNames.Candidate(base, n)
  {
    UniqueNames.DecimalReadsBack(n);
    UniqueNames.DecimalIsDigits(n);
    if IsNumbered(name, base, n) {
      var digits :| name == base + "-" + digits && digits != "" && digits[0] != '0' && UniqueNames.Reading(digits) == n
                    && forall c :: c in digits ==> '0' <= c <= '9';
      UniqueNames.NumeralIsDecimal(digits);
    }
  }
}
