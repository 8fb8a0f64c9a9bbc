/** The linear, in-place fold of `includes` into resolved groups, proved to
    leave exactly what the exponential walk of IncludeGraph describes. */
module IncludeFold {
  import opened Wrappers
  import opened Sequences
  import opened IncludeGraph

  /** A resolved workspace group. */
  class Group {
    const name: string
    var roots: seq<string>
    var repos: seq<string>
    const linked: bool
    const includeWorktrees: bool

    constructor (name: string, roots: seq<string>, repos: seq<string>, linked: bool, includeWorktrees: bool)
      ensures View() == GroupView(name, roots, repos, linked, includeWorktrees)
    {
      this.name, this.roots, this.repos := name, roots, repos;
      this.linked, this.includeWorktrees := linked, includeWorktrees;
    }

    function View(): (v: GroupView)
      reads this
      ensures v.name == name && v.roots == roots && v.repos == repos
      ensures v.linked == linked && v.includeWorktrees == includeWorktrees
    {
      GroupView(name, roots, repos, linked, includeWorktrees)
    }
  }

  datatype GroupView = GroupView(
    name: string, roots: seq<string>, repos: seq<string>, linked: bool, includeWorktrees: bool)

  // ---- What a list of met names contributes ---------------------------------

  function MapAll(f: string -> string, xs: seq<string>): (r: seq<string>)
    ensures |r| == |xs| && forall i :: 0 <= i < |xs| ==> r[i] == f(xs[i])
  {
    seq(|xs|, i requires 0 <= i < |xs| => f(xs[i]))
  }

  function Flatten(f: string -> seq<string>, names: seq<string>): seq<string> {
    if names == [] then [] else f(names[0]) + Flatten(f, names[1..])
  }

  lemma {:induction false} FlattenConcat(f: string -> seq<string>, a: seq<string>, b: seq<string>)
    ensures Flatten(f, a + b) == Flatten(f, a) + Flatten(f, b)
  {
    if a == [] {
      assert a + b == b;
      assert Flatten(f, a) + Flatten(f, b) == Flatten(f, b);
    } else {
      assert (a + b)[1..] == a[1..] + b;
      FlattenConcat(f, a[1..], b);
      assert f(a[0]) + (Flatten(f, a[1..]) + Flatten(f, b)) == (f(a[0]) + Flatten(f, a[1..])) + Flatten(f, b);
    }
  }

  lemma FlattenOne(f: string -> seq<string>, n: string)
    ensures Flatten(f, [n]) == f(n)
  {
    assert f(n) + [] == f(n);
  }

  lemma {:induction false} FlattenMember(f: string -> seq<string>, names: seq<string>, x: string)
    ensures x in Flatten(f, names) <==> exists n :: n in names && x in f(n)
  {
    if names != [] {
      FlattenMember(f, names[1..], x);
      assert forall n :: n in names <==> n == names[0] || n in names[1..];
    }
  }

  lemma ContributionsMonotone(f: string -> seq<string>, a: seq<string>, b: seq<string>)
    requires forall n :: n in a ==> n in b
    ensures forall x :: x in Flatten(f, a) ==> x in Flatten(f, b)
  {
    forall x | x in Flatten(f, a) ensures x in Flatten(f, b) {
      FlattenMember(f, a, x);
      FlattenMember(f, b, x);
    }
  }

  /** The expanded roots a workspace declares. */
  function RootsOfOne(cfg: Config, expand: string -> string): string -> seq<string> {
    name =>
      match DeclaredMembers(cfg, name)
      case None => []
      case Some(d) => MapAll(expand, d.roots)
  }

  function ReposOfOne(cfg: Config, expand: string -> string): string -> seq<string> {
    name =>
      match DeclaredMembers(cfg, name)
      case None => []
      case Some(d) => MapAll(expand, d.repos)
  }

  function RootsOf(cfg: Config, expand: string -> string, names: seq<string>): seq<string> {
    Flatten(RootsOfOne(cfg, expand), names)
  }

  function ReposOf(cfg: Config, expand: string -> string, names: seq<string>): seq<string> {
    Flatten(ReposOfOne(cfg, expand), names)
  }

  /** How many `includes` entries the names carry between them. */
  function EdgeCount(cfg: Config, names: seq<string>): nat {
    if names == [] then 0
    else EdgeCount(cfg, names[..|names| - 1]) + OutDegree(cfg, names[|names| - 1])
  }

  function OutDegree(cfg: Config, name: string): nat {
    match DeclaredMembers(cfg, name)
    case None => 0
    case Some(d) => |d.includes|
  }

  // ---- Names that are folded in and finished --------------------------------

  /** Each finished name is declared, appears once, and includes only names
      finished before it. */
  ghost predicate Settled(cfg: Config, done: seq<string>) {
    && Distinct(done)
    && forall i {:trigger done[i]} :: 0 <= i < |done| ==>
         && DeclaredMembers(cfg, done[i]).Some?
         && forall m :: m in DeclaredMembers(cfg, done[i]).value.includes ==> m in done[..i]
  }

  ghost predicate Disjoint(a: seq<string>, b: seq<string>) {
    forall x :: x in a ==> x !in b
  }

  /** Walking a finished name again cannot fail and meets nothing unfinished,
      whatever path it is walked from: the fold may skip it. */
  lemma {:induction false} WalkOfSettled(cfg: Config, done: seq<string>, i: nat, path: seq<string>)
    requires Settled(cfg, done) && i < |done| && Disjoint(done[..i + 1], path)
    ensures Walk(cfg, done[i], path).Success?
    ensures forall x :: x in Walk(cfg, done[i], path).value ==> x in done
    decreases i, 1
  {
    assert done[i] in done[..i + 1];
    var below := path + [done[i]];
    assert Disjoint(done[..i], below) by {
      forall x | x in done[..i] ensures x !in below {
        assert x in done[..i + 1];
      }
    }
    WalkAllOfSettled(cfg, done, i, DeclaredMembers(cfg, done[i]).value.includes, below);
  }

  lemma {:induction false} WalkAllOfSettled(cfg: Config, done: seq<string>, i: nat, names: seq<string>,
      path: seq<string>)
    requires Settled(cfg, done) && i <= |done| && Disjoint(done[..i], path)
    requires forall m :: m in names ==> m in done[..i]
    ensures WalkAll(cfg, names, path).Success?
    ensures forall x :: x in WalkAll(cfg, names, path).value ==> x in done
    decreases i, 0, |names|
  {
    if names != [] {
      assert names[0] in names;
      var j :| 0 <= j < i && done[..i][j] == names[0];
      assert Disjoint(done[..j + 1], path) by {
        forall x | x in done[..j + 1] ensures x !in path {
          assert x in done[..i];
        }
      }
      WalkOfSettled(cfg, done, j, path);
      WalkAllOfSettled(cfg, done, i, names[1..], path);
    }
  }

  // ---- The fold -------------------------------------------------------------

  /** Everything expanded is finished or on the path, never both. */
  ghost predicate Consistent(cfg: Config, path: seq<string>, expanded: set<string>, done: seq<string>) {
    && path != []
    && expanded == Elements(done) + Elements(path[1..])
    && Disjoint(done, path)
    && Settled(cfg, done)
  }

  /** The members of every finished name are in the group. */
  ghost predicate FoldedIn(cfg: Config, expand: string -> string, done: seq<string>, roots: seq<string>,
      repos: seq<string>) {
    && (forall x :: x in RootsOf(cfg, expand, done) ==> x in roots)
    && (forall x :: x in ReposOf(cfg, expand, done) ==> x in repos)
  }

  lemma FoldedInGrows(
    cfg: Config, expand: string -> string, done: seq<string>,
    roots: seq<string>, repos: seq<string>, roots': seq<string>, repos': seq<string>)
    requires FoldedIn(cfg, expand, done, roots, repos) && roots <= roots' && repos <= repos'
    ensures FoldedIn(cfg, expand, done, roots', repos')
  {
  }

  class Fold {
    const group: Group
    var path: seq<string>
    var expanded: set<string>
    var seenRoots: set<string>
    var seenRepos: set<string>
    ghost var done: seq<string>  // names finished, in the order they finished
    ghost var calls: nat         // calls of FoldOne so far

    ghost predicate Valid(cfg: Config, expand: string -> string)
      reads this, group
    {
      && seenRoots == Elements(group.roots)
      && seenRepos == Elements(group.repos)
      && Consistent(cfg, path, expanded, done)
      && FoldedIn(cfg, expand, done, group.roots, group.repos)
    }

    constructor StartingAt(ghost cfg: Config, ghost expand: string -> string, name: string, group: Group)
      ensures Valid(cfg, expand)
      ensures this.group == group && path == [name] && done == [] && calls == 0
    {
      this.group := group;
      path := [name];
      expanded := {};
      seenRoots := Elements(group.roots);
      seenRepos := Elements(group.repos);
      done := [];
      calls := 0;
    }

    method PushRoot(root: string)
      requires seenRoots == Elements(group.roots)
      modifies this`seenRoots, group`roots
      ensures seenRoots == Elements(group.roots)
      ensures group.roots == AppendNew(old(group.roots), [root])
    {
      if root !in seenRoots {
        seenRoots := seenRoots + {root};
        group.roots := group.roots + [root];
      }
    }

    method PushRepo(repo: string)
      requires seenRepos == Elements(group.repos)
      modifies this`seenRepos, group`repos
      ensures seenRepos == Elements(group.repos)
      ensures group.repos == AppendNew(old(group.repos), [repo])
    {
      if repo !in seenRepos {
        seenRepos := seenRepos + {repo};
        group.repos := group.repos + [repo];
      }
    }

    method PushMembers(expand: string -> string, member: Declared)
      requires seenRoots == Elements(group.roots) && seenRepos == Elements(group.repos)
      modifies this`seenRoots, this`seenRepos, group
      ensures seenRoots == Elements(group.roots) && seenRepos == Elements(group.repos)
      ensures group.roots == AppendNew(old(group.roots), MapAll(expand, member.roots))
      ensures group.repos == AppendNew(old(group.repos), MapAll(expand, member.repos))
    {
      for i := 0 to |member.roots|
        invariant seenRoots == Elements(group.roots) && seenRepos == Elements(group.repos)
        invariant group.roots == AppendNew(old(group.roots), MapAll(expand, member.roots[..i]))
        invariant group.repos == old(group.repos)
      {
        PushRoot(expand(member.roots[i]));
        MapAllSnoc(expand, member.roots, i);
        AppendNewConcat(old(group.roots), MapAll(expand, member.roots[..i]), [expand(member.roots[i])]);
      }
      assert member.roots[..|member.roots|] == member.roots;
      for i := 0 to |member.repos|
        invariant seenRoots == Elements(group.roots) && seenRepos == Elements(group.repos)
        invariant group.repos == AppendNew(old(group.repos), MapAll(expand, member.repos[..i]))
        invariant group.roots == AppendNew(old(group.roots), MapAll(expand, member.roots))
      {
        PushRepo(expand(member.repos[i]));
        MapAllSnoc(expand, member.repos, i);
        AppendNewConcat(old(group.repos), MapAll(expand, member.repos[..i]), [expand(member.repos[i])]);
      }
      assert member.repos[..|member.repos|] == member.repos;
    }

    /** Start expanding `name`: its own members join the group. */
    method Enter(ghost cfg: Config, expand: string -> string, name: string, member: Declared)
      requires Valid(cfg, expand) && DeclaredMembers(cfg, name) == Some(member)
      requires name !in expanded && name !in path
      modifies this`path, this`expanded, this`seenRoots, this`seenRepos, group
      ensures Valid(cfg, expand) && path == old(path) + [name] && expanded == old(expanded) + {name}
      ensures group.roots == AppendNew(old(group.roots), RootsOfOne(cfg, expand)(name))
      ensures group.repos == AppendNew(old(group.repos), ReposOfOne(cfg, expand)(name))
    {
      hide Consistent, FoldedIn, AppendNew;
      EnteringKeepsConsistent(cfg, path, expanded, done, name);
      expanded := expanded + {name};
      PushMembers(expand, member);
      path := path + [name];
      FoldedInGrows(cfg, expand, done, old(group.roots), old(group.repos), group.roots, group.repos);
    }

    /** Everything `name` includes is folded in: back to the path it was met on. */
    method Leave(ghost cfg: Config, ghost expand: string -> string, ghost name: string, ghost below: seq<string>)
      requires Valid(cfg, expand) && |path| >= 2 && path[|path| - 1] == name && name !in path[..|path| - 1]
      requires DeclaredMembers(cfg, name).Some?
      requires WalkAll(cfg, DeclaredMembers(cfg, name).value.includes, path) == Success(below)
      requires Elements(below) <= Elements(done)
      requires FoldedIn(cfg, expand, done + [name], group.roots, group.repos)
      modifies this`path, this`done
      ensures Valid(cfg, expand) && path == old(path)[..|old(path)| - 1] && done == old(done) + [name]
    {
      assert path == path[..|path| - 1] + [name];
      LeavingKeepsConsistent(cfg, path[..|path| - 1], expanded, done, name, below);
      path := path[..|path| - 1];
      done := done + [name];
    }
  }

  lemma MapAllSnoc(f: string -> string, xs: seq<string>, i: nat)
    requires i < |xs|
    ensures MapAll(f, xs[..i + 1]) == MapAll(f, xs[..i]) + [f(xs[i])]
  {
  }

  /** What one call, or a run of calls, has done to the fold since it looked
      like the first group of arguments. */
  ghost predicate Advanced(
    cfg: Config, expand: string -> string, names: seq<string>,
    roots: seq<string>, repos: seq<string>, done: seq<string>,
    roots': seq<string>, repos': seq<string>, done': seq<string>)
  {
    && roots' == AppendNew(roots, RootsOf(cfg, expand, names))
    && repos' == AppendNew(repos, ReposOf(cfg, expand, names))
    && done <= done'
    && Elements(done') == Elements(done) + Elements(names)
  }

  lemma AdvancedCompose(
    cfg: Config, expand: string -> string, a: seq<string>, b: seq<string>,
    roots: seq<string>, repos: seq<string>, done: seq<string>,
    roots1: seq<string>, repos1: seq<string>, done1: seq<string>,
    roots2: seq<string>, repos2: seq<string>, done2: seq<string>)
    requires Advanced(cfg, expand, a, roots, repos, done, roots1, repos1, done1)
    requires Advanced(cfg, expand, b, roots1, repos1, done1, roots2, repos2, done2)
    ensures Advanced(cfg, expand, a + b, roots, repos, done, roots2, repos2, done2)
  {
    FlattenConcat(RootsOfOne(cfg, expand), a, b);
    FlattenConcat(ReposOfOne(cfg, expand), a, b);
    AppendNewConcat(roots, RootsOf(cfg, expand, a), RootsOf(cfg, expand, b));
    AppendNewConcat(repos, ReposOf(cfg, expand, a), ReposOf(cfg, expand, b));
    assert Elements(a + b) == Elements(a) + Elements(b);
  }

  /** Fold the workspace `name`, and depth-first everything it includes, into
      the group being composed. Every outcome, errors included, is the walk's;
      the calls made are one plus the include edges of the names finished. */
  method FoldOne(cfg: Config, expand: string -> string, name: string, fold: Fold) returns (r: Result<(), ConfigError>)
    requires fold.Valid(cfg, expand)
    modifies fold, fold.group
    ensures r.Success? <==> Walk(cfg, name, old(fold.path)).Success?
    ensures r.Failure? ==> r.error == Walk(cfg, name, old(fold.path)).error
    ensures r.Success? ==> fold.Valid(cfg, expand) && fold.path == old(fold.path)
    ensures r.Success? ==>
              Advanced(cfg, expand, Walk(cfg, name, old(fold.path)).value,
                       old(fold.group.roots), old(fold.group.repos), old(fold.done),
                       fold.group.roots, fold.group.repos, fold.done)
    ensures r.Success? ==>
              fold.calls == old(fold.calls) + 1 + EdgeCount(cfg, fold.done) - EdgeCount(cfg, old(fold.done))
    ensures old(fold.expanded) <= fold.expanded
    decreases Elements(IncludableNames(cfg)) - fold.expanded, 1
  {
    fold.calls := fold.calls + 1;
    if name in fold.path {
      return Failure(IncludeCycle(fold.path + [name]));
    }
    var found := DeclaredMembers(cfg, name);
    if found.None? {
      return Failure(UnknownName(Referrer(fold.path), name, IncludableNames(cfg)));
    }
    if name in fold.expanded {
      SkipIsSound(cfg, expand, fold, name);
      return Success(());
    }
    KnownNamesAreExactlyTheDeclared(cfg, name);
    r := ExpandNew(cfg, expand, name, found.value, fold);
  }

  /** The body of FoldOne for a name met for the first time. */
  method ExpandNew(cfg: Config, expand: string -> string, name: string, member: Declared, fold: Fold)
    returns (r: Result<(), ConfigError>)
    requires fold.Valid(cfg, expand) && DeclaredMembers(cfg, name) == Some(member)
    requires name in Elements(IncludableNames(cfg)) && name !in fold.expanded && name !in fold.path
    modifies fold, fold.group
    ensures r.Success? <==> Walk(cfg, name, old(fold.path)).Success?
    ensures r.Failure? ==> r.error == Walk(cfg, name, old(fold.path)).error
    ensures r.Success? ==> fold.Valid(cfg, expand) && fold.path == old(fold.path)
    ensures r.Success? ==>
              Advanced(cfg, expand, Walk(cfg, name, old(fold.path)).value,
                       old(fold.group.roots), old(fold.group.repos), old(fold.done),
                       fold.group.roots, fold.group.repos, fold.done)
    ensures r.Success? ==>
              fold.calls == old(fold.calls) + EdgeCount(cfg, fold.done) - EdgeCount(cfg, old(fold.done))
    ensures old(fold.expanded) <= fold.expanded
    decreases Elements(IncludableNames(cfg)) - fold.expanded, 0
  {
    hide *;
    ValidIsFoldedIn(cfg, expand, fold);
    WalkUnfolds(cfg, name, fold.path);
    fold.Enter(cfg, expand, name, member);
    ghost var roots, repos := fold.group.roots, fold.group.repos;
    r := FoldEach(cfg, expand, member.includes, fold);
    if r.Failure? {
      return;
    }
    ghost var below := WalkAll(cfg, member.includes, fold.path).value;
    ValidIsFoldedIn(cfg, expand, fold);
    AdvancedMeets(cfg, expand, below, roots, repos, old(fold.done), fold.group.roots, fold.group.repos, fold.done);
    FinishingAdvances(cfg, expand, name, below, old(fold.group.roots), old(fold.group.repos), old(fold.done),
                      roots, repos, fold.group.roots, fold.group.repos, fold.done);
    EdgeCountSnoc(cfg, fold.done, name);
    fold.Leave(cfg, expand, name, below);
  }

  lemma ValidIsFoldedIn(cfg: Config, expand: string -> string, fold: Fold)
    requires fold.Valid(cfg, expand)
    ensures FoldedIn(cfg, expand, fold.done, fold.group.roots, fold.group.repos) && fold.path != []
  {
  }

  lemma AdvancedMeets(
    cfg: Config, expand: string -> string, names: seq<string>,
    roots: seq<string>, repos: seq<string>, done: seq<string>,
    roots': seq<string>, repos': seq<string>, done': seq<string>)
    requires Advanced(cfg, expand, names, roots, repos, done, roots', repos', done')
    ensures Elements(names) <= Elements(done')
  {
  }

  lemma WalkUnfolds(cfg: Config, name: string, path: seq<string>)
    requires name !in path && DeclaredMembers(cfg, name).Some?
    ensures var below := WalkAll(cfg, DeclaredMembers(cfg, name).value.includes, path + [name]);
            && (below.Success? ==> Walk(cfg, name, path) == Success([name] + below.value))
            && (below.Failure? ==> Walk(cfg, name, path) == Failure(below.error))
  {
  }

  /** The loop over one `includes` list. */
  method FoldEach(cfg: Config, expand: string -> string, names: seq<string>, fold: Fold)
      returns (r: Result<(), ConfigError>)
    requires fold.Valid(cfg, expand)
    modifies fold, fold.group
    ensures r.Success? <==> WalkAll(cfg, names, old(fold.path)).Success?
    ensures r.Failure? ==> r.error == WalkAll(cfg, names, old(fold.path)).error
    ensures r.Success? ==> fold.Valid(cfg, expand) && fold.path == old(fold.path)
    ensures r.Success? ==>
              Advanced(cfg, expand, WalkAll(cfg, names, old(fold.path)).value,
                       old(fold.group.roots), old(fold.group.repos), old(fold.done),
                       fold.group.roots, fold.group.repos, fold.done)
    ensures r.Success? ==>
              fold.calls == old(fold.calls) + |names| + EdgeCount(cfg, fold.done) - EdgeCount(cfg, old(fold.done))
    ensures old(fold.expanded) <= fold.expanded
    decreases Elements(IncludableNames(cfg)) - fold.expanded, 2
  {
    ghost var path, met := fold.path, [];
    for i := 0 to |names|
      invariant fold.Valid(cfg, expand) && fold.path == path
      invariant old(fold.expanded) <= fold.expanded
      invariant WalkAll(cfg, names[..i], path) == Success(met)
      invariant Advanced(cfg, expand, met, old(fold.group.roots), old(fold.group.repos), old(fold.done),
                         fold.group.roots, fold.group.repos, fold.done)
      invariant fold.calls == old(fold.calls) + i + EdgeCount(cfg, fold.done) - EdgeCount(cfg, old(fold.done))
    {
      ghost var roots1, repos1, done1 := fold.group.roots, fold.group.repos, fold.done;
      WalkAllStep(cfg, names, i, path);
      r := FoldOne(cfg, expand, names[i], fold);
      if r.Failure? {
        return;
      }
      ghost var more := Walk(cfg, names[i], path).value;
      AdvancedCompose(cfg, expand, met, more, old(fold.group.roots), old(fold.group.repos), old(fold.done),
                      roots1, repos1, done1, fold.group.roots, fold.group.repos, fold.done);
      met := met + more;
    }
    assert names[..|names|] == names;
    r := Success(());
  }

  lemma FinishingAdvances(
    cfg: Config, expand: string -> string, name: string, below: seq<string>,
    roots: seq<string>, repos: seq<string>, done: seq<string>,
    roots1: seq<string>, repos1: seq<string>,
    roots2: seq<string>, repos2: seq<string>, done2: seq<string>)
    requires roots1 == AppendNew(roots, RootsOfOne(cfg, expand)(name))
    requires repos1 == AppendNew(repos, ReposOfOne(cfg, expand)(name))
    requires Advanced(cfg, expand, below, roots1, repos1, done, roots2, repos2, done2)
    requires FoldedIn(cfg, expand, done2, roots2, repos2)
    ensures Advanced(cfg, expand, [name] + below, roots, repos, done, roots2, repos2, done2 + [name])
    ensures FoldedIn(cfg, expand, done2 + [name], roots2, repos2)
  {
    hide AppendNew, Flatten, RootsOfOne, ReposOfOne;
    var f, g := RootsOfOne(cfg, expand), ReposOfOne(cfg, expand);
    FlattenOne(f, name);
    FlattenOne(g, name);
    FlattenConcat(f, [name], below);
    FlattenConcat(g, [name], below);
    FlattenConcat(f, done2, [name]);
    FlattenConcat(g, done2, [name]);
    AppendNewConcat(roots, f(name), Flatten(f, below));
    AppendNewConcat(repos, g(name), Flatten(g, below));
    assert Elements(done2 + [name]) == Elements(done2) + {name};
    assert Elements([name] + below) == {name} + Elements(below);
  }

  lemma WalkAllStep(cfg: Config, names: seq<string>, i: nat, path: seq<string>)
    requires i < |names| && WalkAll(cfg, names[..i], path).Success?
    ensures Walk(cfg, names[i], path).Failure? ==>
              WalkAll(cfg, names, path).Failure? && WalkAll(cfg, names, path).error == Walk(cfg, names[i], path).error
    ensures Walk(cfg, names[i], path).Success? ==>
              WalkAll(cfg, names[..i + 1], path)
              == Success(WalkAll(cfg, names[..i], path).value + Walk(cfg, names[i], path).value)
  {
    assert names[..i] + names[i..] == names;
    assert names[..i] + [names[i]] == names[..i + 1];
    WalkAllSplit(cfg, names[..i], names[i..], path);
    WalkAllSplit(cfg, names[..i], [names[i]], path);
    if Walk(cfg, names[i], path).Success? {
      var w := Walk(cfg, names[i], path).value;
      assert w + [] == w;
    }
  }

  lemma SkipIsSound(cfg: Config, expand: string -> string, fold: Fold, name: string)
    requires fold.Valid(cfg, expand) && name in fold.expanded && name !in fold.path
    ensures Walk(cfg, name, fold.path).Success?
    ensures Advanced(cfg, expand, Walk(cfg, name, fold.path).value,
                     fold.group.roots, fold.group.repos, fold.done,
                     fold.group.roots, fold.group.repos, fold.done)
  {
    var done := fold.done;
    var i :| 0 <= i < |done| && done[i] == name;
    WalkOfSettled(cfg, done, i, fold.path);
    var met := Walk(cfg, name, fold.path).value;
    ContributionsMonotone(RootsOfOne(cfg, expand), met, done);
    ContributionsMonotone(ReposOfOne(cfg, expand), met, done);
    AppendNewPresent(fold.group.roots, RootsOf(cfg, expand, met));
    AppendNewPresent(fold.group.repos, ReposOf(cfg, expand, met));
  }

  lemma EdgeCountSnoc(cfg: Config, names: seq<string>, name: string)
    ensures EdgeCount(cfg, names + [name]) == EdgeCount(cfg, names) + OutDegree(cfg, name)
    ensures DeclaredMembers(cfg, name).Some? ==> OutDegree(cfg, name) == |DeclaredMembers(cfg, name).value.includes|
  {
    assert (names + [name])[..|names|] == names;
  }

  lemma EnteringKeepsConsistent(cfg: Config, path: seq<string>, expanded: set<string>, done: seq<string>, name: string)
    requires Consistent(cfg, path, expanded, done) && name !in expanded && name !in path
    ensures Consistent(cfg, path + [name], expanded + {name}, done)
  {
    assert (path + [name])[1..] == path[1..] + [name];
    assert Elements(path[1..] + [name]) == Elements(path[1..]) + {name};
  }

  lemma LeavingKeepsConsistent(
    cfg: Config, path: seq<string>, expanded: set<string>, done: seq<string>, name: string, below: seq<string>)
    requires path != [] && name !in path && DeclaredMembers(cfg, name).Some?
    requires Consistent(cfg, path + [name], expanded, done)
    requires WalkAll(cfg, DeclaredMembers(cfg, name).value.includes, path + [name]) == Success(below)
    requires Elements(below) <= Elements(done)
    ensures Consistent(cfg, path, expanded, done + [name])
  {
    assert (path + [name])[1..] == path[1..] + [name];
    assert Elements(path[1..] + [name]) == Elements(path[1..]) + {name};
    assert Elements(done + [name]) == Elements(done) + {name};
    assert name in path + [name];
    forall x | x in below ensures x in done {
      assert x in Elements(below);
    }
    FinishingSettles(cfg, done, name, path + [name], below);
    forall x | x in done + [name] ensures x !in path {
      assert x in done ==> x !in path + [name];
    }
  }

  lemma FinishingSettles(cfg: Config, done: seq<string>, name: string, below: seq<string>, met: seq<string>)
    requires Settled(cfg, done) && name !in done && DeclaredMembers(cfg, name).Some?
    requires WalkAll(cfg, DeclaredMembers(cfg, name).value.includes, below) == Success(met)
    requires forall x :: x in met ==> x in done
    ensures Settled(cfg, done + [name])
  {
    var done' := done + [name];
    forall m | m in DeclaredMembers(cfg, name).value.includes ensures m in done {
      WalkAllMember(cfg, DeclaredMembers(cfg, name).value.includes, below, m);
      assert m in Walk(cfg, m, below).value;
    }
    forall i {:trigger done'[i]} | 0 <= i < |done'|
      ensures DeclaredMembers(cfg, done'[i]).Some?
      ensures forall m :: m in DeclaredMembers(cfg, done'[i]).value.includes ==> m in done'[..i]
    {
      if i < |done| {
        assert done'[..i] == done[..i];
      } else {
        assert done'[..i] == done;
      }
    }
  }
}
