/** The workspace tables of a configuration, and what an `includes` list means:
    a walk that follows every include path in written order, remembering only
    the path it is on. It visits a shared workspace once per path to it, so it
    can be exponential; IncludeFold.dfy proves the linear fold equal to it. */
module IncludeGraph {
  import opened Wrappers
  import opened Sequences

  datatype WorkspaceTable = WorkspaceTable(
    roots: Option<seq<string>>,
    repos: Option<seq<string>>,
    includeWorktrees: Option<bool>)
  {
    predicate IsEmpty() {
      roots.GetOr([]) == [] && repos.GetOr([]) == []
    }
  }

  datatype NamedWorkspace = NamedWorkspace(
    name: string,
    roots: Option<seq<string>>,
    repos: Option<seq<string>>,
    includeWorktrees: Option<bool>,
    includes: Option<seq<string>>)

  datatype Config = Config(workspace: WorkspaceTable, workspaces: seq<NamedWorkspace>)

  datatype Declared = Declared(roots: seq<string>, repos: seq<string>, includes: seq<string>)

  datatype ConfigError =
    | DuplicateName(name: string)
    | IncludeCycle(path: seq<string>)
    | UnknownName(referrer: string, name: string, known: seq<string>)
    | Discovery(message: string)

  const DEFAULT_NAME := "default"

  function FindWorkspace(ws: seq<NamedWorkspace>, name: string): (r: Option<NamedWorkspace>)
    ensures r.Some? ==> r.value in ws && r.value.name == name
    ensures r.None? ==> forall w :: w in ws ==> w.name != name
  {
    if ws == [] then None
    else if ws[0].name == name then Some(ws[0])
    else FindWorkspace(ws[1..], name)
  }

  function DeclaredMembers(cfg: Config, name: string): Option<Declared> {
    if name == DEFAULT_NAME && !cfg.workspace.IsEmpty() then
      Some(Declared(cfg.workspace.roots.GetOr([]), cfg.workspace.repos.GetOr([]), []))
    else
      match FindWorkspace(cfg.workspaces, name)
      case None => None
      case Some(w) => Some(Declared(w.roots.GetOr([]), w.repos.GetOr([]), w.includes.GetOr([])))
  }

  function WorkspaceNames(ws: seq<NamedWorkspace>): (r: seq<string>)
    ensures |r| == |ws| && forall i :: 0 <= i < |ws| ==> r[i] == ws[i].name
  {
    seq(|ws|, i requires 0 <= i < |ws| => ws[i].name)
  }

  function IncludableNames(cfg: Config): seq<string> {
    (if cfg.workspace.IsEmpty() then [] else [DEFAULT_NAME]) + WorkspaceNames(cfg.workspaces)
  }

  /** The `known:` list of an error and the lookup agree on every name. */
  lemma KnownNamesAreExactlyTheDeclared(cfg: Config, name: string)
    ensures name in IncludableNames(cfg) <==> DeclaredMembers(cfg, name).Some?
  {
    var names := WorkspaceNames(cfg.workspaces);
    if name in names {
      var i :| 0 <= i < |names| && names[i] == name;
      assert cfg.workspaces[i].name == name;
    }
    match FindWorkspace(cfg.workspaces, name) {
      case Some(w) =>
        var i :| 0 <= i < |cfg.workspaces| && cfg.workspaces[i] == w;
        assert names[i] == name;
      case None =>
    }
  }

  predicate Edge(cfg: Config, a: string, b: string) {
    DeclaredMembers(cfg, a).Some? && b in DeclaredMembers(cfg, a).value.includes
  }

  ghost predicate IsChain(cfg: Config, p: seq<string>) {
    p != [] && forall i {:trigger p[i]} :: 0 <= i < |p| - 1 ==> Edge(cfg, p[i], p[i + 1])
  }

  /** No include chain of one hop or more returns to where it began. */
  ghost predicate Acyclic(cfg: Config) {
    forall p :: IsChain(cfg, p) && |p| >= 2 ==> p[0] != p[|p| - 1]
  }

  ghost predicate EveryIncludeDeclared(cfg: Config) {
    forall w, n :: w in cfg.workspaces && n in w.includes.GetOr([]) ==> DeclaredMembers(cfg, n).Some?
  }

  ghost predicate Reaches(cfg: Config, a: string, b: string) {
    exists p :: IsChain(cfg, p) && |p| >= 2 && p[0] == a && p[|p| - 1] == b
  }

  // ---- The walk -------------------------------------------------------------

  /** Every name met when `name` is expanded below `path`, in depth-first
      order, once per path that meets it. */
  function Walk(cfg: Config, name: string, path: seq<string>): Result<seq<string>, ConfigError>
    decreases Elements(IncludableNames(cfg)) - Elements(path), 0
  {
    if name in path then
      Failure(IncludeCycle(path + [name]))
    else if DeclaredMembers(cfg, name).None? then
      Failure(UnknownName(Referrer(path), name, IncludableNames(cfg)))
    else
      KnownNamesAreExactlyTheDeclared(cfg, name);
      assert name in Elements(IncludableNames(cfg)) - Elements(path);
      assert name !in Elements(IncludableNames(cfg)) - Elements(path + [name]);
      var below :- WalkAll(cfg, DeclaredMembers(cfg, name).value.includes, path + [name]);
      Success([name] + below)
  }

  function WalkAll(cfg: Config, names: seq<string>, path: seq<string>): Result<seq<string>, ConfigError>
    decreases Elements(IncludableNames(cfg)) - Elements(path), |names|
  {
    if names == [] then Success([])
    else
      var first :- Walk(cfg, names[0], path);
      var rest :- WalkAll(cfg, names[1..], path);
      Success(first + rest)
  }

  function Referrer(path: seq<string>): string {
    if path == [] then "" else path[|path| - 1]
  }

  lemma {:induction false} WalkAllSplit(cfg: Config, xs: seq<string>, ys: seq<string>, path: seq<string>)
    ensures WalkAll(cfg, xs + ys, path) ==
            match WalkAll(cfg, xs, path)
            case Failure(e) => Failure(e)
            case Success(a) =>
              match WalkAll(cfg, ys, path)
              case Failure(e) => Failure(e)
              case Success(b) => Success(a + b)
  {
    if xs == [] {
      assert xs + ys == ys;
      match WalkAll(cfg, ys, path) {
        case Success(b) => assert [] + b == b;
        case Failure(_) =>
      }
    } else {
      assert (xs + ys)[1..] == xs[1..] + ys;
      WalkAllSplit(cfg, xs[1..], ys, path);
      if Walk(cfg, xs[0], path).Success? && WalkAll(cfg, xs, path).Success? && WalkAll(cfg, ys, path).Success? {
        var f, a, b := Walk(cfg, xs[0], path).value, WalkAll(cfg, xs[1..], path).value, WalkAll(cfg, ys, path).value;
        assert f + (a + b) == (f + a) + b;
      }
    }
  }

  lemma {:induction false} WalkAllMember(cfg: Config, names: seq<string>, path: seq<string>, n: string)
    requires WalkAll(cfg, names, path).Success? && n in names
    ensures Walk(cfg, n, path).Success?
    ensures forall x :: x in Walk(cfg, n, path).value ==> x in WalkAll(cfg, names, path).value
  {
    if n != names[0] {
      WalkAllMember(cfg, names[1..], path, n);
    }
  }

  // ---- What the errors mean -------------------------------------------------

  /** `path` is the chain of includes being expanded. */
  ghost predicate Expanding(cfg: Config, path: seq<string>, names: seq<string>) {
    IsChain(cfg, path) && forall n :: n in names ==> Edge(cfg, path[|path| - 1], n)
  }

  ghost predicate RealError(cfg: Config, e: ConfigError) {
    match e
    case IncludeCycle(p) =>
      IsChain(cfg, p) && |p| >= 2 && p[|p| - 1] in p[..|p| - 1]
    case UnknownName(referrer, name, known) =>
      Edge(cfg, referrer, name) && DeclaredMembers(cfg, name).None? && known == IncludableNames(cfg)
    case _ => false
  }

  lemma {:induction false} WalkErrorsAreReal(cfg: Config, name: string, path: seq<string>)
    requires Expanding(cfg, path, [name])
    ensures Walk(cfg, name, path).Failure? ==> RealError(cfg, Walk(cfg, name, path).error)
    decreases Elements(IncludableNames(cfg)) - Elements(path), 0
  {
    var next := path + [name];
    assert name in [name];
    assert IsChain(cfg, next);
    if name in path {
      assert next[..|next| - 1] == path;
    } else if DeclaredMembers(cfg, name).Some? {
      KnownNamesAreExactlyTheDeclared(cfg, name);
      assert name in Elements(IncludableNames(cfg)) - Elements(path);
      assert name !in Elements(IncludableNames(cfg)) - Elements(next);
      WalkAllErrorsAreReal(cfg, DeclaredMembers(cfg, name).value.includes, next);
    }
  }

  /** A cycle error names include edges that close on themselves; an unknown
      name is really listed by the workspace blamed for it. */
  lemma {:induction false} WalkAllErrorsAreReal(cfg: Config, names: seq<string>, path: seq<string>)
    requires Expanding(cfg, path, names)
    ensures WalkAll(cfg, names, path).Failure? ==> RealError(cfg, WalkAll(cfg, names, path).error)
    decreases Elements(IncludableNames(cfg)) - Elements(path), |names|
  {
    if names != [] {
      assert names[0] in names;
      assert forall n :: n in [names[0]] || n in names[1..] ==> n in names;
      WalkErrorsAreReal(cfg, names[0], path);
      WalkAllErrorsAreReal(cfg, names[1..], path);
    }
  }

  /** On a chain that is being walked without error, every later name is met
      and none is already on the path. */
  lemma {:induction false} WalkFollowsChains(cfg: Config, p: seq<string>, path: seq<string>)
    requires IsChain(cfg, p) && Walk(cfg, p[0], path).Success?
    ensures forall x :: x in p ==> x in Walk(cfg, p[0], path).value && x !in path
    decreases |p|
  {
    if |p| >= 2 {
      var below := path + [p[0]];
      var includes := DeclaredMembers(cfg, p[0]).value.includes;
      assert Edge(cfg, p[0], p[0 + 1]);
      WalkAllMember(cfg, includes, below, p[1]);
      assert IsChain(cfg, p[1..]) by {
        forall i {:trigger p[1..][i]} | 0 <= i < |p[1..]| - 1 ensures Edge(cfg, p[1..][i], p[1..][i + 1]) {
          assert Edge(cfg, p[i + 1], p[i + 1 + 1]);
        }
      }
      WalkFollowsChains(cfg, p[1..], below);
      forall x | x in p ensures x in Walk(cfg, p[0], path).value && x !in path {
        if x != p[0] {
          assert x in p[1..];
        }
      }
    }
  }

  lemma {:induction false} WalkMeetsOnlyReachable(cfg: Config, name: string, path: seq<string>, x: string)
      returns (p: seq<string>)
    requires Walk(cfg, name, path).Success? && x in Walk(cfg, name, path).value
    ensures IsChain(cfg, p) && p[0] == name && p[|p| - 1] == x
    decreases Elements(IncludableNames(cfg)) - Elements(path), 0
  {
    if x == name {
      p := [name];
    } else {
      KnownNamesAreExactlyTheDeclared(cfg, name);
      assert name in Elements(IncludableNames(cfg)) - Elements(path);
      assert name !in Elements(IncludableNames(cfg)) - Elements(path + [name]);
      var m, q := WalkAllMeetsOnlyReachable(cfg, DeclaredMembers(cfg, name).value.includes, path + [name], x);
      p := PrependToChain(cfg, name, q);
    }
  }

  lemma {:induction false} WalkAllMeetsOnlyReachable(cfg: Config, names: seq<string>, path: seq<string>, x: string)
    returns (n: string, p: seq<string>)
    requires WalkAll(cfg, names, path).Success? && x in WalkAll(cfg, names, path).value
    ensures n in names && IsChain(cfg, p) && p[0] == n && p[|p| - 1] == x
    decreases Elements(IncludableNames(cfg)) - Elements(path), |names|
  {
    if x in Walk(cfg, names[0], path).value {
      n := names[0];
      p := WalkMeetsOnlyReachable(cfg, n, path, x);
    } else {
      n, p := WalkAllMeetsOnlyReachable(cfg, names[1..], path, x);
    }
  }

  lemma PrependToChain(cfg: Config, a: string, q: seq<string>) returns (p: seq<string>)
    requires IsChain(cfg, q) && Edge(cfg, a, q[0])
    ensures p == [a] + q && IsChain(cfg, p) && p[|p| - 1] == q[|q| - 1]
  {
    p := [a] + q;
    forall i {:trigger p[i]} | 0 <= i < |p| - 1 ensures Edge(cfg, p[i], p[i + 1]) {
      if i > 0 {
        assert Edge(cfg, q[i - 1], q[i - 1 + 1]);
      }
    }
  }

  /** The names a successful walk meets are exactly those some include chain
      reaches from the composing workspace. */
  lemma WalkMeetsExactlyTheReachable(cfg: Config, root: string, x: string)
    requires DeclaredMembers(cfg, root).Some?
    requires WalkAll(cfg, DeclaredMembers(cfg, root).value.includes, [root]).Success?
    ensures x in WalkAll(cfg, DeclaredMembers(cfg, root).value.includes, [root]).value <==> Reaches(cfg, root, x)
  {
    var includes := DeclaredMembers(cfg, root).value.includes;
    if x in WalkAll(cfg, includes, [root]).value {
      var n, q := WalkAllMeetsOnlyReachable(cfg, includes, [root], x);
      var p := PrependToChain(cfg, root, q);
    }
    if Reaches(cfg, root, x) {
      var p :| IsChain(cfg, p) && |p| >= 2 && p[0] == root && p[|p| - 1] == x;
      var q := ChainTail(cfg, p);
      WalkAllMember(cfg, includes, [root], q[0]);
      WalkFollowsChains(cfg, q, [root]);
    }
  }

  lemma ChainTail(cfg: Config, p: seq<string>) returns (q: seq<string>)
    requires IsChain(cfg, p) && |p| >= 2
    ensures q == p[1..] && IsChain(cfg, q) && Edge(cfg, p[0], q[0]) && q[|q| - 1] == p[|p| - 1]
  {
    q := p[1..];
    assert Edge(cfg, p[0], p[0 + 1]);
    forall i {:trigger q[i]} | 0 <= i < |q| - 1 ensures Edge(cfg, q[i], q[i + 1]) {
      assert Edge(cfg, p[i + 1], p[i + 1 + 1]);
    }
  }

  /** An acyclic, fully declared configuration has no error to meet, and one
      whose every composed workspace is walked without error is both. */
  lemma EveryWalkSucceedsIff(cfg: Config)
    requires Distinct(IncludableNames(cfg))
    ensures (forall w :: w in cfg.workspaces ==> WalkAll(cfg, w.includes.GetOr([]), [w.name]).Success?)
            <==> EveryIncludeDeclared(cfg) && Acyclic(cfg)
  {
    if EveryIncludeDeclared(cfg) && Acyclic(cfg) {
      forall w | w in cfg.workspaces ensures WalkAll(cfg, w.includes.GetOr([]), [w.name]).Success? {
        DeclaredIsOwn(cfg, w);
        WalkAllErrorsAreReal(cfg, w.includes.GetOr([]), [w.name]);
        if WalkAll(cfg, w.includes.GetOr([]), [w.name]).Failure? {
          NoRealErrors(cfg, WalkAll(cfg, w.includes.GetOr([]), [w.name]).error);
        }
      }
    }
    if forall w :: w in cfg.workspaces ==> WalkAll(cfg, w.includes.GetOr([]), [w.name]).Success? {
      forall w, n | w in cfg.workspaces && n in w.includes.GetOr([]) ensures DeclaredMembers(cfg, n).Some? {
        WalkAllMember(cfg, w.includes.GetOr([]), [w.name], n);
      }
      forall p | IsChain(cfg, p) && |p| >= 2 ensures p[0] != p[|p| - 1] {
        var q := ChainTail(cfg, p);
        assert DeclaredMembers(cfg, p[0]).value.includes != [];
        var w := FindWorkspace(cfg.workspaces, p[0]).value;
        WalkAllMember(cfg, w.includes.GetOr([]), [p[0]], q[0]);
        WalkFollowsChains(cfg, q, [p[0]]);
        assert q[|q| - 1] in q;
      }
    }
  }

  lemma DeclaredIsOwn(cfg: Config, w: NamedWorkspace)
    requires Distinct(IncludableNames(cfg)) && w in cfg.workspaces
    ensures DeclaredMembers(cfg, w.name) ==
            Some(Declared(w.roots.GetOr([]), w.repos.GetOr([]), w.includes.GetOr([])))
  {
    var names := IncludableNames(cfg);
    var offset := if cfg.workspace.IsEmpty() then 0 else 1;
    var i :| 0 <= i < |cfg.workspaces| && cfg.workspaces[i] == w;
    assert names[offset + i] == w.name;
    var v := FindWorkspace(cfg.workspaces, w.name).value;
    var j :| 0 <= j < |cfg.workspaces| && cfg.workspaces[j] == v;
    assert names[offset + j] == w.name;
    assert offset == 1 ==> names[0] == DEFAULT_NAME;
    assert i == j;
  }

  lemma NoRealErrors(cfg: Config, e: ConfigError)
    requires EveryIncludeDeclared(cfg) && Acyclic(cfg)
    ensures !RealError(cfg, e)
  {
    hide Edge, IsChain, EveryIncludeDeclared;
    match e {
      case IncludeCycle(p) =>
        if RealError(cfg, e) {
          var loop := CycleInPath(cfg, p);
          assert false;
        }
      case UnknownName(referrer, name, known) =>
        if Edge(cfg, referrer, name) {
          IncludedIsDeclared(cfg, referrer, name);
        }
      case _ =>
    }
  }

  lemma IncludedIsDeclared(cfg: Config, a: string, b: string)
    requires EveryIncludeDeclared(cfg) && Edge(cfg, a, b)
    ensures DeclaredMembers(cfg, b).Some?
  {
    if FindWorkspace(cfg.workspaces, a).Some? {
      var w := FindWorkspace(cfg.workspaces, a).value;
      assert w in cfg.workspaces;
    }
  }

  lemma CycleInPath(cfg: Config, p: seq<string>) returns (loop: seq<string>)
    requires IsChain(cfg, p) && |p| >= 2 && p[|p| - 1] in p[..|p| - 1]
    ensures IsChain(cfg, loop) && |loop| >= 2 && loop[0] == loop[|loop| - 1]
  {
    hide *;
    var k :| 0 <= k < |p| - 1 && p[..|p| - 1][k] == p[|p| - 1];
    loop := p[k..];
    ChainFrom(cfg, p, k);
  }

  lemma {:induction false} ChainFrom(cfg: Config, p: seq<string>, k: nat)
    requires IsChain(cfg, p) && k < |p|
    ensures IsChain(cfg, p[k..])
  {
    hide *;
    if k == 0 {
      assert p[k..] == p;
    } else {
      var q := ChainTail(cfg, p);
      ChainFrom(cfg, q, k - 1);
      assert q[k - 1..] == p[k..];
    }
  }

  /** The walk looks only at what names are declared as: two configurations
      that declare the same tables in another order are walked alike. */
  lemma {:induction false} WalkIgnoresDeclarationOrder(cfg: Config, cfg': Config, names: seq<string>, path: seq<string>)
    requires forall n :: DeclaredMembers(cfg, n) == DeclaredMembers(cfg', n)
    ensures WalkAll(cfg, names, path).Success? <==> WalkAll(cfg', names, path).Success?
    ensures WalkAll(cfg, names, path).Success? ==> WalkAll(cfg, names, path) == WalkAll(cfg', names, path)
    decreases Elements(IncludableNames(cfg)) - Elements(path), |names|
  {
    if names != [] {
      var name := names[0];
      if name !in path && DeclaredMembers(cfg, name).Some? {
        KnownNamesAreExactlyTheDeclared(cfg, name);
        assert name in Elements(IncludableNames(cfg)) - Elements(path);
        assert name !in Elements(IncludableNames(cfg)) - Elements(path + [name]);
        WalkIgnoresDeclarationOrder(cfg, cfg', DeclaredMembers(cfg, name).value.includes, path + [name]);
      }
      WalkIgnoresDeclarationOrder(cfg, cfg', names[1..], path);
    }
  }

  lemma PermutedConfigDeclaresTheSame(cfg: Config, cfg': Config, name: string)
    requires cfg.workspace == cfg'.workspace
    requires multiset(cfg.workspaces) == multiset(cfg'.workspaces)
    requires Distinct(IncludableNames(cfg)) && Distinct(IncludableNames(cfg'))
    ensures DeclaredMembers(cfg, name) == DeclaredMembers(cfg', name)
  {
    forall w ensures w in cfg.workspaces <==> w in cfg'.workspaces {
      assert w in cfg.workspaces <==> w in multiset(cfg.workspaces);
      assert w in cfg'.workspaces <==> w in multiset(cfg'.workspaces);
    }
    if FindWorkspace(cfg.workspaces, name).Some? {
      var w := FindWorkspace(cfg.workspaces, name).value;
      DeclaredIsOwn(cfg, w);
      DeclaredIsOwn(cfg', w);
    }
  }
}
