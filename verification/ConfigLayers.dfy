/** How the user's and the project's configuration are laid over one another:
    exclusion lists union, the tool allow list intersects, and the report of
    what came from where is computed from the layers after the fact. */
module ConfigLayers {
  import opened Wrappers
  import opened Sequences

  type Patterns = Option<seq<string>>

  // ---------------------------------------------------------------------
  // Exclusion lists
  // ---------------------------------------------------------------------

  /** An unset list says nothing; two set ones join, inherited first. */
  function Merged(base: Patterns, over: Patterns): Patterns {
    if base.None? then over
    else if over.None? then base
    else Some(AppendNew(base.value, over.value))
  }

  method MergePatterns(base: Patterns, over: Patterns) returns (merged: Patterns)
    ensures merged == Merged(base, over)
  {
    if base.None? || over.None? {
      return if base.None? then over else base;
    }
    var list := base.value;
    for i := 0 to |over.value|
      invariant AppendNew(list, over.value[i..]) == AppendNew(base.value, over.value)
    {
      assert over.value[i..][0] == over.value[i] && over.value[i..][1..] == over.value[i + 1..];
      if over.value[i] !in list {
        list := list + [over.value[i]];
      }
    }
    return Some(list);
  }

  lemma {:induction false} AppendNewAssociates(a: seq<string>, b: seq<string>, c: seq<string>)
    ensures AppendNew(AppendNew(a, b), c) == AppendNew(a, AppendNew(b, c))
    decreases |c|
  {
    if c != [] {
      var next := if c[0] in b then b else b + [c[0]];
      AppendNewAssociates(a, next, c[1..]);
      AppendNewConcat(a, b, [c[0]]);
      assert AppendNew(AppendNew(a, b), [c[0]])
        == if c[0] in AppendNew(a, b) then AppendNew(a, b) else AppendNew(a, b) + [c[0]];
    }
  }

  /** Any number of layers can be merged pairwise in any grouping, and a layer
      that leaves the list unset changes nothing. */
  lemma MergingIsAMonoid(a: Patterns, b: Patterns, c: Patterns)
    ensures Merged(Merged(a, b), c) == Merged(a, Merged(b, c))
    ensures Merged(None, a) == a == Merged(a, None)
  {
    if a.Some? && b.Some? && c.Some? {
      AppendNewAssociates(a.value, b.value, c.value);
    }
  }

  predicate Names(list: Patterns, pattern: string) {
    list.Some? && pattern in list.value
  }

  /** The inherited list stays in front untouched, and the members are exactly
      the union. */
  lemma MergedIsUnion(base: Patterns, over: Patterns)
    ensures forall p :: Names(Merged(base, over), p) <==> Names(base, p) || Names(over, p)
    ensures base.Some? ==> Merged(base, over).Some? && base.value <= Merged(base, over).value
  {
  }

  /** What follows the inherited list is each pattern only the nearer layer
      names, once, in the order that layer first names them. */
  lemma MergedOrder(base: seq<string>, over: seq<string>, i: nat, j: nat)
    requires |base| <= i < j < |Merged(Some(base), Some(over)).value|
    ensures var r := Merged(Some(base), Some(over)).value;
            && r[i] !in base && r[j] !in base && r[i] != r[j]
            && FirstIndex(over, r[i]) < FirstIndex(over, r[j])
  {
    AppendNewOrder(base, over, i, j);
  }

  // ---------------------------------------------------------------------
  // The debt ignore list and its reset
  // ---------------------------------------------------------------------

  datatype DebtConfig = DebtConfig(ignore: Patterns, ignoreReset: Option<bool>) {
    predicate Resets() {
      ignoreReset == Some(true)
    }
  }

  /** A pattern is in force iff the nearer layer names it, or an inherited one
      does and nothing reset it. Without a reset the inherited list stays in
      front as it was; with one, nothing of it is left but what is restated. */
  method MergeIgnore(base: Patterns, over: DebtConfig) returns (merged: Patterns)
    ensures forall p :: Names(merged, p) <==> Names(over.ignore, p) || (!over.Resets() && Names(base, p))
    ensures !over.Resets() && base.Some? ==> merged.Some? && base.value <= merged.value
    ensures merged == if over.Resets() then over.ignore else Merged(base, over.ignore)
  {
    if over.Resets() {
      return over.ignore;
    }
    merged := MergePatterns(base, over.ignore);
    MergedIsUnion(base, over.ignore);
  }

  /** The project layer over the user layer. The reset flag is the record of
      what this overlay did, so it is the nearer layer's alone. */
  function Overlay(user: DebtConfig, project: DebtConfig): DebtConfig {
    DebtConfig(
      if project.Resets() then project.ignore else Merged(user.ignore, project.ignore),
      project.ignoreReset)
  }

  datatype Layers<C> = Layers(user: C, project: C, effective: C)

  /** What a run sees: a pattern is effective iff the project names it, or the
      user does and the project reset nothing; and the effective flag says that
      patterns were reset iff some could have been. */
  method Load(user: DebtConfig, project: DebtConfig) returns (loaded: Layers<DebtConfig>)
    ensures forall p :: Names(loaded.effective.ignore, p) <==>
                        Names(project.ignore, p) || (Names(user.ignore, p) && !loaded.effective.Resets())
    ensures loaded.effective.Resets() <==> project.Resets()
    ensures loaded == Layers(user, project, Overlay(user, project))
  {
    var ignore := MergeIgnore(user.ignore, project);
    loaded := Layers(user, project, DebtConfig(ignore, project.ignoreReset));
  }

  // ---------------------------------------------------------------------
  // Provenance
  // ---------------------------------------------------------------------

  datatype Origin = FromBoth | FromProject | FromUser | Unknown

  function OriginOf(lists: Layers<Patterns>, pattern: string): Origin {
    match (Names(lists.project, pattern), Names(lists.user, pattern))
    case (true, true) => FromBoth
    case (true, false) => FromProject
    case (false, true) => FromUser
    case (false, false) => Unknown
  }

  /** Every effective pattern with the layer it came from. */
  function Sources(lists: Layers<Patterns>): (r: seq<(string, Origin)>) {
    var kept := lists.effective.GetOr([]);
    seq(|kept|, i requires 0 <= i < |kept| => (kept[i], OriginOf(lists, kept[i])))
  }

  function IgnoreLists(loaded: Layers<DebtConfig>): Layers<Patterns> {
    Layers(loaded.user.ignore, loaded.project.ignore, loaded.effective.ignore)
  }

  function Without(patterns: seq<string>, kept: seq<string>): seq<string> {
    if patterns == [] then []
    else if patterns[0] in kept then Without(patterns[1..], kept)
    else [patterns[0]] + Without(patterns[1..], kept)
  }

  /** The user's patterns that a reset dropped. */
  function Discarded(loaded: Layers<DebtConfig>): seq<string> {
    if !loaded.effective.Resets() then []
    else Without(loaded.user.ignore.GetOr([]), loaded.effective.ignore.GetOr([]))
  }

  predicate ResetWasInert(loaded: Layers<DebtConfig>) {
    loaded.user.Resets() && !loaded.effective.Resets()
  }

  lemma {:induction false} WithoutKeepsTheRest(patterns: seq<string>, kept: seq<string>)
    ensures forall p :: multiset(Without(patterns, kept))[p]
                        == if p in kept then 0 else multiset(patterns)[p]
  {
    if patterns != [] {
      WithoutKeepsTheRest(patterns[1..], kept);
      assert patterns == [patterns[0]] + patterns[1..];
    }
  }

  /** Whatever the two layers say, the report accounts for every effective
      pattern, in order, and never has to answer "unknown". A label is exactly
      the set of layers that name the pattern, and under a reset the user layer
      is never the only one. */
  lemma ProvenanceIsNeverUnknown(user: DebtConfig, project: DebtConfig, i: nat)
    requires var effective := Overlay(user, project).ignore;
             effective.Some? && i < |effective.value|
    ensures var lists := IgnoreLists(Layers(user, project, Overlay(user, project)));
            && |Sources(lists)| == |lists.effective.value|
            && var (pattern, origin) := Sources(lists)[i];
            && pattern == lists.effective.value[i]
            && origin != Unknown
            && (origin in {FromBoth, FromProject} <==> Names(project.ignore, pattern))
            && (origin in {FromBoth, FromUser} <==> Names(user.ignore, pattern))
            && (project.Resets() ==> origin != FromUser)
  {
    MergedIsUnion(user.ignore, project.ignore);
    assert Names(Overlay(user, project).ignore, Overlay(user, project).ignore.value[i]);
  }

  /** With a reset in force the user's patterns split, duplicates counted, into
      those the project restates (still effective) and those reported as
      discarded. Without one nothing is discarded and none is lost. */
  lemma UserPatternsAreAccountedFor(user: DebtConfig, project: DebtConfig, pattern: string)
    ensures var loaded := Layers(user, project, Overlay(user, project));
            var written := multiset(user.ignore.GetOr([]))[pattern];
            var discarded := multiset(Discarded(loaded))[pattern];
            && (if project.Resets() && !Names(project.ignore, pattern)
                then discarded == written && !Names(loaded.effective.ignore, pattern)
                else discarded == 0
                     && (Names(user.ignore, pattern) ==> Names(loaded.effective.ignore, pattern)))
  {
    MergedIsUnion(user.ignore, project.ignore);
    if project.Resets() {
      WithoutKeepsTheRest(user.ignore.GetOr([]), project.ignore.GetOr([]));
    }
  }

  /** The list of discarded patterns is empty exactly when the overlay lost
      nothing: the filter behind the reset guard is never consulted in vain. */
  lemma DiscardedIffLost(user: DebtConfig, project: DebtConfig)
    ensures var loaded := Layers(user, project, Overlay(user, project));
            Discarded(loaded) != [] <==>
            exists p :: Names(user.ignore, p) && !Names(loaded.effective.ignore, p)
  {
    var loaded := Layers(user, project, Overlay(user, project));
    forall p | p in Discarded(loaded) || (Names(user.ignore, p) && !Names(loaded.effective.ignore, p))
      ensures p in Discarded(loaded)
      ensures Names(user.ignore, p) && !Names(loaded.effective.ignore, p)
    {
      UserPatternsAreAccountedFor(user, project, p);
      assert p in Discarded(loaded) <==> p in multiset(Discarded(loaded));
      assert p in user.ignore.GetOr([]) <==> p in multiset(user.ignore.GetOr([]));
    }
    if Discarded(loaded) != [] {
      assert Discarded(loaded)[0] in Discarded(loaded);
    }
  }

  /** A user reset reported as inert is one that dropped nothing; and the flag
      is reported inert exactly when the project layer did not reset, so the
      "patterns dropped" headline and the "did nothing" one exclude each other. */
  lemma InertResetDropsNothing(user: DebtConfig, project: DebtConfig)
    ensures var loaded := Layers(user, project, Overlay(user, project));
            && (ResetWasInert(loaded) <==> user.Resets() && !project.Resets())
            && (ResetWasInert(loaded) ==>
                  loaded.effective.ignore == Merged(user.ignore, project.ignore)
                  && Discarded(loaded) == []
                  && forall p :: Names(user.ignore, p) ==> Names(loaded.effective.ignore, p))
  {
    MergedIsUnion(user.ignore, project.ignore);
  }

  /** Had the flag been inherited like a scalar, the headline would be wrong for
      exactly the pairs of layers where the user reset and the project left
      the flag unset: announced, with the merge done in full. */
  lemma InheritedFlagMisreportsIff(user: DebtConfig, project: DebtConfig)
    ensures var inherited := if project.ignoreReset.Some? then project.ignoreReset else user.ignoreReset;
            (inherited == Some(true)) != project.Resets()
            <==> user.Resets() && project.ignoreReset.None?
  {
  }

  // ---------------------------------------------------------------------
  // The path lists: the same merge, and no reset
  // ---------------------------------------------------------------------

  datatype PathsConfig = PathsConfig(exclude: Patterns, opacity: Patterns)

  datatype PathList = Exclude | Opacity {
    function Of(paths: PathsConfig): Patterns {
      match this
      case Exclude => paths.exclude
      case Opacity => paths.opacity
    }
  }

  /** Whatever the project says, each of its lists only adds to the user's: no
      pattern of the user's is lost, and they stay in front as written. */
  method OverlayPaths(user: PathsConfig, project: PathsConfig) returns (effective: PathsConfig)
    ensures forall list: PathList, p ::
              Names(list.Of(effective), p) <==> Names(list.Of(user), p) || Names(list.Of(project), p)
    ensures forall list: PathList :: list.Of(user).Some? ==>
              list.Of(effective).Some? && list.Of(user).value <= list.Of(effective).value
    ensures forall list: PathList :: list.Of(effective) == Merged(list.Of(user), list.Of(project))
  {
    var exclude := MergePatterns(user.exclude, project.exclude);
    var opacity := MergePatterns(user.opacity, project.opacity);
    effective := PathsConfig(exclude, opacity);
    forall list: PathList
      ensures list.Of(effective) == Merged(list.Of(user), list.Of(project))
      ensures forall p :: Names(list.Of(effective), p) <==> Names(list.Of(user), p) || Names(list.Of(project), p)
      ensures list.Of(user).Some? ==> list.Of(effective).Some? && list.Of(user).value <= list.Of(effective).value
    {
      MergedIsUnion(list.Of(user), list.Of(project));
    }
  }

  /** No project file can make the scan read what the user's own layer
      excluded, and the source of every pattern in force is known. */
  lemma PathPatternsAreKeptAndTraced(list: PathList, user: PathsConfig, project: PathsConfig,
                                     effective: PathsConfig)
    requires list.Of(effective) == Merged(list.Of(user), list.Of(project))
    ensures forall p :: Names(list.Of(user), p) || Names(list.Of(project), p)
                        <==> Names(list.Of(effective), p)
    ensures var sources := Sources(Layers(list.Of(user), list.Of(project), list.Of(effective)));
            && |sources| == |list.Of(effective).GetOr([])|
            && forall i :: 0 <= i < |sources| ==>
              && sources[i].0 == list.Of(effective).value[i]
              && sources[i].1 != Unknown
              && (sources[i].1 in {FromBoth, FromProject} <==> Names(list.Of(project), sources[i].0))
              && (sources[i].1 in {FromBoth, FromUser} <==> Names(list.Of(user), sources[i].0))
  {
    MergedIsUnion(list.Of(user), list.Of(project));
    var lists := Layers(list.Of(user), list.Of(project), list.Of(effective));
    var kept := lists.effective.GetOr([]);
    forall i | 0 <= i < |kept|
      ensures OriginOf(lists, kept[i]) != Unknown
    {
      assert Names(lists.effective, kept[i]);
    }
  }

  // ---------------------------------------------------------------------
  // The tool allow list
  // ---------------------------------------------------------------------

  type AllowList = Option<seq<string>>

  function NarrowedBy(names: seq<string>, over: seq<string>): (r: seq<string>)
    ensures forall x :: x in r <==> x in names && x in over
  {
    if names == [] then []
    else (if names[0] in over then [names[0]] else []) + NarrowedBy(names[1..], over)
  }

  function OverlayTools(user: AllowList, project: AllowList): AllowList {
    if user.None? then project
    else if project.None? then user
    else Some(NarrowedBy(user.value, project.value))
  }

  /** A layer that names no list advertises every tool. */
  predicate Advertises(layer: AllowList, tool: string) {
    layer.None? || tool in layer.value
  }

  lemma {:induction false} NarrowingAssociates(a: seq<string>, b: seq<string>, c: seq<string>)
    ensures NarrowedBy(NarrowedBy(a, b), c) == NarrowedBy(a, NarrowedBy(b, c))
  {
    if a != [] {
      NarrowingAssociates(a[1..], b, c);
      var head := if a[0] in b then [a[0]] else [];
      var rest := NarrowedBy(a[1..], b);
      if a[0] in b {
        assert (head + rest)[0] == a[0] && (head + rest)[1..] == rest;
      } else {
        assert head + rest == rest;
      }
    }
  }

  lemma {:induction false} NarrowingToASuperset(a: seq<string>, b: seq<string>)
    requires forall x :: x in a ==> x in b
    ensures NarrowedBy(a, b) == a
  {
    if a != [] {
      NarrowingToASuperset(a[1..], b);
    }
  }

  /** The layering is a meet: grouping does not matter, a silent layer restricts
      nothing, repeating a layer changes nothing, and the two orders advertise
      the same tools. */
  lemma ToolLayersFormAMeet(a: AllowList, b: AllowList, c: AllowList)
    ensures OverlayTools(OverlayTools(a, b), c) == OverlayTools(a, OverlayTools(b, c))
    ensures OverlayTools(None, a) == a == OverlayTools(a, None)
    ensures OverlayTools(a, a) == a
    ensures OverlayTools(OverlayTools(a, b), b) == OverlayTools(a, b)
    ensures forall t :: Advertises(OverlayTools(a, b), t) <==> Advertises(OverlayTools(b, a), t)
  {
    if a.Some? {
      NarrowingToASuperset(a.value, a.value);
      if b.Some? {
        NarrowingToASuperset(NarrowedBy(a.value, b.value), b.value);
        if c.Some? {
          NarrowingAssociates(a.value, b.value, c.value);
        }
      }
    }
    if a.None? && b.Some? {
      NarrowingToASuperset(b.value, b.value);
    }
  }

  /** All layers, the farthest first. */
  function OverlayAll(layers: seq<AllowList>): AllowList {
    if layers == [] then None
    else OverlayTools(OverlayAll(layers[..|layers| - 1]), layers[|layers| - 1])
  }

  /** A layer may deny and may not grant: a tool is advertised iff no layer
      denies it, however many layers there are and in whatever order. */
  lemma {:induction false} AdvertisedIffNoLayerDenies(layers: seq<AllowList>, tool: string)
    ensures Advertises(OverlayAll(layers), tool) <==>
            forall layer :: layer in layers ==> Advertises(layer, tool)
  {
    if layers != [] {
      var init, last := layers[..|layers| - 1], layers[|layers| - 1];
      AdvertisedIffNoLayerDenies(init, tool);
      assert layers == init + [last];
      assert OverlayAll(layers) == OverlayTools(OverlayAll(init), last);
      assert Advertises(OverlayAll(layers), tool)
        <==> Advertises(OverlayAll(init), tool) && Advertises(last, tool);
      assert last in layers;
      forall layer | layer in layers && Advertises(last, tool)
          && forall l :: l in init ==> Advertises(l, tool)
        ensures Advertises(layer, tool)
      {
        assert layer in init || layer == last;
      }
    }
  }
}
