/** Which hosted project the others' config keys are matched against: the one
    most links point into, or else the one with the most keys. */
module HubChoice {
  import opened Wrappers
  import opened Sequences
  import opened Text
  import opened CrossRepoLinks
  import opened Provenances
  import Ordering

  type Stores = map<string, SpokeStore>

  /** The project a qualified target names. */
  function ProjectOf(qualified: string): Option<string> {
    match Find(qualified, "::")
    case None => None
    case Some(i) => if i == 0 || i + 2 == |qualified| then None else Some(qualified[..i])
  }

  /** The project is what stands before the first `::`, if anything stands
      before it and anything after. */
  lemma ProjectIs(qualified: string, project: string)
    ensures ProjectOf(qualified) == Some(project) <==>
            && project != "" && project + "::" < qualified
            && forall i: nat :: i < |project| ==> !OccursAt(qualified, "::", i)
  {
    FirstOccurs(qualified, "::");
    if ProjectOf(qualified) == Some(project) {
      var i := |project|;
      assert qualified[..i + 2] == qualified[..i] + qualified[i..i + 2];
    }
    if project + "::" <= qualified {
      assert qualified[|project|..|project| + 2] == (project + "::")[|project|..] == "::";
      assert OccursAt(qualified, "::", |project|);
      assert qualified[..|project|] == (project + "::")[..|project|] == project;
    }
  }

  // ---- What the links and keys say ------------------------------------------

  function PointsInto(l: Link, project: string): bool {
    IsShown(l) && ProjectOf(l.target) == Some(project)
  }

  /** How many of the links point into a project; a link counts once however
      many others share its target. */
  function Into(links: seq<Link>, project: string): nat {
    if links == [] then 0
    else Into(links[..|links| - 1], project) + if PointsInto(links[|links| - 1], project) then 1 else 0
  }

  function Inbound(names: seq<string>, stores: Stores, project: string): nat
    requires forall n :: n in names ==> n in stores
  {
    if names == [] then 0
    else Inbound(names[..|names| - 1], stores, project) + Into(stores[names[|names| - 1]].links, project)
  }

  /** Some project has a link at all, hosted or not where it points. */
  ghost predicate AnyShown(names: seq<string>, stores: Stores)
    requires forall n :: n in names ==> n in stores
  {
    exists n, l :: n in names && l in stores[n].links && IsShown(l)
  }

  /** Among the hosted projects with the most links pointing into them, the last
      by name. */
  ghost predicate IsBusiest(names: seq<string>, stores: Stores, hub: string)
    requires forall n :: n in names ==> n in stores
  {
    && hub in names && Inbound(names, stores, hub) > 0
    && forall p :: p in names && p != hub ==>
         || Inbound(names, stores, p) < Inbound(names, stores, hub)
         || (Inbound(names, stores, p) == Inbound(names, stores, hub) && Ordering.Less(p, hub))
  }

  function KeyCount(stores: Stores, name: string): nat
    requires name in stores
  {
    |stores[name].configKeys|
  }

  /** Two projects or more have keys. */
  ghost predicate KeysAreShared(names: seq<string>, stores: Stores)
    requires forall n :: n in names ==> n in stores
  {
    exists m, n :: m in names && n in names && m != n && KeyCount(stores, m) > 0 && KeyCount(stores, n) > 0
  }

  /** Among the projects with the most keys, the first by name. */
  ghost predicate HasMostKeys(names: seq<string>, stores: Stores, hub: string)
    requires forall n :: n in names ==> n in stores
  {
    && hub in names && KeyCount(stores, hub) > 0
    && forall p :: p in names && p != hub ==>
         || KeyCount(stores, p) < KeyCount(stores, hub)
         || (KeyCount(stores, p) == KeyCount(stores, hub) && Ordering.Less(hub, p))
  }

  ghost predicate AnyInbound(names: seq<string>, stores: Stores)
    requires forall n :: n in names ==> n in stores
  {
    exists p :: p in names && Inbound(names, stores, p) > 0
  }

  /** The hub: the busiest project if a link points into a hosted one; none if
      links point elsewhere only; otherwise the project with the most keys, if
      two or more have any. */
  ghost predicate Chooses(names: seq<string>, stores: Stores, hub: Option<string>)
    requires forall n :: n in names ==> n in stores
  {
    if AnyInbound(names, stores) then hub.Some? && IsBusiest(names, stores, hub.value)
    else if AnyShown(names, stores) || !KeysAreShared(names, stores) then hub.None?
    else hub.Some? && HasMostKeys(names, stores, hub.value)
  }

  /** The `i`-th link is shown and points into the project. */
  ghost predicate PointsAt(links: seq<Link>, i: int, project: string) {
    && 0 <= i < |links| && links[i].provenance in {Inferred, Authored}
    && ProjectOf(links[i].target) == Some(project)
  }

  /** How many of the links, counted by place, are shown and point into it. */
  lemma {:induction false} IntoCounts(links: seq<Link>, project: string)
    ensures Into(links, project) == |set i | 0 <= i < |links| && PointsAt(links, i, project)|
  {
    hide *;
    NoLinks(project);
    if links == [] {
      assert (set i | 0 <= i < |links| && PointsAt(links, i, project)) == {};
    } else {
      var front, l := links[..|links| - 1], links[|links| - 1];
      assert links == front + [l];
      IntoCounts(front, project);
      PointsAtSnoc(front, l, project);
      var before := set i | 0 <= i < |front| && PointsAt(front, i, project);
      assert |front| !in before;
      assert (set i | 0 <= i < |links| && PointsAt(links, i, project))
          == before + if PointsAt(links, |front|, project) then {|front|} else {};
    }
  }

  lemma PointsAtSnoc(front: seq<Link>, l: Link, project: string)
    ensures forall i :: 0 <= i < |front| ==> (PointsAt(front + [l], i, project) <==> PointsAt(front, i, project))
    ensures Into(front + [l], project)
            == Into(front, project) + if PointsAt(front + [l], |front|, project) then 1 else 0
  {
    hide ProjectOf;
    assert (front + [l])[..|front|] == front && (front + [l])[|front|] == l;
  }

  /** What the choice means in links and keys. With no link at all the hub is
      the first by name of those with the most keys, and there is one exactly
      when two projects have any; links that all point elsewhere leave none. */
  lemma ChoiceIs(names: seq<string>, stores: Stores, hub: Option<string>)
    requires (forall n :: n in names ==> n in stores) && Chooses(names, stores, hub)
    requires forall p :: p in names ==> Inbound(names, stores, p) == 0
    ensures (exists n, l :: n in names && l in stores[n].links && l.provenance in {Inferred, Authored}) ==> hub == None
    ensures (forall n, l :: n in names && l in stores[n].links ==> l.provenance !in {Inferred, Authored}) ==>
              && (hub.None? <==> forall m, n :: m in names && n in names && m != n ==>
                                   stores[m].configKeys == [] || stores[n].configKeys == [])
              && (hub.Some? ==>
                    && hub.value in names && stores[hub.value].configKeys != []
                    && forall p :: p in names ==>
                         && |stores[p].configKeys| <= |stores[hub.value].configKeys|
                         && (|stores[p].configKeys| == |stores[hub.value].configKeys| ==>
                               p == hub.value || Ordering.Less(hub.value, p)))
  {
    hide Inbound, Ordering.Less;
    assert !AnyInbound(names, stores);
    if n, l :| n in names && l in stores[n].links && l.provenance in {Inferred, Authored} {
      assert IsShown(l) && AnyShown(names, stores);
    } else {
      assert !AnyShown(names, stores);
      forall m, n | m in names && n in names && m != n && stores[m].configKeys != [] && stores[n].configKeys != []
        ensures KeysAreShared(names, stores) {
        assert KeyCount(stores, m) > 0 && KeyCount(stores, n) > 0;
      }
    }
  }

  lemma ChoiceIsUnique(names: seq<string>, stores: Stores, a: Option<string>, b: Option<string>)
    requires forall n :: n in names ==> n in stores
    requires Chooses(names, stores, a) && Chooses(names, stores, b)
    ensures a == b
  {
    hide Inbound, Ordering.Less;
    if a.Some? {
      Ordering.LessIsTotal(a.value, b.value);
    }
  }

  // ---- Counting -------------------------------------------------------------

  /** The map holds every hosted project counted so far, under its count: all
      of `done`'s links and the given ones of the next store. */
  ghost predicate Tallies(inbound: map<string, nat>, names: seq<string>, stores: Stores, done: seq<string>,
      links: seq<Link>)
    requires forall n :: n in done ==> n in stores
  {
    && (forall p :: p in inbound ==>
          p in names && inbound[p] == Inbound(done, stores, p) + Into(links, p) && inbound[p] > 0)
    && (forall p :: p in names && Inbound(done, stores, p) + Into(links, p) > 0 ==> p in inbound)
  }

  lemma TallyLink(inbound: map<string, nat>, names: seq<string>, stores: Stores, done: seq<string>, links: seq<Link>,
      l: Link)
    requires forall n :: n in done ==> n in stores
    requires Tallies(inbound, names, stores, done, links)
    ensures var project := ProjectOf(l.target);
            Tallies(if IsShown(l) && project.Some? && project.value in names
                    then inbound[project.value := (if project.value in inbound then inbound[project.value] else 0) + 1]
                    else inbound,
                    names, stores, done, links + [l])
  {
    hide ProjectOf, IsShown, Inbound;
    assert (links + [l])[..|links + [l]| - 1] == links;
    forall p ensures Into(links + [l], p) == Into(links, p) + if PointsInto(l, p) then 1 else 0 {
    }
  }

  lemma TallyStore(inbound: map<string, nat>, names: seq<string>, stores: Stores, done: seq<string>, name: string)
    requires (forall n :: n in done ==> n in stores) && name in stores
    requires Tallies(inbound, names, stores, done, stores[name].links)
    ensures Tallies(inbound, names, stores, done + [name], [])
  {
    hide Into;
    assert (done + [name])[..|done + [name]| - 1] == done;
    forall p ensures Inbound(done + [name], stores, p) == Inbound(done, stores, p) + Into(stores[name].links, p)
        && Into([], p) == 0 {
      NoLinks(p);
    }
  }

  lemma NoLinks(p: string)
    ensures Into([], p) == 0
  {
  }

  lemma NothingTallied(names: seq<string>, stores: Stores)
    ensures Tallies(map[], names, stores, [], [])
  {
  }

  /** Count the links into each hosted project, and note whether there are any
      links at all. */
  method CountInbound(names: seq<string>, stores: Stores) returns (inbound: map<string, nat>, any: bool)
    requires forall n :: n in names ==> n in stores
    ensures forall p :: p in inbound <==> p in names && Inbound(names, stores, p) > 0
    ensures forall p :: p in inbound ==> inbound[p] == Inbound(names, stores, p)
    ensures any <==> AnyShown(names, stores)
  {
    hide Tallies, ProjectOf, Into, Inbound, IsShown;
    inbound, any := map[], false;
    NothingTallied(names, stores);
    for i := 0 to |names|
      invariant Tallies(inbound, names, stores, names[..i], [])
      invariant any <==> AnyShown(names[..i], stores)
    {
      var links := stores[names[i]].links;
      ghost var anyBefore := any;
      for j := 0 to |links|
        invariant Tallies(inbound, names, stores, names[..i], links[..j])
        invariant any <==> anyBefore || exists l :: l in links[..j] && IsShown(l)
      {
        assert links[..j + 1] == links[..j] + [links[j]];
        TallyLink(inbound, names, stores, names[..i], links[..j], links[j]);
        if IsShown(links[j]) {
          any := true;
          var project := ProjectOf(links[j].target);
          if project.Some? && project.value in names {
            inbound := inbound[project.value := (if project.value in inbound then inbound[project.value] else 0) + 1];
          }
        }
      }
      assert links[..|links|] == links && names[..i + 1] == names[..i] + [names[i]];
      TallyStore(inbound, names, stores, names[..i], names[i]);
    }
    assert names[..|names|] == names;
    TalliesMean(inbound, names, stores);
  }

  lemma TalliesMean(inbound: map<string, nat>, names: seq<string>, stores: Stores)
    requires forall n :: n in names ==> n in stores
    requires Tallies(inbound, names, stores, names, [])
    ensures forall p :: p in inbound <==> p in names && Inbound(names, stores, p) > 0
    ensures forall p :: p in inbound ==> inbound[p] == Inbound(names, stores, p)
  {
    forall p ensures Into([], p) == 0 {
    }
  }

  // ---- Choosing -------------------------------------------------------------

  /** The last key with the greatest count, in key order. */
  method Busiest(inbound: map<string, nat>) returns (hub: Option<string>)
    ensures hub.None? <==> inbound == map[]
    ensures hub.Some? ==> hub.value in inbound
    ensures hub.Some? ==> forall p :: p in inbound && p != hub.value ==>
              inbound[p] < inbound[hub.value] || (inbound[p] == inbound[hub.value] && Ordering.Less(p, hub.value))
  {
    hide Ordering.Less, Ordering.SortedSeq;
    var keys := Ordering.SortedSeq(inbound.Keys);
    assert forall p :: p in inbound <==> p in Elements(keys);
    hub := None;
    for i := 0 to |keys|
      invariant hub.None? <==> i == 0
      invariant hub.Some? ==> hub.value in keys[..i] && hub.value in inbound
      invariant hub.Some? ==> forall k :: 0 <= k < i && keys[k] != hub.value ==>
                  inbound[keys[k]] < inbound[hub.value]
                      || (inbound[keys[k]] == inbound[hub.value] && Ordering.Less(keys[k], hub.value))
    {
      assert keys[i] in Elements(keys);
      if hub.None? || inbound[hub.value] <= inbound[keys[i]] {
        hub := Some(keys[i]);
      }
    }
    forall p | p in inbound ensures exists k :: 0 <= k < |keys| && keys[k] == p {
      assert p in Elements(keys);
    }
  }

  /** The project with the most keys, unless fewer than two have any. */
  method ConfigKeyCountHub(names: seq<string>, stores: Stores) returns (hub: Option<string>)
    requires Distinct(names) && forall n :: n in names ==> n in stores
    ensures hub.None? <==> !KeysAreShared(names, stores)
    ensures hub.Some? ==> HasMostKeys(names, stores, hub.value)
  {
    hide Ordering.Less, KeyCount;
    var best: Option<string> := None;
    var counted: nat := 0;
    for i := 0 to |names|
      invariant counted == 0 <==> best.None?
      invariant best.Some? ==> HasMostKeys(names[..i], stores, best.value)
      invariant best.None? ==> forall n :: n in names[..i] ==> KeyCount(stores, n) == 0
      invariant counted >= 2 <==> KeysAreShared(names[..i], stores)
    {
      assert names[..i + 1] == names[..i] + [names[i]];
      var name := names[i];
      if KeyCount(stores, name) > 0 {
        if best.Some? {
          Ordering.LessIsTotal(name, best.value);
          BestOfMore(names[..i], stores, best.value, name);
        }
        if best.None? || KeyCount(stores, best.value) < KeyCount(stores, name)
           || (KeyCount(stores, best.value) == KeyCount(stores, name) && Ordering.Less(name, best.value)) {
          best := Some(name);
        }
        counted := counted + 1;
      }
    }
    assert names[..|names|] == names;
    hub := if counted < 2 then None else best;
  }

  lemma BestOfMore(names: seq<string>, stores: Stores, best: string, name: string)
    requires (forall n :: n in names + [name] ==> n in stores) && name !in names
    requires HasMostKeys(names, stores, best) && KeyCount(stores, name) > 0
    ensures HasMostKeys(names + [name], stores,
                        if KeyCount(stores, best) < KeyCount(stores, name)
                           || (KeyCount(stores, best) == KeyCount(stores, name) && Ordering.Less(name, best))
                        then name else best)
    ensures KeysAreShared(names + [name], stores)
  {
    hide Ordering.Less, KeyCount;
    Ordering.LessIsTotal(name, best);
    forall p | p in names && p != best && Ordering.Less(best, p) && Ordering.Less(name, best)
      ensures Ordering.Less(name, p)
    {
      Ordering.LessIsTransitive(name, best, p);
    }
    assert best in names + [name] && name in names + [name];
  }

  method ChooseHub(names: seq<string>, stores: Stores) returns (hub: Option<string>)
    requires Distinct(names) && forall n :: n in names ==> n in stores
    ensures Chooses(names, stores, hub)
  {
    hide Inbound, Ordering.Less, KeysAreShared, HasMostKeys, AnyShown;
    var inbound, any := CountInbound(names, stores);
    hub := Busiest(inbound);
    if hub.Some? {
      return;
    }
    if any {
      return None;
    }
    hub := ConfigKeyCountHub(names, stores);
  }
}
