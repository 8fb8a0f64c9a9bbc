/** Writing every spoke's inferred links against the hub the workspace chooses,
    and running that again. */
module LinkWriting {
  import opened Wrappers
  import opened Sequences
  import opened Text
  import opened KeyMatching
  import opened CrossRepoLinks
  import opened HubChoice
  import opened Provenances
  import Ordering

  /** The spokes among `names` are written, every other store is as before. */
  ghost predicate SpokesWritten(
    nm: Naming, names: seq<string>, hub: string, hubKeys: seq<ConfigKey>,
    before: map<string, SpokeStore>, after: map<string, SpokeStore>)
  {
    && after.Keys == before.Keys
    && forall n :: n in before ==>
         after[n] == if n in names && n != hub then Written(nm, before[n], hub, hubKeys) else before[n]
  }

  /** One count per spoke, in workspace order. */
  function SpokeCounts(
    nm: Naming, names: seq<string>, hub: string, hubKeys: seq<ConfigKey>, stores: map<string, SpokeStore>)
    : seq<(string, nat)>
    requires forall n :: n in names ==> n in stores
  {
    if names == [] then []
    else
      var name := names[|names| - 1];
      SpokeCounts(nm, names[..|names| - 1], hub, hubKeys, stores)
      + if name == hub then [] else [(name, |Matches(nm, stores[name].configKeys, hubKeys)|)]
  }

  function Total(counts: seq<(string, nat)>): nat {
    if counts == [] then 0 else Total(counts[..|counts| - 1]) + counts[|counts| - 1].1
  }

  lemma WriteNext(
    nm: Naming, names: seq<string>, name: string, hub: string, hubKeys: seq<ConfigKey>,
    before: map<string, SpokeStore>, now: map<string, SpokeStore>)
    requires (forall n :: n in names ==> n in before) && name in before && name !in names
    requires SpokesWritten(nm, names, hub, hubKeys, before, now)
    ensures name in now && now[name] == before[name]
    ensures hub in before ==> hub in now && now[hub] == before[hub]
    ensures forall n :: n in names + [name] ==> n in before
    ensures SpokesWritten(nm, names + [name], hub, hubKeys, before,
                          if name == hub then now else now[name := Written(nm, before[name], hub, hubKeys)])
    ensures SpokeCounts(nm, names + [name], hub, hubKeys, before) ==
            SpokeCounts(nm, names, hub, hubKeys, before)
            + if name == hub then [] else [(name, |Matches(nm, before[name].configKeys, hubKeys)|)]
  {
    hide Written, Matches;
    assert (names + [name])[..|names + [name]| - 1] == names;
  }

  lemma WriteNone(nm: Naming, hub: string, hubKeys: seq<ConfigKey>, stores: map<string, SpokeStore>)
    ensures SpokesWritten(nm, [], hub, hubKeys, stores, stores)
    ensures SpokeCounts(nm, [], hub, hubKeys, stores) == [] && Total([]) == 0
  {
  }

  lemma TotalSnoc(counts: seq<(string, nat)>, c: (string, nat))
    ensures Total(counts + [c]) == Total(counts) + c.1
  {
    assert (counts + [c])[..|counts + [c]| - 1] == counts;
  }

  /** What one run reports. */
  datatype Report = Report(hub: Option<string>, written: nat, spokes: seq<(string, nat)>)

  /** One run: the hub is chosen from what is stored, and if there is one every
      other project is written against it. */
  ghost predicate Ran(nm: Naming, names: seq<string>, before: Stores, after: Stores, report: Report)
    requires forall n :: n in names ==> n in before
  {
    && Chooses(names, before, report.hub)
    && match report.hub
       case None => after == before && report == Report(None, 0, [])
       case Some(hub) =>
         && hub in names
         && SpokesWritten(nm, names, hub, before[hub].configKeys, before, after)
         && report.spokes == SpokeCounts(nm, names, hub, before[hub].configKeys, before)
         && report.written == Total(report.spokes)
  }

  class Workspace {
    const names: seq<string>
    var stores: Stores

    ghost predicate Valid()
      reads this
    {
      Distinct(names) && forall n :: n in names ==> n in stores
    }

    /** Choose the hub, then write every spoke's inferred links against it; the
        hub's store and every store's config keys are left as they are. */
    method WriteLinks(nm: Naming) returns (report: Report)
      requires Valid()
      modifies this
      ensures Valid() && Ran(nm, names, old(stores), stores, report)
    {
      hide SpokesWritten, SpokeCounts, Total, Written, Matches, ApplyImportLayer, LinkFacts, Chooses;
      ghost var before := stores;
      var chosen := ChooseHub(names, stores);
      ChosenIsHosted(names, stores, chosen);
      if chosen.None? {
        return Report(None, 0, []);
      }
      var hub := chosen.value;
      var hubKeys := stores[hub].configKeys;
      var written: nat, spokes: seq<(string, nat)> := 0, [];
      WriteNone(nm, hub, hubKeys, stores);
      for i := 0 to |names|
        invariant SpokesWritten(nm, names[..i], hub, hubKeys, before, stores)
        invariant spokes == SpokeCounts(nm, names[..i], hub, hubKeys, before) && written == Total(spokes)
      {
        var name := names[i];
        assert names[..i + 1] == names[..i] + [name];
        WriteNext(nm, names[..i], name, hub, hubKeys, before, stores);
        if name == hub {
          continue;
        }
        var matches, _ := MatchAgainstHub(nm, stores[name].configKeys, hubKeys);
        var facts := LinkFacts(hub, matches);
        WrittenIs(nm, stores[name], hub, hubKeys);
        stores := stores[name := ApplyImportLayer(stores[name], LINKS_REF, facts)];
        TotalSnoc(spokes, (name, |matches|));
        written := written + |matches|;
        spokes := spokes + [(name, |matches|)];
      }
      assert names[..|names|] == names;
      SpokesWrittenKeys(nm, names, hub, hubKeys, before, stores);
      report := Report(chosen, written, spokes);
    }
  }

  lemma ChosenIsHosted(names: seq<string>, stores: Stores, hub: Option<string>)
    requires (forall n :: n in names ==> n in stores) && Chooses(names, stores, hub)
    ensures hub.Some? ==> hub.value in names
  {
    hide Inbound, KeyCount;
  }

  lemma SpokesWrittenKeys(
    nm: Naming, names: seq<string>, hub: string, hubKeys: seq<ConfigKey>,
    before: map<string, SpokeStore>, after: map<string, SpokeStore>)
    requires SpokesWritten(nm, names, hub, hubKeys, before, after)
    ensures after.Keys == before.Keys
  {
  }

  // ---- Running it again -----------------------------------------------------

  /** A name a qualified target can carry: not empty, no `::` in it, and no `:`
      at its end. */
  predicate IsProjectName(name: string) {
    name != "" && Find(name + ":", "::").None?
  }

  ghost predicate ValidStores(names: seq<string>, stores: Stores) {
    && Distinct(names)
    && forall n :: n in names ==> n in stores && stores[n].Valid() && IsProjectName(n)
  }

  /** The stores with the links of earlier writes gone from every spoke. */
  function Cleared(names: seq<string>, hub: string, stores: Stores): Stores {
    map n | n in stores ::
      if n in names && n != hub then stores[n].(links := Survivors(stores[n].links, LINKS_REF)) else stores[n]
  }

  /** How many of the matches are not yet among the links. */
  function NewLinks(links: seq<Link>, hub: string, matches: seq<KeyMatch>): nat {
    if matches == [] then 0
    else
      NewLinks(links, hub, matches[..|matches| - 1])
      + var fact := FactOf(hub, matches[|matches| - 1]);
        if exists k :: k in links && OrderKey(k) == OrderKey(fact) then 0 else 1
  }

  /** How many links a run adds, over all spokes. */
  function Added(nm: Naming, names: seq<string>, hub: string, stores: Stores): nat
    requires hub in stores && forall n :: n in names ==> n in stores
  {
    if names == [] then 0
    else
      var name := names[|names| - 1];
      Added(nm, names[..|names| - 1], hub, stores)
      + if name == hub then 0
        else
          NewLinks(Survivors(stores[name].links, LINKS_REF), hub,
              Matches(nm, stores[name].configKeys, stores[hub].configKeys))
  }

  lemma {:induction false} SplitsAfterProject(name: string, rest: string)
    requires Find(name + ":", "::").None?
    ensures Find(name + "::" + rest, "::") == Some(|name|)
  {
    var s, t := name + "::" + rest, name + ":";
    if name == "" {
      assert s[..2] == "::";
    } else {
      assert t[..2] == s[..2];
      assert s[1..] == name[1..] + "::" + rest && t[1..] == name[1..] + ":";
      SplitsAfterProject(name[1..], rest);
    }
  }

  lemma QualifiedNamesItsProject(hub: string, m: KeyMatch)
    requires IsProjectName(hub)
    ensures ProjectOf(Qualified(hub, m)) == Some(hub)
  {
    var rest := NodeKey(m.hubFile, m.hubKey);
    assert rest[0] == 'c';
    hide NodeKey, Find;
    SplitsAfterProject(hub, rest);
    assert Qualified(hub, m)[..|hub|] == hub;
  }

  lemma IntoSnoc(links: seq<Link>, l: Link, p: string)
    ensures Into(links + [l], p) == Into(links, p) + if PointsInto(l, p) then 1 else 0
  {
    assert (links + [l])[..|links + [l]| - 1] == links;
  }

  lemma {:induction false} InsertedContain(links: seq<Link>, facts: seq<Link>)
    ensures forall l :: l in links ==> l in InsertAll(links, facts)
  {
    hide OrderKey;
    if facts != [] {
      InsertedContain(links, facts[..|facts| - 1]);
    }
  }

  /** A fact is new among the links and the facts before it iff it is new among
      the links: no two matches have the same source. */
  lemma NewAmongLinks(links: seq<Link>, hub: string, matches: seq<KeyMatch>)
    requires matches != [] && DistinctSources(matches)
    ensures var front, fact := matches[..|matches| - 1], FactOf(hub, matches[|matches| - 1]);
            (exists k :: k in InsertAll(links, LinkFacts(hub, front)) && OrderKey(k) == OrderKey(fact))
            <==> exists k :: k in links && OrderKey(k) == OrderKey(fact)
  {
    hide OrderKey, InsertAll, MatchSource, Qualified;
    var front, fact := matches[..|matches| - 1], FactOf(hub, matches[|matches| - 1]);
    var facts := LinkFacts(hub, front);
    InsertedContain(links, facts);
    OnlyInserted(links, facts);
    forall k | k in facts ensures OrderKey(k) != OrderKey(fact) {
      var i :| 0 <= i < |front| && facts[i] == k;
      assert MatchSource(matches[i]) != MatchSource(matches[|matches| - 1]);
      if OrderKey(k) == OrderKey(fact) {
        SameKeySameEdge(k, fact);
      }
    }
  }

  lemma NewLinksUnfold(links: seq<Link>, hub: string, matches: seq<KeyMatch>)
    requires matches != []
    ensures var fact := FactOf(hub, matches[|matches| - 1]);
            NewLinks(links, hub, matches) ==
            NewLinks(links, hub, matches[..|matches| - 1])
            + if exists k :: k in links && OrderKey(k) == OrderKey(fact) then 0 else 1
  {
    hide OrderKey, FactOf;
  }

  lemma InsertLast(links: seq<Link>, hub: string, matches: seq<KeyMatch>)
    requires matches != [] && DistinctSources(matches)
    ensures var front, fact := matches[..|matches| - 1], FactOf(hub, matches[|matches| - 1]);
            var before := InsertAll(links, LinkFacts(hub, front));
            InsertAll(links, LinkFacts(hub, matches)) ==
            if exists k :: k in links && OrderKey(k) == OrderKey(fact) then before else before + [fact]
  {
    NewAmongLinks(links, hub, matches);
    hide OrderKey, FactOf;
    var facts := LinkFacts(hub, matches);
    assert facts[..|facts| - 1] == LinkFacts(hub, matches[..|matches| - 1]);
  }

  lemma FactPointsIntoHub(hub: string, m: KeyMatch, p: string)
    requires IsProjectName(hub)
    ensures PointsInto(FactOf(hub, m), p) <==> p == hub
  {
    hide Qualified, ProjectOf;
    QualifiedNamesItsProject(hub, m);
  }

  /** Writing adds its new links to the hub's count and nothing to another's. */
  lemma {:induction false} IntoInserted(links: seq<Link>, hub: string, matches: seq<KeyMatch>, p: string)
    requires DistinctSources(matches) && IsProjectName(hub)
    ensures Into(InsertAll(links, LinkFacts(hub, matches)), p)
            == Into(links, p) + if p == hub then NewLinks(links, hub, matches) else 0
    ensures NewLinks(links, hub, matches) == 0 ==> InsertAll(links, LinkFacts(hub, matches)) == links
  {
    if matches == [] {
      assert LinkFacts(hub, matches) == [];
    } else {
      hide *;
      var front, m := matches[..|matches| - 1], matches[|matches| - 1];
      FrontIsDistinct(matches);
      IntoInserted(links, hub, front, p);
      InsertLast(links, hub, matches);
      NewLinksUnfold(links, hub, matches);
      FactPointsIntoHub(hub, m, p);
      IntoSnoc(InsertAll(links, LinkFacts(hub, front)), FactOf(hub, m), p);
    }
  }

  lemma FrontIsDistinct(matches: seq<KeyMatch>)
    requires matches != [] && DistinctSources(matches)
    ensures DistinctSources(matches[..|matches| - 1])
  {
    hide MatchSource;
  }

  /** `after` is what a run against `hub` leaves. */
  ghost predicate Wrote(nm: Naming, names: seq<string>, hub: string, before: Stores, after: Stores) {
    && ValidStores(names, before) && hub in names
    && SpokesWritten(nm, names, hub, before[hub].configKeys, before, after)
  }

  lemma StoreAfter(nm: Naming, names: seq<string>, hub: string, before: Stores, after: Stores, n: string, p: string)
    requires Wrote(nm, names, hub, before, after) && n in names
    ensures n in after && n in Cleared(names, hub, before) && after[n].configKeys == before[n].configKeys
    ensures var kept := Cleared(names, hub, before)[n].links;
            var added := if n == hub then 0
                       else NewLinks(kept, hub, Matches(nm, before[n].configKeys, before[hub].configKeys));
            && Into(after[n].links, p) == Into(kept, p) + (if p == hub then added else 0)
            && (added == 0 ==> after[n].links == kept)
            && (n != hub ==> kept == Survivors(before[n].links, LINKS_REF))
  {
    hide Matches, Into, NewLinks, InsertAll, Survivors, IsProjectName, LinkFacts;
    if n != hub {
      var matches := Matches(nm, before[n].configKeys, before[hub].configKeys);
      MatchSourcesDistinct(nm, before[n].configKeys, before[hub].configKeys);
      IntoInserted(Survivors(before[n].links, LINKS_REF), hub, matches, p);
    }
  }

  /** After a run, a project's count is what was kept, and for the hub what was
      added. */
  lemma {:induction false} InboundAfter(
    nm: Naming, names: seq<string>, hub: string, before: Stores, after: Stores, done: seq<string>, p: string)
    requires Wrote(nm, names, hub, before, after) && forall n :: n in done ==> n in names
    ensures forall n :: n in done ==> n in after && n in Cleared(names, hub, before) && n in before
    ensures Inbound(done, after, p)
            == Inbound(done, Cleared(names, hub, before), p) + if p == hub then Added(nm, done, hub, before) else 0
    ensures Added(nm, done, hub, before) == 0 ==>
              forall n :: n in done ==> after[n].links == Cleared(names, hub, before)[n].links
  {
    hide Matches, Into, NewLinks, Wrote, Cleared, Survivors;
    WroteIsValid(nm, names, hub, before, after);
    if done != [] {
      var front, n := done[..|done| - 1], done[|done| - 1];
      assert done == front + [n];
      InboundAfter(nm, names, hub, before, after, front, p);
      StoreAfter(nm, names, hub, before, after, n, p);
    }
  }

  lemma WroteIsValid(nm: Naming, names: seq<string>, hub: string, before: Stores, after: Stores)
    requires Wrote(nm, names, hub, before, after)
    ensures hub in names && hub in before && forall n :: n in names ==>
                n in before && n in after && n in Cleared(names, hub, before)
    ensures forall n :: n in names ==> KeyCount(after, n) == KeyCount(before, n)
  {
  }

  // ---- Whether the hub stays ------------------------------------------------

  /** Read off the stores before a run against `hub`: with the links of earlier
      writes gone and the new ones added, the hub is still the busiest; or no
      link is left at all and it has the most keys. */
  ghost predicate HubStays(nm: Naming, names: seq<string>, hub: string, before: Stores)
    requires hub in before && forall n :: n in names ==> n in before
  {
    var kept, added := Cleared(names, hub, before), Added(nm, names, hub, before);
    var now := Inbound(names, kept, hub) + added;
    if now > 0 then
      forall p :: p in names && p != hub ==>
        Inbound(names, kept, p) < now || (Inbound(names, kept, p) == now && Ordering.Less(p, hub))
    else !AnyShown(names, kept) && KeysAreShared(names, before) && HasMostKeys(names, before, hub)
  }

  lemma {:induction false} IntoIsShown(links: seq<Link>, p: string)
    requires Into(links, p) > 0
    ensures exists l :: l in links && IsShown(l)
  {
    hide ProjectOf, IsShown;
    var front, l := links[..|links| - 1], links[|links| - 1];
    assert l in links && forall x :: x in front ==> x in links;
    if !PointsInto(l, p) {
      IntoIsShown(front, p);
    }
  }

  lemma {:induction false} InboundIsShown(names: seq<string>, stores: Stores, p: string)
    requires (forall n :: n in names ==> n in stores) && Inbound(names, stores, p) > 0
    ensures AnyShown(names, stores)
  {
    hide Into, IsShown;
    var front, n := names[..|names| - 1], names[|names| - 1];
    assert n in names && forall x :: x in front ==> x in names;
    if Into(stores[n].links, p) > 0 {
      IntoIsShown(stores[n].links, p);
    } else {
      InboundIsShown(front, stores, p);
    }
  }

  lemma SameKeysSameChoice(names: seq<string>, a: Stores, b: Stores, hub: string)
    requires forall n :: n in names ==> n in a && n in b && KeyCount(a, n) == KeyCount(b, n)
    ensures KeysAreShared(names, a) <==> KeysAreShared(names, b)
    ensures HasMostKeys(names, a, hub) <==> HasMostKeys(names, b, hub)
  {
    hide KeyCount, Ordering.Less;
  }

  lemma SameLinksShowTheSame(names: seq<string>, a: Stores, b: Stores)
    requires forall n :: n in names ==> n in a && n in b && a[n].links == b[n].links
    ensures AnyShown(names, a) <==> AnyShown(names, b)
  {
    hide IsShown;
  }

  /** A run leaves its hub the one that would be chosen again exactly when that
      can be read off the stores before it. */
  lemma HubStaysIff(nm: Naming, names: seq<string>, hub: string, before: Stores, after: Stores)
    requires Wrote(nm, names, hub, before, after)
    ensures hub in names && hub in before && forall n :: n in names ==> n in before && n in after
    ensures Chooses(names, after, Some(hub)) <==> HubStays(nm, names, hub, before)
  {
    hide Inbound, Added, Cleared, KeyCount, Ordering.Less, IsShown, KeysAreShared, HasMostKeys, AnyShown, Wrote;
    var kept := Cleared(names, hub, before);
    WroteIsValid(nm, names, hub, before, after);
    forall p ensures Inbound(names, after, p)
                     == Inbound(names, kept, p) + if p == hub then Added(nm, names, hub, before) else 0 {
      InboundAfter(nm, names, hub, before, after, names, p);
    }
    InboundAfter(nm, names, hub, before, after, names, hub);
    SameKeysSameChoice(names, after, before, hub);
    if Inbound(names, after, hub) == 0 {
      SameLinksShowTheSame(names, after, kept);
      if p :| p in names && Inbound(names, after, p) > 0 {
        InboundIsShown(names, kept, p);
      }
    }
  }

  /** The second of two runs reports what the first did, and leaves what the
      first left, exactly when there was no hub or the hub stays. */
  lemma RerunRepeatsIff(
    nm: Naming, names: seq<string>, before: Stores, mid: Stores, after: Stores, first: Report, second: Report)
    requires ValidStores(names, before) && forall n :: n in names ==> n in mid
    requires Ran(nm, names, before, mid, first) && Ran(nm, names, mid, after, second)
    ensures first.hub.Some? ==> first.hub.value in before
    ensures second == first && after == mid <==>
            first.hub.None? || HubStays(nm, names, first.hub.value, before)
  {
    hide Chooses, SpokesWritten, HubStays, Inbound, SpokeCounts, Total, IsProjectName;
    match first.hub {
      case None =>
        ChoiceIsUnique(names, mid, first.hub, second.hub);
      case Some(hub) =>
        HubStaysIff(nm, names, hub, before, mid);
        if HubStays(nm, names, hub, before) {
          ChoiceIsUnique(names, mid, first.hub, second.hub);
          SameHubSameRun(nm, names, hub, before, mid, after);
        }
    }
  }

  lemma SameHubSameRun(nm: Naming, names: seq<string>, hub: string, before: Stores, mid: Stores, after: Stores)
    requires (forall n :: n in names ==> n in before && n in mid) && hub in names
    requires SpokesWritten(nm, names, hub, before[hub].configKeys, before, mid)
    requires SpokesWritten(nm, names, hub, mid[hub].configKeys, mid, after)
    ensures after == mid && mid[hub].configKeys == before[hub].configKeys
    ensures SpokeCounts(nm, names, hub, mid[hub].configKeys, mid)
            == SpokeCounts(nm, names, hub, before[hub].configKeys, before)
  {
    hide Matches;
    var hubKeys := before[hub].configKeys;
    assert mid[hub] == before[hub];
    forall n | n in mid ensures after[n] == mid[n] && mid[n].configKeys == before[n].configKeys {
      WritingIsIdempotent(nm, before[n], hub, hubKeys);
    }
    SameKeysSameCounts(nm, names, hub, hubKeys, mid, before);
  }

  lemma {:induction false} SameKeysSameCounts(
    nm: Naming, names: seq<string>, hub: string, hubKeys: seq<ConfigKey>, a: Stores, b: Stores)
    requires forall n :: n in names ==> n in a && n in b && a[n].configKeys == b[n].configKeys
    ensures SpokeCounts(nm, names, hub, hubKeys, a) == SpokeCounts(nm, names, hub, hubKeys, b)
  {
    hide Matches;
    if names != [] {
      SameKeysSameCounts(nm, names[..|names| - 1], hub, hubKeys, a, b);
    }
  }

  /** Where nothing was ever linked, the first run settles it. */
  lemma FirstWriteSettles(nm: Naming, names: seq<string>, before: Stores, hub: string)
    requires ValidStores(names, before) && !AnyShown(names, before) && Chooses(names, before, Some(hub))
    ensures HubStays(nm, names, hub, before)
  {
    hide Inbound, Added, KeyCount, IsProjectName, IsShown, Ordering.Less, KeysAreShared, HasMostKeys, AnyShown,
        Survivors, Cleared;
    var kept := Cleared(names, hub, before);
    ClearedShowsLess(names, hub, before);
    forall p | p in names ensures Inbound(names, kept, p) == 0 && Inbound(names, before, p) == 0 {
      if Inbound(names, kept, p) > 0 {
        InboundIsShown(names, kept, p);
      }
      if Inbound(names, before, p) > 0 {
        InboundIsShown(names, before, p);
      }
    }
  }

  lemma ClearedShowsLess(names: seq<string>, hub: string, stores: Stores)
    requires forall n :: n in names ==> n in stores
    ensures forall n :: n in names ==> n in Cleared(names, hub, stores)
    ensures AnyShown(names, Cleared(names, hub, stores)) ==> AnyShown(names, stores)
  {
    hide IsShown, Survivors;
    forall n, l | n in names && l in Cleared(names, hub, stores)[n].links ensures l in stores[n].links {
      SurvivorsAre(stores[n].links);
    }
  }

  /** A busiest hub that gains at least as many links as it loses stays. */
  lemma HubThatLosesNothingStays(nm: Naming, names: seq<string>, before: Stores, hub: string)
    requires ValidStores(names, before) && IsBusiest(names, before, hub)
    requires Inbound(names, before, hub)
             <= Inbound(names, Cleared(names, hub, before), hub) + Added(nm, names, hub, before)
    ensures HubStays(nm, names, hub, before)
  {
    hide Inbound, Added, IsProjectName, Ordering.Less, Cleared, AnyShown;
    ClearedCountsLess(names, names, hub, before, hub);
    forall p | p in names ensures Inbound(names, Cleared(names, hub, before), p) <= Inbound(names, before, p) {
      ClearedCountsLess(names, names, hub, before, p);
    }
  }

  lemma {:induction false} ClearedCountsLess(names: seq<string>, done: seq<string>, hub: string, stores: Stores,
      p: string)
    requires forall n :: n in names || n in done ==> n in stores
    ensures forall n :: n in done ==> n in Cleared(names, hub, stores)
    ensures Inbound(done, Cleared(names, hub, stores), p) <= Inbound(done, stores, p)
  {
    hide Into, Survivors;
    if done != [] {
      var front, n := done[..|done| - 1], done[|done| - 1];
      assert done == front + [n];
      ClearedCountsLess(names, front, hub, stores, p);
      SurvivorsCountLess(stores[n].links, p);
    }
  }

  lemma {:induction false} SurvivorsCountLess(links: seq<Link>, p: string)
    ensures Into(Survivors(links, LINKS_REF), p) <= Into(links, p)
  {
    hide Survivors, LINKS_REF, PointsInto;
    if links == [] {
      SurvivorsSnoc([], Link("", "", "", Derived, None, None));
    } else {
      var front, l := links[..|links| - 1], links[|links| - 1];
      assert links == front + [l];
      SurvivorsCountLess(front, p);
      SurvivorsSnoc(front, l);
      IntoSnoc(front, l, p);
      IntoSnoc(Survivors(front, LINKS_REF), l, p);
    }
  }

  // ---- Where the hub moves --------------------------------------------------

  const PORT := ConfigKey("lib.toml", "port", "80", true)

  function LinkTo(key: string, target: string, provenance: Provenance, srcRef: Option<string>): Link {
    Link("cfgkey:deploy.yaml#" + key, target, REFERENCES, provenance, None, srcRef)
  }

  /** A deployment that was once written against `app`, whose keys have since
      gone, and that is linked to `lib` by hand. */
  function Moving(): Stores {
    map["app" := SpokeStore([], []),
        "lib" := SpokeStore([PORT], []),
        "infra" := SpokeStore([SPOKE_KEY], [
          LinkTo("host", "app::cfgkey:app.toml#host", Inferred, Some(LINKS_REF)),
          LinkTo("user", "app::cfgkey:app.toml#user", Inferred, Some(LINKS_REF)),
          LinkTo("tls", "lib::cfgkey:lib.toml#tls", Authored, None)])]
  }

  const MOVING_NAMES := ["app", "infra", "lib"]

  lemma TargetProject(target: string, name: string, rest: string)
    requires target == name + "::" + rest && name != "" && rest != "" && ':' !in name
    ensures ProjectOf(target) == Some(name)
  {
    NoColonNoSplit(name);
    SplitsAfterProject(name, rest);
    assert target[..|name|] == name;
  }

  lemma {:induction false} NoColonNoSplit(name: string)
    requires ':' !in name
    ensures Find(name + ":", "::").None?
  {
    var t := name + ":";
    if name == "" {
      assert |t| == 1;
    } else {
      assert t[0] == name[0] && name[0] in name;
      assert t[1..] == name[1..] + ":";
      NoColonNoSplit(name[1..]);
    }
  }

  lemma HostTarget()
    ensures ProjectOf("app::cfgkey:app.toml#host") == Some("app")
  {
    hide ProjectOf;
    TargetProject("app::cfgkey:app.toml#host", "app", "cfgkey:app.toml#host");
  }

  lemma UserTarget()
    ensures ProjectOf("app::cfgkey:app.toml#user") == Some("app")
  {
    hide ProjectOf;
    TargetProject("app::cfgkey:app.toml#user", "app", "cfgkey:app.toml#user");
  }

  lemma TlsTarget()
    ensures ProjectOf("lib::cfgkey:lib.toml#tls") == Some("lib")
  {
    hide ProjectOf;
    TargetProject("lib::cfgkey:lib.toml#tls", "lib", "cfgkey:lib.toml#tls");
  }

  lemma MovingLinks() returns (a: Link, b: Link, c: Link)
    ensures Moving()["infra"].links == [a, b, c]
    ensures forall p :: (PointsInto(a, p) <==> p == "app") && (PointsInto(b, p) <==> p == "app")
                && (PointsInto(c, p) <==> p == "lib")
    ensures a.srcRef == b.srcRef == Some(LINKS_REF) && c.srcRef == None
  {
    HostTarget();
    UserTarget();
    TlsTarget();
    hide ProjectOf;
    a, b, c := Moving()["infra"].links[0], Moving()["infra"].links[1], Moving()["infra"].links[2];
  }

  lemma IntoThree(a: Link, b: Link, c: Link, p: string)
    ensures Into([a, b, c], p)
            == (if PointsInto(a, p) then 1 else 0) + (if PointsInto(b, p) then 1 else 0)
               + (if PointsInto(c, p) then 1 else 0)
    ensures Into([c], p) == if PointsInto(c, p) then 1 else 0
  {
    assert [a] + [b] == [a, b] && [a, b] + [c] == [a, b, c] && [] + [a] == [a] && [] + [c] == [c];
    hide PointsInto, Into;
    NoLinks(p);
    IntoSnoc([], a, p);
    IntoSnoc([a], b, p);
    IntoSnoc([a, b], c, p);
    IntoSnoc([], c, p);
  }

  lemma SurvivorOfThree(a: Link, b: Link, c: Link)
    requires a.srcRef == b.srcRef == Some(LINKS_REF) && c.srcRef == None
    ensures Survivors([a, b, c], LINKS_REF) == [c]
  {
    assert [a] + [b] == [a, b] && [a, b] + [c] == [a, b, c] && [] + [a] == [a] && [] + [c] == [c];
    hide Survivors, LINKS_REF;
    SurvivorsSnoc([], a);
    SurvivorsSnoc([a], b);
    SurvivorsSnoc([a, b], c);
  }

  lemma InfraCounts(p: string)
    ensures var links := Moving()["infra"].links;
            && Into(links, p) == (if p == "app" then 2 else if p == "lib" then 1 else 0)
            && Into(Survivors(links, LINKS_REF), p) == if p == "lib" then 1 else 0
    ensures Into([], p) == 0
  {
    var a, b, c := MovingLinks();
    hide PointsInto, Into, Survivors, LINKS_REF, Moving;
    IntoThree(a, b, c, p);
    SurvivorOfThree(a, b, c);
    NoLinks(p);
  }

  lemma InboundOfThree(a: string, b: string, c: string, stores: Stores, p: string)
    requires a in stores && b in stores && c in stores
    ensures Inbound([a, b, c], stores, p)
            == Into(stores[a].links, p) + Into(stores[b].links, p) + Into(stores[c].links, p)
  {
    hide Into;
    assert [a, b, c][..2] == [a, b] && [a, b][..1] == [a] && [a][..0] == [];
    assert Inbound([], stores, p) == 0;
    assert Inbound([a], stores, p) == Into(stores[a].links, p);
    assert Inbound([a, b], stores, p) == Into(stores[a].links, p) + Into(stores[b].links, p);
  }

  lemma AloneOnTop(names: seq<string>, stores: Stores, hub: string)
    requires (forall n :: n in names ==> n in stores) && hub in names && Inbound(names, stores, hub) > 0
    requires forall p :: p in names && p != hub ==> Inbound(names, stores, p) < Inbound(names, stores, hub)
    ensures Chooses(names, stores, Some(hub))
  {
    hide Inbound, AnyShown, KeysAreShared, HasMostKeys;
  }

  /** A run that adds nothing moves the hub to the one busiest of what it keeps. */
  lemma MovesToKept(nm: Naming, names: seq<string>, hub: string, next: string, before: Stores, after: Stores)
    requires Wrote(nm, names, hub, before, after)
             && (forall n :: n in names ==> n in before && n in Cleared(names, hub, before))
    requires hub in before && Added(nm, names, hub, before) == 0
    requires var kept := Cleared(names, hub, before);
             && next in names && Inbound(names, kept, next) > 0
             && forall p :: p in names && p != next ==> Inbound(names, kept, p) < Inbound(names, kept, next)
    ensures forall n :: n in names ==> n in after
    ensures Chooses(names, after, Some(next))
  {
    hide Wrote, Inbound, Added, Cleared, Chooses;
    WroteIsValid(nm, names, hub, before, after);
    forall p ensures Inbound(names, after, p) == Inbound(names, Cleared(names, hub, before), p) {
      InboundAfter(nm, names, hub, before, after, names, p);
    }
    AloneOnTop(names, after, next);
  }

  lemma HubHasMoved(nm: Naming, mid: Stores)
    requires Wrote(nm, MOVING_NAMES, "app", Moving(), mid)
    ensures forall n :: n in MOVING_NAMES ==> n in Moving() && n in mid
    ensures Chooses(MOVING_NAMES, Moving(), Some("app")) && Chooses(MOVING_NAMES, mid, Some("lib"))
  {
    assert "app" in MOVING_NAMES && "lib" in MOVING_NAMES && "app" != "lib";
    hide *;
    MovingInbound();
    MovingAdds(nm);
    AloneOnTop(MOVING_NAMES, Moving(), "app");
    MovesToKept(nm, MOVING_NAMES, "app", "lib", Moving(), mid);
  }

  /** The first run goes to `app`, two links against one, finds nothing there and
      clears both links; so the second goes to `lib`. */
  lemma SecondRunMovesTheHub(nm: Naming) returns (mid: Stores)
    ensures Wrote(nm, MOVING_NAMES, "app", Moving(), mid)
    ensures forall n :: n in MOVING_NAMES ==> n in Moving() && n in mid
    ensures Chooses(MOVING_NAMES, Moving(), Some("app"))
    ensures Chooses(MOVING_NAMES, mid, Some("lib"))
    ensures !HubStays(nm, MOVING_NAMES, "app", Moving())
  {
    hide Moving, MOVING_NAMES, Wrote, Chooses, HubStays, ValidStores;
    MovingIsValid();
    mid := WriteAll(nm, MOVING_NAMES, "app", Moving());
    HubHasMoved(nm, mid);
    HubStaysIff(nm, MOVING_NAMES, "app", Moving(), mid);
    if HubStays(nm, MOVING_NAMES, "app", Moving()) {
      ChoiceIsUnique(MOVING_NAMES, mid, Some("app"), Some("lib"));
    }
  }

  lemma WriteAll(nm: Naming, names: seq<string>, hub: string, before: Stores) returns (after: Stores)
    requires ValidStores(names, before) && hub in names
    ensures Wrote(nm, names, hub, before, after)
  {
    hide Written, IsProjectName;
    after := map n | n in before ::
      if n in names && n != hub then Written(nm, before[n], hub, before[hub].configKeys) else before[n];
  }

  lemma MovingIsValid()
    ensures ValidStores(MOVING_NAMES, Moving()) && "app" in MOVING_NAMES
  {
    hide IsProjectName;
    ProjectNameIf("app");
    ProjectNameIf("infra");
    ProjectNameIf("lib");
  }

  lemma ProjectNameIf(name: string)
    requires name != "" && ':' !in name
    ensures IsProjectName(name)
  {
    NoColonNoSplit(name);
  }

  lemma MovingInbound()
    ensures forall n :: n in MOVING_NAMES ==> n in Moving() && n in Cleared(MOVING_NAMES, "app", Moving())
    ensures forall p :: Inbound(MOVING_NAMES, Moving(), p) == if p == "app" then 2 else if p == "lib" then 1 else 0
    ensures forall p :: Inbound(MOVING_NAMES, Cleared(MOVING_NAMES, "app", Moving()), p) == if p == "lib" then 1 else 0
  {
    hide Into, Survivors, ProjectOf;
    var kept := Cleared(MOVING_NAMES, "app", Moving());
    SurvivorsSnoc([], LinkTo("", "", Derived, None));
    forall p
      ensures Inbound(MOVING_NAMES, Moving(), p) == if p == "app" then 2 else if p == "lib" then 1 else 0
      ensures Inbound(MOVING_NAMES, kept, p) == if p == "lib" then 1 else 0
    {
      InfraCounts(p);
      InboundOfThree("app", "infra", "lib", Moving(), p);
      InboundOfThree("app", "infra", "lib", kept, p);
    }
  }

  lemma MovingAdds(nm: Naming)
    ensures forall n :: n in MOVING_NAMES ==> n in Moving()
    ensures Added(nm, MOVING_NAMES, "app", Moving()) == 0
  {
    NothingToMatch(nm, Moving()["infra"].configKeys);
    NothingToMatch(nm, Moving()["lib"].configKeys);
    hide Matches, Survivors;
    assert ["app", "infra", "lib"][..2] == ["app", "infra"] && ["app", "infra"][..1] == ["app"] && ["app"][..0] == [];
    assert Moving()["app"].configKeys == [];
    assert Added(nm, [], "app", Moving()) == 0 == Added(nm, ["app"], "app", Moving());
    assert Added(nm, ["app", "infra"], "app", Moving()) == 0;
  }

  lemma {:induction false} NothingToMatch(nm: Naming, keys: seq<ConfigKey>)
    ensures Matches(nm, keys, []) == []
  {
    if keys != [] {
      NothingToMatch(nm, keys[..|keys| - 1]);
      assert Judge(nm, keys[|keys| - 1], []).Orphan?;
    }
  }
}
