/** A spoke's cross-repo links: the persisted ones, the ones inferred live
    against the hub, and writing the inferred ones down. */
module CrossRepoLinks {
  import opened Wrappers
  import opened Sequences
  import opened KeyMatching
  import opened Provenances
  import Ordering

  /** A stored edge to an external-ref placeholder, with the qualified target
      the placeholder stands for and the layer it came from. */
  datatype Link = Link(
    src: string, target: string, kind: string, provenance: Provenance, confidence: Option<real>, srcRef: Option<string>)

  const LINKS_REF := "import:links"
  const REFERENCES := "references"

  datatype SpokeStore = SpokeStore(configKeys: seq<ConfigKey>, links: seq<Link>) {
    /** Config-key nodes have unique node keys. */
    ghost predicate Valid() {
      forall i, j :: 0 <= i < j < |configKeys| ==> SourceKey(configKeys[i]) != SourceKey(configKeys[j])
    }
  }

  datatype ExternalRef = ExternalRef(src: string, target: string, provenance: Provenance, confidence: Option<real>)

  function NodeKey(file: string, key: string): string {
    "cfgkey:" + file + "#" + key
  }

  function SourceKey(c: ConfigKey): string {
    NodeKey(c.file, c.key)
  }

  function Qualified(hub: string, m: KeyMatch): string {
    hub + "::" + NodeKey(m.hubFile, m.hubKey)
  }

  function MatchSource(m: KeyMatch): string {
    NodeKey(m.spokeFile, m.spokeKey)
  }

  // ---- Reading links back ---------------------------------------------------

  /** What the store orders the edges of all placeholders by. */
  function OrderKey(l: Link): seq<string> {
    [l.target, l.src, l.kind, l.provenance.Token()]
  }

  function Place(sorted: seq<Link>, l: Link): seq<Link> {
    if sorted == [] then [l]
    else if Ordering.RowLess(OrderKey(l), OrderKey(sorted[0])) then [l] + sorted
    else [sorted[0]] + Place(sorted[1..], l)
  }

  /** The links as a query returns them: placeholder by placeholder in key
      order, and under each by source, kind and provenance. */
  function InContentOrder(links: seq<Link>): seq<Link> {
    if links == [] then []
    else Place(InContentOrder(links[..|links| - 1]), links[|links| - 1])
  }

  predicate IsShown(l: Link) {
    l.provenance == Inferred || l.provenance == Authored
  }

  function RefOf(l: Link): ExternalRef {
    ExternalRef(l.src, l.target, l.provenance, l.confidence)
  }

  function ShownRefs(links: seq<Link>): seq<ExternalRef> {
    if links == [] then []
    else
      ShownRefs(links[..|links| - 1])
      + var l := links[|links| - 1]; if IsShown(l) then [RefOf(l)] else []
  }

  /** The links this repository declares or infers, in content order; imported
      and derived edges that land on a placeholder are not among them. */
  function ExternalRefs(links: seq<Link>): seq<ExternalRef> {
    ShownRefs(InContentOrder(links))
  }

  ghost predicate Ordered(links: seq<Link>) {
    forall i, j :: 0 <= i < j < |links| ==> !Ordering.RowLess(OrderKey(links[j]), OrderKey(links[i]))
  }

  lemma {:induction false} PlaceKeepsOrder(sorted: seq<Link>, l: Link)
    requires Ordered(sorted)
    ensures Ordered(Place(sorted, l))
    decreases |sorted|
  {
    hide OrderKey, Ordering.RowLess;
    if sorted != [] {
      var head, tail := sorted[0], sorted[1..];
      assert sorted == [head] + tail;
      if Ordering.RowLess(OrderKey(l), OrderKey(head)) {
        forall x | x in sorted ensures !Ordering.RowLess(OrderKey(x), OrderKey(l)) {
          NotBeforeBoth(x, head, l, sorted);
        }
        OrderedCons(l, sorted);
      } else {
        PlaceKeepsOrder(tail, l);
        PlaceAdds(tail, l);
        var placed := Place(tail, l);
        forall x | x in placed ensures !Ordering.RowLess(OrderKey(x), OrderKey(head)) {
          if x != l {
            var k :| 0 <= k < |tail| && tail[k] == x;
            assert sorted[k + 1] == x;
          }
        }
        OrderedCons(head, placed);
      }
    }
  }

  lemma OrderedCons(head: Link, rest: seq<Link>)
    requires Ordered(rest) && forall x :: x in rest ==> !Ordering.RowLess(OrderKey(x), OrderKey(head))
    ensures Ordered([head] + rest)
  {
    hide OrderKey, Ordering.RowLess;
  }

  lemma {:induction false} PlaceAdds(sorted: seq<Link>, l: Link)
    ensures multiset(Place(sorted, l)) == multiset(sorted) + multiset{l}
    ensures forall x :: x in Place(sorted, l) <==> x in sorted || x == l
    decreases |sorted|
  {
    hide OrderKey;
    if sorted != [] {
      PlaceAdds(sorted[1..], l);
      assert sorted == [sorted[0]] + sorted[1..];
    }
  }

  lemma NotBeforeBoth(x: Link, head: Link, l: Link, sorted: seq<Link>)
    requires Ordered(sorted) && x in sorted && sorted[0] == head
    requires Ordering.RowLess(OrderKey(l), OrderKey(head))
    ensures !Ordering.RowLess(OrderKey(x), OrderKey(l))
  {
    hide OrderKey;
    if Ordering.RowLess(OrderKey(x), OrderKey(l)) {
      Ordering.RowLessIsTransitive(OrderKey(x), OrderKey(l), OrderKey(head));
      Ordering.RowLessIsTotal(OrderKey(x), OrderKey(head));
    }
  }

  /** Reading returns exactly the stored links, in the order of target, source,
      kind and provenance, however they were stored. */
  lemma {:induction false} ReadInContentOrder(links: seq<Link>)
    ensures Ordered(InContentOrder(links)) && multiset(InContentOrder(links)) == multiset(links)
    ensures forall l :: l in InContentOrder(links) <==> l in links
  {
    hide OrderKey, Place;
    if links != [] {
      var front, last := links[..|links| - 1], links[|links| - 1];
      ReadInContentOrder(front);
      PlaceKeepsOrder(InContentOrder(front), last);
      PlaceAdds(InContentOrder(front), last);
      assert links == front + [last];
    }
  }

  /** Of two links read, the earlier does not have the greater target; under one
      target, not the greater source; under one source, not the greater kind; and
      then not the later provenance. */
  lemma ContentOrderIs(links: seq<Link>, i: int, j: int)
    requires 0 <= i < j < |InContentOrder(links)|
    ensures var a, b := InContentOrder(links)[i], InContentOrder(links)[j];
            if a.target != b.target then Ordering.Less(a.target, b.target)
            else if a.src != b.src then Ordering.Less(a.src, b.src)
            else if a.kind != b.kind then Ordering.Less(a.kind, b.kind)
            else a.provenance.Token() == b.provenance.Token()
                 || Ordering.Less(a.provenance.Token(), b.provenance.Token())
  {
    hide InContentOrder, Ordering.Less;
    ReadInContentOrder(links);
    KeysInOrder(InContentOrder(links)[i], InContentOrder(links)[j]);
  }

  lemma KeysInOrder(a: Link, b: Link)
    requires !Ordering.RowLess(OrderKey(b), OrderKey(a))
    ensures if a.target != b.target then Ordering.Less(a.target, b.target)
            else if a.src != b.src then Ordering.Less(a.src, b.src)
            else if a.kind != b.kind then Ordering.Less(a.kind, b.kind)
            else a.provenance.Token() == b.provenance.Token()
                 || Ordering.Less(a.provenance.Token(), b.provenance.Token())
  {
    hide Ordering.Less;
    var x, y := OrderKey(a), OrderKey(b);
    var k := if a.target != b.target then 0 else if a.src != b.src then 1 else if a.kind != b.kind then 2 else 3;
    assert x[..k] == y[..k];
    if x[k] != y[k] {
      Ordering.LessIsTotal(x[k], y[k]);
      Ordering.RowLessIs(y, x, k);
    }
  }

  lemma {:induction false} ShownRefsAre(links: seq<Link>)
    ensures forall r :: r in ShownRefs(links) <==> exists l :: l in links && IsShown(l) && r == RefOf(l)
  {
    hide RefOf, IsShown;
    if links != [] {
      ShownRefsAre(links[..|links| - 1]);
      assert forall l :: l in links <==> l in links[..|links| - 1] || l == links[|links| - 1];
    }
  }

  lemma ExternalRefsAre(links: seq<Link>)
    ensures forall r :: r in ExternalRefs(links) <==> exists l :: l in links && IsShown(l) && r == RefOf(l)
  {
    hide RefOf, IsShown, InContentOrder, ShownRefs;
    ShownRefsAre(InContentOrder(links));
    ReadInContentOrder(links);
  }

  function Live(hub: string, m: KeyMatch): ExternalRef {
    ExternalRef(MatchSource(m), Qualified(hub, m), Inferred, Some(m.confidence))
  }

  function Sources(refs: seq<ExternalRef>): set<string> {
    set r | r in refs :: r.src
  }

  function Pair(r: ExternalRef): (string, string) {
    (r.src, r.target)
  }

  function Pairs(refs: seq<ExternalRef>): set<(string, string)> {
    set r | r in refs :: Pair(r)
  }

  /** The matches no persisted link covers, as links. */
  function LiveRefs(hub: string, matches: seq<KeyMatch>, persisted: set<string>): seq<ExternalRef> {
    if matches == [] then []
    else
      LiveRefs(hub, matches[..|matches| - 1], persisted)
      + var m := matches[|matches| - 1];
        if MatchSource(m) in persisted then [] else [Live(hub, m)]
  }

  /** Each (source, target) under its first entry. */
  function FirstOfEachPair(refs: seq<ExternalRef>): seq<ExternalRef> {
    if refs == [] then []
    else
      var front := refs[..|refs| - 1];
      var r := refs[|refs| - 1];
      FirstOfEachPair(front) + if Pair(r) in Pairs(front) then [] else [r]
  }

  function Uncovered(orphans: seq<ConfigKey>, persisted: set<string>): seq<ConfigKey> {
    if orphans == [] then []
    else
      Uncovered(orphans[..|orphans| - 1], persisted)
      + var o := orphans[|orphans| - 1];
        if SourceKey(o) in persisted then [] else [o]
  }

  function ViewRefs(nm: Naming, store: SpokeStore, hub: string, hubKeys: seq<ConfigKey>): seq<ExternalRef> {
    var stored := ExternalRefs(store.links);
    FirstOfEachPair(stored + LiveRefs(hub, Matches(nm, store.configKeys, hubKeys), Sources(stored)))
  }

  function ViewOrphans(nm: Naming, store: SpokeStore, hubKeys: seq<ConfigKey>): seq<ConfigKey> {
    Uncovered(Orphans(nm, store.configKeys, hubKeys), Sources(ExternalRefs(store.links)))
  }

  /** The persisted links merged with the live ones, and the live drift. */
  method SpokeCorrespondence(nm: Naming, store: SpokeStore, hub: Option<string>, hubKeys: seq<ConfigKey>)
    returns (refs: seq<ExternalRef>, orphans: seq<ConfigKey>)
    ensures hub.None? ==> refs == ExternalRefs(store.links) && orphans == []
    ensures hub.Some? ==> refs == ViewRefs(nm, store, hub.value, hubKeys)
    ensures hub.Some? ==> orphans == ViewOrphans(nm, store, hubKeys)
  {
    hide FirstOfEachPair, ExternalRefs, Matches, Orphans, Live, MatchSource, SourceKey;
    refs, orphans := ExternalRefs(store.links), [];
    if hub.None? {
      return;
    }
    var stored := refs;
    var persisted := Sources(refs);
    var matches, keyOrphans := MatchAgainstHub(nm, store.configKeys, hubKeys);
    for i := 0 to |matches|
      invariant refs == stored + LiveRefs(hub.value, matches[..i], persisted)
    {
      assert matches[..i + 1][..i] == matches[..i];
      if MatchSource(matches[i]) in persisted {
        continue;
      }
      refs := refs + [Live(hub.value, matches[i])];
    }
    assert matches[..|matches|] == matches;
    refs := RetainFirst(refs);
    for i := 0 to |keyOrphans|
      invariant orphans == Uncovered(keyOrphans[..i], persisted)
    {
      assert keyOrphans[..i + 1][..i] == keyOrphans[..i];
      if SourceKey(keyOrphans[i]) !in persisted {
        orphans := orphans + [keyOrphans[i]];
      }
    }
    assert keyOrphans[..|keyOrphans|] == keyOrphans;
  }

  method RetainFirst(refs: seq<ExternalRef>) returns (kept: seq<ExternalRef>)
    ensures kept == FirstOfEachPair(refs)
  {
    kept := [];
    var seen: set<(string, string)> := {};
    for i := 0 to |refs|
      invariant seen == Pairs(refs[..i]) && kept == FirstOfEachPair(refs[..i])
    {
      assert refs[..i + 1] == refs[..i] + [refs[i]];
      assert refs[..i + 1][..i] == refs[..i];
      if Pair(refs[i]) !in seen {
        kept := kept + [refs[i]];
      }
      seen := seen + {Pair(refs[i])};
    }
    assert refs[..|refs|] == refs;
  }

  // ---- Writing --------------------------------------------------------------

  /** What is written down for a match. */
  function FactOf(hub: string, m: KeyMatch): Link {
    Link(MatchSource(m), Qualified(hub, m), REFERENCES, Inferred, Some(m.confidence), Some(LINKS_REF))
  }

  function LinkFacts(hub: string, matches: seq<KeyMatch>): (facts: seq<Link>)
    ensures |facts| == |matches|
    ensures forall i :: 0 <= i < |matches| ==> facts[i] == FactOf(hub, matches[i])
  {
    seq(|matches|, i requires 0 <= i < |matches| => FactOf(hub, matches[i]))
  }

  /** Edges are unique by source, target, kind and provenance; a second one is a
      no-op. */
  function Insert(links: seq<Link>, l: Link): seq<Link> {
    if exists k :: k in links && OrderKey(k) == OrderKey(l) then links else links + [l]
  }

  function InsertAll(links: seq<Link>, facts: seq<Link>): seq<Link> {
    if facts == [] then links
    else Insert(InsertAll(links, facts[..|facts| - 1]), facts[|facts| - 1])
  }

  function Survivors(links: seq<Link>, srcRef: string): seq<Link> {
    if links == [] then []
    else
      Survivors(links[..|links| - 1], srcRef)
      + if links[|links| - 1].srcRef == Some(srcRef) then [] else [links[|links| - 1]]
  }

  /** The authoritative import of a layer: its earlier edges go, its new ones
      are inserted. */
  function ApplyImportLayer(store: SpokeStore, srcRef: string, facts: seq<Link>): SpokeStore {
    store.(links := InsertAll(Survivors(store.links, srcRef), facts))
  }

  function Written(nm: Naming, store: SpokeStore, hub: string, hubKeys: seq<ConfigKey>): SpokeStore {
    ApplyImportLayer(store, LINKS_REF, LinkFacts(hub, Matches(nm, store.configKeys, hubKeys)))
  }

  lemma WrittenIs(nm: Naming, store: SpokeStore, hub: string, hubKeys: seq<ConfigKey>)
    ensures Written(nm, store, hub, hubKeys) ==
            ApplyImportLayer(store, LINKS_REF, LinkFacts(hub, Matches(nm, store.configKeys, hubKeys)))
  {
  }

  // ---- What the merged view promises ----------------------------------------

  lemma {:induction false} MatchesAre(nm: Naming, spoke: seq<ConfigKey>, hub: seq<ConfigKey>)
    ensures forall m :: m in Matches(nm, spoke, hub) <==>
              exists s :: s in spoke && !Judge(nm, s, hub).Orphan? && m == MatchOf(s, Judge(nm, s, hub))
    ensures forall o :: o in Orphans(nm, spoke, hub) <==> o in spoke && Judge(nm, o, hub).Orphan?
  {
    hide Judge, MatchOf;
    if spoke != [] {
      MatchesAre(nm, spoke[..|spoke| - 1], hub);
      assert forall s :: s in spoke <==> s in spoke[..|spoke| - 1] || s == spoke[|spoke| - 1];
    }
  }

  lemma MatchSourceIs(s: ConfigKey, v: Verdict)
    requires !v.Orphan?
    ensures MatchSource(MatchOf(s, v)) == SourceKey(s)
  {
  }

  lemma {:induction false} LiveRefsAre(hub: string, matches: seq<KeyMatch>, persisted: set<string>)
    ensures forall r :: r in LiveRefs(hub, matches, persisted) <==>
              exists m :: m in matches && MatchSource(m) !in persisted && r == Live(hub, m)
  {
    hide Live, MatchSource;
    if matches != [] {
      LiveRefsAre(hub, matches[..|matches| - 1], persisted);
      assert forall m :: m in matches <==> m in matches[..|matches| - 1] || m == matches[|matches| - 1];
    }
  }

  lemma PairsSnoc(refs: seq<ExternalRef>, r: ExternalRef)
    ensures Pairs(refs + [r]) == Pairs(refs) + {Pair(r)}
  {
  }

  ghost predicate DistinctPairs(refs: seq<ExternalRef>) {
    forall i, j :: 0 <= i < j < |refs| ==> Pair(refs[i]) != Pair(refs[j])
  }

  lemma DistinctPairsSnoc(refs: seq<ExternalRef>, r: ExternalRef)
    requires DistinctPairs(refs) && forall x :: x in refs ==> Pair(x) != Pair(r)
    ensures DistinctPairs(refs + [r])
  {
    hide Pair;
  }

  lemma NoPairs()
    ensures DistinctPairs([])
  {
  }

  lemma InPairs(refs: seq<ExternalRef>, r: ExternalRef)
    ensures r in refs ==> Pair(r) in Pairs(refs)
  {
  }

  lemma {:induction false} FirstOfEachPairIs(refs: seq<ExternalRef>)
    ensures Pairs(FirstOfEachPair(refs)) == Pairs(refs)
    ensures forall r :: r in FirstOfEachPair(refs) ==> r in refs
    ensures DistinctPairs(FirstOfEachPair(refs))
  {
    hide Pair, Pairs, DistinctPairs;
    if refs == [] {
      NoPairs();
    } else {
      var front, r := refs[..|refs| - 1], refs[|refs| - 1];
      FirstOfEachPairIs(front);
      var kept := FirstOfEachPair(front);
      assert refs == front + [r];
      PairsSnoc(front, r);
      PairsSnoc(kept, r);
      if Pair(r) in Pairs(front) {
        assert kept + [] == kept;
      } else {
        forall x | x in kept ensures Pair(x) != Pair(r) {
          InPairs(kept, x);
        }
        DistinctPairsSnoc(kept, r);
      }
    }
  }

  lemma {:induction false} UncoveredAre(orphans: seq<ConfigKey>, persisted: set<string>)
    ensures forall o :: o in Uncovered(orphans, persisted) <==> o in orphans && SourceKey(o) !in persisted
  {
    hide SourceKey;
    if orphans != [] {
      UncoveredAre(orphans[..|orphans| - 1], persisted);
      assert forall o :: o in orphans <==> o in orphans[..|orphans| - 1] || o == orphans[|orphans| - 1];
    }
  }

  /** No two links of the view share a source and a target, and its pairs are
      those of the persisted and the live links together. */
  lemma ViewPairs(nm: Naming, store: SpokeStore, hub: string, hubKeys: seq<ConfigKey>)
    ensures var view, stored := ViewRefs(nm, store, hub, hubKeys), ExternalRefs(store.links);
            && (forall i, j :: 0 <= i < j < |view| ==> Pair(view[i]) != Pair(view[j]))
            && Pairs(view)
               == Pairs(stored) + Pairs(LiveRefs(hub, Matches(nm, store.configKeys, hubKeys), Sources(stored)))
  {
    var stored := ExternalRefs(store.links);
    var live := LiveRefs(hub, Matches(nm, store.configKeys, hubKeys), Sources(stored));
    FirstOfEachPairIs(stored + live);
    assert Pairs(stored + live) == Pairs(stored) + Pairs(live);
  }

  /** Every key of the spoke is accounted for once: covered by persisted links
      alone, or by the one live link its match gives, or an orphan. */
  lemma EveryKeyAccountedOnce(nm: Naming, store: SpokeStore, hub: string, hubKeys: seq<ConfigKey>, s: ConfigKey)
    requires store.Valid() && s in store.configKeys
    ensures var stored, view, orphans :=
            ExternalRefs(store.links), ViewRefs(nm, store, hub, hubKeys), ViewOrphans(nm, store, hubKeys);
            var v := Judge(nm, s, hubKeys);
            if SourceKey(s) in Sources(stored) then
              && s !in orphans
              && (forall r :: r in view && r.src == SourceKey(s) ==> r in stored)
            else if v.Orphan? then
              && s in orphans
              && (forall r :: r in view ==> r.src != SourceKey(s))
            else
              && s !in orphans
              && Live(hub, MatchOf(s, v)) in view
              && (forall r :: r in view && r.src == SourceKey(s) ==> r == Live(hub, MatchOf(s, v)))
  {
    hide Judge, MatchOf, FirstOfEachPair, LiveRefs, ExternalRefs, Uncovered, Matches, Orphans, Live, SourceKey,
        MatchSource;
    var stored := ExternalRefs(store.links);
    var persisted, matches := Sources(stored), Matches(nm, store.configKeys, hubKeys);
    var live := LiveRefs(hub, matches, persisted);
    MatchesAre(nm, store.configKeys, hubKeys);
    LiveRefsAre(hub, matches, persisted);
    FirstOfEachPairIs(stored + live);
    UncoveredAre(Orphans(nm, store.configKeys, hubKeys), persisted);
    forall r | r in live && r.src == SourceKey(s)
      ensures r.src !in persisted && !Judge(nm, s, hubKeys).Orphan? && r == Live(hub, MatchOf(s, Judge(nm, s, hubKeys)))
    {
      LiveSourceIsTheKey(nm, store, hub, hubKeys, s, r);
    }
    forall r | r in stored ensures r.src in persisted {
    }
    if SourceKey(s) !in persisted && !Judge(nm, s, hubKeys).Orphan? {
      var own := Live(hub, MatchOf(s, Judge(nm, s, hubKeys)));
      MatchSourceIs(s, Judge(nm, s, hubKeys));
      assert own in live;
      LiveSource(hub, MatchOf(s, Judge(nm, s, hubKeys)));
      assert own in stored + live;
      assert Pair(own) in Pairs(stored + live);
      var r :| r in FirstOfEachPair(stored + live) && Pair(r) == Pair(own);
    }
  }

  lemma LiveSource(hub: string, m: KeyMatch)
    ensures Live(hub, m).src == MatchSource(m)
  {
  }

  lemma LiveSourceIsTheKey(
    nm: Naming, store: SpokeStore, hub: string, hubKeys: seq<ConfigKey>, s: ConfigKey, r: ExternalRef)
    requires store.Valid() && s in store.configKeys && r.src == SourceKey(s)
    requires r in LiveRefs(hub, Matches(nm, store.configKeys, hubKeys), Sources(ExternalRefs(store.links)))
    ensures r.src !in Sources(ExternalRefs(store.links))
    ensures !Judge(nm, s, hubKeys).Orphan? && r == Live(hub, MatchOf(s, Judge(nm, s, hubKeys)))
  {
    hide Judge, MatchOf, LiveRefs, ExternalRefs, Matches, Live, SourceKey, MatchSource;
    var matches, persisted := Matches(nm, store.configKeys, hubKeys), Sources(ExternalRefs(store.links));
    LiveRefsAre(hub, matches, persisted);
    MatchesAre(nm, store.configKeys, hubKeys);
    var m :| m in matches && MatchSource(m) !in persisted && r == Live(hub, m);
    var t :| t in store.configKeys && !Judge(nm, t, hubKeys).Orphan? && m == MatchOf(t, Judge(nm, t, hubKeys));
    MatchSourceIs(t, Judge(nm, t, hubKeys));
    LiveSource(hub, m);
    SourceKeysDistinguish(store, s, t);
  }

  lemma SourceKeysDistinguish(store: SpokeStore, a: ConfigKey, b: ConfigKey)
    requires store.Valid() && a in store.configKeys && b in store.configKeys && SourceKey(a) == SourceKey(b)
    ensures a == b
  {
    hide SourceKey;
    var i :| 0 <= i < |store.configKeys| && store.configKeys[i] == a;
    var j :| 0 <= j < |store.configKeys| && store.configKeys[j] == b;
  }

  // ---- What writing keeps ---------------------------------------------------

  lemma SurvivorsSnoc(links: seq<Link>, l: Link)
    ensures Survivors([], LINKS_REF) == []
    ensures Survivors(links + [l], LINKS_REF) ==
            if l.srcRef == Some(LINKS_REF) then Survivors(links, LINKS_REF) else Survivors(links, LINKS_REF) + [l]
  {
    hide LINKS_REF;
    assert (links + [l])[..|links|] == links;
  }

  lemma {:induction false} SurvivorsOfInserted(links: seq<Link>, facts: seq<Link>)
    requires forall l :: l in links ==> l.srcRef != Some(LINKS_REF)
    requires forall l :: l in facts ==> l.srcRef == Some(LINKS_REF)
    ensures Survivors(InsertAll(links, facts), LINKS_REF) == links
  {
    hide Survivors, LINKS_REF, OrderKey;
    if facts == [] {
      AllSurvive(links);
    } else {
      var l := facts[|facts| - 1];
      assert l in facts;
      SurvivorsOfInserted(links, facts[..|facts| - 1]);
      SurvivorsSnoc(InsertAll(links, facts[..|facts| - 1]), l);
    }
  }

  lemma {:induction false} AllSurvive(links: seq<Link>)
    requires forall l :: l in links ==> l.srcRef != Some(LINKS_REF)
    ensures Survivors(links, LINKS_REF) == links
  {
    hide Survivors, LINKS_REF;
    if links == [] {
      SurvivorsSnoc([], Link("", "", "", Derived, None, None));
    } else {
      var front, l := links[..|links| - 1], links[|links| - 1];
      assert l in links && links == front + [l];
      AllSurvive(front);
      SurvivorsSnoc(front, l);
    }
  }

  lemma {:induction false} SurvivorsAre(links: seq<Link>)
    ensures forall l :: l in Survivors(links, LINKS_REF) <==> l in links && l.srcRef != Some(LINKS_REF)
  {
    hide Survivors, LINKS_REF;
    if links == [] {
      SurvivorsSnoc([], Link("", "", "", Derived, None, None));
    } else {
      var front, l := links[..|links| - 1], links[|links| - 1];
      assert links == front + [l];
      SurvivorsAre(front);
      SurvivorsSnoc(front, l);
    }
  }

  /** Writing twice is writing once, whatever the store held. */
  lemma WritingIsIdempotent(nm: Naming, store: SpokeStore, hub: string, hubKeys: seq<ConfigKey>)
    ensures Written(nm, Written(nm, store, hub, hubKeys), hub, hubKeys) == Written(nm, store, hub, hubKeys)
  {
    hide Matches;
    SurvivorsAre(store.links);
    SurvivorsOfInserted(Survivors(store.links, LINKS_REF), LinkFacts(hub, Matches(nm, store.configKeys, hubKeys)));
  }

  function MatchPairs(hub: string, matches: seq<KeyMatch>): set<(string, string)> {
    set m | m in matches :: (MatchSource(m), Qualified(hub, m))
  }

  lemma {:induction false} RefsOfInserted(links: seq<Link>, hub: string, matches: seq<KeyMatch>)
    ensures var refs := ExternalRefs(InsertAll(links, LinkFacts(hub, matches)));
            && Pairs(refs) == Pairs(ExternalRefs(links)) + MatchPairs(hub, matches)
            && Sources(refs) == Sources(ExternalRefs(links)) + set m | m in matches :: MatchSource(m)
  {
    hide MatchSource, Qualified, ExternalRefs, Insert, Pairs, Sources;
    if matches == [] {
      assert LinkFacts(hub, matches) == [];
    } else {
      var front, m := matches[..|matches| - 1], matches[|matches| - 1];
      RefsOfInserted(links, hub, front);
      var facts := LinkFacts(hub, matches);
      assert facts[..|facts| - 1] == LinkFacts(hub, front);
      assert matches == front + [m];
      MatchPairsSnoc(hub, front, m);
      RefsOfInsert(InsertAll(links, LinkFacts(hub, front)), facts[|facts| - 1]);
    }
  }

  lemma MatchPairsSnoc(hub: string, front: seq<KeyMatch>, m: KeyMatch)
    ensures MatchPairs(hub, front + [m]) == MatchPairs(hub, front) + {(MatchSource(m), Qualified(hub, m))}
    ensures (set x | x in front + [m] :: MatchSource(x)) == (set x | x in front :: MatchSource(x)) + {MatchSource(m)}
  {
  }

  lemma RefsOfInsert(links: seq<Link>, l: Link)
    requires l.provenance == Inferred
    ensures Pairs(ExternalRefs(Insert(links, l))) == Pairs(ExternalRefs(links)) + {(l.src, l.target)}
    ensures Sources(ExternalRefs(Insert(links, l))) == Sources(ExternalRefs(links)) + {l.src}
  {
    hide ExternalRefs;
    ExternalRefsAre(links);
    ExternalRefsAre(Insert(links, l));
    if exists k :: k in links && OrderKey(k) == OrderKey(l) {
      var k :| k in links && OrderKey(k) == OrderKey(l);
      SameKeySameEdge(k, l);
      assert RefOf(k) in ExternalRefs(links) && Pair(RefOf(k)) == (l.src, l.target);
    } else {
      assert RefOf(l) in ExternalRefs(Insert(links, l)) && Pair(RefOf(l)) == (l.src, l.target);
      forall r ensures r in ExternalRefs(Insert(links, l)) <==> r in ExternalRefs(links) || r == RefOf(l) {
      }
    }
  }

  lemma SameKeySameEdge(a: Link, b: Link)
    requires OrderKey(a) == OrderKey(b)
    ensures a.src == b.src && a.target == b.target && a.kind == b.kind && a.provenance == b.provenance
  {
    assert OrderKey(a)[0] == a.target && OrderKey(a)[1] == a.src && OrderKey(a)[2] == a.kind;
    assert OrderKey(a)[3] == a.provenance.Token() && OrderKey(b)[3] == b.provenance.Token();
    TokensDiffer(a.provenance, b.provenance);
  }

  lemma TokensDiffer(p: Provenance, q: Provenance)
    requires p.Token() == q.Token()
    ensures p == q
  {
    assert p.Token()[0] == q.Token()[0];
    if p.Token()[0] == 'e' {
      assert p.Token()[9] == q.Token()[9];
    }
  }

  lemma {:induction false} CoveredMatchesAreNotLive(hub: string, matches: seq<KeyMatch>, persisted: set<string>)
    requires forall m :: m in matches ==> MatchSource(m) in persisted
    ensures LiveRefs(hub, matches, persisted) == []
  {
    if matches != [] {
      CoveredMatchesAreNotLive(hub, matches[..|matches| - 1], persisted);
    }
  }

  /** After writing, the view shows every surviving link and every match. */
  lemma ViewAfterWriting(nm: Naming, store: SpokeStore, hub: string, hubKeys: seq<ConfigKey>)
    ensures Pairs(ViewRefs(nm, Written(nm, store, hub, hubKeys), hub, hubKeys)) ==
            Pairs(ExternalRefs(Survivors(store.links, LINKS_REF)))
            + MatchPairs(hub, Matches(nm, store.configKeys, hubKeys))
  {
    hide Matches, MatchSource, Qualified, ExternalRefs, LiveRefs, ViewRefs, InsertAll, Survivors;
    var matches, written := Matches(nm, store.configKeys, hubKeys), Written(nm, store, hub, hubKeys);
    RefsOfInserted(Survivors(store.links, LINKS_REF), hub, matches);
    CoveredMatchesAreNotLive(hub, matches, Sources(ExternalRefs(written.links)));
    ViewPairs(nm, written, hub, hubKeys);
    assert Pairs([]) == {};
  }

  /** A write leaves the linked pairs of the view as they were exactly when no
      link of an earlier write has gone stale, and no match adds a second target
      to a key that a stored link already covers. */
  lemma WritingKeepsPairsIff(nm: Naming, store: SpokeStore, hub: string, hubKeys: seq<ConfigKey>)
    ensures var matches, stored := Matches(nm, store.configKeys, hubKeys), ExternalRefs(store.links);
            Pairs(ViewRefs(nm, Written(nm, store, hub, hubKeys), hub, hubKeys))
                == Pairs(ViewRefs(nm, store, hub, hubKeys))
            <==>
            && (forall p :: p in Pairs(stored) ==>
                  p in Pairs(ExternalRefs(Survivors(store.links, LINKS_REF))) || p in MatchPairs(hub, matches))
            && (forall m :: m in matches && MatchSource(m) in Sources(stored) ==>
                  (MatchSource(m), Qualified(hub, m)) in Pairs(stored))
  {
    hide Matches, MatchSource, Qualified, ExternalRefs, LiveRefs, ViewRefs, Written, Live, Pairs, Sources, Survivors;
    var matches, stored := Matches(nm, store.configKeys, hubKeys), ExternalRefs(store.links);
    var kept := ExternalRefs(Survivors(store.links, LINKS_REF));
    ViewAfterWriting(nm, store, hub, hubKeys);
    ViewPairs(nm, store, hub, hubKeys);
    PairsOfLive(hub, matches, Sources(stored), LiveRefs(hub, matches, Sources(stored)));
    SurvivorsAreStored(store.links);
    SourcesOfPairs(stored);
    PairsBalance(hub, matches, Pairs(stored), Pairs(kept), Sources(stored));
  }

  lemma SourcesOfPairs(refs: seq<ExternalRef>)
    ensures forall p :: p in Pairs(refs) ==> p.0 in Sources(refs)
    ensures forall x :: x in Sources(refs) ==> exists p :: p in Pairs(refs) && p.0 == x
  {
    forall r | r in refs ensures Pair(r) in Pairs(refs) && Pair(r).0 == r.src {
    }
  }

  lemma SurvivorsAreStored(links: seq<Link>)
    ensures Pairs(ExternalRefs(Survivors(links, LINKS_REF))) <= Pairs(ExternalRefs(links))
    ensures Sources(ExternalRefs(Survivors(links, LINKS_REF))) <= Sources(ExternalRefs(links))
  {
    hide ExternalRefs, Survivors, IsShown, RefOf;
    SurvivorsAre(links);
    ExternalRefsAre(links);
    ExternalRefsAre(Survivors(links, LINKS_REF));
  }

  lemma PairsBalance(
    hub: string, matches: seq<KeyMatch>, stored: set<(string, string)>, kept: set<(string, string)>,
        sources: set<string>)
    requires kept <= stored && forall p :: p in stored ==> p.0 in sources
    ensures kept + MatchPairs(hub, matches)
            == stored + (set m | m in matches && MatchSource(m) !in sources :: (MatchSource(m), Qualified(hub, m)))
            <==>
            && (forall p :: p in stored ==> p in kept || p in MatchPairs(hub, matches))
            && (forall m :: m in matches && MatchSource(m) in sources ==> (MatchSource(m), Qualified(hub, m)) in stored)
  {
    hide MatchSource, Qualified;
    var after := kept + MatchPairs(hub, matches);
    var live := set m | m in matches && MatchSource(m) !in sources :: (MatchSource(m), Qualified(hub, m));
    forall m | m in matches ensures (MatchSource(m), Qualified(hub, m)) in MatchPairs(hub, matches) {
    }
    if after == stored + live {
      forall p | p in stored ensures p in kept || p in MatchPairs(hub, matches) {
        assert p in after;
      }
      forall m | m in matches && MatchSource(m) in sources ensures (MatchSource(m), Qualified(hub, m)) in stored {
        assert (MatchSource(m), Qualified(hub, m)) in after;
      }
    }
    if (forall p :: p in stored ==> p in kept || p in MatchPairs(hub, matches))
      && (forall m :: m in matches && MatchSource(m) in sources ==> (MatchSource(m), Qualified(hub, m)) in stored)
    {
      forall p ensures p in after <==> p in stored + live {
      }
    }
  }

  lemma LivePair(hub: string, m: KeyMatch)
    ensures Pair(Live(hub, m)) == (MatchSource(m), Qualified(hub, m)) && Live(hub, m).src == MatchSource(m)
  {
  }

  lemma PairsOfLive(hub: string, matches: seq<KeyMatch>, persisted: set<string>, live: seq<ExternalRef>)
    requires live == LiveRefs(hub, matches, persisted)
    ensures Pairs(live) == set m | m in matches && MatchSource(m) !in persisted :: (MatchSource(m), Qualified(hub, m))
  {
    hide MatchSource, Qualified, LiveRefs, Live;
    LiveRefsAre(hub, matches, persisted);
    forall m ensures Pair(Live(hub, m)) == (MatchSource(m), Qualified(hub, m)) {
      LivePair(hub, m);
    }
    forall m | m in matches && MatchSource(m) !in persisted ensures (MatchSource(m), Qualified(hub, m)) in Pairs(live) {
      assert Live(hub, m) in live;
    }
  }

  /** A write leaves the drift as it was exactly when every orphan a stored link
      covers is covered by a link that survives the write. */
  lemma WritingKeepsOrphansIff(nm: Naming, store: SpokeStore, hub: string, hubKeys: seq<ConfigKey>)
    requires store.Valid()
    ensures ViewOrphans(nm, Written(nm, store, hub, hubKeys), hubKeys) == ViewOrphans(nm, store, hubKeys)
            <==>
            forall o ::
              o in Orphans(nm, store.configKeys, hubKeys) && SourceKey(o) in Sources(ExternalRefs(store.links)) ==>
              SourceKey(o) in Sources(ExternalRefs(Survivors(store.links, LINKS_REF)))
  {
    hide Matches, Orphans, MatchSource, ExternalRefs, InsertAll, Survivors, Uncovered, SourceKey, LinkFacts;
    var matches, orphans := Matches(nm, store.configKeys, hubKeys), Orphans(nm, store.configKeys, hubKeys);
    var kept := Survivors(store.links, LINKS_REF);
    var before, after := Sources(ExternalRefs(store.links)),
        Sources(ExternalRefs(Written(nm, store, hub, hubKeys).links));
    RefsOfInserted(kept, hub, matches);
    OrphansAreNoMatch(nm, store, hubKeys);
    SurvivorsAreStored(store.links);
    UncoveredAre(orphans, before);
    UncoveredAre(orphans, after);
    if forall o :: o in orphans && SourceKey(o) in before ==> SourceKey(o) in Sources(ExternalRefs(kept)) {
      UncoveredCongruent(orphans, before, after);
    } else {
      var o :| o in orphans && SourceKey(o) in before && SourceKey(o) !in Sources(ExternalRefs(kept));
      assert o in Uncovered(orphans, after) && o !in Uncovered(orphans, before);
    }
  }

  lemma OrphansAreNoMatch(nm: Naming, store: SpokeStore, hubKeys: seq<ConfigKey>)
    requires store.Valid()
    ensures forall o, m ::
              o in Orphans(nm, store.configKeys, hubKeys) && m in Matches(nm, store.configKeys, hubKeys) ==>
              SourceKey(o) != MatchSource(m)
  {
    hide Matches, Orphans, MatchSource, Judge, MatchOf, SourceKey;
    MatchesAre(nm, store.configKeys, hubKeys);
    forall o, m | o in Orphans(nm, store.configKeys, hubKeys) && m in Matches(nm, store.configKeys, hubKeys)
      ensures SourceKey(o) != MatchSource(m)
    {
      var s :| s in store.configKeys && !Judge(nm, s, hubKeys).Orphan? && m == MatchOf(s, Judge(nm, s, hubKeys));
      MatchSourceIs(s, Judge(nm, s, hubKeys));
      if SourceKey(o) == SourceKey(s) {
        SourceKeysDistinguish(store, o, s);
      }
    }
  }

  lemma {:induction false} UncoveredCongruent(orphans: seq<ConfigKey>, p: set<string>, q: set<string>)
    requires forall o :: o in orphans ==> (SourceKey(o) in p <==> SourceKey(o) in q)
    ensures Uncovered(orphans, p) == Uncovered(orphans, q)
  {
    if orphans != [] {
      assert orphans[|orphans| - 1] in orphans;
      UncoveredCongruent(orphans[..|orphans| - 1], p, q);
    }
  }

  ghost predicate DistinctSources(ms: seq<KeyMatch>) {
    forall i, j :: 0 <= i < j < |ms| ==> MatchSource(ms[i]) != MatchSource(ms[j])
  }

  lemma {:induction false} MatchSourcesDistinct(nm: Naming, keys: seq<ConfigKey>, hubKeys: seq<ConfigKey>)
    requires forall i, j :: 0 <= i < j < |keys| ==> SourceKey(keys[i]) != SourceKey(keys[j])
    ensures DistinctSources(Matches(nm, keys, hubKeys))
  {
    hide Judge, MatchOf, SourceKey, MatchSource;
    if keys != [] {
      var front, s := keys[..|keys| - 1], keys[|keys| - 1];
      var ms := Matches(nm, front, hubKeys);
      MatchSourcesDistinct(nm, front, hubKeys);
      MatchesAre(nm, front, hubKeys);
      if Judge(nm, s, hubKeys).Orphan? {
        assert Matches(nm, keys, hubKeys) == ms + [] == ms;
      } else {
        MatchSourceIs(s, Judge(nm, s, hubKeys));
        forall m | m in ms ensures MatchSource(m) != SourceKey(s) {
          var t :| t in front && !Judge(nm, t, hubKeys).Orphan? && m == MatchOf(t, Judge(nm, t, hubKeys));
          MatchSourceIs(t, Judge(nm, t, hubKeys));
          var k :| 0 <= k < |front| && front[k] == t;
          assert SourceKey(keys[k]) != SourceKey(keys[|keys| - 1]);
        }
        DistinctSourcesSnoc(ms, MatchOf(s, Judge(nm, s, hubKeys)));
      }
    }
  }

  lemma DistinctSourcesSnoc(ms: seq<KeyMatch>, m: KeyMatch)
    requires DistinctSources(ms) && forall x :: x in ms ==> MatchSource(x) != MatchSource(m)
    ensures DistinctSources(ms + [m])
  {
    hide MatchSource;
  }

  /** Every link the store shows came from an earlier write. */
  ghost predicate OnlyWritten(store: SpokeStore) {
    forall l :: l in store.links && IsShown(l) ==> l.srcRef == Some(LINKS_REF)
  }

  function LiveSet(hub: string, matches: seq<KeyMatch>): set<ExternalRef> {
    set m | m in matches :: Live(hub, m)
  }

  /** What a match is written down as, and what it is shown as: from the
      spoke's key to the hub's key of the same match. */
  lemma FactIs(hub: string, m: KeyMatch)
    ensures var source := "cfgkey:" + m.spokeFile + "#" + m.spokeKey;
            var target := hub + "::cfgkey:" + m.hubFile + "#" + m.hubKey;
            && FactOf(hub, m)
               == Link(source, target, "references", Inferred, Some(m.confidence), Some("import:links"))
            && Live(hub, m) == ExternalRef(source, target, Inferred, Some(m.confidence))
    ensures forall c: ConfigKey :: SourceKey(c) == "cfgkey:" + c.file + "#" + c.key
  {
    assert "::" + "cfgkey:" == "::cfgkey:";
    var a, b := m.hubFile, m.hubKey;
    assert hub + "::" + ("cfgkey:" + a + "#" + b) == hub + ("::" + "cfgkey:") + a + "#" + b;
  }

  /** What is written down reads back as the links that were inferred live,
      beside whatever the other links show. */
  lemma {:induction false} FactsReadBackAsLive(links: seq<Link>, hub: string, matches: seq<KeyMatch>)
    requires DistinctSources(matches) && forall l :: l in links ==> !IsShown(l)
    ensures Elements(ExternalRefs(InsertAll(links, LinkFacts(hub, matches)))) == LiveSet(hub, matches)
  {
    hide MatchSource, Qualified, ExternalRefs, OrderKey;
    var all := InsertAll(links, LinkFacts(hub, matches));
    ExternalRefsAre(all);
    AllInserted(links, hub, matches);
    forall r ensures r in ExternalRefs(all) <==> r in LiveSet(hub, matches) {
      if r in ExternalRefs(all) {
        var l :| l in all && IsShown(l) && r == RefOf(l);
        assert l in LinkFacts(hub, matches);
        var i :| 0 <= i < |matches| && LinkFacts(hub, matches)[i] == l;
        assert matches[i] in matches && r == Live(hub, matches[i]);
      }
      if r in LiveSet(hub, matches) {
        var m :| m in matches && r == Live(hub, m);
        var i :| 0 <= i < |matches| && matches[i] == m;
        assert LinkFacts(hub, matches)[i] in all;
      }
    }
  }

  lemma {:induction false} AllInserted(links: seq<Link>, hub: string, matches: seq<KeyMatch>)
    requires DistinctSources(matches) && forall l :: l in links ==> !IsShown(l)
    ensures InsertAll(links, LinkFacts(hub, matches)) == links + LinkFacts(hub, matches)
  {
    hide MatchSource, Qualified, OrderKey;
    var facts := LinkFacts(hub, matches);
    if matches != [] {
      var front := matches[..|matches| - 1];
      AllInserted(links, hub, front);
      assert facts[..|facts| - 1] == LinkFacts(hub, front);
      var l := facts[|facts| - 1];
      forall k | k in links + LinkFacts(hub, front) ensures OrderKey(k) != OrderKey(l) {
        if k !in links {
          var i :| 0 <= i < |front| && LinkFacts(hub, front)[i] == k;
          assert MatchSource(matches[i]) != MatchSource(matches[|matches| - 1]);
        }
        assert k.src != l.src || k.provenance != l.provenance;
        if OrderKey(k) == OrderKey(l) {
          SameKeySameEdge(k, l);
        }
      }
      assert links + facts == links + LinkFacts(hub, front) + [l];
    }
  }

  lemma FirstSnoc(refs: seq<ExternalRef>, r: ExternalRef)
    requires forall x :: x in refs ==> Pair(x) != Pair(r)
    ensures FirstOfEachPair(refs + [r]) == FirstOfEachPair(refs) + [r]
  {
    hide Pair;
    assert (refs + [r])[..|refs|] == refs;
    assert Pair(r) !in Pairs(refs);
  }

  lemma {:induction false} FirstsOfJoined(stored: seq<ExternalRef>, live: seq<ExternalRef>)
    requires forall r, l :: r in stored && l in live ==> Pair(r) != Pair(l)
    requires DistinctPairs(live)
    ensures FirstOfEachPair(stored + live) == FirstOfEachPair(stored) + live
  {
    hide Pair, FirstOfEachPair;
    if live == [] {
      assert stored + live == stored && FirstOfEachPair(stored) + live == FirstOfEachPair(stored);
    } else {
      var front, l := live[..|live| - 1], live[|live| - 1];
      assert live == front + [l] && l in live;
      FirstsOfJoined(stored, front);
      assert stored + live == (stored + front) + [l];
      forall r | r in stored + front ensures Pair(r) != Pair(l) {
        if r !in stored {
          var i :| 0 <= i < |front| && front[i] == r;
          assert live[i] == r;
        }
      }
      FirstSnoc(stored + front, l);
      assert (FirstOfEachPair(stored) + front) + [l] == FirstOfEachPair(stored) + live;
    }
  }

  /** The view is each stored pair's first link and then the uncovered matches. */
  lemma ViewSplits(nm: Naming, store: SpokeStore, hub: string, hubKeys: seq<ConfigKey>)
    requires store.Valid()
    ensures var stored, matches := ExternalRefs(store.links), Matches(nm, store.configKeys, hubKeys);
            ViewRefs(nm, store, hub, hubKeys) == FirstOfEachPair(stored) + LiveRefs(hub, matches, Sources(stored))
  {
    hide Matches, MatchSource, Qualified, ExternalRefs, Live, FirstOfEachPair, LiveRefs;
    var stored, matches := ExternalRefs(store.links), Matches(nm, store.configKeys, hubKeys);
    var live := LiveRefs(hub, matches, Sources(stored));
    MatchSourcesDistinct(nm, store.configKeys, hubKeys);
    LiveSourcesDistinct(hub, matches, Sources(stored));
    LiveRefsAre(hub, matches, Sources(stored));
    forall r, l | r in stored && l in live ensures Pair(r) != Pair(l) {
      var m :| m in matches && MatchSource(m) !in Sources(stored) && l == Live(hub, m);
      LiveSource(hub, m);
      assert r.src in Sources(stored);
    }
    FirstsOfJoined(stored, live);
  }

  lemma {:induction false} LiveSourcesDistinct(hub: string, matches: seq<KeyMatch>, persisted: set<string>)
    requires DistinctSources(matches)
    ensures DistinctPairs(LiveRefs(hub, matches, persisted))
  {
    hide MatchSource, Live;
    if matches != [] {
      var front, m := matches[..|matches| - 1], matches[|matches| - 1];
      LiveSourcesDistinct(hub, front, persisted);
      LiveRefsAre(hub, front, persisted);
      LiveSource(hub, m);
      forall r | r in LiveRefs(hub, front, persisted) ensures r.src != MatchSource(m) {
        var f :| f in front && MatchSource(f) !in persisted && r == Live(hub, f);
        LiveSource(hub, f);
        var k :| 0 <= k < |front| && front[k] == f;
        assert MatchSource(matches[k]) != MatchSource(matches[|matches| - 1]);
      }
      forall r | r in LiveRefs(hub, front, persisted) ensures Pair(r) != Pair(Live(hub, m)) {
        assert r.src != MatchSource(m);
      }
      DistinctPairsSnoc(LiveRefs(hub, front, persisted), Live(hub, m));
    }
  }

  /** A write over a store that shows no other layer's link leaves the shown
      links, confidences included, exactly as they were iff each stored link
      shown is one that would be inferred now; and then the drift is as it was.
      A store never written to shows none, so there it always holds. */
  lemma PersistedViewIsLiveIff(nm: Naming, store: SpokeStore, hub: string, hubKeys: seq<ConfigKey>)
    requires store.Valid() && OnlyWritten(store)
    ensures var written, live := Written(nm, store, hub, hubKeys), LiveSet(hub, Matches(nm, store.configKeys, hubKeys));
            var current := forall r :: r in FirstOfEachPair(ExternalRefs(store.links)) ==> r in live;
            && Elements(ViewRefs(nm, written, hub, hubKeys)) == live
            && (Elements(ViewRefs(nm, written, hub, hubKeys)) == Elements(ViewRefs(nm, store, hub, hubKeys))
                <==> current)
            && (current ==> ViewOrphans(nm, written, hubKeys) == ViewOrphans(nm, store, hubKeys))
  {
    hide *;
    ViewOfWritten(nm, store, hub, hubKeys);
    ViewIsLiveIff(nm, store, hub, hubKeys);
    if forall r :: r in FirstOfEachPair(ExternalRefs(store.links)) ==>
        r in LiveSet(hub, Matches(nm, store.configKeys, hubKeys)) {
      CurrentLinksCoverNoOrphan(nm, store, hub, hubKeys);
      WritingKeepsOrphansIff(nm, store, hub, hubKeys);
    }
  }

  lemma ViewOfWritten(nm: Naming, store: SpokeStore, hub: string, hubKeys: seq<ConfigKey>)
    requires store.Valid() && OnlyWritten(store)
    ensures Elements(ViewRefs(nm, Written(nm, store, hub, hubKeys), hub, hubKeys))
            == LiveSet(hub, Matches(nm, store.configKeys, hubKeys))
  {
    hide Matches, MatchSource, Qualified, ExternalRefs, FirstOfEachPair, LiveRefs, Live, LiveSet, InsertAll, LinkFacts;
    var matches, written := Matches(nm, store.configKeys, hubKeys), Written(nm, store, hub, hubKeys);
    var stored := ExternalRefs(written.links);
    SurvivorsAre(store.links);
    MatchSourcesDistinct(nm, store.configKeys, hubKeys);
    FactsReadBackAsLive(Survivors(store.links, LINKS_REF), hub, matches);
    RefsOfInserted(Survivors(store.links, LINKS_REF), hub, matches);
    CoveredMatchesAreNotLive(hub, matches, Sources(stored));
    assert stored + [] == stored;
    FirstOfEachPairIs(stored);
    LiveSetPairs(hub, matches);
    forall r | r in stored ensures r in FirstOfEachPair(stored) {
      assert Pair(r) in Pairs(FirstOfEachPair(stored));
      var f :| f in FirstOfEachPair(stored) && Pair(f) == Pair(r);
      assert f in Elements(stored) && r in Elements(stored);
    }
  }

  /** For any store: a write leaves the shown links, provenances and confidences
      included, exactly as they were iff it leaves their pairs, and each stored
      link shown is still the first of its pair among the links that survive
      and the ones it writes. */
  lemma WritingKeepsLinksIff(nm: Naming, store: SpokeStore, hub: string, hubKeys: seq<ConfigKey>)
    requires store.Valid()
    ensures var written := Written(nm, store, hub, hubKeys);
            var before, after := ViewRefs(nm, store, hub, hubKeys), ViewRefs(nm, written, hub, hubKeys);
            Elements(after) == Elements(before) <==>
            && Pairs(after) == Pairs(before)
            && forall r :: r in FirstOfEachPair(ExternalRefs(store.links)) ==>
                r in FirstOfEachPair(ExternalRefs(written.links))
  {
    hide *;
    var written := Written(nm, store, hub, hubKeys);
    var before, after := ViewRefs(nm, store, hub, hubKeys), ViewRefs(nm, written, hub, hubKeys);
    var firsts := FirstOfEachPair(ExternalRefs(store.links));
    ViewIsFirsts(nm, store, hub, hubKeys);
    if Elements(after) == Elements(before) {
      SameElementsSamePairs(after, before);
      forall r | r in firsts ensures r in after {
        ViewHasFirsts(nm, store, hub, hubKeys, r);
        ElementsAre(after, r);
        ElementsAre(before, r);
      }
    }
    if Pairs(after) == Pairs(before) && forall r :: r in firsts ==> r in after {
      forall r | r in before ensures r in after {
        if r !in firsts {
          InPairs(before, r);
          LiveStaysShown(nm, store, hub, hubKeys, r);
        }
      }
      ViewPairsOnce(nm, store, hub, hubKeys);
      ViewPairsOnce(nm, written, hub, hubKeys);
      OnePairOneLink(before, after);
    }
  }

  lemma ElementsAre(refs: seq<ExternalRef>, r: ExternalRef)
    ensures r in Elements(refs) <==> r in refs
  {
  }

  lemma SameElementsSamePairs(a: seq<ExternalRef>, b: seq<ExternalRef>)
    requires Elements(a) == Elements(b)
    ensures Pairs(a) == Pairs(b)
  {
    assert forall r :: r in a <==> r in Elements(a);
    assert forall r :: r in b <==> r in Elements(b);
  }

  lemma OnePairOneLink(a: seq<ExternalRef>, b: seq<ExternalRef>)
    requires Pairs(a) == Pairs(b) && DistinctPairs(b) && forall r :: r in a ==> r in b
    ensures Elements(a) == Elements(b)
  {
    hide Pair;
    forall r | r in b ensures r in a {
      assert Pair(r) in Pairs(a);
      var q :| q in a && Pair(q) == Pair(r);
      var i :| 0 <= i < |b| && b[i] == q;
      var j :| 0 <= j < |b| && b[j] == r;
    }
  }

  lemma ViewPairsOnce(nm: Naming, store: SpokeStore, hub: string, hubKeys: seq<ConfigKey>)
    ensures DistinctPairs(ViewRefs(nm, store, hub, hubKeys))
  {
    hide FirstOfEachPair, ExternalRefs, Matches, LiveRefs;
    ViewPairs(nm, store, hub, hubKeys);
  }

  /** After a write every match is covered, so only stored links are shown. */
  lemma ViewIsFirsts(nm: Naming, store: SpokeStore, hub: string, hubKeys: seq<ConfigKey>)
    ensures var written := Written(nm, store, hub, hubKeys);
            ViewRefs(nm, written, hub, hubKeys) == FirstOfEachPair(ExternalRefs(written.links))
  {
    hide Matches, MatchSource, Qualified, ExternalRefs, FirstOfEachPair, LiveRefs, InsertAll, LinkFacts;
    var matches, written := Matches(nm, store.configKeys, hubKeys), Written(nm, store, hub, hubKeys);
    var stored := ExternalRefs(written.links);
    RefsOfInserted(Survivors(store.links, LINKS_REF), hub, matches);
    CoveredMatchesAreNotLive(hub, matches, Sources(stored));
    assert stored + [] == stored;
  }

  lemma ViewHasFirsts(nm: Naming, store: SpokeStore, hub: string, hubKeys: seq<ConfigKey>, r: ExternalRef)
    requires store.Valid() && r in FirstOfEachPair(ExternalRefs(store.links))
    ensures r in ViewRefs(nm, store, hub, hubKeys)
  {
    hide Matches, ExternalRefs, FirstOfEachPair, LiveRefs, ViewRefs;
    ViewSplits(nm, store, hub, hubKeys);
  }

  /** A live link belongs to a key no stored link covers: once written it is the
      only link of that key. */
  lemma LiveStaysShown(nm: Naming, store: SpokeStore, hub: string, hubKeys: seq<ConfigKey>, r: ExternalRef)
    requires store.Valid() && r in ViewRefs(nm, store, hub, hubKeys)
    requires r !in FirstOfEachPair(ExternalRefs(store.links))
    requires Pair(r) in Pairs(ViewRefs(nm, Written(nm, store, hub, hubKeys), hub, hubKeys))
    ensures r in ViewRefs(nm, Written(nm, store, hub, hubKeys), hub, hubKeys)
  {
    hide Matches, MatchSource, Qualified, ExternalRefs, FirstOfEachPair, LiveRefs, ViewRefs, Live, InsertAll,
        Survivors, LinkFacts;
    var stored, matches := ExternalRefs(store.links), Matches(nm, store.configKeys, hubKeys);
    var kept, written := Survivors(store.links, LINKS_REF), Written(nm, store, hub, hubKeys);
    ViewSplits(nm, store, hub, hubKeys);
    LiveRefsAre(hub, matches, Sources(stored));
    var m :| m in matches && MatchSource(m) !in Sources(stored) && r == Live(hub, m);
    LiveSource(hub, m);
    ViewIsFirsts(nm, store, hub, hubKeys);
    FirstOfEachPairIs(ExternalRefs(written.links));
    var q :| q in FirstOfEachPair(ExternalRefs(written.links)) && Pair(q) == Pair(r);
    assert q.src == r.src;
    SurvivorsAreStored(store.links);
    MatchSourcesDistinct(nm, store.configKeys, hubKeys);
    LinkOfUncovered(kept, hub, matches, m, q);
  }

  lemma LinkOfUncovered(links: seq<Link>, hub: string, matches: seq<KeyMatch>, m: KeyMatch, q: ExternalRef)
    requires DistinctSources(matches) && m in matches && MatchSource(m) !in Sources(ExternalRefs(links))
    requires q in ExternalRefs(InsertAll(links, LinkFacts(hub, matches))) && q.src == MatchSource(m)
    ensures q == Live(hub, m)
  {
    hide MatchSource, Qualified, ExternalRefs, InsertAll, Insert;
    var all := InsertAll(links, LinkFacts(hub, matches));
    ExternalRefsAre(all);
    ExternalRefsAre(links);
    OnlyInserted(links, LinkFacts(hub, matches));
    var l :| l in all && IsShown(l) && q == RefOf(l);
    forall k | k in links && IsShown(k) ensures k.src != MatchSource(m) {
      assert RefOf(k) in ExternalRefs(links);
    }
    var i :| 0 <= i < |matches| && LinkFacts(hub, matches)[i] == l;
    var j :| 0 <= j < |matches| && matches[j] == m;
    assert MatchSource(matches[i]) == MatchSource(matches[j]);
  }

  lemma {:induction false} OnlyInserted(links: seq<Link>, facts: seq<Link>)
    ensures forall l :: l in InsertAll(links, facts) ==> l in links || l in facts
  {
    if facts != [] {
      OnlyInserted(links, facts[..|facts| - 1]);
    }
  }

  lemma LiveSetPairs(hub: string, matches: seq<KeyMatch>)
    requires DistinctSources(matches)
    ensures forall a, b :: a in LiveSet(hub, matches) && b in LiveSet(hub, matches) && a.src == b.src ==> a == b
  {
    hide MatchSource, Live;
    forall a, b | a in LiveSet(hub, matches) && b in LiveSet(hub, matches) && a.src == b.src ensures a == b {
      var m :| m in matches && Live(hub, m) == a;
      var n :| n in matches && Live(hub, n) == b;
      LiveSource(hub, m);
      LiveSource(hub, n);
      var i :| 0 <= i < |matches| && matches[i] == m;
      var j :| 0 <= j < |matches| && matches[j] == n;
    }
  }

  lemma ViewIsLiveIff(nm: Naming, store: SpokeStore, hub: string, hubKeys: seq<ConfigKey>)
    requires store.Valid()
    ensures var live, firsts := LiveSet(hub, Matches(nm, store.configKeys, hubKeys)),
            FirstOfEachPair(ExternalRefs(store.links));
            Elements(ViewRefs(nm, store, hub, hubKeys)) == live <==> forall r :: r in firsts ==> r in live
  {
    hide Matches, MatchSource, Qualified, ExternalRefs, FirstOfEachPair, LiveRefs, Live, ViewRefs;
    var stored, matches := ExternalRefs(store.links), Matches(nm, store.configKeys, hubKeys);
    var firsts, live := FirstOfEachPair(stored), LiveSet(hub, matches);
    var uncovered := LiveRefs(hub, matches, Sources(stored));
    ViewSplits(nm, store, hub, hubKeys);
    LiveRefsAre(hub, matches, Sources(stored));
    FirstOfEachPairIs(stored);
    MatchSourcesDistinct(nm, store.configKeys, hubKeys);
    LiveSetPairs(hub, matches);
    if forall r :: r in firsts ==> r in live {
      forall r | r in live ensures r in firsts + uncovered {
        var m :| m in matches && r == Live(hub, m);
        LiveSource(hub, m);
        if MatchSource(m) in Sources(stored) {
          var s :| s in stored && s.src == r.src;
          assert Pair(s) in Pairs(firsts);
          var f :| f in firsts && Pair(f) == Pair(s);
          assert f == r;
        }
      }
      assert Elements(firsts + uncovered) == live;
    } else {
      var r :| r in firsts && r !in live;
      assert r in Elements(firsts + uncovered);
    }
  }

  lemma CurrentLinksCoverNoOrphan(nm: Naming, store: SpokeStore, hub: string, hubKeys: seq<ConfigKey>)
    requires store.Valid()
    requires forall r :: r in FirstOfEachPair(ExternalRefs(store.links)) ==>
                 r in LiveSet(hub, Matches(nm, store.configKeys, hubKeys))
    ensures forall o :: o in Orphans(nm, store.configKeys, hubKeys) ==>
                SourceKey(o) !in Sources(ExternalRefs(store.links))
  {
    hide Matches, Orphans, MatchSource, Qualified, ExternalRefs, FirstOfEachPair, Live, SourceKey;
    var stored, matches := ExternalRefs(store.links), Matches(nm, store.configKeys, hubKeys);
    FirstOfEachPairIs(stored);
    OrphansAreNoMatch(nm, store, hubKeys);
    forall x | x in Sources(stored) ensures exists m :: m in matches && MatchSource(m) == x {
      var s :| s in stored && s.src == x;
      assert Pair(s) in Pairs(FirstOfEachPair(stored));
      var f :| f in FirstOfEachPair(stored) && Pair(f) == Pair(s);
      var m :| m in matches && f == Live(hub, m);
      LiveSource(hub, m);
    }
  }

  // ---- Where a write shows --------------------------------------------------

  const SPOKE_KEY := ConfigKey("deploy.yaml", "port", "80", true)

  lemma OneLink(l: Link)
    requires IsShown(l)
    ensures ExternalRefs([l]) == [RefOf(l)] && ExternalRefs([]) == []
    ensures Sources([RefOf(l)]) == {l.src} && Pairs([RefOf(l)]) == {(l.src, l.target)}
  {
    assert [l][..0] == [] && InContentOrder([]) == [] && ShownRefs([]) == [];
    assert InContentOrder([l]) == Place([], l) == [l];
    assert ShownRefs([l]) == ShownRefs([]) + [RefOf(l)];
  }

  /** A key whose hub counterpart is gone: until the next write its stale link
      still hides the drift. */
  lemma StaleLinkHidesDrift(nm: Naming, hub: string)
    ensures var stale := Link(SourceKey(SPOKE_KEY), "hub::cfgkey:app.toml#port", REFERENCES, Inferred, Some(0.9),
            Some(LINKS_REF));
            var store := SpokeStore([SPOKE_KEY], [stale]);
            && ViewOrphans(nm, store, []) == []
            && ViewOrphans(nm, Written(nm, store, hub, []), []) == [SPOKE_KEY]
  {
    var stale := Link(SourceKey(SPOKE_KEY), "hub::cfgkey:app.toml#port", REFERENCES, Inferred, Some(0.9),
        Some(LINKS_REF));
    var store := SpokeStore([SPOKE_KEY], [stale]);
    OneLink(stale);
    assert SourceKey(SPOKE_KEY) == stale.src;
    hide ExternalRefs, SourceKey;
    assert Sources([]) == {};
    assert store.links == [stale] && store.configKeys == [SPOKE_KEY];
    assert Orphans(nm, [SPOKE_KEY], []) == [SPOKE_KEY] && Matches(nm, [SPOKE_KEY], []) == [];
    assert Survivors([stale], LINKS_REF) == [];
    assert Written(nm, store, hub, []).links == [];
    assert [SPOKE_KEY][..0] == [];
    assert Uncovered([SPOKE_KEY], {}) == Uncovered([], {}) + [SPOKE_KEY] == [SPOKE_KEY];
    assert Uncovered([SPOKE_KEY], {SourceKey(SPOKE_KEY)}) == Uncovered([], {SourceKey(SPOKE_KEY)}) + [] == [];
  }

  /** The one hub key matches the one spoke key exactly, whatever the names'
      normal forms. */
  lemma SameNameMatches(nm: Naming, hubKey: ConfigKey)
    requires hubKey.key == SPOKE_KEY.key
    ensures Judge(nm, SPOKE_KEY, [hubKey]) == Exact(hubKey)
    ensures Matches(nm, [SPOKE_KEY], [hubKey]) == [MatchOf(SPOKE_KEY, Exact(hubKey))]
  {
    SoleEntryAnswers(nm, SPOKE_KEY, hubKey);
    hide Judge, MatchOf, SPOKE_KEY;
    MatchesSnoc(nm, [], SPOKE_KEY, [hubKey]);
    assert [] + [SPOKE_KEY] == [SPOKE_KEY] && Matches(nm, [], [hubKey]) == [];
  }

  lemma SoleEntryAnswers(nm: Naming, s: ConfigKey, h: ConfigKey)
    requires s.key == h.key
    ensures Judge(nm, s, [h]) == Exact(h)
  {
    hide FullKey, CanonKey, LeafKey, AllWith, Unambiguous;
    var f := FullKey(nm);
    KeysOfEntry(nm, s);
    KeysOfEntry(nm, h);
    AllWithSnoc(f, [], h, f(s));
    NoEntry(f, f(s));
    assert [] + [h] == [h];
  }

  lemma NoEntry(f: ConfigKey -> string, n: string)
    ensures AllWith(f, [], n) == []
  {
  }

  lemma HubDecidesTarget(m: KeyMatch)
    ensures Qualified("hub", m) != "other::cfgkey:app.toml#port"
  {
    assert Qualified("hub", m)[0] == 'h';
  }

  /** An authored link to one project and a match in the hub: the live view
      shows only the authored link, a write adds the match beside it. */
  lemma WriteLinksBesideAnAuthoredLink(nm: Naming)
    ensures var authored := Link(SourceKey(SPOKE_KEY), "other::cfgkey:app.toml#port", REFERENCES, Authored, None, None);
            var store, hubKeys := SpokeStore([SPOKE_KEY], [authored]), [ConfigKey("app.toml", "port", "80", true)];
            Pairs(ViewRefs(nm, Written(nm, store, "hub", hubKeys), "hub", hubKeys))
            != Pairs(ViewRefs(nm, store, "hub", hubKeys))
  {
    var authored := Link(SourceKey(SPOKE_KEY), "other::cfgkey:app.toml#port", REFERENCES, Authored, None, None);
    var hubKey := ConfigKey("app.toml", "port", "80", true);
    var store, hubKeys := SpokeStore([SPOKE_KEY], [authored]), [hubKey];
    assert hubKey.key == SPOKE_KEY.key && IsShown(authored);
    hide *;
    OneLink(authored);
    WritingKeepsPairsIff(nm, store, "hub", hubKeys);
    SameNameMatches(nm, hubKey);
    MatchSourceIs(SPOKE_KEY, Exact(hubKey));
    var m := MatchOf(SPOKE_KEY, Exact(hubKey));
    HubDecidesTarget(m);
    assert m in [m];
  }
}
