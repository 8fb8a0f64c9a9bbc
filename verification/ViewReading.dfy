/** What a spoke's merged view says, entry by entry: which stored links and which
    matches it shows, and in which order. */
module ViewReading {
  import opened Wrappers
  import opened Sequences
  import opened KeyMatching
  import opened CrossRepoLinks
  import opened Provenances

  /** Positions below `n`, from low to high. */
  ghost predicate Ascending(at: seq<int>, n: nat) {
    && (forall q :: 0 <= q < |at| ==> 0 <= at[q] < n)
    && forall p, q :: 0 <= p < q < |at| ==> at[p] < at[q]
  }

  lemma AscendingSnoc(at: seq<int>, n: nat)
    requires Ascending(at, n)
    ensures Ascending(at, n + 1) && Ascending(at + [n], n + 1) && n !in at
  {
  }

  /** The link is declared or inferred here. */
  ghost predicate Own(l: Link) {
    l.provenance == Authored || l.provenance == Inferred
  }

  /** The `i`-th link is the first of its source and target to be shown. */
  ghost predicate FirstShown(links: seq<Link>, i: int) {
    && 0 <= i < |links| && Own(links[i])
    && forall j :: 0 <= j < i && Own(links[j]) ==> links[j].src != links[i].src || links[j].target != links[i].target
  }

  lemma FirstShownSnoc(front: seq<Link>, l: Link)
    ensures forall i :: 0 <= i < |front| ==> (FirstShown(front + [l], i) <==> FirstShown(front, i))
  {
    assert forall j :: 0 <= j < |front| ==> (front + [l])[j] == front[j];
  }

  lemma PairsShown(front: seq<Link>, l: Link)
    ensures Own(l) <==> IsShown(l)
    ensures Pair(RefOf(l)) in Pairs(ShownRefs(front)) <==>
            exists j :: 0 <= j < |front| && Own(front[j]) && front[j].src == l.src && front[j].target == l.target
  {
    hide ShownRefs;
    ShownRefsAre(front);
    if Pair(RefOf(l)) in Pairs(ShownRefs(front)) {
      var r :| r in ShownRefs(front) && Pair(r) == Pair(RefOf(l));
      var k :| k in front && IsShown(k) && r == RefOf(k);
      var j :| 0 <= j < |front| && front[j] == k;
      assert Own(front[j]);
    }
    if j :| 0 <= j < |front| && Own(front[j]) && front[j].src == l.src && front[j].target == l.target {
      assert RefOf(front[j]) in ShownRefs(front);
      assert Pair(RefOf(front[j])) == Pair(RefOf(l));
    }
  }

  /** The stored links that the view keeps: each pair's first, in order. */
  lemma {:induction false} FirstsInOrder(links: seq<Link>) returns (at: seq<int>)
    ensures Ascending(at, |links|)
    ensures forall i :: i in at <==> FirstShown(links, i)
    ensures |FirstOfEachPair(ShownRefs(links))| == |at|
    ensures forall q :: 0 <= q < |at| ==> FirstOfEachPair(ShownRefs(links))[q] == RefOf(links[at[q]])
  {
    hide *;
    NothingShown();
    at := [];
    if links == [] {
      EmptyPlaces(links);
    } else {
      var front, l := links[..|links| - 1], links[|links| - 1];
      assert links == front + [l];
      at := FirstsInOrder(front);
      FirstShownSnoc(front, l);
      PlacesInside(front, at);
      AscendingSnoc(at, |front|);
      ShownSnoc(front, l);
      PairsShown(front, l);
      LastIsFirstIff(front, l);
      PlacesInside(links, []);
      if FirstShown(links, |front|) {
        at := at + [|front|];
      }
    }
  }

  lemma EmptyPlaces(links: seq<Link>)
    ensures Ascending([], |links|) && (links == [] ==> forall i :: !FirstShown(links, i))
  {
  }

  lemma PlacesInside(links: seq<Link>, at: seq<int>)
    ensures forall i :: FirstShown(links, i) ==> 0 <= i < |links|
    ensures Ascending(at, |links|) ==> forall i :: i in at ==> 0 <= i < |links|
  {
  }

  lemma LastIsFirstIff(front: seq<Link>, l: Link)
    ensures FirstShown(front + [l], |front|) <==>
            Own(l)
            && !exists j ::
                  0 <= j < |front| && Own(front[j]) && front[j].src == l.src && front[j].target == l.target
  {
    hide Own;
    assert forall j :: 0 <= j < |front| ==> (front + [l])[j] == front[j];
  }

  lemma NothingShown()
    ensures FirstOfEachPair(ShownRefs([])) == []
  {
  }

  lemma ShownSnoc(front: seq<Link>, l: Link)
    ensures FirstOfEachPair(ShownRefs(front + [l]))
            == FirstOfEachPair(ShownRefs(front))
               + if IsShown(l) && Pair(RefOf(l)) !in Pairs(ShownRefs(front)) then [RefOf(l)] else []
  {
    hide Pair, Pairs, RefOf, IsShown;
    assert (front + [l])[..|front|] == front;
    var shown := ShownRefs(front);
    if IsShown(l) {
      assert ShownRefs(front + [l]) == shown + [RefOf(l)];
      assert (shown + [RefOf(l)])[..|shown|] == shown;
    } else {
      assert ShownRefs(front + [l]) == shown;
    }
  }

  /** The matches that the view adds: those no persisted link covers, in order. */
  lemma {:induction false} LiveInOrder(hub: string, matches: seq<KeyMatch>, persisted: set<string>)
    returns (at: seq<int>)
    ensures Ascending(at, |matches|)
    ensures forall i :: i in at <==> 0 <= i < |matches| && MatchSource(matches[i]) !in persisted
    ensures |LiveRefs(hub, matches, persisted)| == |at|
    ensures forall q :: 0 <= q < |at| ==> LiveRefs(hub, matches, persisted)[q] == Live(hub, matches[at[q]])
  {
    hide MatchSource, Live;
    at := [];
    if matches != [] {
      var front, m := matches[..|matches| - 1], matches[|matches| - 1];
      assert matches == front + [m];
      at := LiveInOrder(hub, front, persisted);
      AscendingSnoc(at, |front|);
      if MatchSource(m) !in persisted {
        at := at + [|front|];
      }
    }
  }

  /** And the orphans it reports. */
  lemma {:induction false} UncoveredInOrder(orphans: seq<ConfigKey>, persisted: set<string>) returns (at: seq<int>)
    ensures Ascending(at, |orphans|)
    ensures forall i :: i in at <==> 0 <= i < |orphans| && SourceKey(orphans[i]) !in persisted
    ensures |Uncovered(orphans, persisted)| == |at|
    ensures forall q :: 0 <= q < |at| ==> Uncovered(orphans, persisted)[q] == orphans[at[q]]
  {
    hide SourceKey;
    at := [];
    if orphans != [] {
      var front, o := orphans[..|orphans| - 1], orphans[|orphans| - 1];
      assert orphans == front + [o];
      at := UncoveredInOrder(front, persisted);
      AscendingSnoc(at, |front|);
      if SourceKey(o) !in persisted {
        at := at + [|front|];
      }
    }
  }

  /** Some link the spoke shows starts at this node. */
  ghost predicate Covered(store: SpokeStore, source: string) {
    exists l :: l in store.links && Own(l) && l.src == source
  }

  lemma CoveredIff(store: SpokeStore, source: string)
    ensures source in Sources(ExternalRefs(store.links)) <==> Covered(store, source)
  {
    hide ExternalRefs;
    ExternalRefsAre(store.links);
    if l :| l in store.links && Own(l) && l.src == source {
      assert RefOf(l) in ExternalRefs(store.links);
    }
  }

  /** The whole view: first the links stored, in content order, each pair's first
      alone and with its own provenance and confidence; then, for each matched
      key no such link starts at, in the keys' order, the inferred link of its
      match. */
  lemma ViewIs(nm: Naming, store: SpokeStore, hub: string, hubKeys: seq<ConfigKey>)
    returns (first: seq<int>, live: seq<int>)
    requires store.Valid()
    ensures var stored, matches := InContentOrder(store.links), Matches(nm, store.configKeys, hubKeys);
            && Ascending(first, |stored|) && (forall i :: i in first <==> FirstShown(stored, i))
            && Ascending(live, |matches|)
            && (forall i :: i in live <==>
                  0 <= i < |matches|
                  && !Covered(store, "cfgkey:" + matches[i].spokeFile + "#" + matches[i].spokeKey))
    ensures var view := ViewRefs(nm, store, hub, hubKeys);
            var stored, matches := InContentOrder(store.links), Matches(nm, store.configKeys, hubKeys);
            && |view| == |first| + |live|
            && (forall q :: 0 <= q < |first| ==>
                  var l := stored[first[q]];
                  view[q] == ExternalRef(l.src, l.target, l.provenance, l.confidence))
            && (forall q :: 0 <= q < |live| ==>
                  var m := matches[live[q]];
                  view[|first| + q]
                  == ExternalRef("cfgkey:" + m.spokeFile + "#" + m.spokeKey,
                                 hub + "::cfgkey:" + m.hubFile + "#" + m.hubKey, Inferred, Some(m.confidence)))
  {
    hide InContentOrder, Matches, ViewRefs, ExternalRefs, ShownRefs, FirstOfEachPair, LiveRefs, FirstShown, Covered,
        Live, MatchSource, RefOf, Sources;
    var stored, matches := InContentOrder(store.links), Matches(nm, store.configKeys, hubKeys);
    ViewSplits(nm, store, hub, hubKeys);
    ShownIsRead(store.links);
    first := FirstsInOrder(stored);
    live := LiveInOrder(hub, matches, Sources(ExternalRefs(store.links)));
    forall i | 0 <= i < |matches|
      ensures MatchSource(matches[i]) in Sources(ExternalRefs(store.links)) <==>
              Covered(store, "cfgkey:" + matches[i].spokeFile + "#" + matches[i].spokeKey)
    {
      MatchSourceIsSpelled(matches[i]);
      CoveredIff(store, MatchSource(matches[i]));
    }
    forall m: KeyMatch {
      FactIs(hub, m);
    }
    forall q | 0 <= q < |first|
      ensures var l := stored[first[q]];
              ViewRefs(nm, store, hub, hubKeys)[q] == ExternalRef(l.src, l.target, l.provenance, l.confidence)
    {
      RefIs(stored[first[q]]);
    }
  }

  lemma MatchSourceIsSpelled(m: KeyMatch)
    ensures MatchSource(m) == "cfgkey:" + m.spokeFile + "#" + m.spokeKey
  {
  }

  lemma RefIs(l: Link)
    ensures RefOf(l) == ExternalRef(l.src, l.target, l.provenance, l.confidence)
  {
  }

  lemma ShownIsRead(links: seq<Link>)
    ensures ExternalRefs(links) == ShownRefs(InContentOrder(links))
  {
    hide InContentOrder, ShownRefs;
  }

  /** The drift: the orphans no persisted link starts at, in the keys' order. */
  lemma DriftIs(nm: Naming, store: SpokeStore, hubKeys: seq<ConfigKey>) returns (at: seq<int>)
    ensures var orphans := Orphans(nm, store.configKeys, hubKeys);
            && Ascending(at, |orphans|)
            && (forall i :: i in at <==>
                  0 <= i < |orphans| && !Covered(store, "cfgkey:" + orphans[i].file + "#" + orphans[i].key))
            && |ViewOrphans(nm, store, hubKeys)| == |at|
            && forall q :: 0 <= q < |at| ==> ViewOrphans(nm, store, hubKeys)[q] == orphans[at[q]]
  {
    hide Orphans, Uncovered, ExternalRefs, Sources, Covered;
    var orphans := Orphans(nm, store.configKeys, hubKeys);
    at := UncoveredInOrder(orphans, Sources(ExternalRefs(store.links)));
    forall i | 0 <= i < |orphans|
      ensures SourceKey(orphans[i]) in Sources(ExternalRefs(store.links)) <==>
              Covered(store, "cfgkey:" + orphans[i].file + "#" + orphans[i].key)
    {
      CoveredIff(store, SourceKey(orphans[i]));
    }
  }
}
