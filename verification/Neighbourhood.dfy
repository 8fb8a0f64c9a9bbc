/** The bounded breadth-first neighbourhood of a node. */
module Neighbourhood {
  import opened Wrappers
  import opened Sequences
  import Ordering

  datatype Node = Node(key: string, name: string, kind: string)

  datatype Edge = Edge(src: string, dst: string, kind: string, provenance: string)

  type EdgeKey = (string, string, string)

  /** A graph store: nodes under their keys, edges in content order. */
  datatype Store = Store(nodes: map<string, Node>, edges: seq<Edge>) {
    ghost predicate Valid() {
      forall k :: k in nodes ==> nodes[k].key == k
    }

    /** Both ends of every edge are stored nodes. */
    ghost predicate NoDangling() {
      forall e :: e in edges ==> e.src in nodes && e.dst in nodes
    }

    function GetNode(key: string): Option<Node> {
      if key in nodes then Some(nodes[key]) else None
    }
  }

  function EdgesFrom(edges: seq<Edge>, key: string): (r: seq<Edge>)
    ensures forall e :: e in r <==> e in edges && e.src == key
  {
    if edges == [] then []
    else (if edges[0].src == key then [edges[0]] else []) + EdgesFrom(edges[1..], key)
  }

  function EdgesTo(edges: seq<Edge>, key: string): (r: seq<Edge>)
    ensures forall e :: e in r <==> e in edges && e.dst == key
  {
    if edges == [] then []
    else (if edges[0].dst == key then [edges[0]] else []) + EdgesTo(edges[1..], key)
  }

  function KeyOf(e: Edge): EdgeKey {
    (e.src, e.dst, e.kind)
  }

  /** The first of the edges with the source, target and kind. */
  function FirstEdge(edges: seq<Edge>, k: EdgeKey): (r: Option<Edge>)
    ensures r.Some? ==> exists i :: 0 <= i < |edges| && edges[i] == r.value
                                    && (edges[i].src, edges[i].dst, edges[i].kind) == k
                                    && forall j :: 0 <= j < i ==> (edges[j].src, edges[j].dst, edges[j].kind) != k
    ensures r.None? ==> forall i :: 0 <= i < |edges| ==> (edges[i].src, edges[i].dst, edges[i].kind) != k
  {
    if edges == [] then None
    else if KeyOf(edges[0]) == k then Some(edges[0])
    else
      var r := FirstEdge(edges[1..], k);
      assert forall i :: 0 <= i < |edges| - 1 ==> edges[1..][i] == edges[i + 1];
      r
  }

  function Other(e: Edge, key: string): string {
    if e.src == key then e.dst else e.src
  }

  // ---- What is near ---------------------------------------------------------

  ghost predicate Linked(store: Store, a: string, b: string) {
    exists e :: e in store.edges && (e.src == a || e.dst == a) && Other(e, a) == b
  }

  /** Keys one hop from `from`, in either direction. */
  ghost function Around(store: Store, from: set<string>): set<string> {
    set e, a | e in store.edges && a in from && (e.src == a || e.dst == a) :: Other(e, a)
  }

  ghost function Ball(store: Store, root: string, hops: nat): set<string> {
    if hops == 0 then {root}
    else Ball(store, root, hops - 1) + Around(store, Ball(store, root, hops - 1))
  }

  /** The keys nearer than `k` hops. */
  ghost function Inner(store: Store, root: string, k: nat): set<string> {
    if k == 0 then {} else Ball(store, root, k - 1)
  }

  ghost function Touching(store: Store, ends: set<string>): set<EdgeKey> {
    set e | e in store.edges && (e.src in ends || e.dst in ends) :: KeyOf(e)
  }

  ghost predicate IsWalk(store: Store, p: seq<string>) {
    p != [] && forall i {:trigger p[i]} :: 0 <= i < |p| - 1 ==> Linked(store, p[i], p[i + 1])
  }

  /** The ball is distance: exactly what some walk of at most that many hops
      reaches, edges taken in either direction. */
  lemma {:induction false} BallIsDistance(store: Store, root: string, hops: nat, x: string)
    ensures x in Ball(store, root, hops) <==>
            exists p :: IsWalk(store, p) && p[0] == root && p[|p| - 1] == x && |p| <= hops + 1
  {
    if x in Ball(store, root, hops) {
      var p := WalkTo(store, root, hops, x);
    }
    if exists p :: IsWalk(store, p) && p[0] == root && p[|p| - 1] == x && |p| <= hops + 1 {
      var p :| IsWalk(store, p) && p[0] == root && p[|p| - 1] == x && |p| <= hops + 1;
      WalkStaysInBall(store, root, p, hops);
    }
  }

  lemma {:induction false} WalkTo(store: Store, root: string, hops: nat, x: string) returns (p: seq<string>)
    requires x in Ball(store, root, hops)
    ensures p != [] && IsWalk(store, p) && p[0] == root && p[|p| - 1] == x && |p| <= hops + 1
  {
    hide IsWalk, Linked;
    if hops == 0 {
      p := [root];
      OneStepWalk(store, root);
    } else if x in Ball(store, root, hops - 1) {
      p := WalkTo(store, root, hops - 1, x);
    } else {
      var a := LinkedFrom(store, Ball(store, root, hops - 1), x);
      var q := WalkTo(store, root, hops - 1, a);
      p := q + [x];
      WalkExtends(store, q, x);
    }
  }

  lemma LinkedFrom(store: Store, from: set<string>, x: string) returns (a: string)
    requires x in Around(store, from)
    ensures a in from && Linked(store, a, x)
  {
    var e, b :| e in store.edges && b in from && (e.src == b || e.dst == b) && Other(e, b) == x;
    a := b;
  }

  lemma OneStepWalk(store: Store, x: string)
    ensures IsWalk(store, [x])
  {
  }

  lemma WalkExtends(store: Store, q: seq<string>, x: string)
    requires q != [] && IsWalk(store, q) && Linked(store, q[|q| - 1], x)
    ensures IsWalk(store, q + [x])
  {
    hide Linked;
    var p := q + [x];
    forall i {:trigger p[i]} | 0 <= i < |p| - 1 ensures Linked(store, p[i], p[i + 1]) {
      if i < |q| - 1 {
        assert Linked(store, q[i], q[i + 1]);
      }
    }
  }

  lemma {:induction false} WalkStaysInBall(store: Store, root: string, p: seq<string>, hops: nat)
    requires IsWalk(store, p) && p[0] == root && |p| <= hops + 1
    ensures p[|p| - 1] in Ball(store, root, hops)
    decreases hops
  {
    if |p| == 1 {
      BallGrows(store, root, 0, hops);
    } else {
      var q := p[..|p| - 1];
      assert forall i {:trigger q[i]} :: 0 <= i < |q| - 1 ==> q[i] == p[i] && q[i + 1] == p[i + 1];
      WalkStaysInBall(store, root, q, hops - 1);
      assert Linked(store, p[|p| - 2], p[|p| - 2 + 1]);
    }
  }

  lemma {:induction false} BallGrows(store: Store, root: string, a: nat, b: nat)
    requires a <= b
    ensures Ball(store, root, a) <= Ball(store, root, b)
    decreases b
  {
    if a < b {
      BallGrows(store, root, a, b - 1);
    }
  }

  // ---- The search -----------------------------------------------------------

  type Nodes = map<string, Node>
  type Edges = map<EdgeKey, Edge>

  /** The collected parts are copies of the store's; of the stored edges with one
      source, target and kind, the first is collected. */
  ghost predicate FromStore(store: Store, nodes: Nodes, edges: Edges) {
    && (forall k :: k in nodes ==> k in store.nodes && nodes[k] == store.nodes[k])
    && (forall k :: k in edges ==> edges[k] in store.edges && KeyOf(edges[k]) == k
                                   && FirstEdge(store.edges, k) == Some(edges[k]))
  }

  /** What meeting the keys `met` over edges with keys `seen` does: stored keys
      join the nodes, keys not yet collected join the next frontier. */
  ghost predicate Progress(
    store: Store, met: set<string>, seen: set<EdgeKey>,
    nodes: Nodes, edges: Edges, next: seq<string>, nodes': Nodes, edges': Edges, next': seq<string>)
  {
    && FromStore(store, nodes', edges')
    && nodes'.Keys == nodes.Keys + met * store.nodes.Keys
    && edges'.Keys == edges.Keys + seen
    && Elements(next') == Elements(next) + (met - nodes.Keys)
    && (met <= store.nodes.Keys && Distinct(next) && Elements(next) <= nodes.Keys ==> Distinct(next'))
  }

  lemma ProgressNone(store: Store, nodes: Nodes, edges: Edges, next: seq<string>)
    requires FromStore(store, nodes, edges)
    ensures Progress(store, {}, {}, nodes, edges, next, nodes, edges, next)
  {
  }

  lemma ProgressCompose(
    store: Store, met1: set<string>, seen1: set<EdgeKey>, met2: set<string>, seen2: set<EdgeKey>,
    nodes: Nodes, edges: Edges, next: seq<string>, nodes1: Nodes, edges1: Edges, next1: seq<string>,
    nodes2: Nodes, edges2: Edges, next2: seq<string>)
    requires Progress(store, met1, seen1, nodes, edges, next, nodes1, edges1, next1)
    requires Progress(store, met2, seen2, nodes1, edges1, next1, nodes2, edges2, next2)
    ensures Progress(store, met1 + met2, seen1 + seen2, nodes, edges, next, nodes2, edges2, next2)
  {
    hide FromStore, Elements, Distinct;
    SetsCompose(met1, met2, store.nodes.Keys, nodes.Keys, nodes1.Keys, Elements(next), Elements(next1));
  }

  lemma SetsCompose(
    met1: set<string>, met2: set<string>, stored: set<string>,
    nodes: set<string>, nodes1: set<string>, next: set<string>, next1: set<string>)
    requires nodes1 == nodes + met1 * stored && next1 == next + (met1 - nodes)
    ensures nodes1 + met2 * stored == nodes + (met1 + met2) * stored
    ensures next1 + (met2 - nodes1) <= next + (met1 + met2 - nodes) <= next1 + (met2 - nodes1)
    ensures met1 + met2 <= stored ==> met1 <= stored && met2 <= stored
    ensures met1 <= stored && next <= nodes ==> next1 <= nodes1
  {
  }

  /** One edge met from `key`. */
  method VisitEdge(store: Store, key: string, e: Edge, nodes: Nodes, edges: Edges, next: seq<string>)
    returns (nodes': Nodes, edges': Edges, next': seq<string>)
    requires e in store.edges && FromStore(store, nodes, edges)
    requires KeyOf(e) in edges || FirstEdge(store.edges, KeyOf(e)) == Some(e)
    ensures Progress(store, {Other(e, key)}, {KeyOf(e)}, nodes, edges, next, nodes', edges', next')
  {
    hide FirstEdge, Other, KeyOf;
    nodes', edges', next' := nodes, edges, next;
    var other := Other(e, key);
    if KeyOf(e) !in edges {
      edges' := edges[KeyOf(e) := e];
    }
    if other !in nodes {
      var n := store.GetNode(other);
      if n.Some? {
        nodes' := nodes[other := n.value];
      }
      next' := next + [other];
    }
  }

  ghost function Others(es: seq<Edge>, key: string): set<string> {
    set e | e in es :: Other(e, key)
  }

  ghost function Keys(es: seq<Edge>): set<EdgeKey> {
    set e | e in es :: KeyOf(e)
  }

  /** Every edge at `key`, outgoing ones first. */
  method VisitKey(store: Store, key: string, nodes: Nodes, edges: Edges, next: seq<string>)
    returns (nodes': Nodes, edges': Edges, next': seq<string>)
    requires FromStore(store, nodes, edges)
    ensures Progress(store, Around(store, {key}), Touching(store, {key}), nodes, edges, next, nodes', edges', next')
  {
    hide Progress, FromStore, Others, Keys, Around, Touching, FirstEdge, EdgesFrom, EdgesTo, KeyOf, Other;
    nodes', edges', next' := nodes, edges, next;
    var incident := EdgesFrom(store.edges, key) + EdgesTo(store.edges, key);
    ProgressNone(store, nodes, edges, next);
    NoOthers(key);
    for i := 0 to |incident|
      invariant FromStore(store, nodes', edges')
      invariant edges'.Keys == edges.Keys + Keys(incident[..i])
      invariant Progress(store, Others(incident[..i], key), Keys(incident[..i]), nodes, edges, next, nodes',
                edges', next')
    {
      var e := incident[i];
      ghost var nodes1, edges1, next1 := nodes', edges', next';
      assert e in store.edges;
      FirstMet(store.edges, key, i);
      nodes', edges', next' := VisitEdge(store, key, e, nodes', edges', next');
      ProgressCompose(store, Others(incident[..i], key), Keys(incident[..i]), {Other(e, key)}, {KeyOf(e)},
                      nodes, edges, next, nodes1, edges1, next1, nodes', edges', next');
      assert incident[..i + 1] == incident[..i] + [e];
      OthersSnoc(incident[..i], e, key);
      ProgressIsFromStore(store, {Other(e, key)}, {KeyOf(e)}, nodes1, edges1, next1, nodes', edges', next');
      ProgressKeys(store, {Other(e, key)}, {KeyOf(e)}, nodes1, edges1, next1, nodes', edges', next');
    }
    assert incident[..|incident|] == incident;
    IncidentIsTouching(store, key);
  }

  lemma ProgressKeys(
    store: Store, met: set<string>, seen: set<EdgeKey>,
    nodes: Nodes, edges: Edges, next: seq<string>, nodes': Nodes, edges': Edges, next': seq<string>)
    requires Progress(store, met, seen, nodes, edges, next, nodes', edges', next')
    ensures edges'.Keys == edges.Keys + seen
  {
    hide FromStore;
  }

  lemma FirstEdgeUnfolds(edges: seq<Edge>, k: EdgeKey)
    ensures FirstEdge([], k) == None
    ensures edges != [] ==>
              FirstEdge(edges, k) == if KeyOf(edges[0]) == k then Some(edges[0]) else FirstEdge(edges[1..], k)
  {
  }

  lemma {:induction false} FirstOfJoined(a: seq<Edge>, b: seq<Edge>, k: EdgeKey)
    ensures FirstEdge(a + b, k) == if FirstEdge(a, k).Some? then FirstEdge(a, k) else FirstEdge(b, k)
  {
    hide FirstEdge, KeyOf;
    FirstEdgeUnfolds(a, k);
    FirstEdgeUnfolds(a + b, k);
    if a == [] {
      assert a + b == b;
    } else {
      FirstOfJoined(a[1..], b, k);
      assert (a + b)[1..] == a[1..] + b;
    }
  }

  lemma IncidentUnfold(edges: seq<Edge>, key: string)
    ensures EdgesFrom([], key) == [] && EdgesTo([], key) == []
    ensures edges != [] ==>
              && EdgesFrom(edges, key) == (if edges[0].src == key then [edges[0]] else []) + EdgesFrom(edges[1..], key)
              && EdgesTo(edges, key) == (if edges[0].dst == key then [edges[0]] else []) + EdgesTo(edges[1..], key)
  {
  }

  lemma FirstOfPrepended(e: Edge, rest: seq<Edge>, k: EdgeKey)
    ensures FirstEdge([e] + rest, k) == if KeyOf(e) == k then Some(e) else FirstEdge(rest, k)
    ensures [] + rest == rest
  {
    hide FirstEdge;
    FirstEdgeUnfolds([e] + rest, k);
    assert ([e] + rest)[1..] == rest;
  }

  lemma {:induction false} FirstFromKey(edges: seq<Edge>, key: string, k: EdgeKey)
    ensures FirstEdge(EdgesFrom(edges, key), k) == if k.0 == key then FirstEdge(edges, k) else None
  {
    hide FirstEdge, EdgesFrom;
    IncidentUnfold(edges, key);
    FirstEdgeUnfolds(edges, k);
    if edges != [] {
      FirstFromKey(edges[1..], key, k);
      FirstOfPrepended(edges[0], EdgesFrom(edges[1..], key), k);
    }
  }

  lemma {:induction false} FirstToKey(edges: seq<Edge>, key: string, k: EdgeKey)
    ensures FirstEdge(EdgesTo(edges, key), k) == if k.1 == key then FirstEdge(edges, k) else None
  {
    hide FirstEdge, EdgesTo;
    IncidentUnfold(edges, key);
    FirstEdgeUnfolds(edges, k);
    if edges != [] {
      FirstToKey(edges[1..], key, k);
      FirstOfPrepended(edges[0], EdgesTo(edges[1..], key), k);
    }
  }

  /** The i-th edge at a key is the stored first of its kind, or one of its kind
      was met before it. */
  lemma FirstMet(edges: seq<Edge>, key: string, i: nat)
    requires i < |EdgesFrom(edges, key) + EdgesTo(edges, key)|
    ensures var incident := EdgesFrom(edges, key) + EdgesTo(edges, key);
            KeyOf(incident[i]) in Keys(incident[..i]) || FirstEdge(edges, KeyOf(incident[i])) == Some(incident[i])
  {
    hide FirstEdge, EdgesFrom, EdgesTo, Keys;
    var incident := EdgesFrom(edges, key) + EdgesTo(edges, key);
    var e := incident[i];
    var k := KeyOf(e);
    assert e in EdgesFrom(edges, key) || e in EdgesTo(edges, key);
    FirstFromKey(edges, key, k);
    FirstToKey(edges, key, k);
    FirstOfJoined(EdgesFrom(edges, key), EdgesTo(edges, key), k);
    if k !in Keys(incident[..i]) {
      assert incident == incident[..i] + incident[i..];
      FirstOfJoined(incident[..i], incident[i..], k);
      FirstEdgeUnfolds(incident[i..], k);
      FirstIsAmong(incident[..i], k);
    }
  }

  lemma FirstIsAmong(edges: seq<Edge>, k: EdgeKey)
    ensures FirstEdge(edges, k).Some? <==> k in Keys(edges)
  {
    var r := FirstEdge(edges, k);
    hide FirstEdge;
    if r.Some? {
      var i :| 0 <= i < |edges| && edges[i] == r.value && (edges[i].src, edges[i].dst, edges[i].kind) == k;
      assert KeyOf(edges[i]) == k && edges[i] in edges;
    }
  }

  lemma NoOthers(key: string)
    ensures Others([], key) == {} && Keys([]) == {}
  {
  }

  lemma OthersSnoc(es: seq<Edge>, e: Edge, key: string)
    ensures Others(es + [e], key) == Others(es, key) + {Other(e, key)}
    ensures Keys(es + [e]) == Keys(es) + {KeyOf(e)}
  {
  }

  lemma ProgressIsFromStore(
    store: Store, met: set<string>, seen: set<EdgeKey>,
    nodes: Nodes, edges: Edges, next: seq<string>, nodes': Nodes, edges': Edges, next': seq<string>)
    requires Progress(store, met, seen, nodes, edges, next, nodes', edges', next')
    ensures FromStore(store, nodes', edges')
  {
  }

  lemma IncidentIsTouching(store: Store, key: string)
    ensures var incident := EdgesFrom(store.edges, key) + EdgesTo(store.edges, key);
            Others(incident, key) == Around(store, {key}) && Keys(incident) == Touching(store, {key})
  {
    var incident := EdgesFrom(store.edges, key) + EdgesTo(store.edges, key);
    assert forall e :: e in incident <==> e in store.edges && (e.src == key || e.dst == key);
  }

  /** One round: every key of the frontier. */
  method VisitFrontier(store: Store, frontier: seq<string>, nodes: Nodes, edges: Edges)
    returns (nodes': Nodes, edges': Edges, next': seq<string>)
    requires FromStore(store, nodes, edges)
    ensures Progress(store, Around(store, Elements(frontier)), Touching(store, Elements(frontier)),
                     nodes, edges, [], nodes', edges', next')
  {
    hide Progress, FromStore, Around, Touching;
    nodes', edges', next' := nodes, edges, [];
    ProgressNone(store, nodes, edges, []);
    AroundNothing(store);
    for i := 0 to |frontier|
      invariant FromStore(store, nodes', edges')
      invariant Progress(store, Around(store, Elements(frontier[..i])), Touching(store, Elements(frontier[..i])),
                         nodes, edges, [], nodes', edges', next')
    {
      var key := frontier[i];
      ghost var nodes1, edges1, next1 := nodes', edges', next';
      nodes', edges', next' := VisitKey(store, key, nodes', edges', next');
      ghost var before := Elements(frontier[..i]);
      ProgressCompose(store, Around(store, before), Touching(store, before), Around(store, {key}),
          Touching(store, {key}),
                      nodes, edges, [], nodes1, edges1, next1, nodes', edges', next');
      assert Elements(frontier[..i + 1]) == before + {key} by {
        assert frontier[..i + 1] == frontier[..i] + [key];
      }
      AroundJoins(store, before, {key});
      ProgressIsFromStore(store, Around(store, {key}), Touching(store, {key}), nodes1, edges1, next1, nodes',
          edges', next');
    }
    assert frontier[..|frontier|] == frontier;
  }

  lemma AroundNothing(store: Store)
    ensures Around(store, Elements<string>([])) == {} && Touching(store, Elements<string>([])) == {}
  {
  }

  lemma AroundJoins(store: Store, a: set<string>, b: set<string>)
    ensures Around(store, a + b) == Around(store, a) + Around(store, b)
    ensures Touching(store, a + b) == Touching(store, a) + Touching(store, b)
  {
  }

  /** The state after `k` rounds. */
  ghost predicate AfterRounds(store: Store, root: string, k: nat, nodes: Nodes, edges: Edges, frontier: seq<string>) {
    && FromStore(store, nodes, edges)
    && nodes.Keys == Ball(store, root, k) * store.nodes.Keys
    && edges.Keys == Touching(store, Inner(store, root, k))
    && Elements(frontier) <= Ball(store, root, k) <= Elements(frontier) + Inner(store, root, k)
    && (store.NoDangling() ==> Distinct(frontier) && Elements(frontier) == Ball(store, root, k) - Inner(store, root, k))
  }

  lemma RoundsStart(store: Store, root: string)
    requires root in store.nodes && store.Valid()
    ensures AfterRounds(store, root, 0, map[root := store.nodes[root]], map[], [root])
    ensures Elements([root]) == Ball(store, root, 0) - Inner(store, root, 0)
  {
  }

  lemma RoundsMean(store: Store, root: string, k: nat, nodes: Nodes, edges: Edges, frontier: seq<string>)
    requires AfterRounds(store, root, k, nodes, edges, frontier)
    ensures FromStore(store, nodes, edges)
    ensures nodes.Keys == Ball(store, root, k) * store.nodes.Keys
            && edges.Keys == Touching(store, Inner(store, root, k))
    ensures store.NoDangling() ==>
              Distinct(frontier) && Elements(frontier) == Ball(store, root, k) - Inner(store, root, k)
  {
    hide Around, Touching, FromStore;
  }

  lemma RoundAdvances(
    store: Store, root: string, k: nat, nodes: Nodes, edges: Edges, frontier: seq<string>,
    nodes': Nodes, edges': Edges, next: seq<string>)
    requires root in store.nodes && AfterRounds(store, root, k, nodes, edges, frontier)
    requires Progress(store, Around(store, Elements(frontier)), Touching(store, Elements(frontier)),
                      nodes, edges, [], nodes', edges', next)
    ensures AfterRounds(store, root, k + 1, nodes', edges', next)
  {
    hide Around, Touching, Ball, FromStore;
    var ball, met := Ball(store, root, k), Around(store, Elements(frontier));
    BallAdvances(store, root, k, Elements(frontier));
    RoundIsExact(ball, met, store.nodes.Keys, nodes.Keys, nodes'.Keys, Elements(next));
    if store.NoDangling() {
      BallIsStored(store, root, k);
      BallIsStored(store, root, k + 1);
      SphereIsExact(ball, met, nodes.Keys, Elements(next));
    }
  }

  lemma RoundIsExact(ball: set<string>, met: set<string>, stored: set<string>, nodes: set<string>,
      nodes': set<string>, next: set<string>)
    requires nodes == ball * stored && nodes' == nodes + met * stored && next == met - nodes
    ensures nodes' == (ball + met) * stored
    ensures next <= ball + met <= next + ball
  {
  }

  lemma SphereIsExact(ball: set<string>, met: set<string>, nodes: set<string>, next: set<string>)
    requires nodes == ball && next == met - nodes
    ensures next == (ball + met) - ball
  {
  }

  lemma BallAdvances(store: Store, root: string, k: nat, front: set<string>)
    requires front <= Ball(store, root, k) <= front + Inner(store, root, k)
    ensures Ball(store, root, k + 1) == Ball(store, root, k) + Around(store, front)
    ensures Touching(store, Ball(store, root, k)) == Touching(store, Inner(store, root, k)) + Touching(store, front)
    ensures Touching(store, {}) == {}
  {
    var inner := Inner(store, root, k);
    if k > 0 {
      BallGrows(store, root, k - 1, k);
    }
    assert Ball(store, root, k) == inner + front;
    AroundJoins(store, inner, front);
    assert Around(store, inner) <= Ball(store, root, k);
  }

  lemma {:induction false} BallIsStored(store: Store, root: string, k: nat)
    requires store.NoDangling() && root in store.nodes
    ensures Ball(store, root, k) <= store.nodes.Keys
  {
    if k > 0 {
      BallIsStored(store, root, k - 1);
    }
  }

  /** The neighbourhood: exactly the stored nodes within `depth` hops, and one
      edge per (source, target, kind) that has an end nearer than `depth`. When
      no edge dangles, each round's frontier is the sphere at its distance,
      without repeats. */
  method NeighbourhoodSubgraph(store: Store, root: string, depth: nat)
    returns (r: Option<(Nodes, Edges)>, ghost frontiers: seq<seq<string>>)
    requires store.Valid()
    ensures r.None? <==> root !in store.nodes
    ensures r.Some? ==> FromStore(store, r.value.0, r.value.1)
    ensures r.Some? ==> r.value.0.Keys == Ball(store, root, depth) * store.nodes.Keys
    ensures r.Some? ==> r.value.1.Keys == Touching(store, Inner(store, root, depth))
    ensures r.Some? ==>
              && |frontiers| == depth + 1
              && forall k :: 0 <= k <= depth && store.NoDangling() ==>
                   && Distinct(frontiers[k])
                   && Elements(frontiers[k]) == Ball(store, root, k) - Inner(store, root, k)
  {
    hide Ball, Around, Touching, Inner, FromStore, AfterRounds;
    frontiers := [];
    var found := store.GetNode(root);
    if found.None? {
      return None, frontiers;
    }
    var nodes: Nodes, edges: Edges := map[found.value.key := found.value], map[];
    var frontier := [root];
    frontiers := [frontier];
    RoundsStart(store, root);
    for k := 0 to depth
      invariant AfterRounds(store, root, k, nodes, edges, frontier)
      invariant |frontiers| == k + 1
      invariant forall j :: 0 <= j <= k && store.NoDangling() ==>
                  && Distinct(frontiers[j])
                  && Elements(frontiers[j]) == Ball(store, root, j) - Inner(store, root, j)
    {
      RoundsMean(store, root, k, nodes, edges, frontier);
      var nodes', edges', next := VisitFrontier(store, frontier, nodes, edges);
      RoundAdvances(store, root, k, nodes, edges, frontier, nodes', edges', next);
      nodes, edges, frontier := nodes', edges', next;
      frontiers := frontiers + [frontier];
      RoundsMean(store, root, k + 1, nodes, edges, frontier);
    }
    RoundsMean(store, root, depth, nodes, edges, frontier);
    r := Some((nodes, edges));
  }

  // ---- What the documentation says of it ------------------------------------

  /** Nodes come back in key order, as an ordered map's values do. */
  function NodesInOrder(nodes: Nodes): seq<string> {
    Ordering.SortedSeq(nodes.Keys)
  }

  /** "With the root first" holds exactly when no stored node within reach sorts
      before the root. */
  lemma RootIsFirstIff(store: Store, root: string, depth: nat, nodes: Nodes)
    requires root in store.nodes
    requires nodes.Keys == Ball(store, root, depth) * store.nodes.Keys
    ensures NodesInOrder(nodes) != []
    ensures NodesInOrder(nodes)[0] == root <==>
            !exists k :: k in Ball(store, root, depth) && k in store.nodes && Ordering.Less(k, root)
  {
    hide Ordering.Less, Ordering.SortedSeq, Around;
    BallGrows(store, root, 0, depth);
    var order := NodesInOrder(nodes);
    assert root in Elements(order);
    forall k | k in nodes ensures k == order[0] || Ordering.Less(order[0], k) {
      assert k in Elements(order);
      var i :| 0 <= i < |order| && order[i] == k;
    }
    forall k ensures !(Ordering.Less(root, k) && Ordering.Less(k, root)) && !Ordering.Less(k, k) {
      Ordering.LessIsTotal(root, k);
      Ordering.LessIsTotal(k, k);
    }
    assert order[0] in Elements(order);
  }

  /** The edges are those of the induced subgraph exactly when no stored edge
      joins two nodes both at the full distance. */
  lemma EdgesAreInducedIff(store: Store, root: string, depth: nat)
    requires store.NoDangling() && root in store.nodes
    ensures (forall e :: e in store.edges ==>
               (KeyOf(e) in Touching(store, Inner(store, root, depth)) <==>
                e.src in Ball(store, root, depth) && e.dst in Ball(store, root, depth)))
            <==>
            !exists e :: e in store.edges
                         && e.src in Ball(store, root, depth) - Inner(store, root, depth)
                         && e.dst in Ball(store, root, depth) - Inner(store, root, depth)
  {
    var inner, ball := Inner(store, root, depth), Ball(store, root, depth);
    forall e | e in store.edges
      ensures KeyOf(e) in Touching(store, inner) <==> e.src in inner || e.dst in inner
      ensures e.src in inner || e.dst in inner ==> e.src in ball && e.dst in ball
    {
      if e.src in inner {
        assert Other(e, e.src) in Around(store, inner);
      }
      if e.dst in inner {
        assert Other(e, e.dst) in Around(store, inner);
      }
    }
  }

  /** Three functions, the root calling the other two and one of those the
      other. */
  function Triangle(): Store {
    Store(map["m" := Node("m", "m", "fn"), "a" := Node("a", "a", "fn"), "z" := Node("z", "z", "fn")],
          [Edge("a", "z", "calls", "derived"), Edge("m", "a", "calls", "derived"), Edge("m", "z", "calls", "derived")])
  }

  /** One hop from `m`: `a` comes before the root, and the call from `a` to `z` is
      not among the edges although both its ends are among the nodes. */
  lemma TriangleIsNeitherRootFirstNorInduced(nodes: Nodes)
    requires nodes.Keys == Ball(Triangle(), "m", 1) * Triangle().nodes.Keys
    ensures Triangle().Valid() && Triangle().NoDangling()
    ensures NodesInOrder(nodes) != [] && NodesInOrder(nodes)[0] != "m"
    ensures exists e :: e in Triangle().edges && e.src in nodes && e.dst in nodes
                        && KeyOf(e) !in Touching(Triangle(), Inner(Triangle(), "m", 1))
  {
    var store := Triangle();
    TriangleBall();
    hide Triangle, Ball, Around, Other, Ordering.SortedSeq;
    RootIsFirstIff(store, "m", 1, nodes);
    assert Ordering.Less("a", "m");
    assert store.edges[0] in store.edges;
  }

  lemma TriangleBall()
    ensures Ball(Triangle(), "m", 1) == {"m", "a", "z"} && Inner(Triangle(), "m", 1) == {"m"}
    ensures Triangle().nodes.Keys == {"m", "a", "z"} && Triangle().Valid() && Triangle().NoDangling()
    ensures |Triangle().edges| == 3 && Triangle().edges[0] == Edge("a", "z", "calls", "derived")
    ensures KeyOf(Triangle().edges[0]) !in Touching(Triangle(), {"m"})
  {
    var store := Triangle();
    assert Ball(store, "m", 0) == {"m"};
    assert store.edges[1] in store.edges && Other(store.edges[1], "m") == "a";
    assert store.edges[2] in store.edges && Other(store.edges[2], "m") == "z";
    assert Around(store, {"m"}) == {"a", "z"};
  }

  // ---- What is returned, read off the store ----------------------------------

  /** Two keys are linked when some stored edge runs between them, either way. */
  lemma LinkedIff(store: Store, a: string, b: string)
    ensures Linked(store, a, b) <==>
            exists e :: e in store.edges && ((e.src == a && e.dst == b) || (e.src == b && e.dst == a))
  {
    if e :| e in store.edges && ((e.src == a && e.dst == b) || (e.src == b && e.dst == a)) {
      assert Other(e, a) == b;
    }
  }

  /** No edge before the i-th has its source, target and kind. */
  ghost predicate IsFirst(edges: seq<Edge>, i: int) {
    && 0 <= i < |edges|
    && forall j :: 0 <= j < i ==>
         !(edges[j].src == edges[i].src && edges[j].dst == edges[i].dst && edges[j].kind == edges[i].kind)
  }

  /** The edges returned: for each stored edge with an end nearer than the depth,
      the first stored one with its source, target and kind, and no other. */
  lemma ReturnedEdgesAre(store: Store, root: string, depth: nat, nodes: Nodes, edges: Edges, e: Edge)
    requires FromStore(store, nodes, edges) && edges.Keys == Touching(store, Inner(store, root, depth))
    ensures (exists k :: k in edges && edges[k] == e) <==>
            exists i ::
              && IsFirst(store.edges, i) && store.edges[i] == e
              && depth > 0
              && (e.src in Ball(store, root, depth - 1) || e.dst in Ball(store, root, depth - 1))
  {
    hide Ball, Touching, FromStore;
    if k :| k in edges && edges[k] == e {
      var i := ReturnedIsFirst(store, root, depth, nodes, edges, k);
    }
    forall i | IsFirst(store.edges, i) && store.edges[i] == e && depth > 0
               && (e.src in Ball(store, root, depth - 1) || e.dst in Ball(store, root, depth - 1))
      ensures exists k :: k in edges && edges[k] == e
    {
      FirstIsReturned(store, root, depth, nodes, edges, i);
    }
  }

  lemma ReturnedIsFirst(store: Store, root: string, depth: nat, nodes: Nodes, edges: Edges, k: EdgeKey) returns (i: int)
    requires FromStore(store, nodes, edges) && edges.Keys == Touching(store, Inner(store, root, depth)) && k in edges
    ensures IsFirst(store.edges, i) && store.edges[i] == edges[k] && depth > 0
    ensures edges[k].src in Ball(store, root, depth - 1) || edges[k].dst in Ball(store, root, depth - 1)
  {
    hide Ball;
    var first := FirstEdge(store.edges, k);
    hide FirstEdge;
    i :| 0 <= i < |store.edges| && store.edges[i] == first.value
         && (store.edges[i].src, store.edges[i].dst, store.edges[i].kind) == k
         && forall j :: 0 <= j < i ==> (store.edges[j].src, store.edges[j].dst, store.edges[j].kind) != k;
  }

  lemma FirstIsReturned(store: Store, root: string, depth: nat, nodes: Nodes, edges: Edges, i: int)
    requires FromStore(store, nodes, edges) && edges.Keys == Touching(store, Inner(store, root, depth))
    requires IsFirst(store.edges, i) && depth > 0
    requires store.edges[i].src in Ball(store, root, depth - 1) || store.edges[i].dst in Ball(store, root, depth - 1)
    ensures KeyOf(store.edges[i]) in edges && edges[KeyOf(store.edges[i])] == store.edges[i]
  {
    hide Ball, FirstEdge;
    assert store.edges[i] in store.edges;
    FirstIs(store.edges, i);
  }

  lemma FirstIs(edges: seq<Edge>, i: nat)
    requires i < |edges|
    requires forall j :: 0 <= j < i ==> KeyOf(edges[j]) != KeyOf(edges[i])
    ensures FirstEdge(edges, KeyOf(edges[i])) == Some(edges[i])
  {
    var r := FirstEdge(edges, KeyOf(edges[i]));
  }
}
