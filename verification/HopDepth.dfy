/** buildHopDepthMap (layoutGraph.ts): breadth-first hop counts from the hacker are shortest. */
module HopDepth {
  import opened GraphWalks

  /** The downstream nodes n edges away along some walk through downstream nodes. */
  ghost function Layer(edges: seq<Edge>, hacker: string, ids: set<string>, n: nat): set<string>
    requires n >= 1
  {
    if n == 1 then set t | t in ids && Edge(hacker, t) in edges
    else set t | t in ids && exists p :: p in Layer(edges, hacker, ids, n - 1) && Edge(p, t) in edges
  }

  /** Layer n holds exactly the ends of the walks of n edges through downstream nodes. */
  lemma {:induction false} LayerIsWalks(edges: seq<Edge>, hacker: string, ids: set<string>, n: nat, x: string)
    requires n >= 1
    ensures x in Layer(edges, hacker, ids, n) <==>
            exists path :: Walk(edges, path) && |path| == n + 1 && path[0] == hacker && path[n] == x
                           && forall i :: 1 <= i <= n ==> path[i] in ids
  {
    if x in Layer(edges, hacker, ids, n) {
      if n == 1 {
        var path := [hacker, x];
        assert Walk(edges, path) && path[1] == x;
      } else {
        var p :| p in Layer(edges, hacker, ids, n - 1) && Edge(p, x) in edges;
        LayerIsWalks(edges, hacker, ids, n - 1, p);
        var front :| Walk(edges, front) && |front| == n && front[0] == hacker && front[n - 1] == p
                     && forall i :: 1 <= i <= n - 1 ==> front[i] in ids;
        var path := front + [x];
        assert Walk(edges, path) && path[n] == x;
      }
    }
    if path :| Walk(edges, path) && |path| == n + 1 && path[0] == hacker && path[n] == x
               && forall i :: 1 <= i <= n ==> path[i] in ids {
      assert Edge(path[n - 1], path[n]) in edges;
      if n > 1 {
        var front := path[..n];
        assert Walk(edges, front) && front[n - 1] == path[n - 1];
        LayerIsWalks(edges, hacker, ids, n - 1, path[n - 1]);
      }
    }
  }

  datatype Item = Item(id: string, hop: nat)

  type Hops = map<string, nat>

  /** n is the least layer that holds the node. */
  ghost predicate Shortest(edges: seq<Edge>, hacker: string, ids: set<string>, id: string, n: nat) {
    && n >= 1 && id in Layer(edges, hacker, ids, n)
    && forall m :: 1 <= m < n ==> id !in Layer(edges, hacker, ids, m)
  }

  /** Queue entries are one or two adjacent layers in order. */
  predicate Ordered(queue: seq<Item>) {
    forall i, j :: 0 <= i < j < |queue| ==> queue[i].hop <= queue[j].hop <= queue[i].hop + 1
  }

  predicate Settled(hops: Hops, queue: seq<Item>, t: string, hop: nat) {
    (t in hops && hops[t] <= hop) || Item(t, hop) in queue
  }

  ghost predicate Breadth(edges: seq<Edge>, hacker: string, ids: set<string>, hops: Hops, queue: seq<Item>) {
    && Ordered(queue) && hops.Keys <= ids
    && (forall q :: q in queue ==> q.hop >= 1 && q.id in Layer(edges, hacker, ids, q.hop))
    && (forall id :: id in hops ==> Shortest(edges, hacker, ids, id, hops[id]))
    && (forall id, q :: id in hops && q in queue ==> hops[id] <= q.hop)
    && (forall t :: t in Layer(edges, hacker, ids, 1) ==> Settled(hops, queue, t, 1))
    && forall p, t :: p in hops && t in ids && Edge(p, t) in edges ==> Settled(hops, queue, t, hops[p] + 1)
  }

  /** Every layer below the queue has been visited. */
  lemma {:induction false} LayersDone(edges: seq<Edge>, hacker: string, ids: set<string>, hops: Hops,
                                      queue: seq<Item>, m: nat)
    requires Breadth(edges, hacker, ids, hops, queue)
    requires m >= 1 && forall q :: q in queue ==> q.hop > m
    ensures forall t :: t in Layer(edges, hacker, ids, m) ==> t in hops && hops[t] <= m
  {
    if m > 1 {
      LayersDone(edges, hacker, ids, hops, queue, m - 1);
      forall t | t in Layer(edges, hacker, ids, m) ensures t in hops && hops[t] <= m {
        var p :| p in Layer(edges, hacker, ids, m - 1) && Edge(p, t) in edges;
        assert Settled(hops, queue, t, hops[p] + 1);
      }
    } else {
      forall t | t in Layer(edges, hacker, ids, 1) ensures t in hops && hops[t] <= 1 {
        assert Settled(hops, queue, t, 1);
      }
    }
  }

  /** The queue after the unvisited downstream targets of a node have been appended. */
  ghost predicate Pushed(edges: seq<Edge>, ids: set<string>, hops: Hops, id: string, hop: nat,
                         queue0: seq<Item>, queue: seq<Item>) {
    && |queue| >= |queue0| && queue[..|queue0|] == queue0
    && (forall i :: |queue0| <= i < |queue| ==>
          queue[i].hop == hop && queue[i].id in ids && Edge(id, queue[i].id) in edges)
    && forall t :: t in ids && Edge(id, t) in edges && t !in hops ==> Item(t, hop) in queue
  }

  /** The entries a visited node adds. */
  method PushTargets(edges: seq<Edge>, ids: set<string>, hops: Hops, id: string, hop: nat, queue0: seq<Item>)
    returns (queue: seq<Item>)
    ensures Pushed(edges, ids, hops, id, hop, queue0, queue)
  {
    queue := queue0;
    for i := 0 to |edges|
      invariant |queue| >= |queue0| && queue[..|queue0|] == queue0
      invariant forall j :: |queue0| <= j < |queue| ==>
                  queue[j].hop == hop && queue[j].id in ids && Edge(id, queue[j].id) in edges
      invariant forall j :: 0 <= j < i && edges[j].from == id && edges[j].to in ids && edges[j].to !in hops ==>
                  Item(edges[j].to, hop) in queue
    {
      var e := edges[i];
      if e.from == id && e.to in ids && e.to !in hops {
        assert e == Edge(id, e.to) && e in edges;
        queue := queue + [Item(e.to, hop)];
      }
    }
    forall t | t in ids && Edge(id, t) in edges && t !in hops ensures Item(t, hop) in queue {
      var j :| 0 <= j < |edges| && edges[j] == Edge(id, t);
    }
  }

  /** A node popped for the first time is popped with its shortest hop count. */
  lemma PopIsShortest(edges: seq<Edge>, hacker: string, ids: set<string>, hops: Hops, queue: seq<Item>)
    requires queue != [] && Breadth(edges, hacker, ids, hops, queue) && queue[0].id !in hops
    ensures Shortest(edges, hacker, ids, queue[0].id, queue[0].hop) && queue[0].id in ids
  {
    hide Layer;
    var q := queue[0];
    assert q in queue;
    LayerInIds(edges, hacker, ids, q.hop);
    forall m | 1 <= m < q.hop ensures q.id !in Layer(edges, hacker, ids, m) {
      forall r | r in queue ensures r.hop > m {
        var i :| 0 <= i < |queue| && queue[i] == r;
      }
      LayersDone(edges, hacker, ids, hops, queue, m);
    }
  }

  lemma LayerInIds(edges: seq<Edge>, hacker: string, ids: set<string>, n: nat)
    requires n >= 1
    ensures Layer(edges, hacker, ids, n) <= ids
  {
  }

  lemma SkipKeepsBreadth(edges: seq<Edge>, hacker: string, ids: set<string>, hops: Hops, q: Item, rest: seq<Item>)
    requires Breadth(edges, hacker, ids, hops, [q] + rest) && q.id in hops
    ensures Breadth(edges, hacker, ids, hops, rest)
  {
    TailOrdered(q, rest);
    assert q in [q] + rest;
    hide Layer, Shortest, Ordered;
  }

  lemma TailOrdered(q: Item, rest: seq<Item>)
    requires Ordered([q] + rest)
    ensures Ordered(rest) && forall i :: 0 <= i < |rest| ==> q.hop <= rest[i].hop <= q.hop + 1
  {
    var all := [q] + rest;
    assert rest == all[1..];
    forall i | 0 <= i < |rest| ensures q.hop <= rest[i].hop <= q.hop + 1 {
      assert rest[i] == all[i + 1] && all[0] == q;
    }
  }

  lemma AppendOrdered(hop: nat, a: seq<Item>, b: seq<Item>)
    requires Ordered(a) && forall i :: 0 <= i < |a| ==> hop <= a[i].hop <= hop + 1
    requires forall i :: 0 <= i < |b| ==> b[i].hop == hop + 1
    ensures Ordered(a + b) && forall r :: r in a + b ==> r.hop >= hop
  {
  }

  lemma PushedOrdered(edges: seq<Edge>, ids: set<string>, hops: Hops, q: Item, rest: seq<Item>, queue: seq<Item>)
    requires Ordered([q] + rest) && Pushed(edges, ids, hops, q.id, q.hop + 1, rest, queue)
    ensures Ordered(queue) && forall r :: r in queue ==> r.hop >= q.hop
  {
    TailOrdered(q, rest);
    AppendOrdered(q.hop, rest, queue[|rest|..]);
    assert rest + queue[|rest|..] == queue;
  }

  lemma PushedLayers(edges: seq<Edge>, hacker: string, ids: set<string>, hops: Hops, q: Item, rest: seq<Item>,
                     queue: seq<Item>)
    requires Pushed(edges, ids, hops, q.id, q.hop + 1, rest, queue)
    requires q.hop >= 1 && q.id in Layer(edges, hacker, ids, q.hop)
    requires forall r :: r in rest ==> r.hop >= 1 && r.id in Layer(edges, hacker, ids, r.hop)
    ensures forall r :: r in queue ==> r.hop >= 1 && r.id in Layer(edges, hacker, ids, r.hop)
  {
    forall r | r in queue ensures r.hop >= 1 && r.id in Layer(edges, hacker, ids, r.hop) {
      var i :| 0 <= i < |queue| && queue[i] == r;
      if i < |rest| {
        assert r == rest[i];
      }
    }
  }

  lemma PushedSettled(edges: seq<Edge>, hacker: string, ids: set<string>, hops: Hops, q: Item, rest: seq<Item>,
                      queue: seq<Item>, t: string, hop: nat)
    requires Pushed(edges, ids, hops[q.id := q.hop], q.id, q.hop + 1, rest, queue) && q.id !in hops
    requires Settled(hops, [q] + rest, t, hop) && (hop >= q.hop || (t in hops && hops[t] <= hop))
    ensures Settled(hops[q.id := q.hop], queue, t, hop)
  {
    if Item(t, hop) in rest {
      var i :| 0 <= i < |rest| && rest[i] == Item(t, hop);
      assert queue[i] == Item(t, hop);
    }
  }

  lemma SettledLater(hops: Hops, queue: seq<Item>, t: string, hop: nat)
    requires Ordered(queue) && queue != [] && Settled(hops, queue, t, hop)
    ensures hop >= queue[0].hop || (t in hops && hops[t] <= hop)
  {
  }

  /** The targets of the node just visited are visited no later, or queued one hop on. */
  lemma PushedTarget(edges: seq<Edge>, ids: set<string>, hops: Hops, q: Item, rest: seq<Item>, queue: seq<Item>,
                     t: string)
    requires Pushed(edges, ids, hops[q.id := q.hop], q.id, q.hop + 1, rest, queue)
    requires t in ids && Edge(q.id, t) in edges && forall id :: id in hops ==> hops[id] <= q.hop
    ensures Settled(hops[q.id := q.hop], queue, t, q.hop + 1)
  {
  }

  lemma VisitSettles(edges: seq<Edge>, hacker: string, ids: set<string>, hops: Hops, q: Item, rest: seq<Item>,
                     queue: seq<Item>)
    requires Breadth(edges, hacker, ids, hops, [q] + rest) && q.id !in hops
    requires Pushed(edges, ids, hops[q.id := q.hop], q.id, q.hop + 1, rest, queue)
    ensures var hops' := hops[q.id := q.hop];
            && (forall p, t :: p in hops' && t in ids && Edge(p, t) in edges ==> Settled(hops', queue, t, hops'[p] + 1))
            && forall t :: t in Layer(edges, hacker, ids, 1) ==> Settled(hops', queue, t, 1)
  {
    hide Layer, Shortest, Pushed, Settled, Ordered;
    var hops' := hops[q.id := q.hop];
    assert q in [q] + rest;
    forall p, t | p in hops' && t in ids && Edge(p, t) in edges ensures Settled(hops', queue, t, hops'[p] + 1) {
      if p == q.id {
        PushedTarget(edges, ids, hops, q, rest, queue, t);
      } else {
        SettledLater(hops, [q] + rest, t, hops[p] + 1);
        PushedSettled(edges, hacker, ids, hops, q, rest, queue, t, hops[p] + 1);
      }
    }
    forall t | t in Layer(edges, hacker, ids, 1) ensures Settled(hops', queue, t, 1) {
      SettledLater(hops, [q] + rest, t, 1);
      PushedSettled(edges, hacker, ids, hops, q, rest, queue, t, 1);
    }
  }

  lemma VisitKeepsBreadth(edges: seq<Edge>, hacker: string, ids: set<string>, hops: Hops, q: Item, rest: seq<Item>,
                          queue: seq<Item>)
    requires Breadth(edges, hacker, ids, hops, [q] + rest) && q.id !in hops
    requires Pushed(edges, ids, hops[q.id := q.hop], q.id, q.hop + 1, rest, queue)
    ensures Breadth(edges, hacker, ids, hops[q.id := q.hop], queue)
  {
    hide Layer, Shortest, Pushed, Settled, Ordered;
    var hops' := hops[q.id := q.hop];
    assert q in [q] + rest;
    PopIsShortest(edges, hacker, ids, hops, [q] + rest);
    PushedOrdered(edges, ids, hops', q, rest, queue);
    PushedLayers(edges, hacker, ids, hops', q, rest, queue);
    VisitSettles(edges, hacker, ids, hops, q, rest, queue);
  }

  /** A node popped for the first time gets its hop count, and its targets are queued. */
  method VisitNode(edges: seq<Edge>, ghost hacker: string, ids: set<string>, hops0: Hops, item: Item, rest: seq<Item>)
    returns (hops: Hops, queue: seq<Item>)
    requires Breadth(edges, hacker, ids, hops0, [item] + rest) && item.id !in hops0
    ensures Breadth(edges, hacker, ids, hops, queue)
    ensures |ids - hops.Keys| < |ids - hops0.Keys|
  {
    PopIsShortest(edges, hacker, ids, hops0, [item] + rest);
    hide Breadth, Shortest;
    hops := hops0[item.id := item.hop];
    assert ids - hops0.Keys == (ids - hops.Keys) + {item.id};
    queue := PushTargets(edges, ids, hops, item.id, item.hop + 1, rest);
    VisitKeepsBreadth(edges, hacker, ids, hops0, item, rest, queue);
  }

  /** Every downstream node the hacker reaches gets its shortest hop count, and no other node. */
  method BuildHopDepthMap(hackerId: string, downstreamIds: set<string>, edges: seq<Edge>) returns (hops: Hops)
    ensures hackerId == "" ==> hops == map[]
    ensures hackerId != "" ==>
              forall id, n :: (id in hops && hops[id] == n) <==> Shortest(edges, hackerId, downstreamIds, id, n)
  {
    hide Layer, Shortest, Breadth, Pushed, Ordered, Settled;
    hops := map[];
    if hackerId == "" { return; }
    var queue := PushTargets(edges, downstreamIds, hops, hackerId, 1, []);
    StartBreadth(edges, hackerId, downstreamIds, queue);
    while queue != []
      invariant Breadth(edges, hackerId, downstreamIds, hops, queue)
      decreases |downstreamIds - hops.Keys|, |queue|
    {
      var item := queue[0];
      assert queue == [item] + queue[1..];
      queue := queue[1..];
      if item.id in hops {
        SkipKeepsBreadth(edges, hackerId, downstreamIds, hops, item, queue);
      } else {
        hops, queue := VisitNode(edges, hackerId, downstreamIds, hops, item, queue);
      }
    }
    AllShortest(edges, hackerId, downstreamIds, hops);
  }

  lemma StartBreadth(edges: seq<Edge>, hacker: string, ids: set<string>, queue: seq<Item>)
    requires forall i :: 0 <= i < |queue| ==>
               queue[i].hop == 1 && queue[i].id in ids && Edge(hacker, queue[i].id) in edges
    requires forall t :: t in ids && Edge(hacker, t) in edges ==> Item(t, 1) in queue
    ensures Breadth(edges, hacker, ids, map[], queue)
  {
  }

  lemma AllShortest(edges: seq<Edge>, hacker: string, ids: set<string>, hops: Hops)
    requires Breadth(edges, hacker, ids, hops, [])
    ensures forall id, n :: (id in hops && hops[id] == n) <==> Shortest(edges, hacker, ids, id, n)
  {
    forall id, n | Shortest(edges, hacker, ids, id, n) ensures id in hops && hops[id] == n {
      LayersDone(edges, hacker, ids, hops, [], n);
    }
  }
}
