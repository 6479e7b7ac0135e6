/**
 * Worklist walks: collectDownstreamAddresses and findRootHackersForSpenders (store.ts). Each
 * terminates on every graph, cycles included, and is exact.
 */
module GraphWalks {

  /** Directed edges; several may join the same pair. */
  datatype Edge = Edge(from: string, to: string)

  /** A walk follows edges from node to node. */
  ghost predicate Walk(edges: seq<Edge>, path: seq<string>) {
    path != [] && forall i :: 0 <= i < |path| - 1 ==> Edge(path[i], path[i + 1]) in edges
  }

  ghost predicate Reaches(edges: seq<Edge>, a: string, b: string) {
    exists path :: Walk(edges, path) && path[0] == a && path[|path| - 1] == b
  }

  function Targets(edges: seq<Edge>, node: string): (r: seq<string>)
    ensures forall t :: t in r <==> Edge(node, t) in edges
  {
    if edges == [] then []
    else (if edges[0].from == node then [edges[0].to] else []) + Targets(edges[1..], node)
  }

  function Sources(edges: seq<Edge>, node: string): (r: seq<string>)
    ensures forall s :: s in r <==> Edge(s, node) in edges
  {
    if edges == [] then []
    else (if edges[0].to == node then [edges[0].from] else []) + Sources(edges[1..], node)
  }

  ghost function Nodes(edges: seq<Edge>): set<string> {
    (set e | e in edges :: e.from) + (set e | e in edges :: e.to)
  }

  lemma ReachesSelf(edges: seq<Edge>, a: string)
    ensures Reaches(edges, a, a)
  {
    assert Walk(edges, [a]);
  }

  lemma ReachesStep(edges: seq<Edge>, a: string, b: string, c: string)
    requires Reaches(edges, a, b) && Edge(b, c) in edges
    ensures Reaches(edges, a, c)
  {
    var path :| Walk(edges, path) && path[0] == a && path[|path| - 1] == b;
    assert Walk(edges, path + [c]);
  }

  /** A set that contains the start and is closed under edges contains everything reachable. */
  lemma {:induction false} ClosedContains(edges: seq<Edge>, s: set<string>, path: seq<string>)
    requires Walk(edges, path) && path[0] in s
    requires forall e :: e in edges && e.from in s ==> e.to in s
    ensures path[|path| - 1] in s
  {
    if |path| > 1 {
      assert Edge(path[0], path[1]) in edges;
      ClosedContains(edges, s, path[1..]);
    }
  }

  // ---- downstream addresses ---------------------------------------------------------------

  /** The inner loop: targets not seen yet are seen and queued. */
  method PushUnseen(targets: seq<string>, seen0: set<string>, queue0: seq<string>)
    returns (seen: set<string>, queue: seq<string>)
    ensures seen == seen0 + set t | t in targets
    ensures forall x :: x in queue <==> x in queue0 || (x in targets && x !in seen0)
    ensures seen == seen0 ==> queue == queue0
  {
    seen, queue := seen0, queue0;
    for i := 0 to |targets|
      invariant seen == seen0 + set t | t in targets[..i]
      invariant forall x :: x in queue <==> x in queue0 || (x in targets[..i] && x !in seen0)
      invariant seen == seen0 ==> queue == queue0
    {
      assert targets[..i + 1] == targets[..i] + [targets[i]];
      if targets[i] !in seen {
        seen := seen + {targets[i]};
        queue := queue + [targets[i]];
      }
    }
    assert targets[..|targets|] == targets;
  }

  /** Everything seen is reachable, and only queued nodes may have unseen targets. */
  ghost predicate Explored(edges: seq<Edge>, start: string, seen: set<string>, queue: seq<string>) {
    && start in seen && seen <= Nodes(edges) + {start}
    && (forall x :: x in queue ==> x in seen)
    && (forall x :: x in seen ==> Reaches(edges, start, x))
    && forall e :: e in edges && e.from in seen && e.from !in queue ==> e.to in seen
  }

  lemma EndsAreNodes(edges: seq<Edge>, e: Edge)
    requires e in edges
    ensures e.from in Nodes(edges) && e.to in Nodes(edges)
  {
  }

  lemma ExploredNext(edges: seq<Edge>, start: string, seen: set<string>, queue: seq<string>,
                     seen': set<string>, queue': seq<string>)
    requires queue != [] && Explored(edges, start, seen, queue)
    requires seen' == seen + set t | t in Targets(edges, queue[0])
    requires forall x :: x in queue' <==> x in queue[1..] || (x in Targets(edges, queue[0]) && x !in seen)
    ensures Explored(edges, start, seen', queue')
    ensures seen' != seen ==> |Nodes(edges) + {start} - seen'| < |Nodes(edges) + {start} - seen|
  {
    hide Reaches, Targets, Nodes;
    forall x | x in seen' ensures Reaches(edges, start, x) && x in Nodes(edges) + {start} {
      if x !in seen {
        EndsAreNodes(edges, Edge(queue[0], x));
        ReachesStep(edges, start, queue[0], x);
      }
    }
    forall e | e in edges && e.from in seen' && e.from !in queue' ensures e.to in seen' {
      if e.from == queue[0] {
        assert e.to in Targets(edges, queue[0]);
      } else {
        assert e.from !in queue[1..];
        assert queue == [queue[0]] + queue[1..];
      }
    }
    var room := Nodes(edges) + {start};
    assert room - seen == (room - seen') + (seen' - seen);
  }

  lemma ExploredAll(edges: seq<Edge>, start: string, seen: set<string>)
    requires Explored(edges, start, seen, [])
    ensures forall x :: x in seen <==> Reaches(edges, start, x)
  {
    forall x | Reaches(edges, start, x) ensures x in seen {
      var path :| Walk(edges, path) && path[0] == start && path[|path| - 1] == x;
      ClosedContains(edges, seen, path);
    }
  }

  /** The reachable addresses, without the start, on every graph. */
  method CollectDownstreamAddresses(edges: seq<Edge>, hacker: string) returns (out: set<string>)
    ensures forall x :: x in out <==> x != hacker && Reaches(edges, hacker, x)
  {
    hide Reaches, Nodes, Targets;
    var seen := {hacker};
    var queue := [hacker];
    StartExplored(edges, hacker);
    while queue != []
      invariant Explored(edges, hacker, seen, queue)
      decreases |Nodes(edges) + {hacker} - seen|, |queue|
    {
      ghost var seen0, queue0 := seen, queue;
      var cur := queue[0];
      queue := queue[1..];
      var outs := Targets(edges, cur);
      seen, queue := PushUnseen(outs, seen, queue);
      ExploredNext(edges, hacker, seen0, queue0, seen, queue);
    }
    ExploredAll(edges, hacker, seen);
    out := seen - {hacker};
  }

  lemma StartExplored(edges: seq<Edge>, start: string)
    ensures Explored(edges, start, {start}, [start])
  {
    ReachesSelf(edges, start);
  }

  // ---- root hackers -----------------------------------------------------------------------

  /** A walk backward from the seed through unflagged addresses only, up to its last node. */
  ghost predicate BackWalk(edges: seq<Edge>, flagged: set<string>, path: seq<string>) {
    && path != []
    && (forall i :: 0 <= i < |path| - 1 ==> Edge(path[i + 1], path[i]) in edges)
    && forall i :: 0 <= i < |path| - 1 ==> path[i] !in flagged
  }

  ghost predicate BackReaches(edges: seq<Edge>, flagged: set<string>, seed: string, x: string) {
    exists path :: BackWalk(edges, flagged, path) && path[0] == seed && path[|path| - 1] == x
  }

  lemma BackSelf(edges: seq<Edge>, flagged: set<string>, seed: string)
    ensures BackReaches(edges, flagged, seed, seed)
  {
    assert BackWalk(edges, flagged, [seed]);
  }

  lemma BackStep(edges: seq<Edge>, flagged: set<string>, seed: string, b: string, c: string)
    requires BackReaches(edges, flagged, seed, b) && b !in flagged && Edge(c, b) in edges
    ensures BackReaches(edges, flagged, seed, c)
  {
    var path :| BackWalk(edges, flagged, path) && path[0] == seed && path[|path| - 1] == b;
    assert BackWalk(edges, flagged, path + [c]);
  }

  lemma {:induction false} BackClosed(edges: seq<Edge>, flagged: set<string>, s: set<string>, path: seq<string>)
    requires BackWalk(edges, flagged, path) && path[0] in s
    requires forall e :: e in edges && e.to in s && e.to !in flagged ==> e.from in s
    ensures path[|path| - 1] in s
  {
    if |path| > 1 {
      assert Edge(path[1], path[0]) in edges;
      BackClosed(edges, flagged, s, path[1..]);
    }
  }

  /** Rows and inbound lists already read, shared between seeds. */
  datatype Caches = Caches(rows: map<string, bool>, inbound: map<string, seq<string>>)

  /** A cache holds only what a fresh read would return. */
  ghost predicate Fresh(edges: seq<Edge>, flagged: set<string>, c: Caches) {
    && (forall a :: a in c.rows ==> (c.rows[a] <==> a in flagged))
    && forall a :: a in c.inbound ==> c.inbound[a] == Sources(edges, a)
  }

  method GetFlagged(edges: seq<Edge>, flagged: set<string>, c: Caches, a: string) returns (f: bool, c': Caches)
    requires Fresh(edges, flagged, c)
    ensures Fresh(edges, flagged, c') && (f <==> a in flagged)
  {
    if a in c.rows {
      return c.rows[a], c;
    }
    f := a in flagged;
    c' := c.(rows := c.rows[a := f]);
  }

  method GetInbound(edges: seq<Edge>, flagged: set<string>, c: Caches, a: string) returns (ins: seq<string>, c': Caches)
    requires Fresh(edges, flagged, c)
    ensures Fresh(edges, flagged, c') && ins == Sources(edges, a)
  {
    if a in c.inbound {
      return c.inbound[a], c;
    }
    ins := Sources(edges, a);
    c' := c.(inbound := c.inbound[a := ins]);
  }

  /** Sources not visited yet are queued; a source may be queued more than once. */
  method QueueUnseen(ins: seq<string>, seen: set<string>, queue0: seq<string>) returns (queue: seq<string>)
    ensures |queue| <= |queue0| + |ins|
    ensures forall x :: x in queue <==> x in queue0 || (x in ins && x !in seen)
  {
    queue := queue0;
    for i := 0 to |ins|
      invariant |queue| <= |queue0| + i
      invariant forall x :: x in queue <==> x in queue0 || (x in ins[..i] && x !in seen)
    {
      assert ins[..i + 1] == ins[..i] + [ins[i]];
      if ins[i] !in seen {
        queue := queue + [ins[i]];
      }
    }
    assert ins[..|ins|] == ins;
  }

  /** Visited nodes are back-reachable; a visited unflagged node has its sources visited or queued. */
  ghost predicate Traced(edges: seq<Edge>, flagged: set<string>, seed: string,
                         seen: set<string>, queue: seq<string>, roots: set<string>) {
    && seen <= Nodes(edges) + {seed} && (seed in seen || seed in queue)
    && (forall x :: x in seen || x in queue ==> BackReaches(edges, flagged, seed, x) && x in Nodes(edges) + {seed})
    && (forall e :: e in edges && e.to in seen && e.to !in flagged ==> e.from in seen || e.from in queue)
    && roots == seen * flagged
  }

  lemma TracedNext(edges: seq<Edge>, flagged: set<string>, seed: string, seen: set<string>, queue: seq<string>,
                   roots: set<string>, seen': set<string>, queue': seq<string>, roots': set<string>)
    requires queue != [] && Traced(edges, flagged, seed, seen, queue, roots)
    requires seen' == seen + {queue[0]}
    requires if queue[0] in seen then queue' == queue[1..] && roots' == roots
             else if queue[0] in flagged then queue' == queue[1..] && roots' == roots + {queue[0]}
             else roots' == roots &&
                  forall x :: x in queue' <==> x in queue[1..] || (x in Sources(edges, queue[0]) && x !in seen')
    ensures Traced(edges, flagged, seed, seen', queue', roots')
    ensures queue[0] !in seen ==> |Nodes(edges) + {seed} - seen'| < |Nodes(edges) + {seed} - seen|
  {
    var cur := queue[0];
    assert queue == [cur] + queue[1..];
    forall x | x in seen' || x in queue' ensures BackReaches(edges, flagged, seed, x) && x in Nodes(edges) + {seed} {
      if x !in seen && x !in queue {
        assert Edge(x, cur) in edges;
        BackStep(edges, flagged, seed, cur, x);
      }
    }
    forall e | e in edges && e.to in seen' && e.to !in flagged ensures e.from in seen' || e.from in queue' {
      if e.to == cur && cur !in seen {
        assert e.from in Sources(edges, cur);
      }
    }
    var room := Nodes(edges) + {seed};
    if cur !in seen {
      assert room - seen == (room - seen') + {cur};
    }
  }

  lemma TracedAll(edges: seq<Edge>, flagged: set<string>, seed: string, seen: set<string>, roots: set<string>)
    requires Traced(edges, flagged, seed, seen, [], roots)
    ensures forall x :: x in roots <==> x in flagged && BackReaches(edges, flagged, seed, x)
  {
    forall x | x in flagged && BackReaches(edges, flagged, seed, x) ensures x in roots {
      var path :| BackWalk(edges, flagged, path) && path[0] == seed && path[|path| - 1] == x;
      BackClosed(edges, flagged, seen, path);
    }
  }

  method FindRoots(edges: seq<Edge>, flagged: set<string>, seed: string, c0: Caches)
    returns (roots: set<string>, c: Caches)
    requires Fresh(edges, flagged, c0)
    ensures Fresh(edges, flagged, c)
    ensures forall x :: x in roots <==> x in flagged && BackReaches(edges, flagged, seed, x)
  {
    hide BackReaches, Nodes, Sources, Fresh;
    c := c0;
    var seen: set<string> := {};
    var queue := [seed];
    roots := {};
    BackSelf(edges, flagged, seed);
    while queue != []
      invariant Fresh(edges, flagged, c) && Traced(edges, flagged, seed, seen, queue, roots)
      decreases |Nodes(edges) + {seed} - seen|, |queue|
    {
      ghost var seen0, queue0, roots0 := seen, queue, roots;
      var cur := queue[0];
      queue := queue[1..];
      if cur !in seen {
        seen := seen + {cur};
        var f;
        f, c := GetFlagged(edges, flagged, c, cur);
        if f {
          roots := roots + {cur};
        } else {
          var ins;
          ins, c := GetInbound(edges, flagged, c, cur);
          queue := QueueUnseen(ins, seen, queue);
        }
      }
      TracedNext(edges, flagged, seed, seen0, queue0, roots0, seen, queue, roots);
    }
    TracedAll(edges, flagged, seed, seen, roots);
  }

  /** For every seed, the flagged addresses reached backward through unflagged ones. */
  method FindRootHackersForSpenders(edges: seq<Edge>, flagged: set<string>, addresses: seq<string>)
    returns (result: map<string, set<string>>)
    ensures forall a :: a in result <==> a in addresses && a != ""
    ensures forall a, x :: a in result ==> (x in result[a] <==> x in flagged && BackReaches(edges, flagged, a, x))
  {
    result := map[];
    var c := Caches(map[], map[]);
    for i := 0 to |addresses|
      invariant Fresh(edges, flagged, c)
      invariant forall a :: a in result <==> a in addresses[..i] && a != ""
      invariant forall a, x :: a in result ==> (x in result[a] <==> x in flagged && BackReaches(edges, flagged, a, x))
    {
      assert addresses[..i + 1] == addresses[..i] + [addresses[i]];
      if addresses[i] != "" && addresses[i] !in result {
        var roots;
        roots, c := FindRoots(edges, flagged, addresses[i], c);
        result := result[addresses[i] := roots];
      }
    }
    assert addresses[..|addresses|] == addresses;
  }
}
