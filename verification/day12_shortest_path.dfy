/** Day 12, part two: the lazy-deletion Dijkstra search over the climbing
    graph and the search from every lowest square (day-12/src/main.rs).
    The binary heap is a multiset from which a greatest state is taken;
    unvisited distances are `None` rather than `usize::MAX`. */
module Day12ShortestPath {
  import opened Wrappers
  import opened Day12Heightmap

  datatype Ordering = Less | Equal | Greater

  function CompareNat(a: nat, b: nat): Ordering
  {
    if a < b then Less else if a == b then Equal else Greater
  }

  datatype State = State(cost: nat, position: nat)

  /** `Ord for State`: costs compared the other way round, so the cheaper
      state is the greater, and ties broken by position. */
  function Cmp(a: State, b: State): (o: Ordering)
    ensures a.cost < b.cost ==> o == Greater
    ensures a.cost > b.cost ==> o == Less
  {
    match CompareNat(b.cost, a.cost)
    case Equal => CompareNat(a.position, b.position)
    case o => o
  }

  /** `Cmp` is a total order consistent with equality: only equal states
      compare `Equal`, swapping the arguments flips the result, and
      `Greater` is transitive. */
  lemma CmpTotalOrder(a: State, b: State, c: State)
    ensures Cmp(a, b) == Equal <==> a == b
    ensures Cmp(a, b) == Less <==> Cmp(b, a) == Greater
    ensures Cmp(a, b) == Greater && Cmp(b, c) == Greater ==> Cmp(a, c) == Greater
  {
  }

  /** A state the heap may pop: none in the heap is greater. */
  predicate Top(heap: multiset<State>, st: State)
  {
    st in heap && forall o :: o in heap ==> Cmp(o, st) != Greater
  }

  /** Because `Cmp` is total and consistent with equality, the heap's top
      is unique: `BinaryHeap::pop` has exactly one state to return. */
  lemma TopUnique(heap: multiset<State>, a: State, b: State)
    requires Top(heap, a) && Top(heap, b)
    ensures a == b
  {
    assert Cmp(a, b) != Greater && Cmp(b, a) != Greater;
    CmpTotalOrder(a, b, b);
  }

  /** A top of the heap is a cheapest state in it. */
  lemma TopCheapest(heap: multiset<State>, st: State)
    requires Top(heap, st)
    ensures forall o :: o in heap ==> st.cost <= o.cost
  {
    forall o | o in heap ensures st.cost <= o.cost {
      assert Cmp(o, st) != Greater;
    }
  }

  /** A non-empty heap has a top, and a top is a cheapest state. */
  lemma {:induction false} TopExists(heap: multiset<State>) returns (m: State)
    requires |heap| > 0
    ensures Top(heap, m)
    ensures forall o :: o in heap ==> m.cost <= o.cost
    decreases |heap|
  {
    var x :| x in heap;
    var rest := heap - multiset{x};
    if |rest| == 0 {
      assert heap == rest + multiset{x};
      assert heap == multiset{x};
      m := x;
    } else {
      var m2 := TopExists(rest);
      m := if Cmp(x, m2) == Greater then x else m2;
      forall o | o in heap ensures Cmp(o, m) != Greater {
        if o != x {
          assert o in rest;
          if m == x {
            CmpTotalOrder(o, x, m2);
          }
        }
      }
    }
    TopCheapest(heap, m);
  }

  // ---------------------------------------------------------------------------
  // Walks.

  /** A walk from `s` to `t` along edges; it takes `|p| - 1` steps. */
  predicate Walk(adj: seq<seq<nat>>, p: seq<nat>, s: nat, t: nat)
  {
    |p| >= 1 && p[0] == s && p[|p| - 1] == t
    && (forall i :: 0 <= i < |p| ==> p[i] < |adj|)
    && (forall i :: 0 <= i < |p| - 1 ==> p[i + 1] in adj[p[i]])
  }

  lemma WalkPrefix(adj: seq<seq<nat>>, p: seq<nat>, s: nat, t: nat, j: nat)
    requires Walk(adj, p, s, t) && j < |p|
    ensures Walk(adj, p[..j + 1], s, p[j])
  {
  }

  lemma WalkExtend(adj: seq<seq<nat>>, p: seq<nat>, s: nat, u: nat, v: nat)
    requires Walk(adj, p, s, u) && u < |adj| && v in adj[u] && v < |adj|
    ensures Walk(adj, p + [v], s, v)
  {
    var q := p + [v];
    forall i | 0 <= i < |q| - 1 ensures q[i + 1] in adj[q[i]] {
      if i < |p| - 1 {
        assert q[i] == p[i] && q[i + 1] == p[i + 1];
      }
    }
  }

  // ---------------------------------------------------------------------------
  // The search state and its invariant.

  /** `next.cost < distance[next.position]`, with `None` as infinity. */
  predicate Improves(cost: nat, d: Option<nat>)
  {
    d.None? || cost < d.value
  }

  /** Every recorded distance is the length of a walk, kept in `paths`. */
  ghost predicate Sound(adj: seq<seq<nat>>, s: nat, dist: seq<Option<nat>>, paths: seq<seq<nat>>)
  {
    |dist| == |adj| && |paths| == |adj|
    && forall v :: 0 <= v < |adj| && dist[v].Some? ==> Walk(adj, paths[v], s, v) && |paths[v]| == dist[v].value + 1
  }

  /** Every state in the heap names a node with a recorded distance no
      larger than its cost. */
  predicate HeapBounded(adj: seq<seq<nat>>, dist: seq<Option<nat>>, heap: multiset<State>)
    requires |dist| == |adj|
  {
    forall st :: st in heap ==> st.position < |adj| && dist[st.position].Some? && dist[st.position].value <= st.cost
  }

  /** A node with a recorded distance that has not been expanded has
      exactly one heap state at that distance; an expanded node has none. */
  predicate Live(adj: seq<seq<nat>>, dist: seq<Option<nat>>, heap: multiset<State>, done: set<nat>)
    requires |dist| == |adj|
  {
    (forall v :: v in done ==> v < |adj| && dist[v].Some?)
    && forall v :: 0 <= v < |adj| && dist[v].Some? ==>
      heap[State(dist[v].value, v)] == (if v in done then 0 else 1)
  }

  /** The distance of an expanded node is no longer than any walk to it. */
  ghost predicate Optimal(adj: seq<seq<nat>>, s: nat, dist: seq<Option<nat>>, done: set<nat>)
    requires |dist| == |adj|
  {
    forall u, p :: u in done && Walk(adj, p, s, u) ==> u < |adj| && dist[u].Some? && dist[u].value <= |p| - 1
  }

  /** The first `k` edges of `u` lead to nodes at most one further. */
  predicate Relaxed(adj: seq<seq<nat>>, dist: seq<Option<nat>>, u: nat, k: nat)
    requires |dist| == |adj| && ValidGraph(adj)
  {
    u < |adj| && k <= |adj[u]| && dist[u].Some?
    && forall j :: 0 <= j < k ==> dist[adj[u][j]].Some? && dist[adj[u][j]].value <= dist[u].value + 1
  }

  predicate AllRelaxed(adj: seq<seq<nat>>, dist: seq<Option<nat>>, done: set<nat>)
    requires |dist| == |adj| && ValidGraph(adj)
  {
    forall u :: u in done ==> u < |adj| && Relaxed(adj, dist, u, |adj[u]|)
  }

  /** What holds between iterations of `shortest_path`'s loop, except the
      relaxation of the expanded nodes. */
  ghost predicate Core(adj: seq<seq<nat>>, s: nat, t: nat, dist: seq<Option<nat>>, heap: multiset<State>,
                       done: set<nat>, paths: seq<seq<nat>>)
  {
    ValidGraph(adj) && s < |adj| && Sound(adj, s, dist, paths)
    && dist[s] == Some(0) && t !in done
    && HeapBounded(adj, dist, heap) && Live(adj, dist, heap, done) && Optimal(adj, s, dist, done)
  }

  ghost predicate Inv(adj: seq<seq<nat>>, s: nat, t: nat, dist: seq<Option<nat>>, heap: multiset<State>,
                      done: set<nat>, paths: seq<seq<nat>>)
  {
    Core(adj, s, t, dist, heap, done, paths) && AllRelaxed(adj, dist, done)
  }

  /** The first node of a walk that has not been expanded. */
  lemma FirstOutside(p: seq<nat>, done: set<nat>, v: nat) returns (j: nat)
    requires |p| >= 1 && p[|p| - 1] == v && v !in done
    ensures j < |p| && p[j] !in done
    ensures forall i :: 0 <= i < j ==> p[i] in done
  {
    j := 0;
    while p[j] in done
      invariant j < |p|
      invariant forall i :: 0 <= i < j ==> p[i] in done
      decreases |p| - j
    {
      j := j + 1;
    }
  }

  /** The key step of Dijkstra's argument: no walk to a node that has not
      been expanded is shorter than the cheapest state in the heap. */
  lemma LowerBound(adj: seq<seq<nat>>, s: nat, t: nat, dist: seq<Option<nat>>, heap: multiset<State>,
                   done: set<nat>, paths: seq<seq<nat>>, c: nat, v: nat, p: seq<nat>)
    requires Inv(adj, s, t, dist, heap, done, paths)
    requires forall o :: o in heap ==> c <= o.cost
    requires v !in done
    ensures Walk(adj, p, s, v) ==> c <= |p| - 1
  {
    if Walk(adj, p, s, v) {
      var j := FirstOutside(p, done, v);
      var w := p[j];
      assert w < |adj|;
      if j == 0 {
        assert w == s;
        assert heap[State(0, s)] == 1;
      } else {
        var u := p[j - 1];
        WalkPrefix(adj, p, s, v, j - 1);
        assert u in done;
        assert dist[u].value <= j - 1;
        assert w in adj[u];
        var e :| 0 <= e < |adj[u]| && adj[u][e] == w;
        assert Relaxed(adj, dist, u, |adj[u]|);
        assert dist[w].value <= j;
        assert State(dist[w].value, w) in heap;
      }
    }
  }

  /** With an empty heap every node a walk reaches has been expanded. */
  lemma ExhaustedReachesDone(adj: seq<seq<nat>>, s: nat, t: nat, dist: seq<Option<nat>>,
                             done: set<nat>, paths: seq<seq<nat>>, v: nat, p: seq<nat>)
    requires Inv(adj, s, t, dist, multiset{}, done, paths)
    ensures Walk(adj, p, s, v) ==> v in done
  {
    if Walk(adj, p, s, v) {
      var i := 0;
      assert s in done by {
        assert State(0, s) !in multiset{};
      }
      while i < |p| - 1
        invariant i < |p| && p[i] in done
      {
        var u := p[i];
        var e :| 0 <= e < |adj[u]| && adj[u][e] == p[i + 1];
        assert Relaxed(adj, dist, u, |adj[u]|);
        assert dist[p[i + 1]].Some?;
        assert State(dist[p[i + 1]].value, p[i + 1]) !in multiset{};
        i := i + 1;
      }
    }
  }

  /** Popping a state that is costlier than the recorded distance keeps the
      invariant. */
  lemma PopStale(adj: seq<seq<nat>>, s: nat, t: nat, dist: seq<Option<nat>>, heap: multiset<State>,
                 done: set<nat>, paths: seq<seq<nat>>, st: State)
    requires Inv(adj, s, t, dist, heap, done, paths) && st in heap
    requires st.cost > dist[st.position].value
    ensures Inv(adj, s, t, dist, heap - multiset{st}, done, paths)
  {
    var h := heap - multiset{st};
    forall v | 0 <= v < |adj| && dist[v].Some?
      ensures h[State(dist[v].value, v)] == (if v in done then 0 else 1)
    {
      assert State(dist[v].value, v) != st;
    }
  }

  /** Popping the live state of a node at the top of the heap expands it:
      its distance is then optimal. */
  lemma PopSettle(adj: seq<seq<nat>>, s: nat, t: nat, dist: seq<Option<nat>>, heap: multiset<State>,
                  done: set<nat>, paths: seq<seq<nat>>, st: State)
    requires Inv(adj, s, t, dist, heap, done, paths) && Top(heap, st)
    requires forall o :: o in heap ==> st.cost <= o.cost
    requires st.cost == dist[st.position].value && st.position != t
    ensures st.position !in done
    ensures Core(adj, s, t, dist, heap - multiset{st}, done + {st.position}, paths)
    ensures AllRelaxed(adj, dist, done)
  {
    var v := st.position;
    var h := heap - multiset{st};
    var done' := done + {v};
    assert v !in done by {
      assert heap[State(dist[v].value, v)] > 0;
    }
    forall u, p | u in done' && Walk(adj, p, s, u)
      ensures u < |adj| && dist[u].Some? && dist[u].value <= |p| - 1
    {
      if u == v {
        LowerBound(adj, s, t, dist, heap, done, paths, st.cost, v, p);
      }
    }
    forall w | 0 <= w < |adj| && dist[w].Some?
      ensures h[State(dist[w].value, w)] == (if w in done' then 0 else 1)
    {
      if w != v {
        assert State(dist[w].value, w) != st;
      }
    }
  }

  /** Relaxing edge `k` of the node `u` being expanded keeps the core
      invariant and extends its relaxation by one edge. */
  lemma RelaxStep(adj: seq<seq<nat>>, s: nat, t: nat, dist: seq<Option<nat>>, heap: multiset<State>,
                  done: set<nat>, paths: seq<seq<nat>>, u: nat, k: nat)
    requires Core(adj, s, t, dist, heap, done, paths) && u in done
    requires AllRelaxed(adj, dist, done - {u}) && Relaxed(adj, dist, u, k) && k < |adj[u]|
    ensures var e := adj[u][k];
      var next := State(dist[u].value + 1, e);
      if Improves(next.cost, dist[e]) then
        var dist' := dist[e := Some(next.cost)];
        Core(adj, s, t, dist', heap + multiset{next}, done, paths[e := paths[u] + [e]])
        && AllRelaxed(adj, dist', done - {u}) && Relaxed(adj, dist', u, k + 1)
        && dist'[u] == dist[u]
      else
        Relaxed(adj, dist, u, k + 1)
  {
    var e := adj[u][k];
    var next := State(dist[u].value + 1, e);
    if Improves(next.cost, dist[e]) {
      var dist' := dist[e := Some(next.cost)];
      assert Core(adj, s, t, dist', heap + multiset{next}, done, paths[e := paths[u] + [e]]) && e !in done by {
        RelaxCore(adj, s, t, dist, heap, done, paths, u, k);
      }
      RelaxKeepsRelaxed(adj, dist, done, u, k);
    }
  }

  /** The core invariant after an improving relaxation of edge `k` of the
      expanded node `u`; the improved node has not been expanded. */
  lemma RelaxCore(adj: seq<seq<nat>>, s: nat, t: nat, dist: seq<Option<nat>>, heap: multiset<State>,
                  done: set<nat>, paths: seq<seq<nat>>, u: nat, k: nat)
    requires Core(adj, s, t, dist, heap, done, paths) && u in done && k < |adj[u]|
    requires Improves(dist[u].value + 1, dist[adj[u][k]])
    ensures var e := adj[u][k];
      var next := State(dist[u].value + 1, e);
      Core(adj, s, t, dist[e := Some(next.cost)], heap + multiset{next}, done, paths[e := paths[u] + [e]])
      && e !in done
  {
    var e := adj[u][k];
    var c := dist[u].value;
    var next := State(c + 1, e);
    var dist' := dist[e := Some(next.cost)];
    var heap' := heap + multiset{next};
    var paths' := paths[e := paths[u] + [e]];
    assert Walk(adj, paths[u] + [e], s, e) by {
      WalkExtend(adj, paths[u], s, u, e);
    }
    assert e !in done;
    assert e != s;
    assert State(c + 1, e) !in heap;
    forall w | 0 <= w < |adj| && dist'[w].Some?
      ensures Walk(adj, paths'[w], s, w) && |paths'[w]| == dist'[w].value + 1
    {
    }
    forall w | 0 <= w < |adj| && dist'[w].Some?
      ensures heap'[State(dist'[w].value, w)] == (if w in done then 0 else 1)
    {
      if w != e {
        assert State(dist'[w].value, w) != next;
      }
    }
  }

  /** An improving relaxation lowers only the distance of a node that has
      not been expanded, so every expanded node stays relaxed and `u` gains
      edge `k`. */
  lemma RelaxKeepsRelaxed(adj: seq<seq<nat>>, dist: seq<Option<nat>>, done: set<nat>, u: nat, k: nat)
    requires ValidGraph(adj) && |dist| == |adj| && u in done
    requires AllRelaxed(adj, dist, done - {u}) && Relaxed(adj, dist, u, k) && k < |adj[u]|
    requires adj[u][k] !in done && Improves(dist[u].value + 1, dist[adj[u][k]])
    ensures var dist' := dist[adj[u][k] := Some(dist[u].value + 1)];
      AllRelaxed(adj, dist', done - {u}) && Relaxed(adj, dist', u, k + 1) && dist'[u] == dist[u]
  {
    var e := adj[u][k];
    var dist' := dist[e := Some(dist[u].value + 1)];
    forall x | x in done - {u} ensures x < |adj| && Relaxed(adj, dist', x, |adj[x]|) {
      assert Relaxed(adj, dist, x, |adj[x]|);
    }
  }

  /** The nodes `0 .. n - 1`. */
  function Nodes(n: nat): (r: set<nat>)
    ensures forall v :: v in r ==> v < n
    ensures forall v: nat :: v < n ==> v in r
  {
    if n == 0 then {} else Nodes(n - 1) + {n - 1}
  }

  /** Popping the end's state: it is the live one, so its cost is the
      recorded distance, which is the length of the walk kept for it and no
      longer than any walk. */
  lemma FoundEnd(adj: seq<seq<nat>>, s: nat, t: nat, dist: seq<Option<nat>>, heap: multiset<State>,
                 done: set<nat>, paths: seq<seq<nat>>, st: State)
    requires Inv(adj, s, t, dist, heap, done, paths) && st in heap && st.position == t
    requires forall o :: o in heap ==> st.cost <= o.cost
    ensures Walk(adj, paths[t], s, t) && |paths[t]| == st.cost + 1
    ensures forall p :: Walk(adj, p, s, t) ==> st.cost <= |p| - 1
  {
    assert dist[t].Some? && heap[State(dist[t].value, t)] == 1;
    assert st.cost == dist[t].value;
    forall p | Walk(adj, p, s, t) ensures st.cost <= |p| - 1 {
      LowerBound(adj, s, t, dist, heap, done, paths, st.cost, t, p);
    }
  }

  /** Every distance in `dist'` is the one in `dist` or an improvement on it. */
  predicate NoWorse(dist: seq<Option<nat>>, dist': seq<Option<nat>>)
  {
    |dist'| == |dist| &&
    forall v :: 0 <= v < |dist| ==> dist'[v] == dist[v] || (dist'[v].Some? && Improves(dist'[v].value, dist[v]))
  }

  /** Improving one distance keeps every distance no worse than at the start. */
  lemma NoWorseStep(dist: seq<Option<nat>>, dist': seq<Option<nat>>, e: nat, cost: nat)
    requires NoWorse(dist, dist') && e < |dist'| && Improves(cost, dist'[e])
    ensures NoWorse(dist, dist'[e := Some(cost)])
  {
  }

  /** The inner loop of `shortest_path`: relax every edge of the node just
      expanded, pushing a state for each neighbour whose distance
      improves. */
  method Expand(adj: seq<seq<nat>>, s: nat, t: nat, dist: seq<Option<nat>>, heap: multiset<State>,
                ghost done: set<nat>, ghost paths: seq<seq<nat>>, position: nat)
    returns (dist': seq<Option<nat>>, heap': multiset<State>, ghost paths': seq<seq<nat>>)
    requires Core(adj, s, t, dist, heap, done, paths) && position in done
    requires AllRelaxed(adj, dist, done - {position}) && Relaxed(adj, dist, position, 0)
    ensures Inv(adj, s, t, dist', heap', done, paths')
    ensures heap <= heap' && |dist'| == |dist| && dist'[position] == dist[position]
    ensures NoWorse(dist, dist')
  {
    dist', heap', paths' := dist, heap, paths;
    var cost := dist[position].value;
    var k := 0;
    while k < |adj[position]|
      invariant Core(adj, s, t, dist', heap', done, paths')
      invariant AllRelaxed(adj, dist', done - {position}) && Relaxed(adj, dist', position, k)
      invariant dist'[position] == Some(cost)
      invariant heap <= heap' && |dist'| == |dist|
      invariant NoWorse(dist, dist')
    {
      var e := adj[position][k];
      RelaxStep(adj, s, t, dist', heap', done, paths', position, k);
      var next := State(cost + 1, e);
      if Improves(next.cost, dist'[e]) {
        NoWorseStep(dist, dist', e, next.cost);
        heap' := heap' + multiset{next};
        dist' := dist'[e := Some(next.cost)];
        paths' := paths'[e := paths'[position] + [e]];
      }
      k := k + 1;
    }
    assert AllRelaxed(adj, dist', done) by {
      forall u | u in done ensures u < |adj| && Relaxed(adj, dist', u, |adj[u]|) {
        if u != position {
          assert u in done - {position};
        }
      }
    }
  }

  /** One turn of `shortest_path`'s loop: pop the cheapest state; stop
      with its cost when it is the end's, skip it when it is stale, and
      otherwise expand its node. */
  method PopNext(adj: seq<seq<nat>>, s: nat, t: nat, dist: seq<Option<nat>>, heap: multiset<State>,
                 ghost done: set<nat>, ghost paths: seq<seq<nat>>, ghost undone: set<nat>)
    returns (found: Option<nat>, dist': seq<Option<nat>>, heap': multiset<State>,
             ghost done': set<nat>, ghost paths': seq<seq<nat>>, ghost undone': set<nat>)
    requires Inv(adj, s, t, dist, heap, done, paths) && |heap| > 0
    requires forall v :: 0 <= v < |adj| && v !in done ==> v in undone
    ensures found.Some? ==>
      (exists p :: Walk(adj, p, s, t) && |p| == found.value + 1)
      && forall p :: Walk(adj, p, s, t) ==> found.value <= |p| - 1
    ensures found.None? ==>
      Inv(adj, s, t, dist', heap', done', paths')
      && (forall v :: 0 <= v < |adj| && v !in done' ==> v in undone')
      && (|undone'| < |undone| || (|undone'| == |undone| && |heap'| < |heap|))
  {
    found, dist', heap', done', paths', undone' := None, dist, heap, done, paths, undone;
    var m := TopExists(heap);
    var st :| Top(heap, st);
    TopCheapest(heap, st);
    var cost, position := st.cost, st.position;
    if position == t {
      FoundEnd(adj, s, t, dist, heap, done, paths, st);
      return Some(cost), dist', heap', done', paths', undone';
    }
    if cost > dist[position].value {
      PopStale(adj, s, t, dist, heap, done, paths, st);
      heap' := heap - multiset{st};
      return;
    }
    PopSettle(adj, s, t, dist, heap, done, paths, st);
    done' := done + {position};
    undone' := undone - {position};
    dist', heap', paths' := Expand(adj, s, t, dist, heap - multiset{st}, done', paths, position);
  }

  /** `Graph::shortest_path`. Indexing the distance of a start outside the
      graph panics. Otherwise the result is the number of steps of a
      shortest walk to the end, or `None` exactly when no walk reaches
      it. */
  method ShortestPath(graph: Graph, start: Coords, end: Coords) returns (r: Result<Option<nat>>)
    requires ValidGraph(graph.adjacency)
    ensures var s := CoordsToIndex(graph.width, start);
      r.Err? <==> s >= |graph.adjacency|
    ensures var s, t := CoordsToIndex(graph.width, start), CoordsToIndex(graph.width, end);
      r == Ok(None) ==> forall p :: !Walk(graph.adjacency, p, s, t)
    ensures var s, t := CoordsToIndex(graph.width, start), CoordsToIndex(graph.width, end);
      r.Ok? && r.value.Some? ==>
        (exists p :: Walk(graph.adjacency, p, s, t) && |p| == r.value.value + 1)
        && forall p :: Walk(graph.adjacency, p, s, t) ==> r.value.value <= |p| - 1
    ensures var s := CoordsToIndex(graph.width, start);
      s < |graph.adjacency| && start == end ==> r == Ok(Some(0))
  {
    var adj := graph.adjacency;
    var s := CoordsToIndex(graph.width, start);
    var t := CoordsToIndex(graph.width, end);
    if s >= |adj| {
      return Err("start outside the graph");
    }
    var dist: seq<Option<nat>> := seq(|adj|, _ => None);
    ghost var paths: seq<seq<nat>> := seq(|adj|, _ => []);
    dist := dist[s := Some(0)];
    paths := paths[s := [s]];
    var heap := multiset{State(0, s)};
    ghost var done: set<nat> := {};
    ghost var undone: set<nat> := Nodes(|adj|);
    while |heap| > 0
      invariant Inv(adj, s, t, dist, heap, done, paths)
      invariant forall v :: 0 <= v < |adj| && v !in done ==> v in undone
      decreases |undone|, |heap|
    {
      var found;
      found, dist, heap, done, paths, undone := PopNext(adj, s, t, dist, heap, done, paths, undone);
      if found.Some? {
        assert Walk(adj, [s], s, s);
        return Ok(found);
      }
    }
    forall p ensures !Walk(adj, p, s, t) {
      ExhaustedReachesDone(adj, s, t, dist, done, paths, t, p);
    }
    assert Walk(adj, [s], s, s);
    return Ok(None);
  }

  // ---------------------------------------------------------------------------
  // `main`.

  /** The squares part two starts from: the start and every `a`. */
  predicate Lowest(t: Tile)
  {
    t == Start || t == Elevation('a')
  }

  /** The graph `build_graph` returns for a rectangular map. */
  predicate BuiltFrom(graph: Graph, hm: Heightmap)
    requires Rectangular(hm)
  {
    graph == Graph(|hm[0]|, |hm|, Adjacency(hm, |hm[0]|, |hm|))
  }

  /** `p` is a walk to `t` from the lowest square (x, y). */
  ghost predicate LowWalk(hm: Heightmap, adj: seq<seq<nat>>, w: nat, t: nat, x: nat, y: nat, p: seq<nat>)
  {
    y < |hm| && x < |hm[y]| && Lowest(hm[y][x]) && Walk(adj, p, CoordsToIndex(w, (x, y)), t)
  }

  /** `best` is no longer than any walk from a lowest square before
      `limit` in row-major order. */
  ghost predicate BoundsBefore(best: Option<nat>, hm: Heightmap, adj: seq<seq<nat>>, w: nat, t: nat, limit: Coords)
  {
    forall y, x, p :: Before((x, y), limit) && LowWalk(hm, adj, w, t, x, y, p) ==> best.Some? && best.value <= |p| - 1
  }

  /** `best`, when present, is the length of a walk from a lowest
      square. */
  ghost predicate Witnessed(best: Option<nat>, hm: Heightmap, adj: seq<seq<nat>>, w: nat, t: nat)
  {
    best.Some? ==> exists y, x, p :: LowWalk(hm, adj, w, t, x, y, p) && |p| == best.value + 1
  }

  /** What `shortest_path` promises for one source. */
  ghost predicate Shortest(adj: seq<seq<nat>>, s: nat, t: nat, res: Option<nat>)
  {
    (res.None? ==> forall p :: !Walk(adj, p, s, t))
    && (res.Some? ==> (exists p :: Walk(adj, p, s, t) && |p| == res.value + 1)
                      && forall p :: Walk(adj, p, s, t) ==> res.value <= |p| - 1)
  }

  /** Taking the smaller of `best` and the search result from cell (x, y)
      extends the bound past that cell and keeps a witness. */
  lemma TakeSmaller(hm: Heightmap, adj: seq<seq<nat>>, w: nat, t: nat, x: nat, y: nat,
                    best: Option<nat>, res: Option<nat>, best': Option<nat>)
    requires y < |hm| && x < |hm[y]|
    requires BoundsBefore(best, hm, adj, w, t, (x, y)) && Witnessed(best, hm, adj, w, t)
    requires Lowest(hm[y][x]) ==> Shortest(adj, CoordsToIndex(w, (x, y)), t, res)
    requires best' == if Lowest(hm[y][x]) && res.Some? && (best.None? || res.value < best.value) then res else best
    ensures BoundsBefore(best', hm, adj, w, t, (x + 1, y)) && Witnessed(best', hm, adj, w, t)
  {
    if best' != best {
      var p :| Walk(adj, p, CoordsToIndex(w, (x, y)), t) && |p| == res.value + 1;
      assert LowWalk(hm, adj, w, t, x, y, p);
    }
    forall y2: nat, x2: nat, p: seq<nat> | Before((x2, y2), (x + 1, y)) && LowWalk(hm, adj, w, t, x2, y2, p)
      ensures best'.Some? && best'.value <= |p| - 1
    {
      if (x2, y2) != (x, y) {
        assert Before((x2, y2), (x, y));
      }
    }
  }

  /** A finished row: every cell before the end of row `y` is before the
      start of row `y + 1`. */
  lemma RowDone(hm: Heightmap, adj: seq<seq<nat>>, w: nat, t: nat, y: nat, best: Option<nat>)
    requires Rectangular(hm) && y < |hm|
    requires BoundsBefore(best, hm, adj, w, t, (|hm[0]|, y))
    ensures BoundsBefore(best, hm, adj, w, t, (0, y + 1))
  {
    forall y2: nat, x2: nat, p: seq<nat> | Before((x2, y2), (0, y + 1)) && LowWalk(hm, adj, w, t, x2, y2, p)
      ensures best.Some? && best.value <= |p| - 1
    {
      assert Before((x2, y2), (|hm[0]|, y));
    }
  }

  /** The second half of `main`: a search from every lowest square, in
      row-major order, keeping the smallest length found. The result is the
      length of a shortest walk to the end from any lowest square, and
      `None` exactly when no lowest square reaches the end. */
  method FewestStepsFromLowest(hm: Heightmap, graph: Graph, end: Coords) returns (best: Option<nat>)
    requires Rectangular(hm) && BuiltFrom(graph, hm)
    ensures forall y, x, p :: LowWalk(hm, graph.adjacency, graph.width, CoordsToIndex(graph.width, end), x, y, p) ==>
      best.Some? && best.value <= |p| - 1
    ensures best.Some? ==> exists y, x, p ::
      LowWalk(hm, graph.adjacency, graph.width, CoordsToIndex(graph.width, end), x, y, p) && |p| == best.value + 1
  {
    BuiltGraphValid(hm);
    var adj, w := graph.adjacency, graph.width;
    var t := CoordsToIndex(w, end);
    best := None;
    var y := 0;
    while y < |hm|
      invariant y <= |hm|
      invariant BoundsBefore(best, hm, adj, w, t, (0, y)) && Witnessed(best, hm, adj, w, t)
    {
      var x := 0;
      while x < |hm[y]|
        invariant x <= |hm[y]| == w
        invariant BoundsBefore(best, hm, adj, w, t, (x, y)) && Witnessed(best, hm, adj, w, t)
      {
        var res: Option<nat> := None;
        if Lowest(hm[y][x]) {
          AdjacencyAt(hm, |hm|, x, y);
          AdjacencyLength(hm, |hm|);
          var r := ShortestPath(graph, (x, y), end);
          res := r.value;
        }
        var best' := if Lowest(hm[y][x]) && res.Some? && (best.None? || res.value < best.value) then res else best;
        TakeSmaller(hm, adj, w, t, x, y, best, res, best');
        best := best';
        x := x + 1;
      }
      RowDone(hm, adj, w, t, y, best);
      y := y + 1;
    }
    forall y: nat, x: nat, p: seq<nat> | LowWalk(hm, adj, w, t, x, y, p) ensures best.Some? && best.value <= |p| - 1 {
      assert Before((x, y), (0, |hm|));
    }
  }

  /** The start is a lowest square, so part two's answer is never longer
      than part one's. */
  lemma LowestBeatsStart(hm: Heightmap, adj: seq<seq<nat>>, w: nat, t: nat, x: nat, y: nat,
                         first: Option<nat>, second: Option<nat>)
    requires y < |hm| && x < |hm[y]| && hm[y][x] == Start
    requires Shortest(adj, CoordsToIndex(w, (x, y)), t, first)
    requires forall y2, x2, p :: LowWalk(hm, adj, w, t, x2, y2, p) ==> second.Some? && second.value <= |p| - 1
    ensures first.Some? ==> second.Some? && second.value <= first.value
  {
    if first.Some? {
      var p :| Walk(adj, p, CoordsToIndex(w, (x, y)), t) && |p| == first.value + 1;
      assert LowWalk(hm, adj, w, t, x, y, p);
    }
  }

  /** Part one's answer: the fewest steps from the first start square to
      the first end square in row-major order, the cells `find_start` and
      `find_end` return; `None` when no walk joins them. */
  ghost predicate PartOne(hm: Heightmap, res: Option<nat>)
    requires Rectangular(hm)
  {
    exists x1: nat, y1: nat, x2: nat, y2: nat ::
      && FirstTile(hm, Start, (x1, y1))
      && FirstTile(hm, End, (x2, y2))
      && Shortest(Adjacency(hm, |hm[0]|, |hm|), CoordsToIndex(|hm[0]|, (x1, y1)), CoordsToIndex(|hm[0]|, (x2, y2)), res)
  }

  /** Part two's answer: the fewest steps to the first end square from any
      lowest square, `None` when none reaches it. */
  ghost predicate PartTwo(hm: Heightmap, res: Option<nat>)
    requires Rectangular(hm)
  {
    exists x2: nat, y2: nat ::
      && FirstTile(hm, End, (x2, y2))
      && BoundsBefore(res, hm, Adjacency(hm, |hm[0]|, |hm|), |hm[0]|, CoordsToIndex(|hm[0]|, (x2, y2)), (0, |hm|))
      && Witnessed(res, hm, Adjacency(hm, |hm[0]|, |hm|), |hm[0]|, CoordsToIndex(|hm[0]|, (x2, y2)))
  }

  /** `main` on a rectangular map: the fewest steps from the start to the
      end, then from any lowest square; a missing start or end panics. */
  method Solve(hm: Heightmap) returns (r: Result<(Option<nat>, Option<nat>)>)
    requires Rectangular(hm)
    ensures r.Err? <==> (forall y, x :: 0 <= y < |hm| && 0 <= x < |hm[y]| ==> hm[y][x] != Start)
                        || (forall y, x :: 0 <= y < |hm| && 0 <= x < |hm[y]| ==> hm[y][x] != End)
    ensures r.Ok? ==> PartOne(hm, r.value.0) && PartTwo(hm, r.value.1)
    ensures r.Ok? ==> (r.value.0.Some? ==> r.value.1.Some? && r.value.1.value <= r.value.0.value)
  {
    var built := BuildGraph(hm);
    var graph := built.value;
    var start := FindStart(hm);
    var end := FindEnd(hm);
    if start.Err? || end.Err? {
      return Err("start or end not found");
    }
    var x, y := start.value.0, start.value.1;
    BuiltGraphValid(hm);
    AdjacencyLength(hm, |hm|);
    AdjacencyAt(hm, |hm|, x, y);
    var first := ShortestPath(graph, start.value, end.value);
    var second := FewestStepsFromLowest(hm, graph, end.value);
    var t := CoordsToIndex(graph.width, end.value);
    assert Shortest(graph.adjacency, CoordsToIndex(graph.width, (x, y)), t, first.value);
    LowestBeatsStart(hm, graph.adjacency, graph.width, t, x, y, first.value, second);
    var ex, ey := end.value.0, end.value.1;
    assert PartOne(hm, first.value) by {
      assert Shortest(Adjacency(hm, |hm[0]|, |hm|), CoordsToIndex(|hm[0]|, (x, y)), CoordsToIndex(|hm[0]|, (ex, ey)), first.value);
    }
    assert PartTwo(hm, second) by {
      assert BoundsBefore(second, hm, Adjacency(hm, |hm[0]|, |hm|), |hm[0]|, CoordsToIndex(|hm[0]|, (ex, ey)), (0, |hm|));
      assert Witnessed(second, hm, Adjacency(hm, |hm[0]|, |hm|), |hm[0]|, CoordsToIndex(|hm[0]|, (ex, ey)));
    }
    r := Ok((first.value, second));
  }
}
