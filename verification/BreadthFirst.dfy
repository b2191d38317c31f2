/** Breadth-first search over an adjacency list, and what its order means in terms of walks. */
module BreadthFirst {

  /** Successors by node, each a list of node indices. */
  type Graph = seq<seq<nat>>

  predicate Closed(g: Graph) {
    forall i, k | 0 <= i < |g| && 0 <= k < |g[i]| :: g[i][k] < |g|
  }

  predicate Edge(g: Graph, i: nat, j: nat) {
    i < |g| && j in g[i]
  }

  /** There is a walk of `n` edges from `i` to `j`. */
  ghost predicate Walk(g: Graph, i: nat, j: nat, n: nat)
    decreases n
  {
    if n == 0 then i == j else exists k: nat :: Walk(g, i, k, n - 1) && Edge(g, k, j)
  }

  ghost predicate Reaches(g: Graph, i: nat, j: nat) {
    exists n: nat :: Walk(g, i, j, n)
  }

  /** `x` is at most as far from `i` as `y` is. */
  ghost predicate NoFarther(g: Graph, i: nat, x: nat, y: nat) {
    forall n: nat | Walk(g, i, y, n) :: exists m: nat :: m <= n && Walk(g, i, x, m)
  }

  predicate Distinct(s: seq<nat>) {
    forall p, q | 0 <= p < q < |s| :: s[p] != s[q]
  }

  predicate Below(s: seq<nat>, n: nat) {
    forall p | 0 <= p < |s| :: s[p] < n
  }

  // ---------------------------------------------------------------- the search

  /** The targets that are not queued yet join the queue, in their order. */
  function Visit(queue: seq<nat>, targets: seq<nat>): seq<nat>
    decreases |targets|
  {
    if targets == [] then queue
    else Visit(if targets[0] in queue then queue else queue + [targets[0]], targets[1..])
  }

  /** The queue at the end of a search that has expanded `cursor` nodes of it. */
  function Search(g: Graph, queue: seq<nat>, cursor: nat): seq<nat>
    requires Closed(g) && Distinct(queue) && Below(queue, |g|) && cursor <= |queue|
    decreases |g| - cursor
  {
    if cursor == |queue| then queue else
      DistinctFit(queue, |g|);
      VisitKeeps(queue, g[queue[cursor]], |g|);
      Search(g, Visit(queue, g[queue[cursor]]), cursor + 1)
  }

  /** Everything compatible with `i`, nearest first. */
  function From(g: Graph, i: nat): seq<nat>
    requires Closed(g) && i < |g|
  {
    Search(g, [i], 0)
  }

  lemma {:induction false} DistinctFit(s: seq<nat>, n: nat)
    requires Distinct(s) && Below(s, n)
    ensures |s| <= n
  {
    var members := set p: nat | p < |s| :: s[p];
    DistinctCount(s);
    BelowCount(members, n);
  }

  lemma {:induction false} DistinctCount(s: seq<nat>)
    requires Distinct(s)
    ensures |set p: nat | p < |s| :: s[p]| == |s|
  {
    if s != [] {
      var n := |s| - 1;
      DistinctCount(s[..n]);
      var shorter := set p: nat | p < |s[..n]| :: s[..n][p];
      assert (set p: nat | p < |s| :: s[p]) == shorter + {s[n]};
      assert s[n] !in shorter;
    }
  }

  lemma {:induction false} BelowCount(members: set<nat>, n: nat)
    requires forall x | x in members :: x < n
    ensures |members| <= n
  {
    if n == 0 {
      assert members == {};
    } else {
      BelowCount(members - {n - 1}, n - 1);
    }
  }

  lemma {:induction false} VisitKeeps(queue: seq<nat>, targets: seq<nat>, n: nat)
    requires Distinct(queue) && Below(queue, n) && Below(targets, n)
    ensures var next := Visit(queue, targets);
            Distinct(next) && Below(next, n) && |queue| <= |next| && next[..|queue|] == queue
    decreases |targets|
  {
    if targets != [] {
      var more := if targets[0] in queue then queue else queue + [targets[0]];
      VisitKeeps(more, targets[1..], n);
      assert Visit(queue, targets)[..|queue|] == Visit(queue, targets)[..|more|][..|queue|];
    }
  }

  // ---------------------------------------------------------------- distances

  /** `dist` gives each queued node the length of a walk to it; lengths never fall along the queue. */
  ghost predicate Measured(g: Graph, i: nat, queue: seq<nat>, dist: seq<nat>) {
    && |dist| == |queue| && queue != [] && queue[0] == i && dist[0] == 0
    && (forall p | 0 <= p < |queue| :: Walk(g, i, queue[p], dist[p]))
    && forall p, q | 0 <= p < q < |dist| :: dist[p] <= dist[q]
  }

  /** The node `j` is queued, no later than the distance `d`. */
  ghost predicate Near(queue: seq<nat>, dist: seq<nat>, j: nat, d: nat)
    requires |dist| == |queue|
  {
    exists p :: 0 <= p < |queue| && queue[p] == j && dist[p] <= d
  }

  ghost predicate ExpandedAt(g: Graph, queue: seq<nat>, dist: seq<nat>, p: nat)
    requires |dist| == |queue| && p < |queue|
  {
    forall j | Edge(g, queue[p], j) :: Near(queue, dist, j, dist[p] + 1)
  }

  ghost predicate Expanded(g: Graph, queue: seq<nat>, dist: seq<nat>, cursor: nat)
    requires |dist| == |queue| && cursor <= |queue|
  {
    forall p | 0 <= p < cursor :: ExpandedAt(g, queue, dist, p)
  }

  /** Nothing is queued more than one step beyond `d`. */
  predicate Within(dist: seq<nat>, d: nat) {
    forall p | 0 <= p < |dist| :: dist[p] <= d + 1
  }

  lemma {:induction false} VisitMeasures(g: Graph, i: nat, queue: seq<nat>, dist: seq<nat>, node: nat, d: nat, targets: seq<nat>)
    returns (more: seq<nat>)
    requires Measured(g, i, queue, dist) && Within(dist, d) && Walk(g, i, node, d)
    requires forall k | 0 <= k < |targets| :: Edge(g, node, targets[k])
    ensures var next := Visit(queue, targets);
            && Measured(g, i, next, more) && Within(more, d)
            && |queue| <= |next| && next[..|queue|] == queue && more[..|queue|] == dist
            && forall k | 0 <= k < |targets| :: Near(next, more, targets[k], d + 1)
    decreases |targets|
  {
    if targets == [] {
      more := dist;
      return;
    }
    var j := targets[0];
    var queue', dist' := if j in queue then queue else queue + [j], if j in queue then dist else dist + [d + 1];
    assert Edge(g, node, targets[0]);
    var p := VisitMeasuresOne(g, i, queue, dist, node, d, j, queue', dist');
    more := VisitMeasures(g, i, queue', dist', node, d, targets[1..]);
    var next := Visit(queue, targets);
    assert next[..|queue|] == next[..|queue'|][..|queue|] && more[..|queue|] == more[..|queue'|][..|queue|];
    assert next[p] == next[..|queue'|][p] == j && more[p] == more[..|queue'|][p] <= d + 1;
    forall k | 0 <= k < |targets| ensures Near(next, more, targets[k], d + 1) {
      if k > 0 {
        assert targets[k] == targets[1..][k - 1];
      }
    }
  }

  lemma VisitMeasuresOne(g: Graph, i: nat, queue: seq<nat>, dist: seq<nat>, node: nat, d: nat, j: nat,
                         queue': seq<nat>, dist': seq<nat>)
    returns (p: nat)
    requires Measured(g, i, queue, dist) && Within(dist, d) && Walk(g, i, node, d) && Edge(g, node, j)
    requires queue' == if j in queue then queue else queue + [j]
    requires dist' == if j in queue then dist else dist + [d + 1]
    ensures Measured(g, i, queue', dist') && Within(dist', d)
    ensures |queue| <= |queue'| && queue'[..|queue|] == queue && dist'[..|queue|] == dist
    ensures p < |queue'| && queue'[p] == j && dist'[p] <= d + 1
  {
    if j in queue {
      p :| 0 <= p < |queue| && queue[p] == j;
    } else {
      p := |queue|;
      hide Walk;
      WalkOn(g, i, node, j, d);
    }
  }

  lemma WalkOn(g: Graph, i: nat, k: nat, j: nat, n: nat)
    requires Walk(g, i, k, n) && Edge(g, k, j)
    ensures Walk(g, i, j, n + 1)
  {
  }

  lemma NearStays(queue: seq<nat>, dist: seq<nat>, next: seq<nat>, more: seq<nat>, j: nat, d: nat)
    requires |dist| == |queue| <= |next| == |more| && next[..|queue|] == queue && more[..|queue|] == dist
    requires Near(queue, dist, j, d)
    ensures Near(next, more, j, d)
  {
    var p :| 0 <= p < |queue| && queue[p] == j && dist[p] <= d;
    assert next[p] == next[..|queue|][p] && more[p] == more[..|queue|][p];
  }

  lemma ExpandedStays(g: Graph, queue: seq<nat>, dist: seq<nat>, next: seq<nat>, more: seq<nat>, cursor: nat)
    requires |dist| == |queue| <= |next| == |more| && next[..|queue|] == queue && more[..|queue|] == dist && cursor <= |queue|
    requires Expanded(g, queue, dist, cursor)
    ensures Expanded(g, next, more, cursor)
  {
    forall p | 0 <= p < cursor ensures ExpandedAt(g, next, more, p) {
      assert next[p] == next[..|queue|][p] && more[p] == more[..|queue|][p];
      assert ExpandedAt(g, queue, dist, p);
      forall j | Edge(g, next[p], j) ensures Near(next, more, j, more[p] + 1) {
        NearStays(queue, dist, next, more, j, dist[p] + 1);
      }
    }
  }

  lemma {:induction false} SearchMeasures(g: Graph, i: nat, queue: seq<nat>, dist: seq<nat>, cursor: nat) returns (more: seq<nat>)
    requires Closed(g) && Distinct(queue) && Below(queue, |g|) && cursor <= |queue|
    requires Measured(g, i, queue, dist) && Expanded(g, queue, dist, cursor)
    requires cursor < |queue| ==> Within(dist, dist[cursor])
    ensures var all := Search(g, queue, cursor);
            Measured(g, i, all, more) && Expanded(g, all, more, |all|) && Distinct(all) && Below(all, |g|)
    decreases |g| - cursor
  {
    if cursor == |queue| {
      more := dist;
      return;
    }
    DistinctFit(queue, |g|);
    var node, d := queue[cursor], dist[cursor];
    VisitKeeps(queue, g[node], |g|);
    var next := Visit(queue, g[node]);
    var more' := VisitMeasures(g, i, queue, dist, node, d, g[node]);
    ExpandedStays(g, queue, dist, next, more', cursor);
    assert next[cursor] == next[..|queue|][cursor] == node && more'[cursor] == more'[..|queue|][cursor] == d;
    assert ExpandedAt(g, next, more', cursor);
    more := SearchMeasures(g, i, next, more', cursor + 1);
  }

  // ---------------------------------------------------------------- what the order means

  /** A finished queue holds the end of every walk, no later than the walk is long. */
  lemma {:induction false} WalkEndsNear(g: Graph, i: nat, queue: seq<nat>, dist: seq<nat>, j: nat, n: nat)
    requires Measured(g, i, queue, dist) && Expanded(g, queue, dist, |queue|) && Walk(g, i, j, n)
    ensures Near(queue, dist, j, n)
    decreases n
  {
    if n == 0 {
      assert queue[0] == j && dist[0] <= n;
    } else {
      var k: nat :| Walk(g, i, k, n - 1) && Edge(g, k, j);
      WalkEndsNear(g, i, queue, dist, k, n - 1);
      var p :| 0 <= p < |queue| && queue[p] == k && dist[p] <= n - 1;
      assert ExpandedAt(g, queue, dist, p) && Edge(g, queue[p], j);
      var q :| 0 <= q < |queue| && queue[q] == j && dist[q] <= dist[p] + 1;
      assert queue[q] == j && dist[q] <= n;
    }
  }

  /**
   * The search from `i` lists exactly the nodes that walks from `i` reach, each once, `i` first, and never a node
   * before one that is nearer.
   */
  lemma FromIsReachable(g: Graph, i: nat)
    requires Closed(g) && i < |g|
    ensures var row := From(g, i);
            && row != [] && row[0] == i && Distinct(row) && Below(row, |g|)
            && (forall j: nat :: j in row <==> Reaches(g, i, j))
            && forall p, q | 0 <= p < q < |row| :: NoFarther(g, i, row[p], row[q])
  {
    var row := From(g, i);
    assert Walk(g, i, i, 0);
    var dist := SearchMeasures(g, i, [i], [0], 0);
    forall j: nat | Reaches(g, i, j) ensures j in row {
      var n: nat :| Walk(g, i, j, n);
      WalkEndsNear(g, i, row, dist, j, n);
    }
    forall j: nat | j in row ensures Reaches(g, i, j) {
      var p :| 0 <= p < |row| && row[p] == j;
      assert Walk(g, i, j, dist[p]);
    }
    forall p, q | 0 <= p < q < |row| ensures NoFarther(g, i, row[p], row[q]) {
      forall n: nat | Walk(g, i, row[q], n) ensures exists m: nat :: m <= n && Walk(g, i, row[p], m) {
        WalkEndsNear(g, i, row, dist, row[q], n);
        assert dist[q] <= n && dist[p] <= dist[q] && Walk(g, i, row[p], dist[p]);
      }
    }
  }
}
