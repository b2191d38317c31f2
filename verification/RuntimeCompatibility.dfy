/**
 * Queries on a loaded runtime graph (crates/dv-core/src/runtime_graph.rs, `find_node`, `direct_imports`,
 * `compatible_rids` and `are_compatible`), and what their answers mean for the document that the graph was loaded from,
 * in terms of names instead of compact indices.
 */
module RuntimeCompatibility {
  import opened Wrappers
  import opened TextOrder
  import opened Spans
  import opened BreadthFirst
  import opened RuntimeGraph

  // ---------------------------------------------------------------- queries

  /** What the queries rely on: decodable sorted names, edges and batches in bounds, no empty batch. */
  predicate WellFormed(graph: RuntimeIdentifierGraph) {
    && Readable(graph.text, graph.nodes) && Increasing(Decoded(graph.text, graph.nodes))
    && Linked(graph.nodes, graph.imports) && |graph.ranges| == |graph.nodes|
    && forall i | 0 <= i < |graph.nodes| :: BatchInBounds(graph, i)
  }

  predicate BatchInBounds(graph: RuntimeIdentifierGraph, i: nat)
    requires i < |graph.ranges|
  {
    && InBounds(graph.compatibilities, graph.ranges[i]) && graph.ranges[i].len > 0
    && Below(Slice(graph.compatibilities, graph.ranges[i]), |graph.nodes|)
  }

  function FindNode(graph: RuntimeIdentifierGraph, identifier: string): (r: Option<nat>)
    requires WellFormed(graph)
    ensures r.Some? ==> r.value < |graph.nodes| && Decoded(graph.text, graph.nodes)[r.value] == identifier
    ensures r.None? ==> identifier !in Decoded(graph.text, graph.nodes)
  {
    match BinarySearch(Decoded(graph.text, graph.nodes), identifier)
    case Success(i) => Some(i)
    case Failure(_) => None
  }

  predicate AreCompatible(graph: RuntimeIdentifierGraph, requested: string, provided: string)
    requires WellFormed(graph)
  {
    requested == provided ||
    match FindNode(graph, requested)
    case None => false
    case Some(requestedIndex) =>
      match FindNode(graph, provided)
      case None => false
      case Some(providedIndex) =>
        assert BatchInBounds(graph, requestedIndex);
        providedIndex in Slice(graph.compatibilities, graph.ranges[requestedIndex])
  }

  /** The names at the given indices. */
  function Identifiers(graph: RuntimeIdentifierGraph, indices: seq<nat>): (names: seq<string>)
    requires Readable(graph.text, graph.nodes) && Below(indices, |graph.nodes|)
    ensures |names| == |indices|
    ensures forall k | 0 <= k < |names| :: names[k] == Decoded(graph.text, graph.nodes)[indices[k]]
  {
    seq(|indices|, k requires 0 <= k < |indices| => Slice(graph.text, graph.nodes[indices[k]].identifier))
  }

  /** The requested name, then the rest of its batch. */
  function CompatibleRids(graph: RuntimeIdentifierGraph, requested: string): seq<string>
    requires WellFormed(graph)
  {
    match FindNode(graph, requested)
    case None => [requested]
    case Some(i) =>
      assert BatchInBounds(graph, i);
      [requested] + Identifiers(graph, Slice(graph.compatibilities, graph.ranges[i])[1..])
  }

  function DirectImports(graph: RuntimeIdentifierGraph, requested: string): Option<seq<string>>
    requires WellFormed(graph)
  {
    match FindNode(graph, requested)
    case None => None
    case Some(i) => Some(Identifiers(graph, Slice(graph.imports, graph.nodes[i].imports)))
  }

  // ---------------------------------------------------------------- a loaded graph

  lemma LoadedIsWellFormed(graph: RuntimeIdentifierGraph, full: Document)
    requires Compiled(graph, full)
    ensures WellFormed(graph)
  {
    forall i | 0 <= i < |graph.nodes| ensures BatchInBounds(graph, i) {
      BatchLies(graph, full, i);
    }
  }

  /** A node's batch is its search. */
  lemma BatchLies(graph: RuntimeIdentifierGraph, full: Document, i: nat)
    requires Compiled(graph, full) && i < |full|
    ensures InBounds(graph.compatibilities, graph.ranges[i])
    ensures Slice(graph.compatibilities, graph.ranges[i]) == From(Resolved(full), i)
    ensures From(Resolved(full), i) != [] && Below(From(Resolved(full), i), |full|) && From(Resolved(full), i)[0] == i
  {
    assert BatchAt(Resolved(full), graph.ranges[i], graph.compatibilities, i);
    FromIsReachable(Resolved(full), i);
  }

  /** Every entry is found, and nothing else is. */
  lemma FindNodeFinds(graph: RuntimeIdentifierGraph, full: Document, name: string)
    requires Compiled(graph, full)
    ensures WellFormed(graph) && (name in Names(full) <==> FindNode(graph, name).Some?)
    ensures forall i | 0 <= i < |full| && full[i].identifier == name :: FindNode(graph, name) == Some(i)
  {
    LoadedIsWellFormed(graph, full);
    forall i | 0 <= i < |full| && full[i].identifier == name ensures FindNode(graph, name) == Some(i) {
      assert Names(full)[i] == name;
      IncreasingIsDistinct(Names(full), FindNode(graph, name).value, i);
    }
  }

  // ---------------------------------------------------------------- walks by index and by name

  lemma EdgeIsImport(document: Document, full: Document, k: nat, j: nat)
    requires Completes(document, full) && k < |full| && j < |full|
    ensures Edge(Resolved(full), k, j) <==> Imports(document, full[k].identifier, full[j].identifier)
  {
    var row := ResolvedAt(full, k);
    if j in row {
      var p :| 0 <= p < |row| && row[p] == j;
      assert full[k].imports[p] == full[j].identifier;
      assert full[k] in document;
    }
    if Imports(document, full[k].identifier, full[j].identifier) {
      var i :| 0 <= i < |document| && document[i].identifier == full[k].identifier && full[j].identifier in document[i].imports;
      EntryIs(document, full, i, k);
      var p :| 0 <= p < |full[k].imports| && full[k].imports[p] == full[j].identifier;
      IncreasingIsDistinct(Names(full), row[p], j);
    }
  }

  lemma EntryIs(document: Document, full: Document, i: nat, k: nat)
    requires Completes(document, full) && i < |document| && k < |full| && document[i].identifier == full[k].identifier
    ensures document[i] == full[k]
  {
    assert document[i] in full;
    var m :| 0 <= m < |full| && full[m] == document[i];
    IncreasingIsDistinct(Names(full), m, k);
  }

  lemma {:induction false} WalkIsImportWalk(document: Document, full: Document, i: nat, j: nat, n: nat)
    requires Completes(document, full) && i < |full| && j < |full| && Walk(Resolved(full), i, j, n)
    ensures ImportWalk(document, full[i].identifier, full[j].identifier, n)
    decreases n
  {
    hide Imports, IsLeaf, ResolvedAt, ImportsKnown;
    if n > 0 {
      var k: nat :| Walk(Resolved(full), i, k, n - 1) && Edge(Resolved(full), k, j);
      WalkIsImportWalk(document, full, i, k, n - 1);
      EdgeIsImport(document, full, k, j);
    }
  }

  lemma {:induction false} ImportWalkIsWalk(document: Document, full: Document, i: nat, j: nat, n: nat)
    requires Completes(document, full) && i < |full| && j < |full|
    requires ImportWalk(document, full[i].identifier, full[j].identifier, n)
    ensures Walk(Resolved(full), i, j, n)
    decreases n
  {
    hide Imports, IsLeaf, ResolvedAt, Edge;
    var a, b := full[i].identifier, full[j].identifier;
    if n == 0 {
      IncreasingIsDistinct(Names(full), i, j);
    } else {
      var c :| ImportWalk(document, a, c, n - 1) && Imports(document, c, b);
      var k := KnownAt(document, full, c, b);
      ImportWalkIsWalk(document, full, i, k, n - 1);
      EdgeIsImport(document, full, k, j);
    }
  }

  /** Whoever imports something has a node. */
  lemma KnownAt(document: Document, full: Document, c: string, b: string) returns (k: nat)
    requires Completes(document, full) && Imports(document, c, b)
    ensures k < |full| && full[k].identifier == c
  {
    var i :| 0 <= i < |document| && document[i].identifier == c && b in document[i].imports;
    assert document[i] in full;
    k :| 0 <= k < |full| && full[k] == document[i];
  }

  /** A walk of at least one step leads from a node to a node. */
  lemma {:induction false} WalkStaysKnown(document: Document, full: Document, a: string, b: string, n: nat)
    requires Completes(document, full) && ImportWalk(document, a, b, n) && n > 0
    ensures a in Names(full) && b in Names(full)
    decreases n
  {
    var c :| ImportWalk(document, a, c, n - 1) && Imports(document, c, b);
    var k := KnownAt(document, full, c, b);
    assert Names(full)[k] == c;
    if n > 1 { WalkStaysKnown(document, full, a, c, n - 1); }
    var i :| 0 <= i < |document| && document[i].identifier == c && b in document[i].imports;
    EntryIs(document, full, i, k);
    var p :| 0 <= p < |full[k].imports| && full[k].imports[p] == b;
    assert full[k].imports[p] in Names(full);
  }

  // ---------------------------------------------------------------- main results

  /** Two runtimes are compatible if and only if the second is reached from the first by imports; cycles included. */
  lemma AreCompatibleIsClosure(document: Document, full: Document, graph: RuntimeIdentifierGraph, a: string, b: string)
    requires Completes(document, full) && Compiled(graph, full)
    ensures WellFormed(graph) && (AreCompatible(graph, a, b) <==> Provides(document, a, b))
  {
    FindNodeFinds(graph, full, a);
    FindNodeFinds(graph, full, b);
    if a == b {
      assert ImportWalk(document, a, b, 0);
    } else if a !in Names(full) || b !in Names(full) {
      forall n: nat ensures !ImportWalk(document, a, b, n) {
        if ImportWalk(document, a, b, n) { WalkStaysKnown(document, full, a, b, n); }
      }
    } else {
      PresentIsReached(document, full, graph, a, b);
    }
  }

  lemma PresentIsReached(document: Document, full: Document, graph: RuntimeIdentifierGraph, a: string, b: string)
    requires Completes(document, full) && Compiled(graph, full) && a != b && a in Names(full) && b in Names(full)
    ensures WellFormed(graph) && (AreCompatible(graph, a, b) <==> Provides(document, a, b))
  {
    FindNodeFinds(graph, full, a);
    FindNodeFinds(graph, full, b);
    var i, j := FindNode(graph, a).value, FindNode(graph, b).value;
    BatchLies(graph, full, i);
    FromIsReachable(Resolved(full), i);
    ReachesIsProvides(document, full, i, j);
  }

  lemma ReachesIsProvides(document: Document, full: Document, i: nat, j: nat)
    requires Completes(document, full) && i < |full| && j < |full|
    ensures Reaches(Resolved(full), i, j) <==> Provides(document, full[i].identifier, full[j].identifier)
  {
    if Reaches(Resolved(full), i, j) {
      var n: nat :| Walk(Resolved(full), i, j, n);
      WalkIsImportWalk(document, full, i, j, n);
    }
    if Provides(document, full[i].identifier, full[j].identifier) {
      var n: nat :| ImportWalk(document, full[i].identifier, full[j].identifier, n);
      ImportWalkIsWalk(document, full, i, j, n);
    }
  }

  /** `x` needs no more imports from `a` than `y` does. */
  ghost predicate NoFartherByName(document: Document, a: string, x: string, y: string) {
    forall n: nat | ImportWalk(document, a, y, n) :: exists m: nat :: m <= n && ImportWalk(document, a, x, m)
  }

  ghost predicate ListsProvided(document: Document, a: string, rids: seq<string>) {
    && rids != [] && rids[0] == a
    && (forall p, q | 0 <= p < q < |rids| :: rids[p] != rids[q])
    && (forall b :: b in rids <==> Provides(document, a, b))
    && forall p, q | 0 <= p < q < |rids| :: NoFartherByName(document, a, rids[p], rids[q])
  }

  lemma RowIsNamed(graph: RuntimeIdentifierGraph, full: Document, i: nat)
    requires Compiled(graph, full) && i < |full|
    ensures WellFormed(graph)
    ensures NamesRow(full, From(Resolved(full), i), CompatibleRids(graph, full[i].identifier))
  {
    FindNodeFinds(graph, full, full[i].identifier);
    BatchLies(graph, full, i);
    RestIsNamed(graph, full, From(Resolved(full), i));
  }

  lemma RestIsNamed(graph: RuntimeIdentifierGraph, full: Document, row: seq<nat>)
    requires Compiled(graph, full) && row != [] && Below(row, |full|)
    ensures Below(row[1..], |graph.nodes|)
    ensures forall p | 0 < p < |row| :: Identifiers(graph, row[1..])[p - 1] == full[row[p]].identifier
  {
    forall p | 0 < p < |row| ensures Identifiers(graph, row[1..])[p - 1] == full[row[p]].identifier {
      assert row[1..][p - 1] == row[p];
      assert Decoded(graph.text, graph.nodes)[row[p]] == Names(full)[row[p]];
    }
  }

  ghost predicate NamesRow(full: Document, row: seq<nat>, rids: seq<string>) {
    |rids| == |row| && Below(row, |full|) && forall p | 0 <= p < |row| :: rids[p] == full[row[p]].identifier
  }

  lemma ListedIsProvided(document: Document, full: Document, i: nat, rids: seq<string>, b: string)
    requires Completes(document, full) && i < |full| && NamesRow(full, From(Resolved(full), i), rids)
    ensures b in rids <==> Provides(document, full[i].identifier, b)
  {
    hide IsLeaf, ImportsKnown;
    var a, row := full[i].identifier, From(Resolved(full), i);
    FromIsReachable(Resolved(full), i);
    if b in rids {
      var p :| 0 <= p < |rids| && rids[p] == b;
      assert row[p] in row;
      ReachesIsProvides(document, full, i, row[p]);
    }
    if Provides(document, a, b) {
      var n: nat :| ImportWalk(document, a, b, n);
      if n == 0 {
        assert rids[0] == b;
      } else {
        WalkStaysKnown(document, full, a, b, n);
        var j :| 0 <= j < |full| && Names(full)[j] == b;
        ReachesIsProvides(document, full, i, j);
        var p :| 0 <= p < |row| && row[p] == j;
        assert rids[p] == b;
      }
    }
  }

  lemma RowListsProvided(document: Document, full: Document, i: nat, rids: seq<string>)
    requires Completes(document, full) && i < |full| && NamesRow(full, From(Resolved(full), i), rids)
    ensures ListsProvided(document, full[i].identifier, rids)
  {
    hide NoFartherByName, IsLeaf, ImportsKnown, Provides, NoFarther;
    var a, row := full[i].identifier, From(Resolved(full), i);
    FromIsReachable(Resolved(full), i);
    forall b ensures b in rids <==> Provides(document, a, b) {
      ListedIsProvided(document, full, i, rids, b);
    }
    forall p, q | 0 <= p < q < |row| ensures rids[p] != rids[q] && NoFartherByName(document, a, rids[p], rids[q]) {
      if rids[p] == rids[q] { IncreasingIsDistinct(Names(full), row[p], row[q]); }
      NoFartherIsByName(document, full, i, row[p], row[q]);
    }
  }

  lemma NoFartherIsByName(document: Document, full: Document, i: nat, x: nat, y: nat)
    requires Completes(document, full) && i < |full| && x < |full| && y < |full| && NoFarther(Resolved(full), i, x, y)
    ensures NoFartherByName(document, full[i].identifier, full[x].identifier, full[y].identifier)
  {
    forall n: nat | ImportWalk(document, full[i].identifier, full[y].identifier, n)
      ensures exists m: nat :: m <= n && ImportWalk(document, full[i].identifier, full[x].identifier, m)
    {
      ImportWalkIsWalk(document, full, i, y, n);
      var m: nat :| m <= n && Walk(Resolved(full), i, x, m);
      WalkIsImportWalk(document, full, i, x, m);
    }
  }

  lemma UnknownStandsAlone(document: Document, full: Document, graph: RuntimeIdentifierGraph, a: string)
    requires Completes(document, full) && Compiled(graph, full) && a !in Names(full)
    ensures WellFormed(graph) && ListsProvided(document, a, CompatibleRids(graph, a))
  {
    FindNodeFinds(graph, full, a);
    assert CompatibleRids(graph, a) == [a] && ImportWalk(document, a, a, 0);
    forall b | Provides(document, a, b) ensures b == a {
      var n: nat :| ImportWalk(document, a, b, n);
      if n > 0 { WalkStaysKnown(document, full, a, b, n); }
    }
  }

  /** The compatible runtimes: the requested one first, everything it provides once, nearest first. */
  lemma CompatibleRidsAreNearestFirst(document: Document, full: Document, graph: RuntimeIdentifierGraph, a: string)
    requires Completes(document, full) && Compiled(graph, full)
    ensures WellFormed(graph) && ListsProvided(document, a, CompatibleRids(graph, a))
  {
    hide ListsProvided, Completes, CompatibleRids, NamesRow;
    if a in Names(full) {
      var i :| 0 <= i < |full| && full[i].identifier == a;
      RowIsNamed(graph, full, i);
      RowListsProvided(document, full, i, CompatibleRids(graph, a));
    } else {
      UnknownStandsAlone(document, full, graph, a);
    }
  }

  /** A known runtime's direct imports are its entry's, in their order; an imported leaf has none. */
  lemma DirectImportsAreTheEntry(graph: RuntimeIdentifierGraph, full: Document, i: nat)
    requires Compiled(graph, full) && i < |full|
    ensures WellFormed(graph) && DirectImports(graph, full[i].identifier) == Some(full[i].imports)
  {
    FindNodeFinds(graph, full, full[i].identifier);
    var row := ResolvedAt(full, i);
    assert Slice(graph.imports, graph.nodes[i].imports) == Adjacency(graph.nodes, graph.imports)[i] == row;
    forall k | 0 <= k < |row| ensures Identifiers(graph, row)[k] == full[i].imports[k] {
      assert Decoded(graph.text, graph.nodes)[row[k]] == Names(full)[row[k]];
    }
    assert Identifiers(graph, row) == full[i].imports;
  }
}
