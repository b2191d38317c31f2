/**
 * The portable runtime-identifier graph (crates/dv-core/src/runtime_graph.rs): names in one text, edges in one index
 * list, and the compatible runtimes of every node precomputed in another.
 */
module RuntimeGraph {
  import opened Wrappers
  import opened TextOrder
  import opened Spans
  import opened BreadthFirst

  datatype GraphError = InvalidGraph | TextOverflow

  // ---------------------------------------------------------------- the document

  datatype Runtime = Runtime(identifier: string, imports: seq<string>)

  /** The decoded map of runtimes, in the order of its keys. */
  type Document = seq<Runtime>

  function Names(document: Document): (names: seq<string>)
    ensures |names| == |document|
    ensures forall i | 0 <= i < |names| :: names[i] == document[i].identifier
  {
    seq(|document|, i requires 0 <= i < |document| => document[i].identifier)
  }

  predicate IsMap(document: Document) {
    Increasing(Names(document))
  }

  /** The runtime `a` lists `b` as an import. */
  ghost predicate Imports(document: Document, a: string, b: string) {
    exists i :: 0 <= i < |document| && document[i].identifier == a && b in document[i].imports
  }

  ghost predicate ImportWalk(document: Document, a: string, b: string, n: nat)
    decreases n
  {
    if n == 0 then a == b else exists c :: ImportWalk(document, a, c, n - 1) && Imports(document, c, b)
  }

  /** The reflexive and transitive closure of the imports. */
  ghost predicate Provides(document: Document, a: string, b: string) {
    exists n: nat :: ImportWalk(document, a, b, n)
  }

  predicate NamesSomething(document: Document) {
    forall i | 0 <= i < |document| :: document[i].identifier != ""
        && forall k | 0 <= k < |document[i].imports| :: document[i].imports[k] != ""
  }

  ghost predicate Imported(document: Document, name: string) {
    exists i :: 0 <= i < |document| && name in document[i].imports
  }

  /** `full` is the document with every import that has no entry of its own added as a leaf, and nothing else. */
  ghost predicate Completes(document: Document, full: Document) {
    && IsMap(full)
    && (forall i | 0 <= i < |document| :: document[i] in full)
    && (forall i | 0 <= i < |full| :: full[i] in document || IsLeaf(document, full[i]))
    && ImportsKnown(full)
  }

  ghost predicate IsLeaf(document: Document, runtime: Runtime) {
    runtime.imports == [] && runtime.identifier !in Names(document) && Imported(document, runtime.identifier)
  }

  ghost predicate ImportsKnown(full: Document) {
    forall i, k | 0 <= i < |full| && 0 <= k < |full[i].imports| :: full[i].imports[k] in Names(full)
  }

  // ---------------------------------------------------------------- the compact graph

  datatype Node = Node(identifier: Span, imports: Span)
  datatype RuntimeIdentifierGraph =
    RuntimeIdentifierGraph(text: string, nodes: seq<Node>, imports: seq<nat>, ranges: seq<Span>, compatibilities: seq<nat>)

  /** Every import span lies in `imports` and every import is a node. */
  predicate Linked(nodes: seq<Node>, imports: seq<nat>) {
    (forall i | 0 <= i < |nodes| :: InBounds(imports, nodes[i].imports)) && Below(imports, |nodes|)
  }

  function Adjacency(nodes: seq<Node>, imports: seq<nat>): (g: Graph)
    requires Linked(nodes, imports)
    ensures Closed(g) && |g| == |nodes|
  {
    seq(|nodes|, i requires 0 <= i < |nodes| => Slice(imports, nodes[i].imports))
  }

  // ---------------------------------------------------------------- compatibility batches

  /** Length of the batches of the first `n` nodes together. */
  function BatchTotal(g: Graph, n: nat): nat
    requires Closed(g) && n <= |g|
  {
    if n == 0 then 0 else BatchTotal(g, n - 1) + |From(g, n - 1)|
  }

  /** The first `n` ranges tile the indices, each holding one node's search. */
  ghost predicate Batches(g: Graph, ranges: seq<Span>, indices: seq<nat>, n: nat)
    requires Closed(g)
  {
    && n == |ranges| <= |g| && |indices| == BatchTotal(g, n)
    && forall i | 0 <= i < n :: BatchAt(g, ranges[i], indices, i)
  }

  ghost predicate BatchAt(g: Graph, span: Span, indices: seq<nat>, i: nat)
    requires Closed(g) && i < |g|
  {
    span.start == BatchTotal(g, i) && span.start + span.len == BatchTotal(g, i + 1) <= |indices|
        && Slice(indices, span) == From(g, i)
  }

  /** The nodes of the running search are the ones that carry its generation. */
  predicate Marks(visited: array<nat>, generation: nat, queue: seq<nat>)
    reads visited
  {
    Below(queue, visited.Length) && forall x | 0 <= x < visited.Length :: visited[x] == generation <==> x in queue
  }

  predicate Older(visited: array<nat>, generation: nat)
    reads visited
  {
    forall x | 0 <= x < visited.Length :: visited[x] <= generation
  }

  /** Queues the targets that the running search has not seen. */
  method Enqueue(targets: seq<nat>, generation: nat, visited: array<nat>, queue: seq<nat>) returns (next: seq<nat>)
    requires Below(targets, visited.Length) && Marks(visited, generation, queue) && Older(visited, generation)
    modifies visited
    ensures next == Visit(queue, targets) && Marks(visited, generation, next) && Older(visited, generation)
  {
    next := queue;
    var k := 0;
    while k < |targets|
      invariant k <= |targets| && Marks(visited, generation, next) && Older(visited, generation)
      invariant Visit(next, targets[k..]) == Visit(queue, targets)
    {
      var imported := targets[k];
      assert targets[k..][0] == imported && targets[k..][1..] == targets[k + 1..];
      if visited[imported] != generation {
        visited[imported] := generation;
        next := next + [imported];
      }
      k := k + 1;
    }
  }

  /** One search, appended to the batches. */
  method Traverse(nodes: seq<Node>, imports: seq<nat>, start: nat, generation: nat, visited: array<nat>, before: seq<nat>)
    returns (indices: seq<nat>)
    requires Linked(nodes, imports) && start < |nodes| == visited.Length
    requires generation > 0 && Older(visited, generation - 1)
    modifies visited
    ensures indices == before + From(Adjacency(nodes, imports), start) && Older(visited, generation)
  {
    ghost var g := Adjacency(nodes, imports);
    indices := before;
    var queue := [start];
    visited[start] := generation;
    var cursor := 0;
    while cursor < |queue|
      invariant cursor <= |queue| && Distinct(queue) && Below(queue, |g|)
      invariant Marks(visited, generation, queue) && Older(visited, generation)
      invariant Search(g, queue, cursor) == From(g, start)
      invariant indices == before + queue[..cursor]
      decreases |g| - cursor
    {
      DistinctFit(queue, |g|);
      var node := queue[cursor];
      indices := indices + [node];
      VisitKeeps(queue, g[node], |g|);
      queue := Enqueue(Slice(imports, nodes[node].imports), generation, visited, queue);
      cursor := cursor + 1;
    }
    assert queue[..cursor] == queue;
  }

  function U32Len(value: nat): (r: Result<nat, GraphError>)
    ensures r == if value <= U32_MAX then Success(value) else Failure(TextOverflow)
  {
    if value <= U32_MAX then Success(value) else Failure(TextOverflow)
  }

  lemma {:induction false} BatchTotalGrows(g: Graph, a: nat, b: nat)
    requires Closed(g) && a <= b <= |g|
    ensures BatchTotal(g, a) <= BatchTotal(g, b)
  {
    if a < b { BatchTotalGrows(g, a, b - 1); }
  }

  lemma NoBatches(g: Graph)
    requires Closed(g)
    ensures Batches(g, [], [], 0) && BatchTotal(g, 0) == 0
  {
  }

  lemma BatchesStay(g: Graph, ranges: seq<Span>, indices: seq<nat>, n: nat, span: Span)
    requires Closed(g) && Batches(g, ranges, indices, n) && n < |g|
    requires span == Span(|indices|, |From(g, n)|)
    ensures Batches(g, ranges + [span], indices + From(g, n), n + 1)
  {
    var more := indices + From(g, n);
    forall i | 0 <= i < n ensures BatchAt(g, ranges[i], more, i) {
      assert BatchAt(g, ranges[i], indices, i);
      assert Slice(more, ranges[i]) == Slice(indices, ranges[i]);
    }
    assert Slice(more, span) == From(g, n);
  }

  /** All searches. It fails exactly when the batches together do not fit 32-bit indices. */
  method CompileCompatibilityRanges(nodes: seq<Node>, imports: seq<nat>) returns (r: Result<(seq<Span>, seq<nat>), GraphError>)
    requires Linked(nodes, imports) && |nodes| <= U32_MAX
    ensures var g := Adjacency(nodes, imports);
            if BatchTotal(g, |g|) <= U32_MAX then r.Success? && Batches(g, r.value.0, r.value.1, |g|)
                else r == Failure(TextOverflow)
  {
    hide Batches, Adjacency, Linked;
    ghost var g := Adjacency(nodes, imports);
    var ranges: seq<Span>, compatibility: seq<nat> := [], [];
    NoBatches(g);
    var visited := new nat[|nodes|](_ => 0);
    var startNode := 0;
    while startNode < |nodes|
      invariant startNode <= |nodes| && Older(visited, startNode)
      invariant Batches(g, ranges, compatibility, startNode) && |compatibility| == BatchTotal(g, startNode) <= U32_MAX
    {
      BatchTotalGrows(g, startNode, |g|);
      BatchTotalGrows(g, startNode + 1, |g|);
      var generation := U32Len(startNode).value + 1;
      var start := U32Len(|compatibility|);
      ghost var before := compatibility;
      compatibility := Traverse(nodes, imports, startNode, generation, visited, compatibility);
      var end := U32Len(|compatibility|);
      if end.Failure? { return Failure(end.error); }
      BatchesStay(g, ranges, before, startNode, Span(start.value, end.value - start.value));
      ranges := ranges + [Span(start.value, end.value - start.value)];
      startNode := startNode + 1;
    }
    return Success((ranges, compatibility));
  }

  // ---------------------------------------------------------------- what a graph holds

  function IndexOf(full: Document, name: string): (i: nat)
    requires IsMap(full) && name in Names(full)
    ensures i < |full| && full[i].identifier == name
  {
    BinarySearch(Names(full), name).value
  }

  /** The imports of every runtime as indices. */
  function Resolved(full: Document): (g: Graph)
    requires IsMap(full) && ImportsKnown(full)
    ensures |g| == |full| && Closed(g)
    ensures forall i | 0 <= i < |g| :: g[i] == ResolvedAt(full, i)
  {
    seq(|full|, i requires 0 <= i < |full| => ResolvedAt(full, i))
  }

  function ResolvedAt(full: Document, i: nat): (row: seq<nat>)
    requires IsMap(full) && ImportsKnown(full) && i < |full|
    ensures |row| == |full[i].imports| && Below(row, |full|)
    ensures forall k | 0 <= k < |row| :: full[row[k]].identifier == full[i].imports[k]
  {
    seq(|full[i].imports|, k requires 0 <= k < |full[i].imports| => IndexOf(full, full[i].imports[k]))
  }

  predicate Readable(text: string, nodes: seq<Node>) {
    forall i | 0 <= i < |nodes| :: InBounds(text, nodes[i].identifier)
  }

  function Decoded(text: string, nodes: seq<Node>): (names: seq<string>)
    requires Readable(text, nodes)
    ensures |names| == |nodes|
  {
    seq(|nodes|, i requires 0 <= i < |nodes| => Slice(text, nodes[i].identifier))
  }

  /** The compact form of a complete document. */
  ghost predicate Compiled(graph: RuntimeIdentifierGraph, full: Document) {
    && IsMap(full) && ImportsKnown(full)
    && Readable(graph.text, graph.nodes) && Decoded(graph.text, graph.nodes) == Names(full)
    && Linked(graph.nodes, graph.imports) && Adjacency(graph.nodes, graph.imports) == Resolved(full)
    && Batches(Resolved(full), graph.ranges, graph.compatibilities, |full|)
  }

  function TextTotal(full: Document, n: nat): nat
    requires n <= |full|
  {
    if n == 0 then 0 else TextTotal(full, n - 1) + |full[n - 1].identifier|
  }

  function ImportTotal(full: Document, n: nat): nat
    requires n <= |full|
  {
    if n == 0 then 0 else ImportTotal(full, n - 1) + |full[n - 1].imports|
  }

  /** Every batch fits the compact index space. */
  predicate Fits(full: Document)
    requires IsMap(full) && forall i, k | 0 <= i < |full| && 0 <= k < |full[i].imports| :: full[i].imports[k] in Names(full)
  {
    TextTotal(full, |full|) <= U32_MAX && ImportTotal(full, |full|) <= U32_MAX && BatchTotal(Resolved(full), |full|) <= U32_MAX
  }

  lemma {:induction false} TextTotalGrows(full: Document, a: nat, b: nat)
    requires a <= b <= |full|
    ensures TextTotal(full, a) <= TextTotal(full, b)
  {
    if a < b { TextTotalGrows(full, a, b - 1); }
  }

  lemma {:induction false} ImportTotalGrows(full: Document, a: nat, b: nat)
    requires a <= b <= |full|
    ensures ImportTotal(full, a) <= ImportTotal(full, b)
  {
    if a < b { ImportTotalGrows(full, a, b - 1); }
  }

  lemma {:induction false} TextOutweighsNodes(full: Document, n: nat)
    requires n <= |full| && forall i | 0 <= i < n :: full[i].identifier != ""
    ensures n <= TextTotal(full, n)
  {
    if n > 0 { TextOutweighsNodes(full, n - 1); }
  }

  // ---------------------------------------------------------------- missing imports

  /** The imports without an entry. */
  ghost predicate IsMissing(document: Document, n: nat, missing: seq<string>) {
    forall name :: name in missing <==> name !in Names(document) && ImportedBefore(document, n, name)
  }

  ghost predicate OnceEach(names: seq<string>) {
    forall i, j | 0 <= i < j < |names| :: names[i] != names[j]
  }

  ghost predicate ImportedBefore(document: Document, n: nat, name: string) {
    exists i :: 0 <= i < n && i < |document| && name in document[i].imports
  }

  method CollectFrom(names: seq<string>, imports: seq<string>, before: seq<string>) returns (r: Result<seq<string>, GraphError>)
    ensures r.Success? <==> "" !in imports
    ensures r.Failure? ==> r.error == InvalidGraph
    ensures r.Success? ==> forall name :: name in r.value <==> name in before || (name in imports && name !in names)
    ensures r.Success? && OnceEach(before) ==> OnceEach(r.value)
  {
    var missing := before;
    var k := 0;
    while k < |imports|
      invariant k <= |imports| && "" !in imports[..k]
      invariant forall name :: name in missing <==> name in before || (name in imports[..k] && name !in names)
      invariant OnceEach(before) ==> OnceEach(missing)
    {
      if imports[k] == "" { return Failure(InvalidGraph); }
      assert imports[..k + 1] == imports[..k] + [imports[k]];
      if imports[k] !in names && imports[k] !in missing { missing := missing + [imports[k]]; }
      k := k + 1;
    }
    assert imports[..k] == imports;
    return Success(missing);
  }

  method CollectMissing(document: Document) returns (r: Result<seq<string>, GraphError>)
    ensures if NamesSomething(document) then r.Success? && IsMissing(document, |document|, r.value) && OnceEach(r.value)
            else r == Failure(InvalidGraph)
  {
    var i := 0;
    while i < |document|
      invariant i <= |document| && forall j | 0 <= j < i :: document[j].identifier != ""
    {
      if document[i].identifier == "" { return Failure(InvalidGraph); }
      i := i + 1;
    }
    var missing := [];
    i := 0;
    while i < |document|
      invariant i <= |document| && IsMissing(document, i, missing) && OnceEach(missing)
      invariant forall j | 0 <= j < i :: "" !in document[j].imports
    {
      var more := CollectFrom(Names(document), document[i].imports, missing);
      if more.Failure? { return Failure(more.error); }
      MissingGrows(document, i, missing, more.value);
      missing := more.value;
      i := i + 1;
    }
    return Success(missing);
  }

  lemma MissingGrows(document: Document, i: nat, missing: seq<string>, more: seq<string>)
    requires i < |document| && IsMissing(document, i, missing)
    requires forall name :: name in more <==> name in missing || (name in document[i].imports && name !in Names(document))
    ensures IsMissing(document, i + 1, more)
  {
    forall name ensures name in more <==> name !in Names(document) && ImportedBefore(document, i + 1, name) {
      assert ImportedBefore(document, i + 1, name) <==> ImportedBefore(document, i, name) || name in document[i].imports;
    }
  }

  /** Inserting a key into the map, or replacing its value. */
  function Insert(document: Document, runtime: Runtime): Document
    requires IsMap(document)
  {
    match BinarySearch(Names(document), runtime.identifier)
    case Success(i) => document[i := runtime]
    case Failure(at) => document[..at] + [runtime] + document[at..]
  }

  lemma InsertNew(document: Document, runtime: Runtime)
    requires IsMap(document) && runtime.identifier !in Names(document)
    ensures var next := Insert(document, runtime);
            && IsMap(next) && (forall r :: r in next <==> r in document || r == runtime)
            && forall name :: name in Names(next) <==> name in Names(document) || name == runtime.identifier
  {
    var names, at := Names(document), BinarySearch(Names(document), runtime.identifier).error;
    var next := Insert(document, runtime);
    InsertKeepsIncreasing(names, runtime.identifier, at);
    assert Names(next) == names[..at] + [runtime.identifier] + names[at..];
    assert names == names[..at] + names[at..] && document == document[..at] + document[at..];
  }

  method AddLeaves(document: Document, missing: seq<string>) returns (full: Document)
    requires IsMap(document) && IsMissing(document, |document|, missing)
    ensures Completes(document, full)
  {
    full := document;
    var k := 0;
    while k < |missing|
      invariant k <= |missing| && IsMap(full)
      invariant forall r :: r in document ==> r in full
      invariant forall r | r in full :: r in document || IsLeaf(document, r)
      invariant forall name :: name in Names(full) <==> name in Names(document) || name in missing[..k]
    {
      var leaf := Runtime(missing[k], []);
      assert missing[k] in missing && missing[..k + 1] == missing[..k] + [missing[k]];
      if missing[k] !in Names(full) {
        InsertNew(full, leaf);
        assert IsLeaf(document, leaf);
      } else {
        LeafAgain(document, full, missing[k]);
      }
      full := Insert(full, leaf);
      k := k + 1;
    }
    assert missing[..k] == missing;
    LeavesSuffice(document, full, missing);
  }

  lemma LeafAgain(document: Document, full: Document, name: string)
    requires IsMap(full) && name in Names(full) && name !in Names(document)
    requires forall r | r in full :: r in document || IsLeaf(document, r)
    ensures Insert(full, Runtime(name, [])) == full
  {
    var i := BinarySearch(Names(full), name).value;
    assert full[i] in full && full[i].identifier == name;
    forall j | 0 <= j < |document| ensures document[j] != full[i] {
      assert Names(document)[j] in Names(document);
    }
    assert full[i] == Runtime(name, []);
  }

  lemma LeavesSuffice(document: Document, full: Document, missing: seq<string>)
    requires IsMissing(document, |document|, missing)
    requires forall r | r in full :: r in document || IsLeaf(document, r)
    requires forall name :: name in Names(full) <==> name in Names(document) || name in missing
    ensures ImportsKnown(full)
  {
    forall i, k | 0 <= i < |full| && 0 <= k < |full[i].imports| ensures full[i].imports[k] in Names(full) {
      var name := full[i].imports[k];
      assert full[i] in full && !IsLeaf(document, full[i]);
      var j :| 0 <= j < |document| && document[j] == full[i];
      assert ImportedBefore(document, |document|, name);
    }
  }

  // ---------------------------------------------------------------- the tables

  class TextTable {
    var text: string

    constructor ()
      ensures text == ""
    {
      text := "";
    }

    method Push(value: string) returns (r: Result<Span, GraphError>)
      modifies this
      ensures if |old(text)| + |value| <= U32_MAX
              then r == Success(Span(|old(text)|, |value|)) && text == old(text) + value
              else r == Failure(TextOverflow) && text == old(text)
    {
      var start := U32Len(|text|);
      if start.Failure? { return Failure(start.error); }
      var len := U32Len(|value|);
      if len.Failure? { return Failure(len.error); }
      if start.value + len.value > U32_MAX { return Failure(TextOverflow); }
      text := text + value;
      return Success(Span(start.value, len.value));
    }
  }

  method WriteNames(full: Document) returns (r: Result<seq<Node>, GraphError>, table: TextTable)
    ensures if TextTotal(full, |full|) <= U32_MAX
            then r.Success? && Readable(table.text, r.value) && Decoded(table.text, r.value) == Names(full)
            else r == Failure(TextOverflow)
  {
    hide Written, Readable, Decoded;
    table := new TextTable();
    var nodes: seq<Node> := [];
    NothingWritten(full);
    var i := 0;
    while i < |full|
      invariant i == |nodes| <= |full| && |table.text| == TextTotal(full, i) <= U32_MAX
      invariant Written(full, table.text, nodes)
    {
      TextTotalGrows(full, i + 1, |full|);
      WrittenGrows(full, table.text, nodes);
      var span := table.Push(full[i].identifier);
      if span.Failure? { return Failure(span.error), table; }
      nodes := nodes + [Node(span.value, Span(0, 0))];
      i := i + 1;
    }
    WrittenIsDecoded(full, table.text, nodes);
    return Success(nodes), table;
  }

  /** The nodes so far name the first runtimes. */
  predicate Written(full: Document, text: string, nodes: seq<Node>) {
    |nodes| <= |full| &&
    forall i | 0 <= i < |nodes| :: InBounds(text, nodes[i].identifier) && Slice(text, nodes[i].identifier) == full[i].identifier
  }

  lemma NothingWritten(full: Document)
    ensures Written(full, "", [])
  {
  }

  lemma WrittenGrows(full: Document, text: string, nodes: seq<Node>)
    requires Written(full, text, nodes) && |nodes| < |full|
    ensures var name := full[|nodes|].identifier;
            Written(full, text + name, nodes + [Node(Span(|text|, |name|), Span(0, 0))])
  {
    var name := full[|nodes|].identifier;
    assert Slice(text + name, Span(|text|, |name|)) == name;
    forall i | 0 <= i < |nodes| ensures Slice(text + name, nodes[i].identifier) == full[i].identifier {
      SliceStays(text, name, nodes[i].identifier);
    }
  }

  lemma WrittenIsDecoded(full: Document, text: string, nodes: seq<Node>)
    requires Written(full, text, nodes) && |nodes| == |full|
    ensures Readable(text, nodes) && Decoded(text, nodes) == Names(full)
  {
  }

  /** The edges of the first `n` nodes are in place, one node's behind the other's. */
  ghost predicate LinkedUpTo(full: Document, nodes: seq<Node>, imports: seq<nat>, n: nat)
    requires IsMap(full) && ImportsKnown(full)
  {
    && n <= |nodes| == |full| && Below(imports, |full|) && |imports| == ImportTotal(full, n)
    && (forall i | 0 <= i < n :: nodes[i].imports.start == ImportTotal(full, i))
    && forall i | 0 <= i < n :: InBounds(imports, nodes[i].imports) && Slice(imports, nodes[i].imports) == ResolvedAt(full, i)
  }

  /** Binary search for each import of one runtime. */
  method LinkOne(full: Document, i: nat, names: seq<string>, before: seq<nat>) returns (imports: seq<nat>)
    requires IsMap(full) && ImportsKnown(full) && i < |full| && names == Names(full)
    ensures imports == before + ResolvedAt(full, i)
  {
    imports := before;
    var k := 0;
    while k < |full[i].imports|
      invariant k <= |full[i].imports| && imports == before + ResolvedAt(full, i)[..k]
    {
      var imported := BinarySearch(names, full[i].imports[k]);
      imports := imports + [imported.value];
      k := k + 1;
    }
  }

  method LinkImports(full: Document, text: string, unlinked: seq<Node>) returns (r: Result<(seq<Node>, seq<nat>), GraphError>)
    requires IsMap(full) && ImportsKnown(full)
    requires Readable(text, unlinked) && Decoded(text, unlinked) == Names(full)
    ensures if ImportTotal(full, |full|) <= U32_MAX
            then r.Success? && LinkedUpTo(full, r.value.0, r.value.1, |full|)
                 && Readable(text, r.value.0) && Decoded(text, r.value.0) == Names(full)
            else r == Failure(TextOverflow)
  {
    hide LinkedUpTo, Decoded, Readable;
    var nodes, imports := unlinked, [];
    NothingLinked(full, nodes);
    var index := 0;
    while index < |full|
      invariant index <= |full| == |nodes| && LinkedUpTo(full, nodes, imports, index)
                && |imports| == ImportTotal(full, index) <= U32_MAX
      invariant Readable(text, nodes) && Decoded(text, nodes) == Names(full)
    {
      ImportTotalGrows(full, index + 1, |full|);
      var start := U32Len(|imports|);
      ghost var before := imports;
      imports := LinkOne(full, index, Decoded(text, nodes), imports);
      var end := U32Len(|imports|);
      if end.Failure? { return Failure(end.error); }
      LinksStay(full, nodes, before, index);
      DecodedStays(text, nodes, index, Span(start.value, end.value - start.value));
      nodes := nodes[index := nodes[index].(imports := Span(start.value, end.value - start.value))];
      index := index + 1;
    }
    return Success((nodes, imports));
  }

  lemma NothingLinked(full: Document, nodes: seq<Node>)
    requires IsMap(full) && ImportsKnown(full) && |nodes| == |full|
    ensures LinkedUpTo(full, nodes, [], 0)
  {
  }

  lemma DecodedStays(text: string, nodes: seq<Node>, n: nat, span: Span)
    requires n < |nodes| && Readable(text, nodes)
    ensures var more := nodes[n := nodes[n].(imports := span)];
            Readable(text, more) && Decoded(text, more) == Decoded(text, nodes)
  {
  }

  lemma LinksStay(full: Document, nodes: seq<Node>, imports: seq<nat>, n: nat)
    requires IsMap(full) && ImportsKnown(full) && n < |full| && LinkedUpTo(full, nodes, imports, n)
    ensures var row := ResolvedAt(full, n);
            LinkedUpTo(full, nodes[n := nodes[n].(imports := Span(|imports|, |row|))], imports + row, n + 1)
  {
    var row := ResolvedAt(full, n);
    var more, all := nodes[n := nodes[n].(imports := Span(|imports|, |row|))], imports + row;
    forall i | 0 <= i < n + 1 ensures InBounds(all, more[i].imports) && Slice(all, more[i].imports) == ResolvedAt(full, i) {
      if i < n {
        assert Slice(all, more[i].imports) == Slice(imports, nodes[i].imports);
      }
    }
  }

  // ---------------------------------------------------------------- loading

  /**
   * Loads a decoded document. It fails on an empty name, and otherwise exactly when the complete graph does not fit
   * the compact indices; the result is the complete graph in compact form.
   */
  method Load(document: Document) returns (r: Result<RuntimeIdentifierGraph, GraphError>, ghost full: Document)
    requires IsMap(document)
    ensures !NamesSomething(document) ==> r == Failure(InvalidGraph)
    ensures NamesSomething(document) ==>
              && Completes(document, full)
              && if Fits(full) then r.Success? && Compiled(r.value, full) else r == Failure(TextOverflow)
  {
    full := [];
    var missing := CollectMissing(document);
    if missing.Failure? { return Failure(missing.error), full; }
    var complete := AddLeaves(document, missing.value);
    full := complete;
    CompleteNamesSomething(document, full);
    TextOutweighsNodes(full, |full|);
    var count := U32Len(|complete|);
    if count.Failure? { return Failure(count.error), full; }
    var nodes, table := WriteNames(complete);
    if nodes.Failure? { return Failure(nodes.error), full; }
    var linked := LinkImports(complete, table.text, nodes.value);
    if linked.Failure? { return Failure(linked.error), full; }
    assert Adjacency(linked.value.0, linked.value.1) == Resolved(full);
    var compatibility := CompileCompatibilityRanges(linked.value.0, linked.value.1);
    if compatibility.Failure? { return Failure(compatibility.error), full; }
    return Success(RuntimeIdentifierGraph(table.text, linked.value.0, linked.value.1,
                                          compatibility.value.0, compatibility.value.1)), full;
  }

  lemma CompleteNamesSomething(document: Document, full: Document)
    requires NamesSomething(document) && Completes(document, full)
    ensures forall i | 0 <= i < |full| :: full[i].identifier != ""
  {
    forall i | 0 <= i < |full| ensures full[i].identifier != "" {
      if IsLeaf(document, full[i]) {
        var j :| 0 <= j < |document| && full[i].identifier in document[j].imports;
      }
    }
  }
}
