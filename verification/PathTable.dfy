/**
 * The command path table (crates/dv-core/src/project.rs, `CommandPathTable`): lexical and physical path identities as
 * two sorted lists of ranges over one growing byte arena.
 */
module PathTable {
  import opened Wrappers
  import opened Spans
  import opened TextOrder

  datatype TableError = ArenaFull

  datatype PhysicalPathSpan = PhysicalPathSpan(path: Span, projectIndex: nat)

  function Decoded(bytes: string, spans: seq<Span>): (paths: seq<string>)
    requires forall i | 0 <= i < |spans| :: InBounds(bytes, spans[i])
    ensures |paths| == |spans| && forall i | 0 <= i < |paths| :: paths[i] == Slice(bytes, spans[i])
  {
    seq(|spans|, i requires 0 <= i < |spans| => Slice(bytes, spans[i]))
  }

  function PathsOf(rows: seq<PhysicalPathSpan>): (spans: seq<Span>)
    ensures |spans| == |rows| && forall i | 0 <= i < |spans| :: spans[i] == rows[i].path
  {
    seq(|rows|, i requires 0 <= i < |rows| => rows[i].path)
  }

  predicate AllInBounds(bytes: string, spans: seq<Span>) {
    forall i | 0 <= i < |spans| :: InBounds(bytes, spans[i])
  }

  function InsertAt<T>(s: seq<T>, at: nat, x: T): seq<T>
    requires at <= |s|
  {
    s[..at] + [x] + s[at..]
  }

  lemma DecodedStays(bytes: string, more: string, spans: seq<Span>)
    requires AllInBounds(bytes, spans)
    ensures AllInBounds(bytes + more, spans) && Decoded(bytes + more, spans) == Decoded(bytes, spans)
  {
    forall i | 0 <= i < |spans|
      ensures InBounds(bytes + more, spans[i]) && Slice(bytes + more, spans[i]) == Slice(bytes, spans[i])
    {
      SliceStays(bytes, more, spans[i]);
    }
  }

  lemma DecodedInsert(bytes: string, spans: seq<Span>, at: nat, span: Span)
    requires AllInBounds(bytes, spans) && InBounds(bytes, span) && at <= |spans|
    ensures AllInBounds(bytes, InsertAt(spans, at, span))
    ensures Decoded(bytes, InsertAt(spans, at, span)) == InsertAt(Decoded(bytes, spans), at, Slice(bytes, span))
  {
  }

  lemma PathsOfInsert(rows: seq<PhysicalPathSpan>, at: nat, row: PhysicalPathSpan)
    requires at <= |rows|
    ensures PathsOf(InsertAt(rows, at, row)) == InsertAt(PathsOf(rows), at, row.path)
  {
  }

  /** The map that a sorted list of paths and a parallel list of rows stand for. */
  ghost function ProjectMap(paths: seq<string>, rows: seq<PhysicalPathSpan>): map<string, nat>
    requires Increasing(paths) && |rows| == |paths|
  {
    map p | p in paths :: rows[BinarySearch(paths, p).value].projectIndex
  }

  lemma ProjectMapAt(paths: seq<string>, rows: seq<PhysicalPathSpan>, i: nat)
    requires Increasing(paths) && |rows| == |paths| && i < |paths|
    ensures paths[i] in ProjectMap(paths, rows) && ProjectMap(paths, rows)[paths[i]] == rows[i].projectIndex
  {
    IncreasingIsDistinct(paths, BinarySearch(paths, paths[i]).value, i);
  }

  lemma ProjectMapInsert(paths: seq<string>, rows: seq<PhysicalPathSpan>, at: nat, path: string, row: PhysicalPathSpan)
    requires Increasing(paths) && |rows| == |paths| && Splits(paths, path, at)
    ensures Increasing(InsertAt(paths, at, path))
    ensures ProjectMap(InsertAt(paths, at, path), InsertAt(rows, at, row)) == ProjectMap(paths, rows)[path := row.projectIndex]
  {
    InsertKeepsIncreasing(paths, path, at);
    SplitMeansAbsent(paths, path, at);
    MembersOfInsert(paths, at, path);
    var before, after := ProjectMap(paths, rows), ProjectMap(InsertAt(paths, at, path), InsertAt(rows, at, row));
    forall p | p in after ensures after[p] == before[path := row.projectIndex][p] {
      InsertedProjectAt(paths, rows, at, path, row, p);
    }
    assert forall p :: p in after.Keys <==> p in (set q | q in InsertAt(paths, at, path));
    assert forall p :: p in before.Keys <==> p in (set q | q in paths);
  }

  lemma InsertedProjectAt(paths: seq<string>, rows: seq<PhysicalPathSpan>, at: nat, path: string, row: PhysicalPathSpan,
      p: string)
    requires Increasing(paths) && |rows| == |paths| && Splits(paths, path, at)
    requires Increasing(InsertAt(paths, at, path)) && p in InsertAt(paths, at, path)
    ensures ProjectMap(InsertAt(paths, at, path), InsertAt(rows, at, row))[p] ==
            if p == path then row.projectIndex else if p in paths then ProjectMap(paths, rows)[p] else 0
  {
    hide ProjectMap;
    var more, wide := InsertAt(paths, at, path), InsertAt(rows, at, row);
    var j :| 0 <= j < |more| && more[j] == p;
    ProjectMapAt(more, wide, j);
    SplitMeansAbsent(paths, path, at);
    if j != at {
      ProjectMapAt(paths, rows, if j < at then j else j - 1);
    }
  }

  class CommandPathTable {
    var bytes: string
    var lexical: seq<Span>
    var physical: seq<PhysicalPathSpan>

    ghost predicate Readable()
      reads this
    {
      AllInBounds(bytes, lexical) && AllInBounds(bytes, PathsOf(physical))
    }

    /** The lexical paths, in order. */
    function Lexical(): seq<string>
      reads this
      requires Readable()
    {
      Decoded(bytes, lexical)
    }

    /** The physical paths, in order. */
    function Physical(): seq<string>
      reads this
      requires Readable()
    {
      Decoded(bytes, PathsOf(physical))
    }

    ghost predicate Valid()
      reads this
    {
      Readable() && Increasing(Lexical()) && Increasing(Physical())
    }

    /** What the lexical list stands for: the set of known paths. */
    ghost function Aliases(): set<string>
      reads this
      requires Valid()
    {
      set p | p in Lexical()
    }

    /** What the physical list stands for: the project of every identity. */
    ghost function Projects(): map<string, nat>
      reads this
      requires Valid()
    {
      ProjectMap(Physical(), physical)
    }

    constructor ()
      ensures Valid() && Aliases() == {} && Projects() == map[] && bytes == ""
    {
      bytes, lexical, physical := "", [], [];
    }

    function LexicalSearch(path: string): (r: Result<nat, nat>)
      reads this
      requires Valid()
      ensures r.Success? <==> path in Aliases()
      ensures r.Failure? ==> Splits(Lexical(), path, r.error)
    {
      BinarySearch(Lexical(), path)
    }

    function PhysicalSearch(path: string): (r: Result<nat, nat>)
      reads this
      requires Valid()
      ensures r.Success? <==> path in Projects()
      ensures r.Success? ==> r.value < |physical| && physical[r.value].projectIndex == Projects()[path]
      ensures r.Failure? ==> Splits(Physical(), path, r.error)
    {
      BinarySearch(Physical(), path)
    }

    /** Adds a path to the arena. Nothing that was stored changes its value. */
    method Append(path: string) returns (r: Result<Span, TableError>)
      requires Readable()
      modifies `bytes
      ensures Readable() && Lexical() == old(Lexical()) && Physical() == old(Physical())
      ensures if |old(bytes)| + |path| <= U32_MAX
              then r.Success? && bytes == old(bytes) + path && InBounds(bytes, r.value) && Slice(bytes, r.value) == path
              else r == Failure(ArenaFull) && bytes == old(bytes)
    {
      var start, len := |bytes|, |path|;
      if start > U32_MAX || len > U32_MAX { return Failure(ArenaFull); }
      var next := start + len;
      if next > U32_MAX { return Failure(ArenaFull); }
      DecodedStays(bytes, path, lexical);
      DecodedStays(bytes, path, PathsOf(physical));
      bytes := bytes + path;
      return Success(Span(start, len));
    }

    /** One more name for a project that is known already. */
    method InsertLexical(index: nat, path: string) returns (r: Result<(), TableError>)
      requires Valid() && Splits(Lexical(), path, index)
      modifies this
      ensures Valid() && Projects() == old(Projects()) && |bytes| >= |old(bytes)|
      ensures r == if |old(bytes)| + |path| <= U32_MAX then Success(()) else Failure(ArenaFull)
      ensures Aliases() == if r.Success? then old(Aliases()) + {path} else old(Aliases())
    {
      var span := Append(path);
      if span.Failure? { return Failure(span.error); }
      DecodedInsert(bytes, lexical, index, span.value);
      InsertKeepsIncreasing(Lexical(), path, index);
      ghost var before := Lexical();
      lexical := InsertAt(lexical, index, span.value);
      MembersOfInsert(before, index, path);
      return Success(());
    }

    /** A new project under its lexical and its physical path, which share one range when they are equal. */
    method InsertProject(lexicalIndex: nat, lexicalPath: string, physicalIndex: nat, physicalPath: string, projectIndex: nat)
      returns (r: Result<(), TableError>)
      requires Valid() && Splits(Lexical(), lexicalPath, lexicalIndex) && Splits(Physical(), physicalPath, physicalIndex)
      modifies this
      ensures Valid() && |bytes| >= |old(bytes)|
      ensures r == if |old(bytes)| + |lexicalPath| + (if lexicalPath == physicalPath then 0 else |physicalPath|) <= U32_MAX
                   then Success(()) else Failure(ArenaFull)
      ensures Aliases() == if r.Success? then old(Aliases()) + {lexicalPath} else old(Aliases())
      ensures Projects() == if r.Success? then old(Projects())[physicalPath := projectIndex] else old(Projects())
    {
      var samePath := lexicalPath == physicalPath;
      var name := Append(lexicalPath);
      if name.Failure? { return Failure(name.error); }
      var identity := name;
      if !samePath {
        identity := Append(physicalPath);
        if identity.Failure? { return Failure(identity.error); }
        assert Slice(bytes, name.value) == lexicalPath;
      }
      InsertRanges(lexicalIndex, lexicalPath, name.value, physicalIndex, physicalPath, identity.value, projectIndex);
      return Success(());
    }

    /** The two insertions at the end of `InsertProject`. */
    method InsertRanges(lexicalIndex: nat, lexicalPath: string, name: Span, physicalIndex: nat, physicalPath: string,
        identity: Span,
                        projectIndex: nat)
      requires Valid() && Splits(Lexical(), lexicalPath, lexicalIndex) && Splits(Physical(), physicalPath, physicalIndex)
      requires InBounds(bytes, name) && Slice(bytes, name) == lexicalPath
      requires InBounds(bytes, identity) && Slice(bytes, identity) == physicalPath
      modifies `lexical, `physical
      ensures Valid()
      ensures Aliases() == old(Aliases()) + {lexicalPath}
      ensures Projects() == old(Projects())[physicalPath := projectIndex]
    {
      ghost var names, identities, rows := Lexical(), Physical(), physical;
      var row := PhysicalPathSpan(identity, projectIndex);
      DecodedInsert(bytes, lexical, lexicalIndex, name);
      InsertKeepsIncreasing(names, lexicalPath, lexicalIndex);
      MembersOfInsert(names, lexicalIndex, lexicalPath);
      lexical := InsertAt(lexical, lexicalIndex, name);
      DecodedInsert(bytes, PathsOf(physical), physicalIndex, identity);
      PathsOfInsert(physical, physicalIndex, row);
      ProjectMapInsert(identities, rows, physicalIndex, physicalPath, row);
      physical := InsertAt(physical, physicalIndex, row);
    }
  }

  lemma MembersOfInsert(s: seq<string>, at: nat, x: string)
    requires at <= |s|
    ensures (set p | p in InsertAt(s, at, x)) == (set p | p in s) + {x}
  {
    assert s == s[..at] + s[at..];
  }
}
