/** Sources behind filesystem links (crates/dv-core/src/project.rs, `collect_linked_sources`). */
module LinkedSources {
  import opened Wrappers
  import opened Ascii

  // A depth-first walk with an explicit stack and the list of directories that are open on the way to the current one.

  /** Components of a path. A logical path starts below the workspace root, a physical one identifies a directory. */
  type Path = seq<string>

  /** Failures of the filesystem, of an exclusion pattern or of resolving a link, kept apart by number. */
  type Fault = nat

  datatype SourceError = Cycle(logical: Path, physical: Path) | UnsupportedTarget(logical: Path, physical: Path)
      | Failed(fault: Fault)

  /** What a link points at, and the physical path it resolves to inside the workspace. */
  datatype Target =
    | ToDirectory(resolved: Result<Path, Fault>)
    | ToFile(resolved: Result<Path, Fault>)
    | ToOther(resolved: Result<Path, Fault>)
    | Unreadable(fault: Fault)

  datatype Entry = Directory(name: string) | File(name: string) | Link(name: string, target: Target) | Special(name: string)

  /** The entries a directory yields, and the fault that ends the enumeration, if any. */
  datatype Listing = Listing(entries: seq<Entry>, fault: Option<Fault>)

  /** A finite filesystem: listings by physical directory, the fault for any other path, and the exclusions. */
  datatype Tree = Tree(listings: map<Path, Listing>, missing: Fault, excludes: Path -> Result<bool, Fault>)

  function List(tree: Tree, physical: Path): Listing {
    if physical in tree.listings then tree.listings[physical] else Listing([], Some(tree.missing))
  }

  // ---------------------------------------------------------------- one directory

  function LastDot(name: string): (r: Option<nat>)
    ensures r.Some? ==> r.value < |name| && name[r.value] == '.' && '.' !in name[r.value + 1..]
    ensures r.None? ==> '.' !in name
  {
    if name == "" then None
    else if name[|name| - 1] == '.' then Some(|name| - 1)
    else
      var r := LastDot(name[..|name| - 1]);
      assert name == name[..|name| - 1] + [name[|name| - 1]];
      if r.Some? then
        assert name[r.value + 1..] == name[..|name| - 1][r.value + 1..] + [name[|name| - 1]];
        Some(r.value)
      else None
  }

  /** A `.cs` file in any case. A name that only begins with a dot has no extension. */
  predicate IsSource(name: string) {
    var dot := LastDot(name);
    dot.Some? && dot.value > 0 && EqIgnoreCase(name[dot.value + 1..], "cs")
  }

  datatype Child = Child(name: string, physical: Path)
  datatype Scanned = Scanned(sources: seq<Path>, children: seq<Child>)

  /** What one entry adds to the scan of its directory: at most one source or one subdirectory. */
  function ScanEntry(tree: Tree, logical: Path, physical: Path, entry: Entry): Result<Scanned, SourceError> {
    var path := logical + [entry.name];
    match entry
    case Special(_) => Success(Scanned([], []))
    case File(name) => Success(if IsSource(name) then Scanned([path], []) else Scanned([], []))
    case Directory(name) =>
      (match tree.excludes(path)
       case Failure(fault) => Failure(Failed(fault))
       case Success(excluded) => Success(if excluded then Scanned([], []) else Scanned([], [Child(name, physical + [name])])))
    case Link(name, target) =>
      match tree.excludes(path)
      case Failure(fault) => Failure(Failed(fault))
      case Success(excluded) => if excluded then Success(Scanned([], [])) else ScanTarget(path, name, target)
  }

  function ScanTarget(path: Path, name: string, target: Target): Result<Scanned, SourceError> {
    match target
    case Unreadable(fault) => Failure(Failed(fault))
    case ToDirectory(resolved) =>
      (match resolved
       case Failure(fault) => Failure(Failed(fault))
       case Success(physical) => Success(Scanned([], [Child(name, physical)])))
    case ToFile(resolved) =>
      if !IsSource(name) then Success(Scanned([], [])) else
        (match resolved
         case Failure(fault) => Failure(Failed(fault))
         case Success(_) => Success(Scanned([path], [])))
    case ToOther(resolved) =>
      (match resolved
       case Failure(fault) => Failure(Failed(fault))
       case Success(physical) => Failure(UnsupportedTarget(path, physical)))
  }

  /** The scan of the first `n` entries. */
  function Scan(tree: Tree, logical: Path, physical: Path, n: nat): Result<Scanned, SourceError>
    requires n <= |List(tree, physical).entries|
  {
    if n == 0 then Success(Scanned([], [])) else
      match Scan(tree, logical, physical, n - 1)
      case Failure(e) => Failure(e)
      case Success(found) =>
        match ScanEntry(tree, logical, physical, List(tree, physical).entries[n - 1])
        case Failure(e) => Failure(e)
        case Success(one) => Success(Scanned(found.sources + one.sources, found.children + one.children))
  }

  function ScanAll(tree: Tree, logical: Path, physical: Path): Result<Scanned, SourceError> {
    var listing := List(tree, physical);
    match Scan(tree, logical, physical, |listing.entries|)
    case Failure(e) => Failure(e)
    case Success(found) => if listing.fault.Some? then Failure(Failed(listing.fault.value)) else Success(found)
  }

  // ---------------------------------------------------------------- the recursive walk

  /** Directories that no open one is. */
  ghost function Free(tree: Tree, active: seq<Path>): set<Path> {
    tree.listings.Keys - set p | p in active
  }

  lemma OpeningShrinks(tree: Tree, active: seq<Path>, physical: Path)
    requires physical !in active && physical in tree.listings
    ensures Free(tree, active + [physical]) < Free(tree, active)
  {
    assert physical in Free(tree, active);
    forall p | p in Free(tree, active + [physical]) ensures p in Free(tree, active) {
      assert forall q | q in active :: q in active + [physical];
    }
    assert (active + [physical])[|active|] == physical;
  }

  function Then(first: Result<seq<Path>, SourceError>, second: Result<seq<Path>, SourceError>): Result<seq<Path>, SourceError> {
    if first.Failure? then first else if second.Failure? then second else Success(first.value + second.value)
  }

  /** The sources of a directory and everything below it, where `active` are the directories open above it. */
  function Walk(tree: Tree, active: seq<Path>, logical: Path, physical: Path): Result<seq<Path>, SourceError>
    decreases Free(tree, active), 0, 0
  {
    if physical in active then Failure(Cycle(logical, physical)) else
      match ScanAll(tree, logical, physical)
      case Failure(e) => Failure(e)
      case Success(found) =>
        OpeningShrinks(tree, active, physical);
        Then(Success(found.sources), WalkAll(tree, active + [physical], logical, found.children, |found.children|))
  }

  /** The first `n` children, the last of them first. */
  function WalkAll(tree: Tree, active: seq<Path>, logical: Path, children: seq<Child>, n: nat): Result<seq<Path>, SourceError>
    requires n <= |children|
    decreases Free(tree, active), 1, n
  {
    if n == 0 then Success([]) else
      Then(Walk(tree, active, logical + [children[n - 1].name], children[n - 1].physical),
           WalkAll(tree, active, logical, children, n - 1))
  }

  // ---------------------------------------------------------------- the stack

  datatype Work = Visit(logical: Path, physical: Path) | Leave

  function Pop<T>(s: seq<T>): seq<T> {
    if s == [] then [] else s[..|s| - 1]
  }

  /** What the rest of the stack will find. */
  function Drain(tree: Tree, work: seq<Work>, active: seq<Path>): Result<seq<Path>, SourceError> {
    if work == [] then Success([]) else
      match work[|work| - 1]
      case Leave => Drain(tree, Pop(work), Pop(active))
      case Visit(logical, physical) => Then(Walk(tree, active, logical, physical), Drain(tree, Pop(work), active))
  }

  /** How many items the stack will see for one visit. */
  ghost function Steps(tree: Tree, active: seq<Path>, logical: Path, physical: Path): nat
    decreases Free(tree, active), 0, 0
  {
    if physical in active then 1 else
      match ScanAll(tree, logical, physical)
      case Failure(_) => 1
      case Success(found) =>
        OpeningShrinks(tree, active, physical);
        2 + StepsAll(tree, active + [physical], logical, found.children, |found.children|)
  }

  ghost function StepsAll(tree: Tree, active: seq<Path>, logical: Path, children: seq<Child>, n: nat): nat
    requires n <= |children|
    decreases Free(tree, active), 1, n
  {
    if n == 0 then 0 else
      Steps(tree, active, logical + [children[n - 1].name], children[n - 1].physical)
          + StepsAll(tree, active, logical, children, n - 1)
  }

  ghost function Pending(tree: Tree, work: seq<Work>, active: seq<Path>): nat {
    if work == [] then 0 else
      match work[|work| - 1]
      case Leave => 1 + Pending(tree, Pop(work), Pop(active))
      case Visit(logical, physical) => Steps(tree, active, logical, physical) + Pending(tree, Pop(work), active)
  }

  function Visits(logical: Path, children: seq<Child>): (visits: seq<Work>)
    ensures |visits| == |children|
  {
    seq(|children|, k requires 0 <= k < |children| => Visit(logical + [children[k].name], children[k].physical))
  }

  lemma {:induction false} PushedChildren(tree: Tree, work: seq<Work>, active: seq<Path>, logical: Path,
      children: seq<Child>, n: nat)
    requires n <= |children|
    ensures var pushed := work + Visits(logical, children[..n]);
            && Drain(tree, pushed, active) == Then(WalkAll(tree, active, logical, children, n), Drain(tree, work, active))
            && Pending(tree, pushed, active) == StepsAll(tree, active, logical, children, n) + Pending(tree, work, active)
  {
    hide Drain, Pending, Walk, Steps, Visits;
    if n == 0 {
      NoVisits(logical);
      assert children[..0] == [] && work + [] == work;
      ThenNothing(Drain(tree, work, active));
    } else {
      var name, physical := children[n - 1].name, children[n - 1].physical;
      PushedChildren(tree, work, active, logical, children, n - 1);
      LastVisit(work, logical, children, n);
      VisitDrains(tree, work + Visits(logical, children[..n - 1]), active, logical + [name], physical);
      ThenAssociates(Walk(tree, active, logical + [name], physical),
                     WalkAll(tree, active, logical, children, n - 1), Drain(tree, work, active));
    }
  }

  lemma LastVisit(work: seq<Work>, logical: Path, children: seq<Child>, n: nat)
    requires 0 < n <= |children|
    ensures work + Visits(logical, children[..n]) ==
            work + Visits(logical, children[..n - 1]) + [Visit(logical + [children[n - 1].name], children[n - 1].physical)]
  {
  }

  lemma VisitDrains(tree: Tree, work: seq<Work>, active: seq<Path>, logical: Path, physical: Path)
    ensures var more := work + [Visit(logical, physical)];
            && Drain(tree, more, active) == Then(Walk(tree, active, logical, physical), Drain(tree, work, active))
            && Pending(tree, more, active) == Steps(tree, active, logical, physical) + Pending(tree, work, active)
  {
    hide Walk, Steps;
    assert Pop(work + [Visit(logical, physical)]) == work;
  }

  lemma ThenNothing(r: Result<seq<Path>, SourceError>)
    ensures Then(Success([]), r) == r
  {
    assert r.Success? ==> [] + r.value == r.value;
  }

  lemma ThenAssociates(a: Result<seq<Path>, SourceError>, b: Result<seq<Path>, SourceError>, c: Result<seq<Path>, SourceError>)
    ensures Then(Then(a, b), c) == Then(a, Then(b, c))
  {
    if a.Success? && b.Success? && c.Success? {
      assert (a.value + b.value) + c.value == a.value + (b.value + c.value);
    }
  }

  /** Opening one directory replaces its visit by a leave and the visits of its children. */
  lemma Opened(tree: Tree, work: seq<Work>, active: seq<Path>, logical: Path, physical: Path, found: Scanned)
    requires physical !in active && ScanAll(tree, logical, physical) == Success(found)
    ensures var before, after := work + [Visit(logical, physical)], work + [Leave] + Visits(logical, found.children);
            && Drain(tree, before, active) == Then(Success(found.sources), Drain(tree, after, active + [physical]))
            && Pending(tree, after, active + [physical]) < Pending(tree, before, active)
  {
    hide ScanAll, Visits;
    var before, inside, n := work + [Visit(logical, physical)], active + [physical], |found.children|;
    assert Pop(before) == work && Pop(work + [Leave]) == work && Pop(inside) == active;
    assert found.children[..n] == found.children;
    PushedChildren(tree, work + [Leave], inside, logical, found.children, n);
    ThenAssociates(Success(found.sources), WalkAll(tree, inside, logical, found.children, n), Drain(tree, work, active));
  }

  predicate Distinct(s: seq<Path>) {
    forall i, j | 0 <= i < j < |s| :: s[i] != s[j]
  }

  /** The directories from the workspace root down to `relative`. */
  function Ancestors(root: Path, relative: Path): (r: seq<Path>)
    ensures |r| == |relative| + 1
    ensures forall i | 0 <= i < |r| :: r[i] == root + relative[..i]
  {
    seq(|relative| + 1, i requires 0 <= i <= |relative| => root + relative[..i])
  }

  /** The open items: every leave on the stack belongs to one open directory above the starting ones. */
  function Leaves(work: seq<Work>): nat {
    if work == [] then 0 else Leaves(Pop(work)) + if work[|work| - 1].Leave? then 1 else 0
  }

  lemma {:induction false} VisitsLeaveNothing(work: seq<Work>, visits: seq<Work>)
    requires forall k | 0 <= k < |visits| :: visits[k].Visit?
    ensures Leaves(work + visits) == Leaves(work)
  {
    if visits == [] {
      assert work + visits == work;
    } else {
      assert Pop(work + visits) == work + Pop(visits);
      VisitsLeaveNothing(work, Pop(visits));
    }
  }

  /** Scans one directory, pushing its subdirectories onto the stack and its files onto the result. */
  method ScanDirectory(tree: Tree, logical: Path, physical: Path, workBefore: seq<Work>, sourcesBefore: seq<Path>)
    returns (r: Result<(), SourceError>, work: seq<Work>, sources: seq<Path>)
    ensures match ScanAll(tree, logical, physical)
            case Failure(e) => r == Failure(e)
            case Success(found) =>
              r.Success? && work == workBefore + Visits(logical, found.children) && sources == sourcesBefore + found.sources
  {
    hide ScanEntry, Visits, IsSource;
    work, sources := workBefore, sourcesBefore;
    var listing := List(tree, physical);
    ghost var found := Scanned([], []);
    NoVisits(logical);
    var n := 0;
    while n < |listing.entries|
      invariant n <= |listing.entries| && Scan(tree, logical, physical, n) == Success(found)
      invariant work == workBefore + Visits(logical, found.children) && sources == sourcesBefore + found.sources
    {
      ScanFails(tree, logical, physical, n + 1, |listing.entries|);
      var one := ScanEntry(tree, logical, physical, listing.entries[n]);
      if one.Failure? { return Failure(one.error), work, sources; }
      AppendScanned(logical, workBefore, sourcesBefore, found, one.value);
      work := work + Visits(logical, one.value.children);
      sources := sources + one.value.sources;
      found := Scanned(found.sources + one.value.sources, found.children + one.value.children);
      n := n + 1;
    }
    if listing.fault.Some? { return Failure(Failed(listing.fault.value)), work, sources; }
    return Success(()), work, sources;
  }

  lemma NoVisits(logical: Path)
    ensures Visits(logical, []) == []
  {
  }

  lemma AppendScanned(logical: Path, work: seq<Work>, sources: seq<Path>, found: Scanned, added: Scanned)
    ensures work + Visits(logical, found.children) + Visits(logical, added.children) ==
              work + Visits(logical, found.children + added.children)
    ensures sources + found.sources + added.sources == sources + (found.sources + added.sources)
  {
    assert Visits(logical, found.children + added.children) == Visits(logical, found.children) + Visits(logical, added.children);
  }

  lemma {:induction false} ScanFails(tree: Tree, logical: Path, physical: Path, n: nat, m: nat)
    requires n <= m <= |List(tree, physical).entries|
    ensures Scan(tree, logical, physical, n).Failure? ==> Scan(tree, logical, physical, m) == Scan(tree, logical, physical, n)
  {
    if n < m { ScanFails(tree, logical, physical, n, m - 1); }
  }

  lemma VisitsLeave(work: seq<Work>, logical: Path, children: seq<Child>)
    ensures Leaves(work + [Leave] + Visits(logical, children)) == Leaves(work) + 1
  {
    VisitsLeaveNothing(work + [Leave], Visits(logical, children));
    assert Pop(work + [Leave]) == work;
  }

  lemma DrainOne(tree: Tree, active: seq<Path>, logical: Path, physical: Path)
    ensures Drain(tree, [Visit(logical, physical)], active) == Walk(tree, active, logical, physical)
  {
    hide Walk;
    var r := Walk(tree, active, logical, physical);
    assert Pop([Visit(logical, physical)]) == [];
    assert r.Success? ==> r.value + [] == r.value;
  }

  lemma WalkRevisits(tree: Tree, active: seq<Path>, logical: Path, physical: Path)
    requires physical in active
    ensures Walk(tree, active, logical, physical) == Failure(Cycle(logical, physical))
  {
  }

  lemma WalkUnreadable(tree: Tree, active: seq<Path>, logical: Path, physical: Path)
    requires physical !in active && ScanAll(tree, logical, physical).Failure?
    ensures Walk(tree, active, logical, physical) == Failure(ScanAll(tree, logical, physical).error)
  {
    hide ScanAll;
  }

  lemma ThenNothingBehind(sources: seq<Path>)
    ensures Then(Success(sources), Success([])) == Success(sources)
  {
    assert sources + [] == sources;
  }

  /**
   * The walk behind one link. It always ends, and finds what the recursive walk finds, in the same order, or fails as
   * it fails; the open directories stay distinct, one above the starting ones for every leave on the stack.
   */
  method CollectLinkedSources(tree: Tree, logicalRoot: Path, physicalTarget: Path, physicalRoot: Path, before: seq<Path>)
    returns (r: Result<seq<Path>, SourceError>)
    requires logicalRoot != []
    ensures r == Then(Success(before), Walk(tree, Ancestors(physicalRoot, Pop(logicalRoot)), logicalRoot, physicalTarget))
  {
    var relativeCurrent := Pop(logicalRoot);
    var identity, active := physicalRoot, [physicalRoot];
    var c := 0;
    while c < |relativeCurrent|
      invariant c <= |relativeCurrent| && identity == physicalRoot + relativeCurrent[..c]
      invariant active == Ancestors(physicalRoot, relativeCurrent[..c])
    {
      identity := identity + [relativeCurrent[c]];
      assert identity == physicalRoot + relativeCurrent[..c + 1];
      active := active + [identity];
      AncestorsGrow(physicalRoot, relativeCurrent, c);
      c := c + 1;
    }
    assert relativeCurrent[..c] == relativeCurrent;
    AncestorsDistinct(physicalRoot, relativeCurrent);
    r := RunStack(tree, logicalRoot, physicalTarget, active, before);
  }

  lemma AncestorsGrow(root: Path, relative: Path, c: nat)
    requires c < |relative|
    ensures Ancestors(root, relative[..c + 1]) == Ancestors(root, relative[..c]) + [root + relative[..c + 1]]
  {
    assert forall i | 0 <= i <= c :: relative[..c + 1][..i] == relative[..c][..i];
    assert relative[..c + 1][..c + 1] == relative[..c + 1];
  }

  lemma AncestorsDistinct(root: Path, relative: Path)
    ensures Distinct(Ancestors(root, relative))
  {
  }

  method RunStack(tree: Tree, logicalRoot: Path, physicalTarget: Path, start: seq<Path>, before: seq<Path>)
    returns (r: Result<seq<Path>, SourceError>)
    requires Distinct(start)
    ensures r == Then(Success(before), Walk(tree, start, logicalRoot, physicalTarget))
  {
    hide Walk, ScanAll, Visits, Steps;
    var active, sources := start, before;
    var work := [Visit(logicalRoot, physicalTarget)];
    ghost var whole := Then(Success(before), Walk(tree, start, logicalRoot, physicalTarget));
    DrainOne(tree, start, logicalRoot, physicalTarget);
    while work != []
      invariant Then(Success(sources), Drain(tree, work, active)) == whole
      invariant Distinct(active) && |active| == |start| + Leaves(work) && active[..|start|] == start
      decreases Pending(tree, work, active)
    {
      var item, rest := work[|work| - 1], Pop(work);
      if item.Leave? {
        work, active := rest, Pop(active);
        continue;
      }
      var logical, physical := item.logical, item.physical;
      assert work == rest + [item];
      if physical in active {
        WalkRevisits(tree, active, logical, physical);
        return Failure(Cycle(logical, physical));
      }
      var scanned, pushed, added := ScanDirectory(tree, logical, physical, rest + [Leave], sources);
      if scanned.Failure? {
        WalkUnreadable(tree, active, logical, physical);
        return Failure(scanned.error);
      }
      ghost var found := ScanAll(tree, logical, physical).value;
      Opened(tree, rest, active, logical, physical, found);
      ThenAssociates(Success(sources), Success(found.sources), Drain(tree, pushed, active + [physical]));
      VisitsLeave(rest, logical, found.children);
      work, sources, active := pushed, added, active + [physical];
    }
    ThenNothingBehind(sources);
    return Success(sources);
  }
}
