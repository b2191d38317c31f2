/**
 * What the linked-source walk finds, in terms of trails: ways from the link down through directories and links. The
 * walk fails with a cycle exactly when a trail comes back to a directory that is open on it.
 */
module LinkedSourceTheory {
  import opened Wrappers
  import opened LinkedSources

  /** Subdirectories that a readable directory is left through. */
  function Children(tree: Tree, logical: Path, physical: Path): seq<Child> {
    match ScanAll(tree, logical, physical)
    case Failure(_) => []
    case Success(found) => found.children
  }

  function Sources(tree: Tree, logical: Path, physical: Path): seq<Path> {
    match ScanAll(tree, logical, physical)
    case Failure(_) => []
    case Success(found) => found.sources
  }

  predicate Trail(tree: Tree, logical: Path, physical: Path, steps: seq<Child>)
    decreases |steps|
  {
    steps == [] ||
    (steps[0] in Children(tree, logical, physical) && Trail(tree, logical + [steps[0].name], steps[0].physical, steps[1..]))
  }

  function EndLogical(logical: Path, steps: seq<Child>): Path
    decreases |steps|
  {
    if steps == [] then logical else EndLogical(logical + [steps[0].name], steps[1..])
  }

  function EndPhysical(physical: Path, steps: seq<Child>): Path
    decreases |steps|
  {
    if steps == [] then physical else EndPhysical(steps[0].physical, steps[1..])
  }

  /** No directory on the trail, its end included, is open already. */
  predicate Acyclic(active: seq<Path>, physical: Path, steps: seq<Child>)
    decreases |steps|
  {
    physical !in active && (steps != [] ==> Acyclic(active + [physical], steps[0].physical, steps[1..]))
  }

  /** The end of the trail is the first directory on it that is open already. */
  predicate Revisits(active: seq<Path>, physical: Path, steps: seq<Child>)
    decreases |steps|
  {
    if steps == [] then physical in active
    else physical !in active && Revisits(active + [physical], steps[0].physical, steps[1..])
  }

  /** The trail leads to what `error` reports, and everything before that was in order. */
  predicate Explains(tree: Tree, active: seq<Path>, logical: Path, physical: Path, steps: seq<Child>, error: SourceError) {
    && Trail(tree, logical, physical, steps)
    && var l, p := EndLogical(logical, steps), EndPhysical(physical, steps);
       (error == Cycle(l, p) && Revisits(active, physical, steps))
       || (Acyclic(active, physical, steps) && ScanAll(tree, l, p) == Failure(error))
  }

  /** Every trail is in order. */
  ghost predicate Sound(tree: Tree, active: seq<Path>, logical: Path, physical: Path) {
    forall steps | Trail(tree, logical, physical, steps) :: InOrder(tree, active, logical, physical, steps)
  }

  predicate InOrder(tree: Tree, active: seq<Path>, logical: Path, physical: Path, steps: seq<Child>) {
    Acyclic(active, physical, steps) && ScanAll(tree, EndLogical(logical, steps), EndPhysical(physical, steps)).Success?
  }

  // ---------------------------------------------------------------- a failure has a trail

  lemma {:induction false} WalkAllFails(tree: Tree, active: seq<Path>, logical: Path, children: seq<Child>, n: nat)
      returns (k: nat)
    requires n <= |children| && WalkAll(tree, active, logical, children, n).Failure?
    ensures k < n
    ensures Walk(tree, active, logical + [children[k].name], children[k].physical) == WalkAll(tree, active, logical, children, n)
  {
    hide Walk;
    if Walk(tree, active, logical + [children[n - 1].name], children[n - 1].physical).Failure? {
      k := n - 1;
    } else {
      k := WalkAllFails(tree, active, logical, children, n - 1);
    }
  }

  lemma {:induction false} WalkFails(tree: Tree, active: seq<Path>, logical: Path, physical: Path) returns (steps: seq<Child>)
    requires Walk(tree, active, logical, physical).Failure?
    ensures Explains(tree, active, logical, physical, steps, Walk(tree, active, logical, physical).error)
    decreases Free(tree, active)
  {
    hide ScanAll;
    var error := Walk(tree, active, logical, physical).error;
    if physical in active || ScanAll(tree, logical, physical).Failure? {
      steps := [];
    } else {
      var children := ScanAll(tree, logical, physical).value.children;
      OpeningShrinks(tree, active, physical) by { ScannedIsListed(tree, logical, physical); }
      var k := WalkAllFails(tree, active + [physical], logical, children, |children|);
      var rest := WalkFails(tree, active + [physical], logical + [children[k].name], children[k].physical);
      steps := [children[k]] + rest;
      ExplainedFurther(tree, active, logical, physical, children[k], rest, error);
    }
  }

  lemma ScannedIsListed(tree: Tree, logical: Path, physical: Path)
    requires ScanAll(tree, logical, physical).Success?
    ensures physical in tree.listings
  {
  }

  lemma ExplainedFurther(tree: Tree, active: seq<Path>, logical: Path, physical: Path, child: Child, rest: seq<Child>,
      error: SourceError)
    requires physical !in active && child in Children(tree, logical, physical)
    requires Explains(tree, active + [physical], logical + [child.name], child.physical, rest, error)
    ensures Explains(tree, active, logical, physical, [child] + rest, error)
  {
    hide Children, ScanAll;
    assert ([child] + rest)[1..] == rest;
  }

  // ---------------------------------------------------------------- a success covers every trail

  lemma {:induction false} WalkAllCovers(tree: Tree, active: seq<Path>, logical: Path, children: seq<Child>, n: nat, k: nat)
    requires k < n <= |children| && WalkAll(tree, active, logical, children, n).Success?
    ensures var r := Walk(tree, active, logical + [children[k].name], children[k].physical);
            r.Success? && forall x | x in r.value :: x in WalkAll(tree, active, logical, children, n).value
  {
    hide Walk;
    if k < n - 1 { WalkAllCovers(tree, active, logical, children, n - 1, k); }
  }

  lemma {:induction false} WalkCovers(tree: Tree, active: seq<Path>, logical: Path, physical: Path, steps: seq<Child>)
    requires Walk(tree, active, logical, physical).Success? && Trail(tree, logical, physical, steps)
    ensures InOrder(tree, active, logical, physical, steps)
    ensures forall x | x in Sources(tree, EndLogical(logical, steps), EndPhysical(physical, steps)) ::
              x in Walk(tree, active, logical, physical).value
    decreases |steps|
  {
    hide ScanAll;
    var found := ScanAll(tree, logical, physical).value;
    var n := |found.children|;
    if steps != [] {
      var k :| 0 <= k < n && found.children[k] == steps[0];
      WalkAllCovers(tree, active + [physical], logical, found.children, n, k);
      WalkCovers(tree, active + [physical], logical + [steps[0].name], steps[0].physical, steps[1..]);
    }
  }

  lemma {:induction false} WalkAllFound(tree: Tree, active: seq<Path>, logical: Path, children: seq<Child>, n: nat,
      x: Path) returns (k: nat)
    requires n <= |children| && WalkAll(tree, active, logical, children, n).Success?
    requires x in WalkAll(tree, active, logical, children, n).value
    ensures k < n && Walk(tree, active, logical + [children[k].name], children[k].physical).Success?
    ensures x in Walk(tree, active, logical + [children[k].name], children[k].physical).value
  {
    hide Walk;
    if x in Walk(tree, active, logical + [children[n - 1].name], children[n - 1].physical).value {
      k := n - 1;
    } else {
      k := WalkAllFound(tree, active, logical, children, n - 1, x);
    }
  }

  lemma {:induction false} WalkFound(tree: Tree, active: seq<Path>, logical: Path, physical: Path, x: Path)
      returns (steps: seq<Child>)
    requires Walk(tree, active, logical, physical).Success? && x in Walk(tree, active, logical, physical).value
    ensures Trail(tree, logical, physical, steps)
    ensures x in Sources(tree, EndLogical(logical, steps), EndPhysical(physical, steps))
    decreases Free(tree, active)
  {
    hide ScanAll;
    var found := ScanAll(tree, logical, physical).value;
    if x in found.sources {
      steps := [];
    } else {
      OpeningShrinks(tree, active, physical) by { ScannedIsListed(tree, logical, physical); }
      var k := WalkAllFound(tree, active + [physical], logical, found.children, |found.children|, x);
      var child := found.children[k];
      var rest := WalkFound(tree, active + [physical], logical + [child.name], child.physical, x);
      steps := [child] + rest;
      assert steps[1..] == rest;
    }
  }

  // ---------------------------------------------------------------- the walk and its trails

  lemma {:induction false} RevisitIsNoOrder(active: seq<Path>, physical: Path, steps: seq<Child>)
    requires Revisits(active, physical, steps)
    ensures !Acyclic(active, physical, steps)
    decreases |steps|
  {
    if steps != [] && physical !in active { RevisitIsNoOrder(active + [physical], steps[0].physical, steps[1..]); }
  }

  /** The walk succeeds if and only if no trail comes back to an open directory and every directory on a trail can be scanned. */
  lemma WalkIsSound(tree: Tree, active: seq<Path>, logical: Path, physical: Path)
    ensures Walk(tree, active, logical, physical).Success? <==> Sound(tree, active, logical, physical)
  {
    hide Walk, ScanAll;
    if Walk(tree, active, logical, physical).Success? {
      forall steps | Trail(tree, logical, physical, steps) ensures InOrder(tree, active, logical, physical, steps) {
        WalkCovers(tree, active, logical, physical, steps);
      }
    } else {
      var steps := WalkFails(tree, active, logical, physical);
      if Revisits(active, physical, steps) { RevisitIsNoOrder(active, physical, steps); }
      assert !InOrder(tree, active, logical, physical, steps);
    }
  }

  /** What it finds is exactly the sources at the ends of trails, each under its logical path. */
  lemma WalkFindsSources(tree: Tree, active: seq<Path>, logical: Path, physical: Path, x: Path)
    requires Walk(tree, active, logical, physical).Success?
    ensures x in Walk(tree, active, logical, physical).value <==>
            exists steps :: Trail(tree, logical, physical, steps)
                            && x in Sources(tree, EndLogical(logical, steps), EndPhysical(physical, steps))
  {
    hide Walk, ScanAll;
    if x in Walk(tree, active, logical, physical).value {
      var steps := WalkFound(tree, active, logical, physical, x);
    }
    forall steps | Trail(tree, logical, physical, steps)
        && x in Sources(tree, EndLogical(logical, steps), EndPhysical(physical, steps))
      ensures x in Walk(tree, active, logical, physical).value
    {
      WalkCovers(tree, active, logical, physical, steps);
    }
  }

  // ---------------------------------------------------------------- one directory, entry by entry

  /** What a directory lists, if it is one. */
  function Entries(tree: Tree, physical: Path): seq<Entry> {
    if physical in tree.listings then tree.listings[physical].entries else []
  }

  /** The name ends in `.cs`, in either case, behind at least one other character. */
  predicate EndsInCs(name: string) {
    |name| >= 4 && name[|name| - 3] == '.' && name[|name| - 2] in "cC" && name[|name| - 1] in "sS"
  }

  lemma SourceEndsInCs(name: string)
    ensures IsSource(name) <==> EndsInCs(name)
  {
    var dot := LastDot(name);
    if IsSource(name) {
      assert name[dot.value + 1..] == [name[dot.value + 1], name[dot.value + 2]];
    }
    if EndsInCs(name) {
      LastDotIsAt(name, |name| - 3);
      assert name[|name| - 2..] == [name[|name| - 2], name[|name| - 1]];
    }
  }

  lemma {:induction false} LastDotIsAt(name: string, at: nat)
    requires at < |name| && name[at] == '.' && forall i | at < i < |name| :: name[i] != '.'
    ensures LastDot(name) == Some(at)
    decreases |name|
  {
    if at < |name| - 1 { LastDotIsAt(name[..|name| - 1], at); }
  }

  predicate Kept(tree: Tree, logical: Path, name: string) {
    tree.excludes(logical + [name]) == Success(false)
  }

  /** The entry leads down: a kept subdirectory, or a kept link to a directory, which stands for what it resolves to. */
  predicate LeadsTo(tree: Tree, logical: Path, physical: Path, entry: Entry, child: Child) {
    && entry.name == child.name && Kept(tree, logical, entry.name)
    && ((entry.Directory? && child.physical == physical + [entry.name])
        || (entry.Link? && entry.target == ToDirectory(Success(child.physical))))
  }

  /** The entry is a source: a file, or a kept link to a file, with the extension. */
  predicate IsSourceEntry(tree: Tree, logical: Path, entry: Entry) {
    && EndsInCs(entry.name)
    && (entry.File? || (entry.Link? && Kept(tree, logical, entry.name) && entry.target.ToFile? && entry.target.resolved.Success?))
  }

  /** Nothing about the entry stops the walk. */
  predicate EntryInOrder(tree: Tree, logical: Path, entry: Entry) {
    match entry
    case File(_) => true
    case Special(_) => true
    case Directory(name) => tree.excludes(logical + [name]).Success?
    case Link(name, target) =>
      || tree.excludes(logical + [name]) == Success(true)
      || (Kept(tree, logical, name)
          && match target
             case ToDirectory(resolved) => resolved.Success?
             case ToFile(resolved) => !EndsInCs(name) || resolved.Success?
             case ToOther(_) => false
             case Unreadable(_) => false)
  }

  /** The error with which an entry stops the walk. */
  predicate EntryStops(tree: Tree, logical: Path, entry: Entry, error: SourceError) {
    || ((entry.Directory? || entry.Link?)
        && tree.excludes(logical + [entry.name]).Failure? && error == Failed(tree.excludes(logical + [entry.name]).error))
    || (entry.Link? && Kept(tree, logical, entry.name)
        && match entry.target
           case ToDirectory(resolved) => resolved.Failure? && error == Failed(resolved.error)
           case ToFile(resolved) => EndsInCs(entry.name) && resolved.Failure? && error == Failed(resolved.error)
           case ToOther(resolved) =>
             error == if resolved.Success? then UnsupportedTarget(logical + [entry.name], resolved.value)
                 else Failed(resolved.error)
           case Unreadable(fault) => error == Failed(fault))
  }

  /** The first entry that stops the walk gives its error; if none does, the directory itself cannot be listed. */
  ghost predicate DirectoryStops(tree: Tree, logical: Path, physical: Path, error: SourceError) {
    var entries := Entries(tree, physical);
    || (exists n :: 0 <= n < |entries| && EntryStops(tree, logical, entries[n], error)
                    && forall i | 0 <= i < n :: EntryInOrder(tree, logical, entries[i]))
    || ((forall i | 0 <= i < |entries| :: EntryInOrder(tree, logical, entries[i]))
        && if physical in tree.listings
            then tree.listings[physical].fault.Some? && error == Failed(tree.listings[physical].fault.value)
           else error == Failed(tree.missing))
  }

  /** The directory exists, can be listed to its end, and none of its entries stops the walk. */
  predicate DirectoryInOrder(tree: Tree, logical: Path, physical: Path) {
    && physical in tree.listings && tree.listings[physical].fault.None?
    && forall i | 0 <= i < |Entries(tree, physical)| :: EntryInOrder(tree, logical, Entries(tree, physical)[i])
  }

  ghost predicate LeadsDown(tree: Tree, logical: Path, physical: Path, child: Child) {
    exists i :: 0 <= i < |Entries(tree, physical)| && LeadsTo(tree, logical, physical, Entries(tree, physical)[i], child)
  }

  ghost predicate Holds(tree: Tree, logical: Path, physical: Path, x: Path) {
    exists i :: 0 <= i < |Entries(tree, physical)| && IsSourceEntry(tree, logical, Entries(tree, physical)[i])
                && x == logical + [Entries(tree, physical)[i].name]
  }

  /** A way down from the link: every step is an entry of the directory before it. */
  ghost predicate WayDown(tree: Tree, logical: Path, physical: Path, steps: seq<Child>)
    decreases |steps|
  {
    steps == [] ||
    (LeadsDown(tree, logical, physical, steps[0]) && WayDown(tree, logical + [steps[0].name], steps[0].physical, steps[1..]))
  }

  lemma EntryScans(tree: Tree, logical: Path, physical: Path, entry: Entry)
    ensures var r := ScanEntry(tree, logical, physical, entry);
            if r.Success? then EntryInOrder(tree, logical, entry)
            else !EntryInOrder(tree, logical, entry) && EntryStops(tree, logical, entry, r.error)
    ensures ScanEntry(tree, logical, physical, entry).Success? ==>
              && (forall child :: child in ScanEntry(tree, logical, physical, entry).value.children <==>
                                  LeadsTo(tree, logical, physical, entry, child))
              && (forall x :: x in ScanEntry(tree, logical, physical, entry).value.sources <==>
                              IsSourceEntry(tree, logical, entry) && x == logical + [entry.name])
  {
    hide IsSource, EndsInCs;
    SourceEndsInCs(entry.name);
  }

  /** The scan of the first `n` entries, told by the entries themselves. */
  ghost predicate ScansTo(tree: Tree, logical: Path, physical: Path, n: nat, found: Scanned)
    requires n <= |Entries(tree, physical)|
  {
    && (forall i | 0 <= i < n :: EntryInOrder(tree, logical, Entries(tree, physical)[i]))
    && (forall child :: child in found.children <==>
          exists i :: 0 <= i < n && LeadsTo(tree, logical, physical, Entries(tree, physical)[i], child))
    && (forall x :: x in found.sources <==>
          exists i :: 0 <= i < n && IsSourceEntry(tree, logical, Entries(tree, physical)[i])
                      && x == logical + [Entries(tree, physical)[i].name])
  }

  lemma {:induction false} EntriesScan(tree: Tree, logical: Path, physical: Path, n: nat)
    requires physical in tree.listings && n <= |Entries(tree, physical)|
    ensures var r := Scan(tree, logical, physical, n);
            if r.Success? then ScansTo(tree, logical, physical, n, r.value)
            else exists m :: 0 <= m < n && !EntryInOrder(tree, logical, Entries(tree, physical)[m])
                             && EntryStops(tree, logical, Entries(tree, physical)[m], r.error)
                             && forall i | 0 <= i < m :: EntryInOrder(tree, logical, Entries(tree, physical)[i])
  {
    hide ScanEntry, EntryInOrder, EntryStops, LeadsTo, IsSourceEntry;
    if n > 0 {
      EntriesScan(tree, logical, physical, n - 1);
      EntryScans(tree, logical, physical, Entries(tree, physical)[n - 1]);
    }
  }

  lemma NothingScans(tree: Tree, logical: Path, physical: Path)
    requires physical !in tree.listings
    ensures ScanAll(tree, logical, physical) == Failure(Failed(tree.missing))
  {
  }

  /** Scanning a directory, in terms of its entries. */
  lemma DirectoryScans(tree: Tree, logical: Path, physical: Path)
    ensures ScanAll(tree, logical, physical).Success? <==> DirectoryInOrder(tree, logical, physical)
    ensures DirectoryInOrder(tree, logical, physical) ==>
              && (forall child :: child in Children(tree, logical, physical) <==> LeadsDown(tree, logical, physical, child))
              && (forall x :: x in Sources(tree, logical, physical) <==> Holds(tree, logical, physical, x))
    ensures !DirectoryInOrder(tree, logical, physical) ==>
              && Children(tree, logical, physical) == [] && Sources(tree, logical, physical) == []
              && DirectoryStops(tree, logical, physical, ScanAll(tree, logical, physical).error)
  {
    hide EntryInOrder, EntryStops, LeadsTo, IsSourceEntry, Scan;
    if physical in tree.listings {
      EntriesScan(tree, logical, physical, |Entries(tree, physical)|);
    } else {
      NothingScans(tree, logical, physical);
    }
  }

  lemma {:induction false} TrailIsWay(tree: Tree, logical: Path, physical: Path, steps: seq<Child>)
    requires Trail(tree, logical, physical, steps)
    ensures WayDown(tree, logical, physical, steps)
    decreases |steps|
  {
    hide Children, LeadsDown, DirectoryInOrder;
    if steps != [] {
      DirectoryScans(tree, logical, physical);
      TrailIsWay(tree, logical + [steps[0].name], steps[0].physical, steps[1..]);
    }
  }

  /** After a walk that succeeded, every way down is a trail. */
  lemma {:induction false} WayIsTrail(tree: Tree, active: seq<Path>, logical: Path, physical: Path, steps: seq<Child>)
    requires Walk(tree, active, logical, physical).Success? && WayDown(tree, logical, physical, steps)
    ensures Trail(tree, logical, physical, steps)
    decreases |steps|
  {
    hide ScanAll, LeadsDown, DirectoryInOrder;
    DirectoryScans(tree, logical, physical);
    if steps != [] {
      var children := ScanAll(tree, logical, physical).value.children;
      var k :| 0 <= k < |children| && children[k] == steps[0];
      WalkAllCovers(tree, active + [physical], logical, children, |children|, k);
      WayIsTrail(tree, active + [physical], logical + [steps[0].name], steps[0].physical, steps[1..]);
    }
  }

  /** No directory on the way is open already, and the one at its end is in order. */
  predicate WayInOrder(tree: Tree, active: seq<Path>, logical: Path, physical: Path, steps: seq<Child>) {
    Acyclic(active, physical, steps) && DirectoryInOrder(tree, EndLogical(logical, steps), EndPhysical(physical, steps))
  }

  // ---------------------------------------------------------------- main results

  /** The walk succeeds if and only if every way down through the listed entries is in order. */
  lemma WalkSucceedsExactly(tree: Tree, active: seq<Path>, logical: Path, physical: Path)
    ensures Walk(tree, active, logical, physical).Success? <==>
            forall steps | WayDown(tree, logical, physical, steps) :: WayInOrder(tree, active, logical, physical, steps)
  {
    hide Walk, ScanAll, Acyclic, DirectoryInOrder, Trail, WayDown;
    WalkIsSound(tree, active, logical, physical);
    if Walk(tree, active, logical, physical).Success? {
      forall steps | WayDown(tree, logical, physical, steps) ensures WayInOrder(tree, active, logical, physical, steps) {
        WayIsTrail(tree, active, logical, physical, steps);
        assert InOrder(tree, active, logical, physical, steps);
        DirectoryScans(tree, EndLogical(logical, steps), EndPhysical(physical, steps));
      }
    } else {
      var steps :| Trail(tree, logical, physical, steps) && !InOrder(tree, active, logical, physical, steps);
      TrailIsWay(tree, logical, physical, steps);
      DirectoryScans(tree, EndLogical(logical, steps), EndPhysical(physical, steps));
      assert !WayInOrder(tree, active, logical, physical, steps);
    }
  }

  /** A failure is explained by a way down: to a directory that is open already, or to one whose own entries stop the walk. */
  lemma WalkFailsFor(tree: Tree, active: seq<Path>, logical: Path, physical: Path) returns (steps: seq<Child>)
    requires Walk(tree, active, logical, physical).Failure?
    ensures WayDown(tree, logical, physical, steps)
    ensures var l, p := EndLogical(logical, steps), EndPhysical(physical, steps);
            var error := Walk(tree, active, logical, physical).error;
            || (error == Cycle(l, p) && Revisits(active, physical, steps))
            || (Acyclic(active, physical, steps) && DirectoryStops(tree, l, p, error))
  {
    hide Walk, ScanAll, Acyclic, Revisits, DirectoryInOrder, DirectoryStops, Trail, WayDown;
    steps := WalkFails(tree, active, logical, physical);
    TrailIsWay(tree, logical, physical, steps);
    DirectoryScans(tree, EndLogical(logical, steps), EndPhysical(physical, steps));
  }

  /** What it finds is exactly the source entries in the directories at the ends of ways, each under its logical path. */
  lemma WalkFindsExactly(tree: Tree, active: seq<Path>, logical: Path, physical: Path, x: Path)
    requires Walk(tree, active, logical, physical).Success?
    ensures x in Walk(tree, active, logical, physical).value <==>
            exists steps :: WayDown(tree, logical, physical, steps)
                            && Holds(tree, EndLogical(logical, steps), EndPhysical(physical, steps), x)
  {
    hide Walk, ScanAll, Holds, Sources, Trail, WayDown, DirectoryInOrder;
    WalkFindsSources(tree, active, logical, physical, x);
    WalkIsSound(tree, active, logical, physical);
    if x in Walk(tree, active, logical, physical).value {
      var steps :| Trail(tree, logical, physical, steps)
                   && x in Sources(tree, EndLogical(logical, steps), EndPhysical(physical, steps));
      TrailIsWay(tree, logical, physical, steps);
      DirectoryScans(tree, EndLogical(logical, steps), EndPhysical(physical, steps));
    }
    forall steps | WayDown(tree, logical, physical, steps)
                   && Holds(tree, EndLogical(logical, steps), EndPhysical(physical, steps), x)
      ensures x in Walk(tree, active, logical, physical).value
    {
      WayIsTrail(tree, active, logical, physical, steps);
      assert InOrder(tree, active, logical, physical, steps);
      DirectoryScans(tree, EndLogical(logical, steps), EndPhysical(physical, steps));
    }
  }

  /** A reported cycle is one: a trail whose end is the first directory on it that is open already. */
  lemma CycleIsReal(tree: Tree, active: seq<Path>, logical: Path, physical: Path, l: Path, p: Path)
    requires Walk(tree, active, logical, physical) == Failure(Cycle(l, p))
    ensures exists steps ::
              && WayDown(tree, logical, physical, steps) && Revisits(active, physical, steps)
              && EndLogical(logical, steps) == l && EndPhysical(physical, steps) == p
  {
    hide Walk, ScanAll;
    var steps := WalkFails(tree, active, logical, physical);
    NoCycleInScan(tree, EndLogical(logical, steps), EndPhysical(physical, steps));
    TrailIsWay(tree, logical, physical, steps);
  }

  lemma NoCycleInScan(tree: Tree, logical: Path, physical: Path)
    ensures ScanAll(tree, logical, physical).Failure? ==> !ScanAll(tree, logical, physical).error.Cycle?
  {
    NoCycleInEntries(tree, logical, physical, |List(tree, physical).entries|);
  }

  lemma {:induction false} NoCycleInEntries(tree: Tree, logical: Path, physical: Path, n: nat)
    requires n <= |List(tree, physical).entries|
    ensures Scan(tree, logical, physical, n).Failure? ==> !Scan(tree, logical, physical, n).error.Cycle?
  {
    if n > 0 { NoCycleInEntries(tree, logical, physical, n - 1); }
  }

  // ---------------------------------------------------------------- no source twice

  /** Names in every directory are distinct, as in any filesystem. */
  ghost predicate NamesDistinct(tree: Tree) {
    forall physical | physical in tree.listings :: EntriesDistinct(tree.listings[physical].entries)
  }

  predicate EntriesDistinct(entries: seq<Entry>) {
    forall i, j | 0 <= i < j < |entries| :: entries[i].name != entries[j].name
  }

  /** Every path lies below `logical`, under a name that `k` bounds. */
  ghost predicate Under(logical: Path, paths: seq<Path>) {
    forall i | 0 <= i < |paths| :: logical < paths[i]
  }

  ghost predicate ScanNamed(logical: Path, entries: seq<Entry>, found: Scanned) {
    && (forall x | x in found.sources :: exists i :: 0 <= i < |entries| && x == logical + [entries[i].name])
    && (forall c | c in found.children :: exists i :: 0 <= i < |entries| && c.name == entries[i].name)
  }

  /** The scan's own sources and its subdirectories all have different names. */
  ghost predicate ScanDistinct(logical: Path, found: Scanned) {
    && Distinct(found.sources) && (forall x | x in found.sources :: logical < x && |x| == |logical| + 1)
    && forall i, j | 0 <= i < j < |found.children| :: found.children[i].name != found.children[j].name
  }

  lemma {:induction false} ScanIsDistinct(tree: Tree, logical: Path, physical: Path, n: nat)
    requires n <= |List(tree, physical).entries| && EntriesDistinct(List(tree, physical).entries)
    requires Scan(tree, logical, physical, n).Success?
    ensures ScanNamed(logical, List(tree, physical).entries[..n], Scan(tree, logical, physical, n).value)
    ensures ScanDistinct(logical, Scan(tree, logical, physical, n).value)
  {
    hide ScanNamed, ScanDistinct, ScanEntry, AddsOne;
    if n == 0 {
      NothingScanned(logical);
    } else {
      var entries := List(tree, physical).entries;
      ScanIsDistinct(tree, logical, physical, n - 1);
      EntryAddsOne(tree, logical, physical, entries[n - 1]);
      assert entries[..n][..n - 1] == entries[..n - 1];
      OneMoreEntry(logical, entries[..n], Scan(tree, logical, physical, n - 1).value,
          ScanEntry(tree, logical, physical, entries[n - 1]).value);
    }
  }

  lemma NothingScanned(logical: Path)
    ensures ScanNamed(logical, [], Scanned([], [])) && ScanDistinct(logical, Scanned([], []))
  {
  }

  /** At most one source or one child, under the entry's own name. */
  predicate AddsOne(logical: Path, name: string, one: Scanned) {
    || (one.sources == [] && one.children == [])
    || (one.sources == [logical + [name]] && one.children == [])
    || (one.sources == [] && |one.children| == 1 && one.children[0].name == name)
  }

  lemma EntryAddsOne(tree: Tree, logical: Path, physical: Path, entry: Entry)
    ensures var r := ScanEntry(tree, logical, physical, entry);
            r.Success? ==> AddsOne(logical, entry.name, r.value)
  {
  }

  lemma OneMoreEntry(logical: Path, entries: seq<Entry>, found: Scanned, one: Scanned)
    requires entries != [] && EntriesDistinct(entries) && ScanNamed(logical, Pop(entries), found) && ScanDistinct(logical, found)
    requires AddsOne(logical, entries[|entries| - 1].name, one)
    ensures var both := Scanned(found.sources + one.sources, found.children + one.children);
            ScanNamed(logical, entries, both) && ScanDistinct(logical, both)
  {
    hide ScanNamed, ScanDistinct;
    var name := entries[|entries| - 1].name;
    NamedBefore(logical, entries, found);
    assert found.sources + [] == found.sources && found.children + [] == found.children;
    if one.sources != [] {
      OneMoreSource(logical, entries, found, name);
    } else if one.children != [] {
      OneMoreSubdirectory(logical, entries, found, one.children[0]);
      assert one.children == [one.children[0]];
    }
  }

  /** Nothing found so far has the name of the last entry. */
  lemma NamedBefore(logical: Path, entries: seq<Entry>, found: Scanned)
    requires entries != [] && EntriesDistinct(entries) && ScanNamed(logical, Pop(entries), found)
    ensures ScanNamed(logical, entries, found)
    ensures var name := entries[|entries| - 1].name;
            logical + [name] !in found.sources && forall c | c in found.children :: c.name != name
  {
    var n := |entries| - 1;
    var name := entries[n].name;
    forall x | x in found.sources
      ensures x != logical + [name] && exists i :: 0 <= i < |entries| && x == logical + [entries[i].name]
    {
      var i :| 0 <= i < n && x == logical + [Pop(entries)[i].name];
      assert entries[i].name != name && x[|logical|] == entries[i].name && (logical + [name])[|logical|] == name;
    }
    forall c | c in found.children ensures c.name != name && exists i :: 0 <= i < |entries| && c.name == entries[i].name {
      var i :| 0 <= i < n && c.name == Pop(entries)[i].name;
      assert entries[i].name == c.name;
    }
  }

  lemma OneMoreSource(logical: Path, entries: seq<Entry>, found: Scanned, name: string)
    requires entries != [] && entries[|entries| - 1].name == name && ScanNamed(logical, entries, found)
             && ScanDistinct(logical, found)
    requires logical + [name] !in found.sources
    ensures var both := Scanned(found.sources + [logical + [name]], found.children);
            ScanNamed(logical, entries, both) && ScanDistinct(logical, both)
  {
    assert logical < logical + [name];
  }

  lemma OneMoreSubdirectory(logical: Path, entries: seq<Entry>, found: Scanned, child: Child)
    requires entries != [] && entries[|entries| - 1].name == child.name && ScanNamed(logical, entries, found)
             && ScanDistinct(logical, found)
    requires forall c | c in found.children :: c.name != child.name
    ensures var both := Scanned(found.sources, found.children + [child]);
            ScanNamed(logical, entries, both) && ScanDistinct(logical, both)
  {
  }

  /** The walk's results are distinct paths below its start. */
  lemma {:induction false} WalkIsDistinct(tree: Tree, active: seq<Path>, logical: Path, physical: Path)
    requires NamesDistinct(tree) && Walk(tree, active, logical, physical).Success?
    ensures var found := Walk(tree, active, logical, physical).value;
            Distinct(found) && Under(logical, found)
    decreases Free(tree, active), 0, 0
  {
    hide ScanAll, ScanDistinct, NamesDistinct;
    var found := ScanAll(tree, logical, physical).value;
    ScannedIsDistinct(tree, logical, physical);
    OpeningShrinks(tree, active, physical);
    WalkAllIsDistinct(tree, active + [physical], logical, found, |found.children|);
    OwnAndBelow(logical, found, WalkAll(tree, active + [physical], logical, found.children, |found.children|).value);
  }

  lemma ScannedIsDistinct(tree: Tree, logical: Path, physical: Path)
    requires NamesDistinct(tree) && ScanAll(tree, logical, physical).Success?
    ensures physical in tree.listings && ScanDistinct(logical, ScanAll(tree, logical, physical).value)
  {
    hide Scan, EntriesDistinct, ScanDistinct;
    ScanIsDistinct(tree, logical, physical, |List(tree, physical).entries|);
  }

  lemma OwnAndBelow(logical: Path, found: Scanned, rest: seq<Path>)
    requires ScanDistinct(logical, found) && Distinct(rest) && Under(logical, rest)
    requires forall x | x in rest :: ThroughChild(logical, found.children, |found.children|, x)
    ensures Distinct(found.sources + rest) && Under(logical, found.sources + rest)
  {
    forall i | 0 <= i < |rest| ensures |rest[i]| >= |logical| + 2 {
      assert rest[i] in rest;
    }
    forall i | 0 <= i < |found.sources| ensures logical < found.sources[i] && |found.sources[i]| == |logical| + 1 {
      assert found.sources[i] in found.sources;
    }
  }

  /** Below the first `n` children: distinct, and each path goes through one of them. */
  lemma {:induction false} WalkAllIsDistinct(tree: Tree, active: seq<Path>, logical: Path, found: Scanned, n: nat)
    requires NamesDistinct(tree) && n <= |found.children| && ScanDistinct(logical, found)
    requires WalkAll(tree, active, logical, found.children, n).Success?
    ensures var rest := WalkAll(tree, active, logical, found.children, n).value;
            && Distinct(rest) && Under(logical, rest)
            && forall x | x in rest :: ThroughChild(logical, found.children, n, x)
    decreases Free(tree, active), 1, n
  {
    hide Walk, NamesDistinct;
    if n > 0 {
      var child := found.children[n - 1];
      WalkIsDistinct(tree, active, logical + [child.name], child.physical);
      WalkAllIsDistinct(tree, active, logical, found, n - 1);
      OneMoreChild(logical, found, n, Walk(tree, active, logical + [child.name], child.physical).value,
                   WalkAll(tree, active, logical, found.children, n - 1).value);
    }
  }

  ghost predicate ThroughChild(logical: Path, children: seq<Child>, n: nat, x: Path)
    requires n <= |children|
  {
    |x| >= |logical| + 2 && exists k :: 0 <= k < n && x[|logical|] == children[k].name
  }

  lemma OneMoreChild(logical: Path, found: Scanned, n: nat, first: seq<Path>, rest: seq<Path>)
    requires 0 < n <= |found.children| && ScanDistinct(logical, found)
    requires Distinct(first) && Under(logical + [found.children[n - 1].name], first)
    requires Distinct(rest) && Under(logical, rest) && forall x | x in rest :: ThroughChild(logical, found.children, n - 1, x)
    ensures Distinct(first + rest) && Under(logical, first + rest)
    ensures forall x | x in first + rest :: ThroughChild(logical, found.children, n, x)
  {
    var name := found.children[n - 1].name;
    forall i | 0 <= i < |first| ensures first[i][|logical|] == name && logical < first[i] && |first[i]| >= |logical| + 2 {
      var below := logical + [name];
      assert below < first[i] && first[i][..|below|] == below && below[..|logical|] == logical && below[|logical|] == name;
      assert first[i][..|logical|] == logical;
    }
    forall i | 0 <= i < |rest| ensures rest[i][|logical|] != name {
      assert rest[i] in rest;
    }
    forall x | x in first + rest ensures ThroughChild(logical, found.children, n, x) {
      if x in rest {
        var k :| 0 <= k < n - 1 && x[|logical|] == found.children[k].name;
      } else {
        var i :| 0 <= i < |first| && first[i] == x;
        assert x[|logical|] == found.children[n - 1].name;
      }
    }
  }
}
