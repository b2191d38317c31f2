/**
 * The project-reference closure (crates/dv-core/src/project.rs, `ProjectClosureBatch` and `expand_project_closure`): a
 * worklist of evaluated projects over the path table. Reading the filesystem is a parameter.
 */
module ProjectClosure {
  import opened Wrappers
  import opened Spans
  import opened PathTable
  import opened TextOrder

  type Fault = nat
  datatype Configuration = Debug | Release

  datatype ProjectSpec = ProjectSpec(path: string, directory: string, references: seq<string>, configuration: Configuration)

  datatype ClosureError =
    | MixedConfigurations | TooLarge | Faulted(fault: Fault)
    | AliasThroughLink(reference: string, physical: string) | OutsideWorkspace(reference: string, physical: string)

  /** The filesystem and the project evaluator, as they answer during one command. */
  datatype World = World(
    files: set<string>,
    join: (string, string) -> string,
    resolve: string -> Result<string, Fault>,
    canonicalize: string -> Result<string, Fault>,
    usesLink: (string, string, string) -> Result<bool, Fault>,
    inside: (string, string) -> bool,
    evaluate: (string, Configuration) -> Result<ProjectSpec, Fault>)

  /** Only finitely many files exist, and a project is evaluated as itself. */
  ghost predicate Plausible(world: World) {
    && (forall p :: world.canonicalize(p).Success? ==> world.canonicalize(p).value in world.files)
    && forall p, c :: world.evaluate(p, c).Success? ==>
         world.evaluate(p, c).value.path == p && world.evaluate(p, c).value.configuration == c
  }

  /** The lexical identity a reference of `project` resolves to. */
  function Target(world: World, project: ProjectSpec, reference: string): Result<string, Fault> {
    world.resolve(world.join(project.directory, reference))
  }

  // ---------------------------------------------------------------- what one reference does

  datatype Verdict = Known | Alias(identity: string) | New(identity: string, physical: string, project: ProjectSpec)
      | Bad(error: ClosureError)

  /** The decision about one reference of `referring`, given the known paths and the project of every identity. */
  function Judge(world: World, projects: seq<ProjectSpec>, referring: ProjectSpec, reference: string,
                 aliases: set<string>, identities: map<string, nat>, configuration: Configuration): Verdict
    requires forall p | p in identities :: identities[p] < |projects|
  {
    var spelling := world.join(referring.directory, reference);
    match world.resolve(spelling)
    case Failure(fault) => Bad(Faulted(fault))
    case Success(identity) =>
      if identity in aliases then Known else
        match world.canonicalize(identity)
        case Failure(fault) => Bad(Faulted(fault))
        case Success(physical) =>
          if physical in identities then
            match world.usesLink(projects[identities[physical]].path, identity, referring.directory)
            case Failure(fault) => Bad(Faulted(fault))
            case Success(linked) => if linked then Bad(AliasThroughLink(spelling, physical)) else Alias(identity)
          else
            match Escapes(world, referring, identity, physical)
            case Failure(fault) => Bad(Faulted(fault))
            case Success(escapes) =>
              if escapes then Bad(OutsideWorkspace(spelling, physical)) else
                match world.evaluate(identity, configuration)
                case Failure(fault) => Bad(Faulted(fault))
                case Success(project) => New(identity, physical, project)
  }

  /** The effect of a decision on the projects and the known paths. Only the size of the tables can stop it. */
  ghost predicate Obeys(verdict: Verdict, projects: seq<ProjectSpec>, aliases: set<string>,
                        after: seq<ProjectSpec>, aliases': set<string>, r: Result<(), ClosureError>) {
    match verdict
    case Known => r.Success? && after == projects && aliases' == aliases
    case Bad(error) => r == Failure(error) && after == projects && aliases' == aliases
    case Alias(identity) => after == projects && if r.Success? then aliases' == aliases + {identity}
        else r == Failure(TooLarge) && aliases' == aliases
    case New(identity, physical, project) =>
      if r.Success? then after == projects + [project] && aliases' == aliases + {identity}
      else r == Failure(TooLarge) && after == projects && aliases' == aliases
  }

  /** The decision cannot be carried out: it is an error, or the tables are full. */
  ghost predicate Blocks(verdict: Verdict, error: ClosureError, projects: nat, bytes: nat) {
    match verdict
    case Known => false
    case Bad(e) => error == e
    case Alias(identity) => error == TooLarge && Overflows(identity, "", 0, bytes)
    case New(identity, physical, _) => error == TooLarge && Overflows(identity, physical, projects, bytes)
  }

  predicate Overflows(lexical: string, physical: string, projects: nat, bytes: nat) {
    projects > U32_MAX || bytes + |lexical| + |physical| > U32_MAX
  }

  ghost predicate TargetKnown(world: World, project: ProjectSpec, reference: string, aliases: set<string>) {
    Target(world, project, reference).Success? && Target(world, project, reference).value in aliases
  }

  /** What a decision rests on. */
  lemma JudgeMeans(world: World, projects: seq<ProjectSpec>, referring: ProjectSpec, reference: string,
                   aliases: set<string>, identities: map<string, nat>, configuration: Configuration)
    requires Plausible(world) && Indexed(world, projects, aliases, identities)
    ensures match Judge(world, projects, referring, reference, aliases, identities, configuration)
            case Known => TargetKnown(world, referring, reference, aliases)
            case Bad(_) => true
            case Alias(identity) =>
              && Target(world, referring, reference) == Success(identity)
              && world.canonicalize(identity).Success? && world.canonicalize(identity).value in identities
            case New(identity, physical, project) =>
              && Target(world, referring, reference) == Success(identity)
              && world.canonicalize(identity) == Success(physical) && physical !in identities
              && world.evaluate(identity, configuration) == Success(project)
              && project.path == identity && project.configuration == configuration
  {
  }

  /** A path inside the referring directory must stay inside it physically. */
  function Escapes(world: World, referring: ProjectSpec, identity: string, physical: string): Result<bool, Fault> {
    if !world.inside(identity, referring.directory) then Success(false) else
      match world.canonicalize(referring.directory)
      case Failure(fault) => Failure(fault)
      case Success(directory) => Success(!world.inside(physical, directory))
  }

  /** The target of the reference is not a known path yet; it is called `identity` and is the file `physical`. */
  predicate TargetUnknown(world: World, referring: ProjectSpec, reference: string, aliases: set<string>, identity: string,
      physical: string) {
    && world.resolve(world.join(referring.directory, reference)) == Success(identity)
    && identity !in aliases && world.canonicalize(identity) == Success(physical)
  }

  /** A target named inside the referring directory is inside it physically. */
  predicate StaysInside(world: World, directory: string, identity: string, physical: string) {
    world.inside(identity, directory) ==>
      world.canonicalize(directory).Success? && world.inside(physical, world.canonicalize(directory).value)
  }

  /** Exactly when a reference is known, another name, a new project, or refused, in terms of the filesystem alone. */
  lemma JudgeExactly(world: World, projects: seq<ProjectSpec>, referring: ProjectSpec, reference: string,
      aliases: set<string>, identities: map<string, nat>, configuration: Configuration)
    requires forall p | p in identities :: identities[p] < |projects|
    ensures var verdict := Judge(world, projects, referring, reference, aliases, identities, configuration);
            var spelling := world.join(referring.directory, reference);
            && (verdict == Known <==> exists identity :: identity in aliases && world.resolve(spelling) == Success(identity))
            && (forall identity, physical | TargetUnknown(world, referring, reference, aliases, identity, physical) ::
                  if physical in identities then
                    var linked := world.usesLink(projects[identities[physical]].path, identity, referring.directory);
                    && (verdict == Alias(identity) <==> linked == Success(false))
                    && (verdict == Bad(AliasThroughLink(spelling, physical)) <==> linked == Success(true))
                    && (linked.Failure? ==> verdict == Bad(Faulted(linked.error)))
                  else
                    var directory := world.canonicalize(referring.directory);
                    && (verdict == Bad(OutsideWorkspace(spelling, physical)) <==>
                          && world.inside(identity, referring.directory)
                          && directory.Success? && !world.inside(physical, directory.value))
                    && (verdict.New? <==>
                          StaysInside(world, referring.directory, identity, physical)
                          && world.evaluate(identity, configuration).Success?)
                    && (verdict.New? ==>
                          verdict == New(identity, physical, world.evaluate(identity, configuration).value)))
            && (world.resolve(spelling).Failure? ==> verdict == Bad(Faulted(world.resolve(spelling).error)))
            && (verdict.Alias? || verdict.New? || (verdict.Bad? && !verdict.error.Faulted?) ==>
                  exists identity, physical :: TargetUnknown(world, referring, reference, aliases, identity, physical))
  {
    var verdict := Judge(world, projects, referring, reference, aliases, identities, configuration);
    var spelling := world.join(referring.directory, reference);
    if verdict.Alias? || verdict.New? || (verdict.Bad? && !verdict.error.Faulted?) {
      var identity := world.resolve(spelling).value;
      assert TargetUnknown(world, referring, reference, aliases, identity, world.canonicalize(identity).value);
    }
  }

  // ---------------------------------------------------------------- what the batch keeps

  /** The project at `k` is the one its physical identity leads to. */
  ghost predicate IdentityAt(world: World, projects: seq<ProjectSpec>, identities: map<string, nat>, k: nat)
    requires k < |projects|
  {
    var physical := world.canonicalize(projects[k].path);
    physical.Success? && physical.value in identities && identities[physical.value] == k
  }

  /** Identities and projects correspond one to one, and every known path is a name of some project. */
  ghost predicate Indexed(world: World, projects: seq<ProjectSpec>, aliases: set<string>, identities: map<string, nat>) {
    && (forall k | 0 <= k < |projects| :: IdentityAt(world, projects, identities, k) && projects[k].path in aliases)
    && (forall p | p in identities ::
          identities[p] < |projects| && world.canonicalize(projects[identities[p]].path) == Success(p))
    && forall a | a in aliases :: world.canonicalize(a).Success? && world.canonicalize(a).value in identities
  }

  ghost predicate Followed(world: World, project: ProjectSpec, aliases: set<string>, n: nat)
    requires n <= |project.references|
  {
    forall r | 0 <= r < n :: TargetKnown(world, project, project.references[r], aliases)
  }

  /** The references of the first `n` projects are known. */
  ghost predicate Expanded(world: World, projects: seq<ProjectSpec>, aliases: set<string>, n: nat)
    requires n <= |projects|
  {
    forall k | 0 <= k < n :: Followed(world, projects[k], aliases, |projects[k].references|)
  }

  /** Some project before `k` refers to it, and it is what evaluating the reference gives. */
  ghost predicate ReferredBefore(world: World, projects: seq<ProjectSpec>, k: nat)
    requires k < |projects|
  {
    && (exists j, r :: 0 <= j < k && 0 <= r < |projects[j].references|
                       && Target(world, projects[j], projects[j].references[r]) == Success(projects[k].path))
    && world.evaluate(projects[k].path, projects[k].configuration) == Success(projects[k])
  }

  ghost predicate Grounded(world: World, projects: seq<ProjectSpec>, roots: set<nat>) {
    forall k | 0 <= k < |projects| :: k in roots || ReferredBefore(world, projects, k)
  }

  ghost predicate Configured(projects: seq<ProjectSpec>, configuration: Option<Configuration>) {
    forall k | 0 <= k < |projects| :: configuration == Some(projects[k].configuration)
  }

  lemma IndexedAlias(world: World, projects: seq<ProjectSpec>, aliases: set<string>, identities: map<string, nat>, alias: string)
    requires Indexed(world, projects, aliases, identities)
    requires world.canonicalize(alias).Success? && world.canonicalize(alias).value in identities
    ensures Indexed(world, projects, aliases + {alias}, identities)
  {
  }

  lemma IndexedProject(world: World, projects: seq<ProjectSpec>, aliases: set<string>, identities: map<string, nat>,
                       project: ProjectSpec, physical: string)
    requires Indexed(world, projects, aliases, identities)
    requires world.canonicalize(project.path) == Success(physical) && physical !in identities
    ensures Indexed(world, projects + [project], aliases + {project.path}, identities[physical := |projects|])
  {
    var more, wide := projects + [project], identities[physical := |projects|];
    forall k | 0 <= k < |more| ensures IdentityAt(world, more, wide, k) {
      if k < |projects| { assert IdentityAt(world, projects, identities, k); }
    }
  }

  lemma ExpandedStays(world: World, projects: seq<ProjectSpec>, more: seq<ProjectSpec>, aliases: set<string>,
      wider: set<string>, n: nat)
    requires n <= |projects| && aliases <= wider && Expanded(world, projects, aliases, n)
    ensures Expanded(world, projects + more, wider, n)
  {
    forall k | 0 <= k < n ensures Followed(world, (projects + more)[k], wider, |(projects + more)[k].references|) {
      assert Followed(world, projects[k], aliases, |projects[k].references|);
    }
  }

  lemma FollowedStays(world: World, project: ProjectSpec, aliases: set<string>, wider: set<string>, n: nat)
    requires n <= |project.references| && aliases <= wider && Followed(world, project, aliases, n)
    ensures Followed(world, project, wider, n)
  {
  }

  lemma GroundedStays(world: World, projects: seq<ProjectSpec>, roots: set<nat>, wider: set<nat>, project: ProjectSpec)
    requires Grounded(world, projects, roots) && roots <= wider
    requires |projects| in wider || ReferredBefore(world, projects + [project], |projects|)
    ensures Grounded(world, projects + [project], wider)
  {
    var more := projects + [project];
    forall k | 0 <= k < |projects| && k !in wider ensures ReferredBefore(world, more, k) {
      assert ReferredBefore(world, projects, k);
      var j, r :| 0 <= j < k && 0 <= r < |projects[j].references|
                  && Target(world, projects[j], projects[j].references[r]) == Success(projects[k].path);
      assert more[j] == projects[j] && more[k] == projects[k];
    }
  }

  // ---------------------------------------------------------------- when nothing stands in the way

  /** The reference resolves to a file that evaluates to one of `specs`, reached without a link and without leaving. */
  ghost predicate Followable(world: World, spec: ProjectSpec, reference: string, configuration: Configuration,
      specs: set<ProjectSpec>) {
    var identity := world.resolve(world.join(spec.directory, reference));
    && identity.Success?
    && var physical := world.canonicalize(identity.value);
       && physical.Success? && StaysInside(world, spec.directory, identity.value, physical.value)
       && (forall existing :: world.canonicalize(existing) == physical ==>
             world.usesLink(existing, identity.value, spec.directory) == Success(false))
       && world.evaluate(identity.value, configuration).Success? && world.evaluate(identity.value, configuration).value in specs
  }

  /** Every reference of every one of `specs` can be followed, and leads to one of them again. */
  ghost predicate Unobstructed(world: World, specs: set<ProjectSpec>, configuration: Configuration) {
    forall spec, reference | spec in specs && reference in spec.references ::
      Followable(world, spec, reference, configuration, specs)
  }

  lemma FollowableIsNoError(world: World, projects: seq<ProjectSpec>, referring: ProjectSpec, reference: string,
      aliases: set<string>, identities: map<string, nat>, configuration: Configuration, specs: set<ProjectSpec>)
    requires Indexed(world, projects, aliases, identities) && Followable(world, referring, reference, configuration, specs)
    ensures !Judge(world, projects, referring, reference, aliases, identities, configuration).Bad?
  {
    hide IdentityAt;
  }

  /** The project at `k` of the later batch was not in the earlier one, which had followed all its references. */
  lemma NewIsReachable(world: World, before: seq<ProjectSpec>, after: seq<ProjectSpec>, aliases: set<string>,
      identities: map<string, nat>, aliases': set<string>, identities': map<string, nat>, roots: set<nat>,
      root: ProjectSpec, specs: set<ProjectSpec>, k: nat)
    requires before <= after && |before| <= k < |after|
    requires Indexed(world, before, aliases, identities) && Expanded(world, before, aliases, |before|)
    requires Indexed(world, after, aliases', identities') && Grounded(world, after, roots)
    requires forall i | i in roots :: i < |before| || (i == |before| && i < |after| && after[i] == root)
    requires Configured(after, Some(root.configuration)) && root in specs && Unobstructed(world, specs, root.configuration)
    ensures after[k] in specs
    decreases k
  {
    hide Indexed, Expanded, Followable;
    if k !in roots {
      assert ReferredBefore(world, after, k);
      var j, r :| 0 <= j < k && 0 <= r < |after[j].references|
                  && Target(world, after[j], after[j].references[r]) == Success(after[k].path);
      if j < |before| {
        OldTargetIsOld(world, before, after, aliases, identities, aliases', identities', j, r, k);
      } else {
        NewIsReachable(world, before, after, aliases, identities, aliases', identities', roots, root, specs, j);
        assert after[j].references[r] in after[j].references;
        EvaluatedIsSpec(world, after, specs, root.configuration, j, r, k);
      }
    }
  }

  lemma EvaluatedIsSpec(world: World, after: seq<ProjectSpec>, specs: set<ProjectSpec>, configuration: Configuration,
      j: nat, r: nat, k: nat)
    requires j < |after| && k < |after| && r < |after[j].references| && after[k].configuration == configuration
    requires Followable(world, after[j], after[j].references[r], configuration, specs)
    requires Target(world, after[j], after[j].references[r]) == Success(after[k].path)
    requires world.evaluate(after[k].path, after[k].configuration) == Success(after[k])
    ensures after[k] in specs
  {
  }

  /** What an earlier project refers to was known before, so it is an earlier project too. */
  lemma OldTargetIsOld(world: World, before: seq<ProjectSpec>, after: seq<ProjectSpec>, aliases: set<string>,
      identities: map<string, nat>, aliases': set<string>, identities': map<string, nat>, j: nat, r: nat, k: nat)
    requires before <= after && j < |before| && k < |after| && r < |before[j].references|
    requires Indexed(world, before, aliases, identities) && Expanded(world, before, aliases, |before|)
    requires Indexed(world, after, aliases', identities')
    requires Target(world, before[j], before[j].references[r]) == Success(after[k].path)
    ensures k < |before|
  {
    assert Followed(world, before[j], aliases, |before[j].references|);
    assert TargetKnown(world, before[j], before[j].references[r], aliases);
    var physical := world.canonicalize(after[k].path).value;
    var m := identities[physical];
    assert after[m] == before[m];
    assert IdentityAt(world, after, identities', m) && IdentityAt(world, after, identities', k);
  }

  // ---------------------------------------------------------------- the batch

  class ProjectClosureBatch {
    const world: World
    var table: CommandPathTable?
    var projects: seq<ProjectSpec>
    var cursor: nat
    var pushedRoots: nat
    var configuration: Option<Configuration>
    ghost var roots: set<nat>

    /** Before the table exists there is at most one project, without references. */
    ghost predicate Unindexed()
      reads this
    {
      |projects| <= 1 && cursor == |projects| && forall k | 0 <= k < |projects| :: projects[k].references == []
    }

    ghost predicate TableValid()
      reads this, table
      requires table != null
    {
      && table.Valid() && cursor <= |projects|
      && Indexed(world, projects, table.Aliases(), table.Projects())
      && Expanded(world, projects, table.Aliases(), cursor)
    }

    ghost predicate Valid()
      reads this, table
    {
      && Plausible(world) && Grounded(world, projects, roots) && Configured(projects, configuration)
      && (forall k | k in roots :: k < |projects|)
      && (pushedRoots == 0 ==> projects == [])
      && if table == null then Unindexed() else TableValid()
    }

    constructor (world: World)
      requires Plausible(world)
      ensures Valid() && this.world == world && projects == [] && configuration == None && roots == {} && table == null
    {
      this.world := world;
      table, projects, cursor, pushedRoots, configuration, roots := null, [], 0, 0, None, {};
    }

    /** Files that no project of the batch is. */
    ghost function Unseen(): set<string>
      reads this, table
      requires table != null && table.Valid()
    {
      world.files - table.Projects().Keys
    }

    /** The decision about one reference of the project at the cursor. */
    ghost function Decision(reference: string): Verdict
      reads this, table
      requires Valid() && table != null && configuration.Some? && cursor < |projects|
    {
      Judge(world, projects, projects[cursor], reference, table.Aliases(), table.Projects(), configuration.value)
    }

    /** Some reference of the project at the cursor cannot be followed. */
    ghost predicate Stuck(error: ClosureError)
      reads this, table
      requires Valid() && table != null
    {
      && cursor < |projects| && configuration.Some?
      && exists k :: 0 <= k < |projects[cursor].references|
                     && Blocks(Decision(projects[cursor].references[k]), error, |projects|, |table.bytes|)
    }

    /** Decides one reference of the project at the cursor by searching the two sorted indices. */
    method Decide(reference: string) returns (verdict: Verdict, lexicalIndex: nat, physicalIndex: nat)
      requires Valid() && table != null && configuration.Some? && cursor < |projects|
      ensures verdict == Decision(reference)
      ensures verdict.Alias? || verdict.New? ==> Splits(table.Lexical(), verdict.identity, lexicalIndex)
      ensures verdict.New? ==> Splits(table.Physical(), verdict.physical, physicalIndex)
    {
      hide Grounded, Plausible, Configured, Expanded, CommandPathTable.Valid, CommandPathTable.Aliases, CommandPathTable.Projects;
      lexicalIndex, physicalIndex := 0, 0;
      var referring := projects[cursor];
      var spelling := world.join(referring.directory, reference);
      var resolved := world.resolve(spelling);
      if resolved.Failure? { return Bad(Faulted(resolved.error)), 0, 0; }
      var identity := resolved.value;
      var known := table.LexicalSearch(identity);
      if known.Success? { return Known, 0, 0; }
      var canonical := world.canonicalize(identity);
      if canonical.Failure? { return Bad(Faulted(canonical.error)), 0, 0; }
      var physical := canonical.value;
      var found := table.PhysicalSearch(physical);
      if found.Success? {
        var existing := table.physical[found.value].projectIndex;
        var linked := world.usesLink(projects[existing].path, identity, referring.directory);
        if linked.Failure? { return Bad(Faulted(linked.error)), 0, 0; }
        if linked.value { return Bad(AliasThroughLink(spelling, physical)), 0, 0; }
        return Alias(identity), known.error, 0;
      }
      if world.inside(identity, referring.directory) {
        var directory := world.canonicalize(referring.directory);
        if directory.Failure? { return Bad(Faulted(directory.error)), 0, 0; }
        if !world.inside(physical, directory.value) { return Bad(OutsideWorkspace(spelling, physical)), 0, 0; }
      }
      var project := world.evaluate(identity, configuration.value);
      if project.Failure? { return Bad(Faulted(project.error)), 0, 0; }
      return New(identity, physical, project.value), known.error, found.error;
    }

    /** Another name for a project of the batch. */
    method AddAlias(alias: string, lexicalIndex: nat) returns (r: Result<(), ClosureError>)
      requires Valid() && table != null && Splits(table.Lexical(), alias, lexicalIndex)
      requires world.canonicalize(alias).Success? && world.canonicalize(alias).value in table.Projects()
      modifies table
      ensures Valid() && table.Projects() == old(table.Projects()) && |table.bytes| >= |old(table.bytes)|
      ensures if r.Success? then table.Aliases() == old(table.Aliases()) + {alias}
              else && r == Failure(TooLarge) && table.Aliases() == old(table.Aliases())
                   && Overflows(alias, "", 0, |old(table.bytes)|)
    {
      hide Grounded, Plausible, Configured, Indexed, Expanded, CommandPathTable.Valid, CommandPathTable.Aliases,
           CommandPathTable.Projects;
      IndexedAlias(world, projects, table.Aliases(), table.Projects(), alias);
      ExpandedStays(world, projects, [], table.Aliases(), table.Aliases() + {alias}, cursor);
      assert projects + [] == projects;
      var inserted := table.InsertLexical(lexicalIndex, alias);
      return if inserted.Failure? then Failure(TooLarge) else Success(());
    }

    /** A new project of the batch; `roots` says whether it came in as a root. */
    method AddProject(project: ProjectSpec, lexicalIndex: nat, physical: string, physicalIndex: nat, ghost wider: set<nat>)
      returns (r: Result<(), ClosureError>)
      requires Valid() && table != null && pushedRoots > 0 && configuration == Some(project.configuration)
      requires Splits(table.Lexical(), project.path, lexicalIndex) && Splits(table.Physical(), physical, physicalIndex)
      requires world.canonicalize(project.path) == Success(physical) && physical !in table.Projects()
      requires roots <= wider <= roots + {|projects|}
               && (|projects| in wider || ReferredBefore(world, projects + [project], |projects|))
      modifies this`projects, this`roots, table
      ensures Valid() && |table.bytes| >= |old(table.bytes)|
      ensures if r.Success?
              then projects == old(projects) + [project] && roots == wider
                  && table.Aliases() == old(table.Aliases()) + {project.path}
                   && table.Projects() == old(table.Projects())[physical := |old(projects)|]
              else r == Failure(TooLarge) && projects == old(projects) && roots == old(roots)
                   && table.Aliases() == old(table.Aliases()) && table.Projects() == old(table.Projects())
                   && Overflows(project.path, physical, |projects|, |old(table.bytes)|)
    {
      hide Grounded, Plausible, Indexed, Expanded, CommandPathTable.Valid, CommandPathTable.Aliases, CommandPathTable.Projects;
      if |projects| > U32_MAX { return Failure(TooLarge); }
      GroundedStays(world, projects, roots, wider, project);
      IndexedProject(world, projects, table.Aliases(), table.Projects(), project, physical);
      ExpandedStays(world, projects, [project], table.Aliases(), table.Aliases() + {project.path}, cursor);
      var inserted := table.InsertProject(lexicalIndex, project.path, physicalIndex, physical, |projects|);
      if inserted.Failure? { return Failure(TooLarge); }
      projects, roots := projects + [project], wider;
      return Success(());
    }

    /** One reference of the project at the cursor. */
    method FollowReference(reference: string) returns (r: Result<(), ClosureError>)
      requires Valid() && table != null && cursor < |projects| && configuration.Some? && pushedRoots > 0
      requires reference in projects[cursor].references
      modifies this`projects, this`roots, table
      ensures Valid() && old(projects) <= projects && roots == old(roots)
      ensures old(table.Aliases()) <= table.Aliases() && Unseen() <= old(Unseen())
      ensures |projects| > |old(projects)| ==> Unseen() < old(Unseen())
      ensures Obeys(old(Decision(reference)), old(projects), old(table.Aliases()), projects, table.Aliases(), r)
      ensures r.Success? ==> TargetKnown(world, projects[cursor], reference, table.Aliases())
      ensures r.Failure? ==> Blocks(Decision(reference), r.error, |projects|, |table.bytes|)
    {
      hide Grounded, Plausible, Configured, Indexed, Expanded, Judge,
           CommandPathTable.Valid, CommandPathTable.Aliases, CommandPathTable.Projects;
      var verdict, lexicalIndex, physicalIndex := Decide(reference);
      JudgeMeans(world, projects, projects[cursor], reference, table.Aliases(), table.Projects(), configuration.value);
      match verdict
      case Known => r := Success(());
      case Bad(error) => r := Failure(error);
      case Alias(identity) => r := AddAlias(identity, lexicalIndex);
      case New(identity, physical, project) =>
        NewIsReferred(world, projects, cursor, reference, project);
        NewIsUnseen(world, table.Projects(), identity, physical, |projects|);
        r := AddProject(project, lexicalIndex, physical, physicalIndex, roots);
    }

    /** Follows every reference of the project at the cursor. */
    method FollowReferences() returns (r: Result<(), ClosureError>)
      requires Valid() && table != null && cursor < |projects|
      modifies this`projects, this`roots, table
      ensures Valid() && old(projects) <= projects && old(table.Aliases()) <= table.Aliases() && roots == old(roots)
      ensures Unseen() <= old(Unseen()) && (|projects| > |old(projects)| ==> Unseen() < old(Unseen()))
      ensures r.Success? ==> Followed(world, projects[cursor], table.Aliases(), |projects[cursor].references|)
      ensures r.Failure? ==> Stuck(r.error)
    {
      hide Grounded, Plausible, Indexed, Expanded, Judge, CommandPathTable.Valid, CommandPathTable.Aliases,
           CommandPathTable.Projects, TargetKnown;
      var references := projects[cursor].references;
      var k := 0;
      while k < |references|
        invariant k <= |references| && cursor < |projects| && references == projects[cursor].references
        invariant Valid() && old(projects) <= projects && old(table.Aliases()) <= table.Aliases() && roots == old(roots)
        invariant Unseen() <= old(Unseen()) && (|projects| > |old(projects)| ==> Unseen() < old(Unseen()))
        invariant Followed(world, projects[cursor], table.Aliases(), k)
      {
        ghost var aliases := table.Aliases();
        r := FollowReference(references[k]);
        if r.Failure? { return; }
        FollowedStays(world, projects[cursor], aliases, table.Aliases(), k);
        k := k + 1;
      }
      return Success(());
    }

    /** Follows every reference of every project behind the cursor. It ends because every new project is a new file. */
    method ExpandProjectClosure() returns (r: Result<(), ClosureError>)
      requires Valid() && table != null
      modifies this`projects, this`cursor, this`roots, table
      ensures Valid() && old(projects) <= projects && old(table.Aliases()) <= table.Aliases() && roots == old(roots)
      ensures old(cursor) <= cursor
      ensures if r.Success? then cursor == |projects| else Stuck(r.error)
    {
      hide Grounded, Plausible, Configured, Indexed, Followed, CommandPathTable.Valid, CommandPathTable.Aliases,
           CommandPathTable.Projects;
      while cursor < |projects|
        invariant Valid() && old(projects) <= projects && old(table.Aliases()) <= table.Aliases() && roots == old(roots)
        invariant old(cursor) <= cursor
        decreases Unseen(), |projects| - cursor
      {
        r := FollowReferences();
        if r.Failure? { return; }
        cursor := cursor + 1;
      }
      return Success(());
    }

    /** Indexes the one project that may have been taken in without a table. */
    method InitializeTable() returns (r: Result<(), ClosureError>)
      requires Valid() && table == null
      modifies this`table
      ensures Valid() && (table != null ==> fresh(table))
      ensures r.Success? <==> table != null
      ensures r.Failure? ==> projects != [] && Unnamed(world, projects[0].path, r.error, 0, 0)
      ensures table != null && projects == [] ==> table.bytes == ""
    {
      hide Grounded, Plausible, Configured, Indexed, CommandPathTable.Valid, CommandPathTable.Aliases, CommandPathTable.Projects;
      var fresh' := new CommandPathTable();
      var index := 0;
      NothingIndexed(world);
      while index < |projects|
        invariant index <= |projects| && fresh(fresh') && fresh'.Valid() && table == null && Valid()
        invariant index == 0 ==> fresh'.Aliases() == {} && fresh'.Projects() == map[] && fresh'.bytes == ""
        invariant Indexed(world, projects[..index], fresh'.Aliases(), fresh'.Projects())
      {
        var project := projects[index];
        var physical := world.canonicalize(project.path);
        if physical.Failure? { return Failure(Faulted(physical.error)); }
        var lexicalIndex := fresh'.LexicalSearch(project.path);
        var physicalIndex := fresh'.PhysicalSearch(physical.value);
        IndexedProject(world, projects[..index], fresh'.Aliases(), fresh'.Projects(), project, physical.value);
        assert projects[..index] + [project] == projects[..index + 1];
        var inserted := fresh'.InsertProject(lexicalIndex.error, project.path, physicalIndex.error, physical.value, index);
        if inserted.Failure? { return Failure(TooLarge); }
        index := index + 1;
      }
      assert projects[..index] == projects;
      UnindexedIsExpanded(world, projects, fresh'.Aliases());
      table := fresh';
      return Success(());
    }

    /** The batch has a project for this root, under this name or another. */
    ghost predicate Knows(root: ProjectSpec)
      reads this, table
    {
      && table != null && table.Valid()
      && (root.path in table.Aliases()
          || (world.canonicalize(root.path).Success? && world.canonicalize(root.path).value in table.Projects()))
    }

    /** Nothing stands in the way of this root: it has a physical identity, and so has everything it refers to, followably. */
    ghost predicate Unhindered(root: ProjectSpec) {
      && world.canonicalize(root.path).Success?
      && exists specs: set<ProjectSpec> :: root in specs && Unobstructed(world, specs, root.configuration)
    }

    /** The references of all projects are known, so nothing that a root reaches can have been left behind. */
    ghost predicate Settled(root: ProjectSpec)
      reads this
    {
      && cursor == |projects| && (table != null || projects == [])
      && (configuration == None || configuration == Some(root.configuration))
    }

    /** What is stuck on an unhindered root is so for want of room. */
    lemma StuckIsFull(root: ProjectSpec, before: seq<ProjectSpec>, aliases: set<string>, identities: map<string, nat>,
        error: ClosureError)
      requires Valid() && table != null && before <= projects && |before| <= cursor
      requires Indexed(world, before, aliases, identities) && Expanded(world, before, aliases, |before|)
      requires forall i | i in roots :: i < |before| || (i == |before| && i < |projects| && projects[i] == root)
      requires configuration == Some(root.configuration) && Unhindered(root) && Stuck(error)
      ensures error == TooLarge
    {
      hide Indexed, Expanded, Grounded, Plausible, Followable, CommandPathTable.Valid, CommandPathTable.Aliases,
           CommandPathTable.Projects, Judge;
      var specs: set<ProjectSpec> :| root in specs && Unobstructed(world, specs, root.configuration);
      NewIsReachable(world, before, projects, aliases, identities, table.Aliases(), table.Projects(), roots, root, specs, cursor);
      forall k | 0 <= k < |projects[cursor].references|
        ensures !Decision(projects[cursor].references[k]).Bad?
      {
        assert projects[cursor].references[k] in projects[cursor].references;
        FollowableIsNoError(world, projects, projects[cursor], projects[cursor].references[k],
                            table.Aliases(), table.Projects(), root.configuration, specs);
      }
    }

    /** Why a root is refused: its configuration, its own path, the path of the project before it, or its closure. */
    ghost predicate PushFails(root: ProjectSpec, error: ClosureError, before: Option<Configuration>, first: bool)
      reads this, table
      requires Valid()
    {
      || (error == MixedConfigurations && before.Some? && before.value != root.configuration)
      || (first && table == null && projects != [] && Unnamed(world, projects[0].path, error, 0, 0))
      || (table != null && (Unnamed(world, root.path, error, |projects|, |table.bytes|) || Stuck(error)))
    }

    /** Takes in one root and completes its closure. */
    method Push(root: ProjectSpec) returns (r: Result<(), ClosureError>)
      requires Valid()
      modifies this, table
      ensures Valid() && old(projects) <= projects && old(roots) <= roots <= old(roots) + {|old(projects)|}
      ensures roots != old(roots) ==> |projects| > |old(projects)| && projects[|old(projects)|] == root
      ensures table != old(table) ==> table != null && fresh(table)
      ensures old(configuration) != None && old(configuration) != Some(root.configuration) ==>
                r == Failure(MixedConfigurations) && projects == old(projects) && roots == old(roots)
      ensures r.Success? ==> (cursor == |projects| <==> old(cursor == |projects| || !Knows(root)))
      ensures old(Knows(root)) ==> projects == old(projects) && cursor == old(cursor)
      ensures old(cursor) <= cursor
      ensures r.Failure? && old(Settled(root)) && Unhindered(root) ==> r.error == TooLarge
      ensures old(configuration == Some(root.configuration) && table != null && root.path in table.Aliases()) ==> r.Success?
      ensures r.Failure? && old(configuration == None && table == null && projects == []) ==>
                Unnamed(world, root.path, r.error, 0, 0) || (table != null && root.path in table.Aliases() && Stuck(r.error))
      ensures r.Failure? ==> PushFails(root, r.error, old(configuration), old(table) == null)
      ensures r.Success? ==> if table == null then projects == [root] else root.path in table.Aliases()
    {
      hide Grounded, Plausible, Indexed, Expanded, CommandPathTable.Valid, CommandPathTable.Aliases, CommandPathTable.Projects;
      if configuration.Some? && configuration.value != root.configuration { return Failure(MixedConfigurations); }
      configuration := Some(root.configuration);
      var compareRootPhysicalIdentity := pushedRoots != 0;
      pushedRoots := pushedRoots + 1;
      if table == null && projects == [] && root.references == [] {
        projects, roots := [root], roots + {0};
        GroundedStays(world, [], old(roots), roots, root);
        assert [] + [root] == [root];
        cursor := |projects|;
        return Success(());
      }
      if table == null {
        var initialized := InitializeTable();
        if initialized.Failure? { return initialized; }
      }
      r := Admit(root, compareRootPhysicalIdentity);
    }

    /** The root against the table: known, known under another name, or new. */
    method Admit(root: ProjectSpec, compareRootPhysicalIdentity: bool) returns (r: Result<(), ClosureError>)
      requires Valid() && table != null && configuration == Some(root.configuration) && pushedRoots > 0
      requires !compareRootPhysicalIdentity ==> projects == []
      modifies this`projects, this`cursor, this`roots, table
      ensures Valid() && old(projects) <= projects && old(roots) <= roots <= old(roots) + {|old(projects)|}
      ensures roots != old(roots) ==> |projects| > |old(projects)| && projects[|old(projects)|] == root
      ensures r.Success? ==> (cursor == |projects| <==> old(cursor == |projects| || !Knows(root)))
      ensures old(Knows(root)) ==> projects == old(projects) && cursor == old(cursor)
      ensures old(root.path in table.Aliases()) ==> r.Success?
      ensures old(cursor) <= cursor
      ensures r.Failure? && old(cursor == |projects|) && Unhindered(root) ==> r.error == TooLarge
      ensures r.Success? ==> root.path in table.Aliases()
      ensures r.Failure? ==>
                || (projects == old(projects) && |table.bytes| >= |old(table.bytes)|
                    && Unnamed(world, root.path, r.error, |projects|, |old(table.bytes)|))
                || (root.path in table.Aliases() && Stuck(r.error))
    {
      hide Plausible, Grounded, Expanded, Indexed, Unobstructed,
           CommandPathTable.Valid, CommandPathTable.Aliases, CommandPathTable.Projects;
      var lexicalIndex := table.LexicalSearch(root.path);
      if lexicalIndex.Success? { return Success(()); }
      var canonical := world.canonicalize(root.path);
      if canonical.Failure? { return Failure(Faulted(canonical.error)); }
      var physical := canonical.value;
      var physicalIndex := table.PhysicalSearch(physical);
      if physicalIndex.Success? && compareRootPhysicalIdentity {
        r := AddAlias(root.path, lexicalIndex.error);
        return;
      }
      ghost var before, aliases, identities := projects, table.Aliases(), table.Projects();
      NothingFound(world, projects, table.Aliases(), table.Projects());
      r := AddProject(root, lexicalIndex.error, physical, physicalIndex.error, roots + {|projects|});
      if r.Failure? { return; }
      r := ExpandProjectClosure();
      if r.Failure? && old(cursor) == |before| && Unhindered(root) {
        StuckIsFull(root, before, aliases, identities, r.error);
      }
    }
  }

  /** A path cannot be entered: it has no physical identity, or the tables are full. */
  ghost predicate Unnamed(world: World, path: string, error: ClosureError, projects: nat, bytes: nat) {
    match world.canonicalize(path)
    case Failure(fault) => error == Faulted(fault)
    case Success(physical) => error == TooLarge && Overflows(path, physical, projects, bytes)
  }

  lemma NothingIndexed(world: World)
    ensures Indexed(world, [], {}, map[])
  {
  }

  lemma UnindexedIsExpanded(world: World, projects: seq<ProjectSpec>, aliases: set<string>)
    requires forall k | 0 <= k < |projects| :: projects[k].references == []
    ensures Expanded(world, projects, aliases, |projects|)
  {
  }

  lemma NothingFound(world: World, projects: seq<ProjectSpec>, aliases: set<string>, identities: map<string, nat>)
    requires Indexed(world, projects, aliases, identities)
    ensures projects == [] ==> forall p :: p !in identities
  {
  }

  lemma NewIsReferred(world: World, projects: seq<ProjectSpec>, j: nat, reference: string, project: ProjectSpec)
    requires j < |projects| && reference in projects[j].references
             && Target(world, projects[j], reference) == Success(project.path)
    requires world.evaluate(project.path, project.configuration) == Success(project)
    ensures ReferredBefore(world, projects + [project], |projects|)
  {
    var r :| 0 <= r < |projects[j].references| && projects[j].references[r] == reference;
    var more := projects + [project];
    assert more[j] == projects[j] && more[|projects|] == project;
  }

  lemma NewIsUnseen(world: World, identities: map<string, nat>, identity: string, physical: string, k: nat)
    requires Plausible(world) && world.canonicalize(identity) == Success(physical) && physical !in identities
    ensures world.files - identities[physical := k].Keys < world.files - identities.Keys
  {
    assert physical in world.files - identities.Keys;
  }

  // ---------------------------------------------------------------- what a complete batch is

  /** The physical identity of the project at `k`. */
  function Identity(world: World, projects: seq<ProjectSpec>, k: nat): Result<string, Fault>
    requires k < |projects|
  {
    world.canonicalize(projects[k].path)
  }

  /** No file is evaluated twice, whatever names it was referred to by. */
  lemma IdentitiesAreDistinct(world: World, projects: seq<ProjectSpec>, aliases: set<string>,
      identities: map<string, nat>, i: nat, j: nat)
    requires Indexed(world, projects, aliases, identities) && i < j < |projects|
    ensures Identity(world, projects, i).Success? && Identity(world, projects, j).Success?
    ensures Identity(world, projects, i) != Identity(world, projects, j)
  {
    assert IdentityAt(world, projects, identities, i) && IdentityAt(world, projects, identities, j);
  }

  /** Identities that contain every reference of every project whose own identity they contain. */
  ghost predicate ReferenceClosed(world: World, projects: seq<ProjectSpec>, files: set<string>) {
    forall k, r | 0 <= k < |projects| && 0 <= r < |projects[k].references| && Holds(files, Identity(world, projects, k)) ::
      ReachesInto(world, projects[k], projects[k].references[r], files)
  }

  ghost predicate Holds(files: set<string>, identity: Result<string, Fault>) {
    identity.Success? && identity.value in files
  }

  ghost predicate ReachesInto(world: World, project: ProjectSpec, reference: string, files: set<string>) {
    var target := Target(world, project, reference);
    target.Success? && Holds(files, world.canonicalize(target.value))
  }

  /**
   * A complete batch is the least closure of its roots: its identities contain every reference, and every set of
   * identities that has the roots and is closed under the references has them all.
   */
  lemma ClosureIsLeast(world: World, projects: seq<ProjectSpec>, aliases: set<string>, identities: map<string, nat>,
      roots: set<nat>)
    requires Indexed(world, projects, aliases, identities) && Expanded(world, projects, aliases, |projects|)
             && Grounded(world, projects, roots)
    ensures ReferenceClosed(world, projects, identities.Keys)
    ensures forall p :: p in identities <==> exists k :: 0 <= k < |projects| && Identity(world, projects, k) == Success(p)
    ensures forall files: set<string> |
              && ReferenceClosed(world, projects, files)
              && (forall k | 0 <= k < |projects| && k in roots :: Holds(files, Identity(world, projects, k))) ::
              identities.Keys <= files
  {
    forall k, r | 0 <= k < |projects| && 0 <= r < |projects[k].references|
      ensures ReachesInto(world, projects[k], projects[k].references[r], identities.Keys)
    {
      assert Followed(world, projects[k], aliases, |projects[k].references|);
      assert TargetKnown(world, projects[k], projects[k].references[r], aliases);
    }
    forall p ensures p in identities <==> exists k :: 0 <= k < |projects| && Identity(world, projects, k) == Success(p) {
      if p in identities { assert Identity(world, projects, identities[p]) == Success(p); }
      forall k | 0 <= k < |projects| && Identity(world, projects, k) == Success(p) ensures p in identities {
        assert IdentityAt(world, projects, identities, k);
      }
    }
    forall files: set<string> |
      && ReferenceClosed(world, projects, files)
      && (forall k | 0 <= k < |projects| && k in roots :: Holds(files, Identity(world, projects, k)))
      ensures identities.Keys <= files
    {
      forall p | p in identities ensures p in files {
        ReachedFromRoots(world, projects, roots, files, identities[p]);
      }
    }
  }

  lemma {:induction false} ReachedFromRoots(world: World, projects: seq<ProjectSpec>, roots: set<nat>, files: set<string>, k: nat)
    requires k < |projects| && Grounded(world, projects, roots) && ReferenceClosed(world, projects, files)
    requires forall i | 0 <= i < |projects| && i in roots :: Holds(files, Identity(world, projects, i))
    ensures Holds(files, Identity(world, projects, k))
    decreases k
  {
    if k !in roots {
      assert ReferredBefore(world, projects, k);
      var j, r :| 0 <= j < k && 0 <= r < |projects[j].references|
                  && Target(world, projects[j], projects[j].references[r]) == Success(projects[k].path);
      ReachedFromRoots(world, projects, roots, files, j);
      assert ReachesInto(world, projects[j], projects[j].references[r], files);
    }
  }

  // ---------------------------------------------------------------- a root pushed again after a failure

  /** A workspace with one project file, in which no reference can be resolved. */
  function OneFile(): World {
    World({"a"}, (directory, reference) => reference, spelling => Failure(1),
          path => if path == "a" then Success("a") else Failure(2),
          (existing, candidate, directory) => Success(false), (path, directory) => false, (path, configuration) => Failure(3))
  }

  lemma OneFileIsPlausible()
    ensures Plausible(OneFile())
  {
  }

  const ROOT := ProjectSpec("a", "", ["b"], Debug)

  /** With its reference unresolvable, the root is never part of an expanded batch. */
  lemma NeverExpanded(world: World, projects: seq<ProjectSpec>, aliases: set<string>)
    requires world == OneFile() && ROOT in projects
    ensures !Expanded(world, projects, aliases, |projects|)
  {
    var k :| 0 <= k < |projects| && projects[k] == ROOT;
    assert !TargetKnown(world, ROOT, ROOT.references[0], aliases);
    assert !Followed(world, projects[k], aliases, |projects[k].references|);
  }

  lemma NeverComplete(batch: ProjectClosureBatch)
    requires batch.Valid() && batch.world == OneFile() && ROOT in batch.projects
    ensures batch.table != null && batch.cursor < |batch.projects|
  {
    hide Grounded, Plausible, Configured, Indexed, Expanded, CommandPathTable.Valid, CommandPathTable.Aliases,
         CommandPathTable.Projects;
    if batch.table != null {
      NeverExpanded(batch.world, batch.projects, batch.table.Aliases());
    }
  }

  /** The first project of a batch came in as a root. */
  lemma FirstIsRoot(world: World, projects: seq<ProjectSpec>, roots: set<nat>)
    requires Grounded(world, projects, roots) && projects != []
    ensures 0 in roots
  {
    assert !ReferredBefore(world, projects, 0);
  }

  lemma AliasMeansProject(world: World, projects: seq<ProjectSpec>, aliases: set<string>, identities: map<string, nat>,
      alias: string)
    requires Indexed(world, projects, aliases, identities) && alias in aliases
    ensures projects != []
  {
  }

  /** The first push of a root fails, the second one succeeds, and the root's reference still has not been followed. */
  method SecondPushStaysIncomplete() returns (first: Result<(), ClosureError>, second: Result<(), ClosureError>, complete: bool)
    ensures first.Failure? && second.Success? && !complete
  {
    hide Grounded, Plausible, Indexed, Expanded, CommandPathTable.Valid, CommandPathTable.Aliases, CommandPathTable.Projects;
    OneFileIsPlausible();
    var batch := new ProjectClosureBatch(OneFile());
    first := batch.Push(ROOT);
    assert !Unnamed(OneFile(), ROOT.path, if first.Failure? then first.error else TooLarge, 0, 0);
    if batch.table != null {
      AliasMeansProject(batch.world, batch.projects, batch.table.Aliases(), batch.table.Projects(), ROOT.path);
    }
    FirstIsRoot(batch.world, batch.projects, batch.roots);
    assert batch.projects[0] == ROOT;
    NeverComplete(batch);
    second := batch.Push(ROOT);
    complete := batch.cursor == |batch.projects|;
  }
}
