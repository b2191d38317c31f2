/**
 * Discovery of build inputs in ancestor directories (crates/dv-core/src/workspace.rs, `discover_ancestor_inputs`): one
 * walk for all requested kinds, proved to find what a walk for each kind alone finds.
 */
module AncestorInputs {
  import opened Wrappers
  import opened Spans

  const U16_MAX: nat := 0xFFFF
  const INLINE_INPUT_CAPACITY: nat := 8

  datatype Kind = GlobalJson | NugetConfig | DirectoryBuildProps | DirectoryBuildTargets | DirectoryPackagesProps

  const SINGLETONS: seq<Kind> := [GlobalJson, DirectoryBuildProps, DirectoryBuildTargets, DirectoryPackagesProps]

  datatype AncestorError = Io(fault: nat) | UnsupportedFileType | LimitExceeded

  datatype FileProbe = Missing | Regular(len: nat) | Irregular | Unreadable(fault: nat)

  /** What the probes of one directory answer: each file name of each kind, and the spelling of a NuGet.Config found there. */
  datatype Directory = Directory(file: (Kind, nat) -> FileProbe, spelling: Result<Option<nat>, nat>)

  datatype AncestorInput = AncestorInput(fileLen: nat, depth: nat, kind: Kind, spelling: nat)

  // ---------------------------------------------------------------- one directory

  function ProbeFile(directory: Directory, kind: Kind, spelling: nat): Result<Option<nat>, AncestorError> {
    match directory.file(kind, spelling)
    case Missing => Success(None)
    case Unreadable(fault) => Failure(Io(fault))
    case Irregular => Failure(UnsupportedFileType)
    case Regular(len) => if len > U32_MAX then Failure(LimitExceeded) else Success(Some(len))
  }

  /** What a probe finds and how many files it asks for. */
  datatype Probed = Probed(found: Result<Option<AncestorInput>, AncestorError>, probes: nat)

  /** The first of the spellings from `spelling` on; the directory is then read for the spelling it really has. */
  function ProbeSpellings(directory: Directory, depth: nat, spelling: nat): (r: Probed)
    requires spelling <= 3
    decreases 3 - spelling
  {
    if spelling == 3 then Probed(Success(None), 0) else
      match ProbeFile(directory, NugetConfig, spelling)
      case Failure(e) => Probed(Failure(e), 1)
      case Success(Some(len)) =>
        (match directory.spelling
         case Failure(fault) => Probed(Failure(Io(fault)), 1)
         case Success(actual) =>
           Probed(Success(Some(AncestorInput(len, depth, NugetConfig, if actual.Some? then actual.value else spelling))), 1))
      case Success(None) =>
        var rest := ProbeSpellings(directory, depth, spelling + 1);
        Probed(rest.found, 1 + rest.probes)
  }

  function ProbeInput(directory: Directory, depth: nat, kind: Kind): Probed {
    if kind == NugetConfig then ProbeSpellings(directory, depth, 0) else
      match ProbeFile(directory, kind, 0)
      case Failure(e) => Probed(Failure(e), 1)
      case Success(None) => Probed(Success(None), 1)
      case Success(Some(len)) => Probed(Success(Some(AncestorInput(len, depth, kind, 0))), 1)
  }

  // ---------------------------------------------------------------- a walk for one kind

  datatype Walked<T> = Walked(result: Result<T, AncestorError>, probes: nat)

  /** From `depth` towards the root: the nearest input of a kind. */
  function Nearest(levels: seq<Directory>, kind: Kind, depth: nat): Walked<Option<AncestorInput>>
    requires depth <= |levels|
    decreases |levels| - depth
  {
    if depth == |levels| then Walked(Success(None), 0) else
      var probed := ProbeInput(levels[depth], depth, kind);
      match probed.found
      case Failure(e) => Walked(Failure(e), probed.probes)
      case Success(Some(input)) => Walked(Success(Some(input)), probed.probes)
      case Success(None) => More(probed.probes, Nearest(levels, kind, depth + 1))
  }

  function More<T>(probes: nat, rest: Walked<T>): Walked<T> {
    Walked(rest.result, probes + rest.probes)
  }

  /** From `depth` towards the root: every NuGet.Config, nearest first. */
  function Every(levels: seq<Directory>, depth: nat): Walked<seq<AncestorInput>>
    requires depth <= |levels|
    decreases |levels| - depth
  {
    if depth == |levels| then Walked(Success([]), 0) else
      var probed := ProbeInput(levels[depth], depth, NugetConfig);
      match probed.found
      case Failure(e) => Walked(Failure(e), probed.probes)
      case Success(None) => More(probed.probes, Every(levels, depth + 1))
      case Success(Some(input)) => Behind([input], probed.probes, Every(levels, depth + 1))
  }

  function Behind(inputs: seq<AncestorInput>, probes: nat, rest: Walked<seq<AncestorInput>>): Walked<seq<AncestorInput>> {
    Walked(match rest.result case Failure(e) => Failure(e) case Success(more) => Success(inputs + more), probes + rest.probes)
  }

  /** The error of the walk for one kind, if it fails. */
  ghost predicate FailsAlone(levels: seq<Directory>, kind: Kind, error: AncestorError) {
    if kind == NugetConfig then Every(levels, 0).result == Failure(error) else Nearest(levels, kind, 0).result == Failure(error)
  }

  // ---------------------------------------------------------------- what a walk finds

  /** A file that is there and cannot be taken. */
  predicate IsFaulty(directory: Directory, kind: Kind, spelling: nat, error: AncestorError) {
    match directory.file(kind, spelling)
    case Missing => false
    case Unreadable(fault) => error == Io(fault)
    case Irregular => error == UnsupportedFileType
    case Regular(len) => len > 0xFFFF_FFFF && error == LimitExceeded
  }

  predicate IsFile(directory: Directory, kind: Kind, spelling: nat, len: nat) {
    directory.file(kind, spelling) == Regular(len) && len <= 0xFFFF_FFFF
  }

  /** Spelling `k` is the first that is there. */
  predicate IsFirst(directory: Directory, k: nat) {
    k < 3 && !directory.file(NugetConfig, k).Missing? && forall i | 0 <= i < k :: directory.file(NugetConfig, i).Missing?
  }

  /** The NuGet configuration of a directory: the first spelling there, under the name that the directory gives it. */
  ghost predicate IsNuget(directory: Directory, depth: nat, input: AncestorInput) {
    exists k: nat :: IsFirst(directory, k) && IsFile(directory, NugetConfig, k, input.fileLen) && input.depth == depth
                && input.kind == NugetConfig && directory.spelling.Success?
                && input.spelling == match directory.spelling.value case Some(actual) => actual case None => k
  }

  ghost predicate FailsNuget(directory: Directory, error: AncestorError) {
    exists k: nat :: IsFirst(directory, k) &&
                (IsFaulty(directory, NugetConfig, k, error)
                 || (directory.file(NugetConfig, k).Regular? && directory.file(NugetConfig, k).len <= 0xFFFF_FFFF
                     && directory.spelling.Failure? && error == Io(directory.spelling.error)))
  }

  /** Spellings are asked for in order up to the first that is there. */
  lemma {:induction false} SpellingsFrom(directory: Directory, depth: nat, from: nat, k: nat)
    requires from <= k <= 3 && (forall i | from <= i < k :: directory.file(NugetConfig, i).Missing?)
    requires k < 3 ==> !directory.file(NugetConfig, k).Missing?
    ensures var r := ProbeSpellings(directory, depth, from);
            && r.probes == (if k < 3 then k + 1 else 3) - from
            && r.found == if k == 3 then Success(None) else ProbeSpellings(directory, depth, k).found
    decreases k - from
  {
    if from < k { SpellingsFrom(directory, depth, from + 1, k); }
  }

  /** Main result for one directory: the first spelling decides, the others behind it are not asked for. */
  lemma NugetExactly(directory: Directory, depth: nat, k: nat)
    requires k <= 3 && (k < 3 ==> IsFirst(directory, k))
    requires k == 3 ==> forall i | 0 <= i < 3 :: directory.file(NugetConfig, i).Missing?
    ensures var r := ProbeInput(directory, depth, NugetConfig);
            && r.probes == (if k < 3 then k + 1 else 3) && (r.found == Success(None) <==> k == 3)
            && (forall input :: r.found == Success(Some(input)) <==> IsNuget(directory, depth, input))
            && (forall error :: r.found == Failure(error) <==> FailsNuget(directory, error))
  {
    SpellingsFrom(directory, depth, 0, k);
    if k < 3 {
      assert forall j: nat | IsFirst(directory, j) :: j == k;
      FirstDecides(directory, depth, k);
    }
  }

  lemma FirstDecides(directory: Directory, depth: nat, k: nat)
    requires IsFirst(directory, k) && forall j: nat | IsFirst(directory, j) :: j == k
    ensures var found := ProbeSpellings(directory, depth, k).found;
            && found != Success(None)
            && (forall input :: found == Success(Some(input)) <==> IsNuget(directory, depth, input))
            && (forall error :: found == Failure(error) <==> FailsNuget(directory, error))
  {
    var found := ProbeSpellings(directory, depth, k).found;
    forall input ensures found == Success(Some(input)) <==> IsNuget(directory, depth, input) {
      if IsNuget(directory, depth, input) {
        assert IsFile(directory, NugetConfig, k, input.fileLen);
      }
    }
  }

  lemma FirstSpelling(directory: Directory) returns (k: nat)
    ensures k <= 3 && (k < 3 ==> IsFirst(directory, k))
    ensures k == 3 ==> forall i | 0 <= i < 3 :: directory.file(NugetConfig, i).Missing?
  {
    k := 0;
    while k < 3 && directory.file(NugetConfig, k).Missing?
      invariant k <= 3 && forall i | 0 <= i < k :: directory.file(NugetConfig, i).Missing?
    {
      k := k + 1;
    }
  }

  /** No level from `depth` up to `end` has the file. */
  predicate NoneBelow(levels: seq<Directory>, kind: Kind, depth: nat, end: nat)
    requires end <= |levels|
  {
    forall d | depth <= d < end :: levels[d].file(kind, 0).Missing?
  }

  /** What the walk for one singleton kind comes to, by the files alone: the nearest file decides. */
  ghost predicate IsNearest(levels: seq<Directory>, kind: Kind, depth: nat, r: Result<Option<AncestorInput>, AncestorError>) {
    match r
    case Success(None) => NoneBelow(levels, kind, depth, |levels|)
    case Success(Some(input)) =>
      && depth <= input.depth < |levels| && NoneBelow(levels, kind, depth, input.depth) && input.kind == kind
      && IsFile(levels[input.depth], kind, 0, input.fileLen) && input.spelling == 0
    case Failure(error) =>
      exists d :: depth <= d < |levels| && NoneBelow(levels, kind, depth, d) && IsFaulty(levels[d], kind, 0, error)
  }

  lemma {:induction false} NearestExactly(levels: seq<Directory>, kind: Kind, depth: nat)
    requires depth <= |levels| && kind != NugetConfig
    ensures IsNearest(levels, kind, depth, Nearest(levels, kind, depth).result)
    decreases |levels| - depth
  {
    if depth < |levels| && levels[depth].file(kind, 0).Missing? {
      NearestExactly(levels, kind, depth + 1);
      var r := Nearest(levels, kind, depth + 1).result;
      if r.Failure? {
        var d :| depth + 1 <= d < |levels| && NoneBelow(levels, kind, depth + 1, d) && IsFaulty(levels[d], kind, 0, r.error);
        assert NoneBelow(levels, kind, depth, d);
      }
    } else if depth < |levels| {
      assert NoneBelow(levels, kind, depth, depth);
    }
  }

  ghost predicate NoneFails(levels: seq<Directory>, depth: nat, end: nat)
    requires end <= |levels|
  {
    forall d, error | depth <= d < end :: !FailsNuget(levels[d], error)
  }

  /** The rows are the NuGet files of the levels from `depth` on, nearest first. */
  ghost predicate ListsNuget(levels: seq<Directory>, depth: nat, rows: seq<AncestorInput>) {
    && (forall input :: input in rows <==> depth <= input.depth < |levels| && IsNuget(levels[input.depth], input.depth, input))
    && forall i, j | 0 <= i < j < |rows| :: rows[i].depth < rows[j].depth
  }

  /** The walk lists the NuGet file of every level, nearest first, and fails with the nearest level that does. */
  lemma {:induction false} EveryExactly(levels: seq<Directory>, depth: nat)
    requires depth <= |levels|
    ensures match Every(levels, depth).result
            case Failure(error) =>
              (exists d :: depth <= d < |levels| && NoneFails(levels, depth, d) && FailsNuget(levels[d], error))
            case Success(rows) => NoneFails(levels, depth, |levels|) && ListsNuget(levels, depth, rows)
    decreases |levels| - depth
  {
    hide FailsNuget, IsNuget, ProbeInput, ListsNuget, NoneFails;
    if depth == |levels| {
      NoLevels(levels);
    } else {
      EveryExactly(levels, depth + 1);
      EveryStep(levels, depth);
      var k := FirstSpelling(levels[depth]);
      NugetExactly(levels[depth], depth, k);
      var found, rest := ProbeInput(levels[depth], depth, NugetConfig).found, Every(levels, depth + 1).result;
      if found.Failure? {
        assert NoneFails(levels, depth, depth) by { NothingFails(levels, depth); }
      } else if rest.Failure? {
        var d :| depth + 1 <= d < |levels| && NoneFails(levels, depth + 1, d) && FailsNuget(levels[d], rest.error);
        OneMoreFails(levels, depth, d);
      } else {
        OneMoreFails(levels, depth, |levels|);
        OneMoreListed(levels, depth, found.value, rest.value);
      }
    }
  }

  lemma NoLevels(levels: seq<Directory>)
    ensures NoneFails(levels, |levels|, |levels|) && ListsNuget(levels, |levels|, [])
  {
  }

  lemma NothingFails(levels: seq<Directory>, depth: nat)
    requires depth <= |levels|
    ensures NoneFails(levels, depth, depth)
  {
  }

  lemma OneMoreFails(levels: seq<Directory>, depth: nat, end: nat)
    requires depth < end <= |levels| && NoneFails(levels, depth + 1, end)
    requires forall error :: !FailsNuget(levels[depth], error)
    ensures NoneFails(levels, depth, end)
  {
    hide FailsNuget;
  }

  lemma OneMoreListed(levels: seq<Directory>, depth: nat, found: Option<AncestorInput>, rest: seq<AncestorInput>)
    requires depth < |levels| && ListsNuget(levels, depth + 1, rest)
    requires forall input :: found == Some(input) <==> IsNuget(levels[depth], depth, input)
    ensures ListsNuget(levels, depth, if found.Some? then [found.value] + rest else rest)
  {
    var rows := if found.Some? then [found.value] + rest else rest;
    assert found.Some? ==> IsNuget(levels[depth], depth, found.value) && found.value.depth == depth;
    hide IsNuget;
    forall input ensures input in rows <==>
                         depth <= input.depth < |levels| && IsNuget(levels[input.depth], input.depth, input)
    {
      assert input in rows <==> found == Some(input) || input in rest;
    }
    forall i, j | 0 <= i < j < |rows| ensures rows[i].depth < rows[j].depth {
      if found.Some? {
        assert rows[j] == rest[j - 1] && rest[j - 1] in rest;
      }
    }
  }

  lemma EveryStep(levels: seq<Directory>, depth: nat)
    requires depth < |levels|
    ensures var probed, rest := ProbeInput(levels[depth], depth, NugetConfig).found, Every(levels, depth + 1).result;
            Every(levels, depth).result ==
            if probed.Failure? then Failure(probed.error)
            else if rest.Failure? then Failure(rest.error)
            else Success(if probed.value.Some? then [probed.value.value] + rest.value else rest.value)
  {
    hide ProbeInput;
  }

  // ---------------------------------------------------------------- rows

  function Reversed<T>(s: seq<T>): (r: seq<T>)
    ensures |r| == |s| && forall i | 0 <= i < |r| :: r[i] == s[|s| - 1 - i]
  {
    seq(|s|, i requires 0 <= i < |s| => s[|s| - 1 - i])
  }

  method ReversePrefix(a: array<AncestorInput>, len: nat)
    requires len <= a.Length
    modifies a
    ensures a[..len] == Reversed(old(a[..len]))
  {
    hide HalfReversed;
    ghost var rows := a[..len];
    var i := 0;
    NotReversed(rows);
    while i < len / 2
      invariant i <= len / 2 && HalfReversed(a[..len], rows, i)
    {
      ghost var before := a[..len];
      SwapReverses(before, rows, i);
      a[i], a[len - 1 - i] := a[len - 1 - i], a[i];
      assert a[..len] == before[i := before[len - 1 - i]][len - 1 - i := before[i]];
      i := i + 1;
    }
    AllReversed(a[..len], rows, i);
  }

  /** The first and last `i` elements have changed places. */
  predicate HalfReversed(s: seq<AncestorInput>, rows: seq<AncestorInput>, i: nat) {
    && |s| == |rows| && 2 * i <= |s|
    && (forall k | 0 <= k < i :: s[k] == rows[|s| - 1 - k] && s[|s| - 1 - k] == rows[k])
    && forall k | i <= k < |s| - i :: s[k] == rows[k]
  }

  lemma NotReversed(rows: seq<AncestorInput>)
    ensures HalfReversed(rows, rows, 0)
  {
  }

  lemma SwapReverses(s: seq<AncestorInput>, rows: seq<AncestorInput>, i: nat)
    requires HalfReversed(s, rows, i) && i < |s| / 2
    ensures HalfReversed(s[i := s[|s| - 1 - i]][|s| - 1 - i := s[i]], rows, i + 1)
  {
    var n := |s|;
    assert i < n - 1 - i && s[i] == rows[i] && s[n - 1 - i] == rows[n - 1 - i];
  }

  lemma AllReversed(s: seq<AncestorInput>, rows: seq<AncestorInput>, i: nat)
    requires HalfReversed(s, rows, i) && i == |s| / 2
    ensures s == Reversed(rows)
  {
  }

  /** Rows that live in a small array until they outgrow it. */
  class InputRows {
    const inline: array<AncestorInput>
    var spill: seq<AncestorInput>
    var len: nat

    ghost predicate Valid()
      reads this, inline
    {
      inline.Length == INLINE_INPUT_CAPACITY && if spill == [] then len <= inline.Length else len == |spill|
    }

    function Rows(): seq<AncestorInput>
      reads this, inline
      requires Valid()
    {
      if spill == [] then inline[..len] else spill
    }

    constructor ()
      ensures Valid() && Rows() == [] && fresh(inline)
    {
      inline := new AncestorInput[INLINE_INPUT_CAPACITY](_ => AncestorInput(0, 0, GlobalJson, 0));
      spill, len := [], 0;
    }

    method Push(input: AncestorInput) returns (r: Result<(), AncestorError>)
      requires Valid()
      modifies this, inline
      ensures Valid()
      ensures if |old(Rows())| == U16_MAX then r == Failure(LimitExceeded) && Rows() == old(Rows())
              else r.Success? && Rows() == old(Rows()) + [input]
    {
      if len == U16_MAX { return Failure(LimitExceeded); }
      if spill == [] && len < INLINE_INPUT_CAPACITY {
        inline[len] := input;
      } else {
        if spill == [] { spill := inline[..]; }
        spill := spill + [input];
      }
      len := len + 1;
      return Success(());
    }

    /** Reverses all rows that there are, in whichever place they are. */
    method Reverse()
      requires Valid()
      modifies this, inline
      ensures Valid() && Rows() == Reversed(old(Rows()))
    {
      if spill == [] {
        ReversePrefix(inline, len);
      } else {
        spill := Reversed(spill);
      }
    }
  }

  // ---------------------------------------------------------------- the walk for all kinds

  /** How far the search for one singleton kind has come: its input, or the levels it still has to see. */
  ghost predicate SearchedTo(levels: seq<Directory>, request: set<Kind>, kind: Kind, depth: nat,
      selected: Option<AncestorInput>, probes: nat)
    requires depth <= |levels|
  {
    if kind !in request then selected == None && probes == 0
    else if selected.Some? then Nearest(levels, kind, 0) == Walked(Success(selected), probes)
    else Nearest(levels, kind, 0) == More(probes, Nearest(levels, kind, depth))
  }

  /** The first `n` singleton kinds have seen level `depth`, the others have not. */
  ghost predicate SearchedSome(levels: seq<Directory>, request: set<Kind>, depth: nat, n: nat,
      selected: seq<Option<AncestorInput>>, probes: seq<nat>)
    requires depth < |levels|
  {
    && |selected| == |probes| == 4
    && forall i | 0 <= i < 4 ::
         SearchedTo(levels, request, SINGLETONS[i], if i < n then depth + 1 else depth, selected[i], probes[i])
  }

  ghost predicate SearchedAll(levels: seq<Directory>, request: set<Kind>, depth: nat,
      selected: seq<Option<AncestorInput>>, probes: seq<nat>)
    requires depth <= |levels|
  {
    |selected| == |probes| == 4 && forall i | 0 <= i < 4 ::
        SearchedTo(levels, request, SINGLETONS[i], depth, selected[i], probes[i])
  }

  ghost predicate CollectedTo(levels: seq<Directory>, request: set<Kind>, depth: nat, rows: seq<AncestorInput>, probes: nat)
    requires depth <= |levels|
  {
    if NugetConfig !in request then rows == [] && probes == 0 else Every(levels, 0) == Behind(rows, probes, Every(levels, depth))
  }

  function Sum(probes: seq<nat>): nat {
    if probes == [] then 0 else Sum(probes[..|probes| - 1]) + probes[|probes| - 1]
  }

  lemma {:induction false} SumOfUpdate(probes: seq<nat>, i: nat, more: nat)
    requires i < |probes|
    ensures Sum(probes[i := probes[i] + more]) == Sum(probes) + more
  {
    var n, next := |probes| - 1, probes[i := probes[i] + more];
    if i < n {
      SumOfUpdate(probes[..n], i, more);
      assert next[..n] == probes[..n][i := probes[i] + more];
    } else {
      assert next[..n] == probes[..n];
    }
  }

  lemma OneProbe(directory: Directory, depth: nat, kind: Kind)
    ensures ProbeInput(directory, depth, kind).probes <= if kind == NugetConfig then 3 else 1
  {
    assert ProbeSpellings(directory, depth, 2).probes <= 1 && ProbeSpellings(directory, depth, 1).probes <= 2;
  }

  lemma SearchStep(levels: seq<Directory>, request: set<Kind>, kind: Kind, depth: nat, probes: nat)
    requires depth < |levels| && kind in request && SearchedTo(levels, request, kind, depth, None, probes)
    ensures var probed := ProbeInput(levels[depth], depth, kind);
            if probed.found.Success? then SearchedTo(levels, request, kind, depth + 1, probed.found.value, probes + probed.probes)
            else Nearest(levels, kind, 0).result == Failure(probed.found.error)
  {
    hide ProbeInput;
  }

  lemma SelectedStays(levels: seq<Directory>, request: set<Kind>, kind: Kind, depth: nat,
      selected: Option<AncestorInput>, probes: nat)
    requires depth < |levels| && SearchedTo(levels, request, kind, depth, selected, probes)
             && (selected.Some? || kind !in request)
    ensures SearchedTo(levels, request, kind, depth + 1, selected, probes)
  {
  }

  lemma CollectStep(levels: seq<Directory>, request: set<Kind>, depth: nat, rows: seq<AncestorInput>, probes: nat)
    requires depth < |levels| && NugetConfig in request && CollectedTo(levels, request, depth, rows, probes)
    ensures var probed := ProbeInput(levels[depth], depth, NugetConfig);
            if probed.found.Failure? then Every(levels, 0).result == Failure(probed.found.error)
            else CollectedTo(levels, request, depth + 1,
                             if probed.found.value.Some? then rows + [probed.found.value.value] else rows, probes + probed.probes)
  {
    hide ProbeInput;
    var probed, rest := ProbeInput(levels[depth], depth, NugetConfig), Every(levels, depth + 1);
    if probed.found.Success? && probed.found.value.Some? && rest.result.Success? {
      var input := probed.found.value.value;
      assert rows + ([input] + rest.result.value) == (rows + [input]) + rest.result.value;
    }
  }

  /** One level for the singleton kinds that are still searched. */
  method ProbeSingletons(levels: seq<Directory>, request: set<Kind>, depth: nat, before: seq<Option<AncestorInput>>,
      ghost counts: seq<nat>, probesBefore: nat)
    returns (r: Result<(), AncestorError>, selected: seq<Option<AncestorInput>>, ghost counted: seq<nat>, probes: nat)
    requires depth < |levels| && SearchedAll(levels, request, depth, before, counts)
    ensures |selected| == |counted| == 4 && probes <= probesBefore + 4
    ensures if r.Success? then SearchedAll(levels, request, depth + 1, selected, counted)
              && probes + Sum(counts) == probesBefore + Sum(counted)
            else || (r.error == LimitExceeded && probesBefore + 4 > U32_MAX)
                 || exists kind :: kind in request && FailsAlone(levels, kind, r.error)
  {
    hide SearchedTo, ProbeInput, Nearest, Every, Sum;
    selected, counted, probes := before, counts, probesBefore;
    var i := 0;
    while i < 4
      invariant i <= 4 && SearchedSome(levels, request, depth, i, selected, counted)
      invariant probes + Sum(counts) == probesBefore + Sum(counted) && probes <= probesBefore + i
    {
      var kind := SINGLETONS[i];
      if kind in request && selected[i].None? {
        SearchStep(levels, request, kind, depth, counted[i]);
        OneProbe(levels[depth], depth, kind);
        var probed := ProbeInput(levels[depth], depth, kind);
        if probes + probed.probes > U32_MAX { return Failure(LimitExceeded), selected, counted, probes; }
        if probed.found.Failure? {
          assert kind in request && FailsAlone(levels, kind, probed.found.error);
          return Failure(probed.found.error), selected, counted, probes;
        }
        SumOfUpdate(counted, i, probed.probes);
        probes := probes + probed.probes;
        selected, counted := selected[i := probed.found.value], counted[i := counted[i] + probed.probes];
      } else {
        SelectedStays(levels, request, kind, depth, selected[i], counted[i]);
      }
      i := i + 1;
    }
    return Success(()), selected, counted, probes;
  }

  /** The inputs found, each kind in a range of its own. */
  datatype AncestorInputBatch = AncestorInputBatch(rows: seq<AncestorInput>, ranges: seq<Span>, metadataProbes: nat,
      ancestorCount: nat)

  const ORDERED: seq<Kind> := [GlobalJson, NugetConfig, DirectoryBuildProps, DirectoryBuildTargets, DirectoryPackagesProps]

  function IndexOf(kind: Kind): (i: nat)
    ensures i < 5 && ORDERED[i] == kind
  {
    match kind
    case GlobalJson => 0
    case NugetConfig => 1
    case DirectoryBuildProps => 2
    case DirectoryBuildTargets => 3
    case DirectoryPackagesProps => 4
  }

  function Inputs(batch: AncestorInputBatch, kind: Kind): seq<AncestorInput>
    requires |batch.ranges| == 5 && InBounds(batch.rows, batch.ranges[IndexOf(kind)])
  {
    Slice(batch.rows, batch.ranges[IndexOf(kind)])
  }

  function Listed(selected: Option<AncestorInput>): seq<AncestorInput> {
    if selected.Some? then [selected.value] else []
  }

  /** The ranges tile the rows: NuGet first, then the others in their order. */
  predicate Tiled(batch: AncestorInputBatch) {
    && |batch.ranges| == 5 && batch.ranges[1].start == 0 && batch.ranges[0].start == batch.ranges[1].len
    && batch.ranges[2].start == batch.ranges[0].start + batch.ranges[0].len
    && batch.ranges[3].start == batch.ranges[2].start + batch.ranges[2].len
    && batch.ranges[4].start == batch.ranges[3].start + batch.ranges[3].len
    && |batch.rows| == batch.ranges[4].start + batch.ranges[4].len
  }

  lemma TiledInBounds(batch: AncestorInputBatch)
    requires Tiled(batch)
    ensures |batch.ranges| == 5 && forall kind :: InBounds(batch.rows, batch.ranges[IndexOf(kind)])
  {
  }

  /** What a walk for one kind alone gives. */
  ghost predicate AsAlone(levels: seq<Directory>, request: set<Kind>, kind: Kind, inputs: seq<AncestorInput>, probes: nat) {
    if kind !in request then inputs == [] && probes == 0
    else if kind == NugetConfig then
      var alone := Every(levels, 0);
      alone.result.Success? && inputs == Reversed(alone.result.value) && probes == alone.probes
    else
      var alone := Nearest(levels, kind, 0);
      alone.result.Success? && inputs == Listed(alone.result.value) && probes == alone.probes
  }

  lemma SearchEnds(levels: seq<Directory>, request: set<Kind>, kind: Kind, depth: nat, selected: Option<AncestorInput>,
      probes: nat)
    requires depth <= |levels| && SearchedTo(levels, request, kind, depth, selected, probes) && kind != NugetConfig
    requires depth == |levels| || selected.Some? || kind !in request
    ensures AsAlone(levels, request, kind, Listed(selected), probes)
  {
  }

  lemma CollectEnds(levels: seq<Directory>, request: set<Kind>, depth: nat, rows: seq<AncestorInput>, probes: nat)
    requires depth <= |levels| && CollectedTo(levels, request, depth, rows, probes)
             && (depth == |levels| || NugetConfig !in request)
    ensures AsAlone(levels, request, NugetConfig, Reversed(rows), probes)
  {
    assert rows + [] == rows;
  }

  lemma NothingSearched(levels: seq<Directory>, request: set<Kind>)
    ensures SearchedAll(levels, request, 0, [None, None, None, None], [0, 0, 0, 0]) && CollectedTo(levels, request, 0, [], 0)
    ensures Sum([0, 0, 0, 0]) == 0
  {
    var all := Every(levels, 0);
    assert all.result.Success? ==> [] + all.result.value == all.result.value;
    assert [0, 0, 0, 0][..3] == [0, 0, 0] && [0, 0, 0][..2] == [0, 0] && [0, 0][..1] == [0];
  }

  lemma NugetFails(levels: seq<Directory>, request: set<Kind>, error: AncestorError)
    requires NugetConfig in request && Every(levels, 0).result == Failure(error)
    ensures exists kind :: kind in request && FailsAlone(levels, kind, error)
  {
    assert FailsAlone(levels, NugetConfig, error);
  }

  lemma NotCollected(levels: seq<Directory>, request: set<Kind>, depth: nat, rows: seq<AncestorInput>, probes: nat)
    requires depth < |levels| && NugetConfig !in request && CollectedTo(levels, request, depth, rows, probes)
    ensures CollectedTo(levels, request, depth + 1, rows, probes)
  {
  }

  /** At the end every kind is as from a walk of its own. */
  lemma WalksEnd(levels: seq<Directory>, request: set<Kind>, depth: nat, selected: seq<Option<AncestorInput>>, counts: seq<nat>,
                 rows: seq<AncestorInput>, nuget: nat)
    requires depth <= |levels| && SearchedAll(levels, request, depth, selected, counts)
             && CollectedTo(levels, request, depth, rows, nuget)
    requires depth == |levels| || (NugetConfig !in request && !SingletonRemains(request, selected))
    ensures forall i | 0 <= i < 4 :: AsAlone(levels, request, SINGLETONS[i], Listed(selected[i]), counts[i])
    ensures AsAlone(levels, request, NugetConfig, Reversed(rows), nuget)
  {
    hide SearchedTo, CollectedTo, AsAlone;
    forall i | 0 <= i < 4 ensures AsAlone(levels, request, SINGLETONS[i], Listed(selected[i]), counts[i]) {
      SearchEnds(levels, request, SINGLETONS[i], depth, selected[i], counts[i]);
    }
    CollectEnds(levels, request, depth, rows, nuget);
  }

  lemma SumOfFive(counts: seq<nat>, nuget: nat)
    requires |counts| == 4
    ensures Sum([counts[0], nuget, counts[1], counts[2], counts[3]]) == Sum(counts) + nuget
  {
    SumOfFour(counts);
    var all := [counts[0], nuget, counts[1], counts[2], counts[3]];
    SumOfFour(all[..4]);
    assert all[..4] == [counts[0], nuget, counts[1], counts[2]];
  }

  lemma SumOfFour(counts: seq<nat>)
    requires |counts| == 4
    ensures Sum(counts) == counts[0] + counts[1] + counts[2] + counts[3]
  {
    assert counts[..3][..2] == counts[..2] && counts[..2][..1] == counts[..1] && counts[..1][..0] == [];
    assert Sum(counts[..1]) == counts[0] && Sum(counts[..2]) == counts[0] + counts[1];
  }

  lemma CountAt(counts: seq<nat>, nuget: nat, kind: Kind)
    requires |counts| == 4
    ensures var all := [counts[0], nuget, counts[1], counts[2], counts[3]];
            if kind == NugetConfig then all[IndexOf(kind)] == nuget
            else exists i :: 0 <= i < 4 && SINGLETONS[i] == kind && all[IndexOf(kind)] == counts[i]
  {
    match kind
    case NugetConfig =>
    case GlobalJson => assert SINGLETONS[0] == kind;
    case DirectoryBuildProps => assert SINGLETONS[1] == kind;
    case DirectoryBuildTargets => assert SINGLETONS[2] == kind;
    case DirectoryPackagesProps => assert SINGLETONS[3] == kind;
  }

  predicate SingletonRemains(request: set<Kind>, selected: seq<Option<AncestorInput>>)
    requires |selected| == 4
  {
    exists i | 0 <= i < 4 :: SINGLETONS[i] in request && selected[i].None?
  }

  /** The rows of the batch, from the NuGet rows of the walk and the selected inputs. */
  method Assemble(rows: InputRows, selected: seq<Option<AncestorInput>>, probes: nat, depth: nat)
      returns (r: Result<AncestorInputBatch, AncestorError>)
    requires rows.Valid() && |selected| == 4
    modifies rows, rows.inline
    ensures r.Failure? ==> r.error == LimitExceeded && (depth == U16_MAX || |old(rows.Rows())| + 4 > U16_MAX)
    ensures r.Success? ==>
              && Tiled(r.value) && r.value.metadataProbes == probes && r.value.ancestorCount == depth + 1
              && Inputs(r.value, NugetConfig) == Reversed(old(rows.Rows()))
              && forall i | 0 <= i < 4 :: Inputs(r.value, SINGLETONS[i]) == Listed(selected[i])
  {
    hide Inputs, Tiled;
    ghost var nuget := Reversed(rows.Rows());
    rows.Reverse();
    var ends, full := AppendSelected(rows, selected);
    if full || depth == U16_MAX { return Failure(LimitExceeded); }
    var batch := AncestorInputBatch(rows.Rows(), RangesOf(ends), probes, depth + 1);
    RangesTile(batch, nuget, selected, ends);
    return Success(batch);
  }

  /** Appends the selected inputs; `ends` says how many rows there were before and after each. */
  method AppendSelected(rows: InputRows, selected: seq<Option<AncestorInput>>) returns (ends: seq<nat>, full: bool)
    requires rows.Valid() && |selected| == 4
    modifies rows, rows.inline
    ensures full ==> |old(rows.Rows())| + 4 > U16_MAX
    ensures rows.Valid() && (!full ==>
              rows.Rows() == old(rows.Rows()) + ListedAll(selected, 4) && Ends(ends, |old(rows.Rows())|, selected, 4))
  {
    hide ListedAll, Ends;
    ends, full := [|rows.Rows()|], false;
    NothingListed(selected, rows.Rows());
    EndsStart(selected, |rows.Rows()|);
    var i := 0;
    while i < 4
      invariant i <= 4 && rows.Valid() && Ends(ends, |old(rows.Rows())|, selected, i)
      invariant rows.Rows() == old(rows.Rows()) + ListedAll(selected, i) && |ListedAll(selected, i)| <= i
    {
      ListedStep(selected, i);
      if selected[i].Some? {
        var pushed := rows.Push(selected[i].value);
        if pushed.Failure? { return ends, true; }
      }
      EndsGrow(ends, |old(rows.Rows())|, selected, i, |rows.Rows()|);
      ends := ends + [|rows.Rows()|];
      i := i + 1;
    }
  }

  ghost predicate Ends(ends: seq<nat>, n: nat, selected: seq<Option<AncestorInput>>, i: nat)
    requires i <= |selected|
  {
    |ends| == i + 1 && forall k | 0 <= k <= i :: ends[k] == n + |ListedAll(selected, k)|
  }

  lemma EndsStart(selected: seq<Option<AncestorInput>>, n: nat)
    ensures Ends([n], n, selected, 0)
  {
  }

  lemma EndsGrow(ends: seq<nat>, n: nat, selected: seq<Option<AncestorInput>>, i: nat, end: nat)
    requires i < |selected| && Ends(ends, n, selected, i) && end == n + |ListedAll(selected, i + 1)|
    ensures Ends(ends + [end], n, selected, i + 1) && ends[i] <= end
  {
  }

  lemma NothingListed(selected: seq<Option<AncestorInput>>, rows: seq<AncestorInput>)
    ensures ListedAll(selected, 0) == [] && rows + ListedAll(selected, 0) == rows
  {
  }

  lemma ListedStep(selected: seq<Option<AncestorInput>>, i: nat)
    requires i < |selected|
    ensures ListedAll(selected, i + 1) == ListedAll(selected, i) + Listed(selected[i])
  {
  }

  function RangesOf(ends: seq<nat>): (ranges: seq<Span>)
    requires |ends| == 5 && forall k | 0 <= k < 4 :: ends[k] <= ends[k + 1]
    ensures |ranges| == 5
  {
    [Span(ends[0], ends[1] - ends[0]), Span(0, ends[0]), Span(ends[1], ends[2] - ends[1]), Span(ends[2], ends[3] - ends[2]),
     Span(ends[3], ends[4] - ends[3])]
  }

  lemma RangesTile(batch: AncestorInputBatch, nuget: seq<AncestorInput>, selected: seq<Option<AncestorInput>>, ends: seq<nat>)
    requires |selected| == 4 && Ends(ends, |nuget|, selected, 4) && (forall k | 0 <= k < 4 :: ends[k] <= ends[k + 1])
    requires batch.rows == nuget + ListedAll(selected, 4) && batch.ranges == RangesOf(ends)
    ensures Tiled(batch) && Inputs(batch, NugetConfig) == nuget
    ensures forall i | 0 <= i < 4 :: InBounds(batch.rows, batch.ranges[IndexOf(SINGLETONS[i])])
              && Inputs(batch, SINGLETONS[i]) == Listed(selected[i])
  {
    hide ListedAll, RangesOf, IndexOf, Inputs, Ends, Tiled;
    EndsTile(batch, nuget, selected, ends);
    forall i | 0 <= i < 4
      ensures InBounds(batch.rows, batch.ranges[IndexOf(SINGLETONS[i])]) && Inputs(batch, SINGLETONS[i]) == Listed(selected[i])
    {
      RangeHolds(batch, nuget, selected, ends, i);
    }
  }

  lemma EndsTile(batch: AncestorInputBatch, nuget: seq<AncestorInput>, selected: seq<Option<AncestorInput>>, ends: seq<nat>)
    requires |selected| == 4 && Ends(ends, |nuget|, selected, 4) && (forall k | 0 <= k < 4 :: ends[k] <= ends[k + 1])
    requires batch.rows == nuget + ListedAll(selected, 4) && batch.ranges == RangesOf(ends)
    ensures Tiled(batch) && Inputs(batch, NugetConfig) == nuget
  {
    hide ListedAll, RangesOf, IndexOf;
    RangesAt(ends);
    NothingListed(selected, nuget);
  }

  lemma RangeHolds(batch: AncestorInputBatch, nuget: seq<AncestorInput>, selected: seq<Option<AncestorInput>>,
      ends: seq<nat>, i: nat)
    requires |selected| == 4 && Ends(ends, |nuget|, selected, 4) && (forall k | 0 <= k < 4 :: ends[k] <= ends[k + 1]) && i < 4
    requires batch.rows == nuget + ListedAll(selected, 4) && batch.ranges == RangesOf(ends)
    ensures InBounds(batch.rows, batch.ranges[IndexOf(SINGLETONS[i])]) && Inputs(batch, SINGLETONS[i]) == Listed(selected[i])
  {
    hide ListedAll, RangesOf, IndexOf;
    RangesAt(ends);
    ListedStep(selected, i);
    ListedAt(nuget, selected, i);
  }

  lemma RangesAt(ends: seq<nat>)
    requires |ends| == 5 && forall k | 0 <= k < 4 :: ends[k] <= ends[k + 1]
    ensures forall i | 0 <= i < 4 :: RangesOf(ends)[IndexOf(SINGLETONS[i])] == Span(ends[i], ends[i + 1] - ends[i])
    ensures RangesOf(ends)[IndexOf(NugetConfig)] == Span(0, ends[0]) && IndexOf(NugetConfig) == 1
    ensures RangesOf(ends)[0] == Span(ends[0], ends[1] - ends[0]) && RangesOf(ends)[1] == Span(0, ends[0])
    ensures forall i | 2 <= i < 5 :: RangesOf(ends)[i] == Span(ends[i - 1], ends[i] - ends[i - 1])
  {
  }

  function ListedAll(selected: seq<Option<AncestorInput>>, n: nat): seq<AncestorInput>
    requires n <= |selected|
  {
    if n == 0 then [] else ListedAll(selected, n - 1) + Listed(selected[n - 1])
  }

  lemma {:induction false} ListedGrows(selected: seq<Option<AncestorInput>>, n: nat, m: nat)
    requires n <= m <= |selected|
    ensures ListedAll(selected, n) <= ListedAll(selected, m)
  {
    if n < m { ListedGrows(selected, n, m - 1); }
  }

  lemma ListedAt(nuget: seq<AncestorInput>, selected: seq<Option<AncestorInput>>, k: nat)
    requires k < |selected| == 4
    ensures var rows, start := nuget + ListedAll(selected, 4), |nuget| + |ListedAll(selected, k)|;
            start + |Listed(selected[k])| <= |rows| && rows[start..start + |Listed(selected[k])|] == Listed(selected[k])
  {
    hide ListedAll;
    ListedGrows(selected, k + 1, 4);
    ListedStep(selected, k);
    var all, some := ListedAll(selected, 4), ListedAll(selected, k + 1);
    SplitPrefix(all, some);
    MiddleSlice(nuget, ListedAll(selected, k), Listed(selected[k]), all[|some|..]);
  }

  lemma SplitPrefix(all: seq<AncestorInput>, some: seq<AncestorInput>)
    requires some <= all
    ensures all == some + all[|some|..]
  {
  }

  lemma MiddleSlice(a: seq<AncestorInput>, b: seq<AncestorInput>, x: seq<AncestorInput>, c: seq<AncestorInput>)
    ensures (a + ((b + x) + c))[|a| + |b|..|a| + |b| + |x|] == x
  {
  }

  /** One level for NuGet.Config. */
  method ProbeNuget(levels: seq<Directory>, request: set<Kind>, depth: nat, rows: InputRows, ghost nuget: nat, probesBefore: nat)
    returns (r: Result<(), AncestorError>, probes: nat, ghost counted: nat)
    requires depth < |levels| && rows.Valid() && CollectedTo(levels, request, depth, rows.Rows(), nuget)
    modifies rows, rows.inline
    ensures rows.Valid() && |rows.Rows()| <= |old(rows.Rows())| + 1 && probes <= probesBefore + 3
    ensures if r.Success? then CollectedTo(levels, request, depth + 1, rows.Rows(), counted)
              && probes + nuget == probesBefore + counted
            else (r.error == LimitExceeded && (probesBefore + 3 > U32_MAX || |old(rows.Rows())| == U16_MAX))
                 || exists kind :: kind in request && FailsAlone(levels, kind, r.error)
  {
    hide CollectedTo, ProbeInput, Every, FailsAlone;
    probes, counted := probesBefore, nuget;
    if NugetConfig !in request {
      NotCollected(levels, request, depth, rows.Rows(), nuget);
      return Success(()), probes, counted;
    }
    CollectStep(levels, request, depth, rows.Rows(), nuget);
    OneProbe(levels[depth], depth, NugetConfig);
    var probed := ProbeInput(levels[depth], depth, NugetConfig);
    if probes + probed.probes > U32_MAX { return Failure(LimitExceeded), probes, counted; }
    probes, counted := probes + probed.probes, counted + probed.probes;
    if probed.found.Failure? {
      NugetFails(levels, request, probed.found.error);
      return Failure(probed.found.error), probes, counted;
    }
    if probed.found.value.Some? {
      var pushed := rows.Push(probed.found.value.value);
      if pushed.Failure? { return Failure(pushed.error), probes, counted; }
    }
    return Success(()), probes, counted;
  }

  /**
   * Every requested kind comes out as from a walk of its own: a singleton its nearest input, NuGet.Config all of them
   * from the root on; the probes are those of all walks together. It fails as one of the walks does, or where so many
   * directories are stacked that the 16-bit depths or rows run out.
   */
  method DiscoverAncestorInputs(levels: seq<Directory>, request: set<Kind>) returns (r: Result<AncestorInputBatch, AncestorError>)
    requires levels != []
    ensures r.Failure? ==>
              || (r.error == LimitExceeded && |levels| + 3 >= U16_MAX)
              || exists kind :: kind in request && FailsAlone(levels, kind, r.error)
    ensures r.Success? ==>
              && Tiled(r.value)
              && exists counts: seq<nat> :: |counts| == 5 && r.value.metadataProbes == Sum(counts)
                   && forall kind :: AsAlone(levels, request, kind, Inputs(r.value, kind), counts[IndexOf(kind)])
  {
    hide SearchedAll, CollectedTo, Nearest, Every, Sum, AsAlone, FailsAlone, Inputs, IndexOf, Tiled;
    var rows := new InputRows();
    var selected: seq<Option<AncestorInput>> := [None, None, None, None];
    var probes: nat, depth: nat := 0, 0;
    var needsNuget := NugetConfig in request;
    ghost var counts: seq<nat>, nuget: nat := [0, 0, 0, 0], 0;
    NothingSearched(levels, request);
    while true
      invariant depth < |levels| && depth <= U16_MAX && rows.Valid() && fresh(rows) && fresh(rows.inline)
      invariant SearchedAll(levels, request, depth, selected, counts) && CollectedTo(levels, request, depth, rows.Rows(), nuget)
      invariant probes == Sum(counts) + nuget && |selected| == |counts| == 4 && probes <= 7 * depth && |rows.Rows()| <= depth
      decreases |levels| - depth
    {
      var probed;
      probed, selected, counts, probes := ProbeSingletons(levels, request, depth, selected, counts, probes);
      if probed.Failure? { return Failure(probed.error); }
      var collected;
      collected, probes, nuget := ProbeNuget(levels, request, depth, rows, nuget, probes);
      if collected.Failure? { return Failure(collected.error); }
      depth := depth + 1;
      if !needsNuget && !SingletonRemains(request, selected) { break; }
      if depth == |levels| { break; }
      if depth > U16_MAX { return Failure(LimitExceeded); }
    }
    WalksEnd(levels, request, depth, selected, counts, rows.Rows(), nuget);
    r := Assemble(rows, selected, probes, depth - 1);
    if r.Success? {
      ghost var all := [counts[0], nuget, counts[1], counts[2], counts[3]];
      SumOfFive(counts, nuget);
      TiledInBounds(r.value);
      forall kind ensures AsAlone(levels, request, kind, Inputs(r.value, kind), all[IndexOf(kind)]) {
        CountAt(counts, nuget, kind);
      }
    }
  }
}
