/**
 * Choosing an installed runtime (crates/dv-core/src/framework_reference.rs, `select_installed_runtime` and
 * `select_by_policy`): what each roll-forward policy picks, and how the policies relate.
 */
module RollForward {
  import opened Wrappers
  import opened RuntimeVersions

  datatype Policy = Disable | LatestPatch | Minor | Major | LatestMinor | LatestMajor

  predicate AtLeast(v: RuntimeVersion, w: RuntimeVersion) {
    Compare(v, w) != Less
  }

  // ---------------------------------------------------------------- selection

  function Filter(s: seq<RuntimeVersion>, p: RuntimeVersion -> bool): seq<RuntimeVersion> {
    if s == [] then [] else
      var rest := Filter(s[..|s| - 1], p);
      if p(s[|s| - 1]) then rest + [s[|s| - 1]] else rest
  }

  function Find(s: seq<RuntimeVersion>, p: RuntimeVersion -> bool): Option<RuntimeVersion> {
    if s == [] then None else if p(s[0]) then Some(s[0]) else Find(s[1..], p)
  }

  /** The last of the greatest. */
  function Greatest(s: seq<RuntimeVersion>): Option<RuntimeVersion> {
    if s == [] then None else
      match Greatest(s[..|s| - 1])
      case None => Some(s[|s| - 1])
      case Some(best) => Some(if AtLeast(s[|s| - 1], best) then s[|s| - 1] else best)
  }

  /** A band is a major and a minor number. */
  type Band = (nat, nat)

  function BandOf(v: RuntimeVersion): Band {
    (v.major, v.minor)
  }

  predicate BandBefore(a: Band, b: Band) {
    a.0 < b.0 || (a.0 == b.0 && a.1 < b.1)
  }

  function LeastBand(s: seq<RuntimeVersion>): Option<Band> {
    if s == [] then None else
      match LeastBand(s[..|s| - 1])
      case None => Some(BandOf(s[|s| - 1]))
      case Some(least) => Some(if BandBefore(BandOf(s[|s| - 1]), least) then BandOf(s[|s| - 1]) else least)
  }

  function NearestBand(installed: seq<RuntimeVersion>, requested: RuntimeVersion,
      eligible: RuntimeVersion -> bool): Option<RuntimeVersion> {
    match LeastBand(Filter(installed, eligible))
    case None => None
    case Some(nearest) => Greatest(Filter(installed, v => eligible(v) && BandOf(v) == nearest && AtLeast(v, requested)))
  }

  predicate Stable(v: RuntimeVersion) {
    v.prerelease.None?
  }

  predicate Released(v: RuntimeVersion, stableOnly: bool) {
    !stableOnly || Stable(v)
  }

  function SelectByPolicy(installed: seq<RuntimeVersion>, requested: RuntimeVersion, policy: Policy,
      stableOnly: bool): Option<RuntimeVersion> {
    match policy
    case Disable => Find(Filter(installed, v => Released(v, stableOnly)), v => Compare(v, requested) == Equal)
    case LatestPatch =>
      Greatest(Filter(Filter(installed, v => Released(v, stableOnly)),
                      (v: RuntimeVersion) => v.major == requested.major && v.minor == requested.minor && AtLeast(v, requested)))
    case Minor =>
      NearestBand(installed, requested, v => Released(v, stableOnly) && v.major == requested.major && AtLeast(v, requested))
    case Major => NearestBand(installed, requested, v => Released(v, stableOnly) && AtLeast(v, requested))
    case LatestMinor =>
      Greatest(Filter(Filter(installed, v => Released(v, stableOnly)),
                      (v: RuntimeVersion) => v.major == requested.major && AtLeast(v, requested)))
    case LatestMajor => Greatest(Filter(Filter(installed, v => Released(v, stableOnly)), v => AtLeast(v, requested)))
  }

  /** A prerelease may satisfy a stable request only when nothing stable does. */
  function Select(installed: seq<RuntimeVersion>, requested: RuntimeVersion, policy: Policy): Option<RuntimeVersion> {
    if !Stable(requested) then SelectByPolicy(installed, requested, policy, false) else
      var stable := SelectByPolicy(installed, requested, policy, true);
      if stable.Some? then stable else SelectByPolicy(installed, requested, policy, false)
  }

  // ---------------------------------------------------------------- collecting

  datatype DirectoryEntry = DirectoryEntry(name: string, isDirectory: bool)

  predicate Sorted(s: seq<RuntimeVersion>) {
    forall i, j | 0 <= i < j < |s| :: AtLeast(s[j], s[i])
  }

  /** The versions that directories are named after. */
  function Installed(entries: seq<DirectoryEntry>): seq<RuntimeVersion> {
    if entries == [] then [] else
      var last := entries[|entries| - 1];
      var rest := Installed(entries[..|entries| - 1]);
      if last.isDirectory && Parse(last.name).Some? then rest + [Parse(last.name).value] else rest
  }

  method InsertionPoint(sorted: seq<RuntimeVersion>, v: RuntimeVersion) returns (at: nat)
    ensures at <= |sorted| && (at > 0 ==> AtLeast(v, sorted[at - 1])) && forall i | at <= i < |sorted| :: AtLeast(sorted[i], v)
  {
    hide Compare;
    at := |sorted|;
    while at > 0 && !AtLeast(v, sorted[at - 1])
      invariant at <= |sorted| && forall i | at <= i < |sorted| :: AtLeast(sorted[i], v)
    {
      CompareIsOrder(v, sorted[at - 1], v);
      at := at - 1;
    }
  }

  method SortVersions(s: seq<RuntimeVersion>) returns (sorted: seq<RuntimeVersion>)
    ensures multiset(sorted) == multiset(s) && Sorted(sorted)
  {
    hide Sorted, AtLeast;
    sorted := [];
    NothingIsSorted();
    var n := 0;
    while n < |s|
      invariant n <= |s| && multiset(sorted) == multiset(s[..n]) && Sorted(sorted)
    {
      var at := InsertionPoint(sorted, s[n]);
      InsertKeepsSorted(sorted, s[n], at);
      assert sorted == sorted[..at] + sorted[at..] && s[..n + 1] == s[..n] + [s[n]];
      sorted := sorted[..at] + [s[n]] + sorted[at..];
      n := n + 1;
    }
    assert s[..n] == s;
  }

  lemma NothingIsSorted()
    ensures Sorted([])
  {
  }

  lemma InsertKeepsSorted(s: seq<RuntimeVersion>, v: RuntimeVersion, at: nat)
    requires Sorted(s) && at <= |s| && (at > 0 ==> AtLeast(v, s[at - 1])) && forall i | at <= i < |s| :: AtLeast(s[i], v)
    ensures Sorted(s[..at] + [v] + s[at..])
  {
    forall i | 0 <= i < at ensures AtLeast(v, s[i]) {
      CompareIsOrder(v, s[at - 1], s[i]);
      CompareIsOrder(s[at - 1], s[i], v);
    }
  }

  ghost predicate Sorts(sorted: seq<RuntimeVersion>, s: seq<RuntimeVersion>) {
    multiset(sorted) == multiset(s) && Sorted(sorted)
  }

  /** The runtime for a request: any order of equal versions may come out of the sort. */
  method SelectInstalledRuntime(entries: seq<DirectoryEntry>, requested: RuntimeVersion, policy: Policy)
      returns (r: Option<RuntimeVersion>)
    ensures exists installed :: Sorts(installed, Installed(entries)) && r == Select(installed, requested, policy)
    ensures IsRuntimeFor(entries, requested, policy, r)
  {
    hide Compare, Parse, SelectByPolicy, IsRuntimeFor, Sorted;
    var found: seq<RuntimeVersion> := [];
    var n := 0;
    while n < |entries|
      invariant n <= |entries| && found == Installed(entries[..n])
    {
      assert entries[..n + 1][..n] == entries[..n];
      if entries[n].isDirectory {
        var version := Parse(entries[n].name);
        if version.Some? { found := found + [version.value]; }
      }
      n := n + 1;
    }
    assert entries[..n] == entries;
    var sorted := SortVersions(found);
    assert Sorts(sorted, Installed(entries));
    SelectedIsRuntime(entries, sorted, requested, policy);
    if !Stable(requested) {
      r := SelectByPolicy(sorted, requested, policy, false);
    } else {
      r := SelectByPolicy(sorted, requested, policy, true);
      if r.None? { r := SelectByPolicy(sorted, requested, policy, false); }
    }
  }

  // ---------------------------------------------------------------- what a policy picks

  /** What a policy allows. */
  predicate Candidate(v: RuntimeVersion, requested: RuntimeVersion, policy: Policy, stableOnly: bool) {
    && Released(v, stableOnly) && AtLeast(v, requested)
    && match policy
       case Disable => Compare(v, requested) == Equal
       case LatestPatch => v.major == requested.major && v.minor == requested.minor
       case Minor => v.major == requested.major
       case LatestMinor => v.major == requested.major
       case Major => true
       case LatestMajor => true
  }

  /** What a policy prefers: the latest, or the latest of the nearest band. */
  predicate AsGood(policy: Policy, v: RuntimeVersion, w: RuntimeVersion) {
    match policy
    case Disable => true
    case Minor => BandBefore(BandOf(v), BandOf(w)) || (BandOf(v) == BandOf(w) && AtLeast(v, w))
    case Major => BandBefore(BandOf(v), BandOf(w)) || (BandOf(v) == BandOf(w) && AtLeast(v, w))
    case _ => AtLeast(v, w)
  }

  ghost predicate IsBest(installed: seq<RuntimeVersion>, requested: RuntimeVersion, policy: Policy, stableOnly: bool,
      r: Option<RuntimeVersion>) {
    match r
    case None => forall w | w in installed :: !Candidate(w, requested, policy, stableOnly)
    case Some(v) =>
      && v in installed && Candidate(v, requested, policy, stableOnly)
      && forall w | w in installed && Candidate(w, requested, policy, stableOnly) :: AsGood(policy, v, w)
  }

  lemma {:induction false} FilterKeeps(s: seq<RuntimeVersion>, p: RuntimeVersion -> bool)
    ensures forall v :: v in Filter(s, p) <==> v in s && p(v)
  {
    if s != [] {
      FilterKeeps(s[..|s| - 1], p);
      assert s == s[..|s| - 1] + [s[|s| - 1]];
    }
  }

  lemma {:induction false} FilterSame(s: seq<RuntimeVersion>, p: RuntimeVersion -> bool, q: RuntimeVersion -> bool)
    requires forall v | v in s :: p(v) == q(v)
    ensures Filter(s, p) == Filter(s, q)
  {
    if s != [] {
      assert s[|s| - 1] in s && forall v | v in s[..|s| - 1] :: v in s;
      FilterSame(s[..|s| - 1], p, q);
    }
  }

  lemma {:induction false} FilterTwice(s: seq<RuntimeVersion>, p: RuntimeVersion -> bool, q: RuntimeVersion -> bool)
    ensures Filter(Filter(s, p), q) == Filter(s, v => p(v) && q(v))
  {
    if s != [] {
      FilterTwice(s[..|s| - 1], p, q);
      var last, front := s[|s| - 1], Filter(s[..|s| - 1], p);
      if p(last) { assert (front + [last])[..|front|] == front; }
    }
  }

  lemma {:induction false} GreatestIsGreatest(s: seq<RuntimeVersion>)
    ensures Greatest(s).None? <==> s == []
    ensures Greatest(s).Some? ==> Greatest(s).value in s && forall v | v in s :: AtLeast(Greatest(s).value, v)
  {
    if s != [] {
      var last := s[|s| - 1];
      GreatestIsGreatest(s[..|s| - 1]);
      assert s == s[..|s| - 1] + [last];
      CompareIsOrder(last, last, last);
      if |s| > 1 {
        var best := Greatest(s[..|s| - 1]).value;
        CompareIsOrder(last, best, last);
        forall v | v in s[..|s| - 1] && AtLeast(last, best) ensures AtLeast(last, v) {
          CompareIsOrder(last, best, v);
        }
      }
    }
  }

  lemma {:induction false} LeastIsLeast(s: seq<RuntimeVersion>)
    ensures LeastBand(s).None? <==> s == []
    ensures LeastBand(s).Some? ==>
              && (exists v :: v in s && BandOf(v) == LeastBand(s).value)
              && forall v | v in s :: LeastBand(s).value == BandOf(v) || BandBefore(LeastBand(s).value, BandOf(v))
  {
    if s != [] {
      var last := s[|s| - 1];
      LeastIsLeast(s[..|s| - 1]);
      assert s == s[..|s| - 1] + [last] && last in s;
    }
  }

  lemma {:induction false} FindFinds(s: seq<RuntimeVersion>, p: RuntimeVersion -> bool)
    ensures Find(s, p).None? <==> forall v | v in s :: !p(v)
    ensures Find(s, p).Some? ==> Find(s, p).value in s && p(Find(s, p).value)
  {
    if s != [] {
      FindFinds(s[1..], p);
      assert s == [s[0]] + s[1..];
    }
  }

  /** The candidates of a policy as a list. */
  function Candidates(installed: seq<RuntimeVersion>, requested: RuntimeVersion, policy: Policy,
      stableOnly: bool): seq<RuntimeVersion> {
    Filter(installed, v => Candidate(v, requested, policy, stableOnly))
  }

  /** Every policy is a search among its candidates. */
  lemma SelectsAmongCandidates(installed: seq<RuntimeVersion>, requested: RuntimeVersion, policy: Policy, stableOnly: bool)
    ensures var candidates := Candidates(installed, requested, policy, stableOnly);
            && (policy.LatestPatch? || policy.LatestMinor? || policy.LatestMajor? ==>
                  SelectByPolicy(installed, requested, policy, stableOnly) == Greatest(candidates))
            && (policy.Minor? || policy.Major? ==>
                  SelectByPolicy(installed, requested, policy, stableOnly) ==
                  match LeastBand(candidates)
                  case None => None
                  case Some(nearest) => Greatest(Filter(candidates, v => BandOf(v) == nearest)))
  {
    hide Greatest, LeastBand, Filter;
    var candidate := (v: RuntimeVersion) => Candidate(v, requested, policy, stableOnly);
    var released := (v: RuntimeVersion) => Released(v, stableOnly);
    match policy
    case Disable =>
    case LatestPatch =>
      var q := (v: RuntimeVersion) => v.major == requested.major && v.minor == requested.minor && AtLeast(v, requested);
      FilterTwice(installed, released, q);
      FilterSame(installed, v => released(v) && q(v), candidate);
    case LatestMinor =>
      var q := (v: RuntimeVersion) => v.major == requested.major && AtLeast(v, requested);
      FilterTwice(installed, released, q);
      FilterSame(installed, v => released(v) && q(v), candidate);
    case LatestMajor =>
      var q := (v: RuntimeVersion) => AtLeast(v, requested);
      FilterTwice(installed, released, q);
      FilterSame(installed, v => released(v) && q(v), candidate);
    case Minor =>
      var eligible := (v: RuntimeVersion) => Released(v, stableOnly) && v.major == requested.major && AtLeast(v, requested);
      BandAmongCandidates(installed, requested, candidate, eligible);
    case Major =>
      var eligible := (v: RuntimeVersion) => Released(v, stableOnly) && AtLeast(v, requested);
      BandAmongCandidates(installed, requested, candidate, eligible);
  }

  lemma BandAmongCandidates(installed: seq<RuntimeVersion>, requested: RuntimeVersion,
                            candidate: RuntimeVersion -> bool, eligible: RuntimeVersion -> bool)
    requires forall v :: eligible(v) == candidate(v) && (eligible(v) ==> AtLeast(v, requested))
    ensures NearestBand(installed, requested, eligible) ==
            match LeastBand(Filter(installed, candidate))
            case None => None
            case Some(nearest) => Greatest(Filter(Filter(installed, candidate), v => BandOf(v) == nearest))
  {
    hide Greatest, LeastBand, Filter;
    FilterSame(installed, eligible, candidate);
    var least := LeastBand(Filter(installed, candidate));
    if least.Some? {
      var inBand := (v: RuntimeVersion) => BandOf(v) == least.value;
      FilterTwice(installed, candidate, inBand);
      FilterSame(installed, v => eligible(v) && BandOf(v) == least.value && AtLeast(v, requested),
                 v => candidate(v) && inBand(v));
    }
  }

  // ---------------------------------------------------------------- main results

  /** Every policy picks the best of its candidates, and nothing only if there is none. */
  lemma PolicyPicksBest(installed: seq<RuntimeVersion>, requested: RuntimeVersion, policy: Policy, stableOnly: bool)
    ensures IsBest(installed, requested, policy, stableOnly, SelectByPolicy(installed, requested, policy, stableOnly))
  {
    hide Candidate, Greatest, LeastBand, Filter, SelectByPolicy;
    if policy.Disable? {
      DisableFinds(installed, requested, stableOnly);
    } else {
      var candidates := Candidates(installed, requested, policy, stableOnly);
      SelectsAmongCandidates(installed, requested, policy, stableOnly);
      FilterKeeps(installed, v => Candidate(v, requested, policy, stableOnly));
      GreatestIsGreatest(candidates);
      LeastIsLeast(candidates);
      var least := LeastBand(candidates);
      if least.Some? {
        FilterKeeps(candidates, v => BandOf(v) == least.value);
        GreatestIsGreatest(Filter(candidates, v => BandOf(v) == least.value));
      }
    }
  }

  lemma DisableFinds(installed: seq<RuntimeVersion>, requested: RuntimeVersion, stableOnly: bool)
    ensures IsBest(installed, requested, Disable, stableOnly, SelectByPolicy(installed, requested, Disable, stableOnly))
  {
    var released := (v: RuntimeVersion) => Released(v, stableOnly);
    FilterKeeps(installed, released);
    FindFinds(Filter(installed, released), v => Compare(v, requested) == Equal);
  }

  // ---------------------------------------------------------------- the runtime for a request

  /** A directory is named after the version. */
  ghost predicate HasDirectory(entries: seq<DirectoryEntry>, v: RuntimeVersion) {
    exists i :: 0 <= i < |entries| && entries[i].isDirectory && Parse(entries[i].name) == Some(v)
  }

  /** No version below the request, and none outside the numbers that the policy holds fast. */
  predicate Allows(policy: Policy, v: RuntimeVersion, requested: RuntimeVersion) {
    && Compare(v, requested) != Less
    && (policy == Disable ==> Compare(v, requested) == Equal)
    && (policy == LatestPatch || policy == Minor || policy == LatestMinor ==> v.major == requested.major)
    && (policy == LatestPatch ==> v.minor == requested.minor)
  }

  /** `Minor` and `Major` take the nearest numbers first, and all but `Disable` then take the latest. */
  predicate Prefers(policy: Policy, v: RuntimeVersion, w: RuntimeVersion) {
    if policy == Disable then true
    else if (policy == Minor || policy == Major) && (v.major != w.major || v.minor != w.minor) then
      v.major < w.major || (v.major == w.major && v.minor < w.minor)
    else Compare(v, w) != Less
  }

  /**
   * The runtime for a request, by the directories alone. A request for a release gets a prerelease only if the policy
   * allows no release that is there; a request for a prerelease gets the preferred version of either kind.
   */
  ghost predicate IsRuntimeFor(entries: seq<DirectoryEntry>, requested: RuntimeVersion, policy: Policy,
      r: Option<RuntimeVersion>) {
    match r
    case None => forall w | HasDirectory(entries, w) :: !Allows(policy, w, requested)
    case Some(v) =>
      && HasDirectory(entries, v) && Allows(policy, v, requested)
      && forall w | HasDirectory(entries, w) && Allows(policy, w, requested) ::
        if requested.prerelease.None? && v.prerelease.None? != w.prerelease.None? then v.prerelease.None?
        else Prefers(policy, v, w)
  }

  /** The installed versions are those that directories are named after; files and other names do not count. */
  lemma {:induction false} InstalledAreDirectories(entries: seq<DirectoryEntry>, v: RuntimeVersion)
    ensures v in Installed(entries) <==> HasDirectory(entries, v)
  {
    hide Parse;
    if entries != [] {
      var n := |entries| - 1;
      InstalledAreDirectories(entries[..n], v);
      assert forall i | 0 <= i < n :: entries[..n][i] == entries[i];
      if HasDirectory(entries[..n], v) {
        var i :| 0 <= i < n && entries[i].isDirectory && Parse(entries[i].name) == Some(v);
        assert HasDirectory(entries, v);
      }
      if HasDirectory(entries, v) && !(entries[n].isDirectory && Parse(entries[n].name) == Some(v)) {
        var i :| 0 <= i < |entries| && entries[i].isDirectory && Parse(entries[i].name) == Some(v);
        assert i < n && entries[..n][i] == entries[i];
      }
    }
  }

  /** Main result: whichever sorted order the installed versions have, the selection is the runtime for the request. */
  lemma SelectedIsRuntime(entries: seq<DirectoryEntry>, installed: seq<RuntimeVersion>, requested: RuntimeVersion, policy: Policy)
    requires multiset(installed) == multiset(Installed(entries))
    ensures IsRuntimeFor(entries, requested, policy, Select(installed, requested, policy))
  {
    hide Compare, SelectByPolicy, HasDirectory, Installed, Candidate, AsGood, Allows, Prefers;
    PolicyPicksBest(installed, requested, policy, true);
    PolicyPicksBest(installed, requested, policy, false);
    forall v ensures v in installed <==> HasDirectory(entries, v) {
      InstalledAreDirectories(entries, v);
      assert v in multiset(installed) <==> v in multiset(Installed(entries));
    }
    forall v, stableOnly ensures Candidate(v, requested, policy, stableOnly) <==>
                                 (stableOnly ==> v.prerelease.None?) && Allows(policy, v, requested)
    {
      CandidateIsAllowed(v, requested, policy, stableOnly);
    }
    forall v, w ensures AsGood(policy, v, w) <==> Prefers(policy, v, w) { AsGoodIsPreferred(policy, v, w); }
  }

  lemma CandidateIsAllowed(v: RuntimeVersion, requested: RuntimeVersion, policy: Policy, stableOnly: bool)
    ensures Candidate(v, requested, policy, stableOnly) <==>
            (stableOnly ==> v.prerelease.None?) && Allows(policy, v, requested)
  {
    hide Compare;
  }

  lemma AsGoodIsPreferred(policy: Policy, v: RuntimeVersion, w: RuntimeVersion)
    ensures AsGood(policy, v, w) <==> Prefers(policy, v, w)
  {
    hide Compare;
  }

  /** What a policy picks depends only on which versions are installed, up to build metadata. */
  lemma BestIsUnique(installed: seq<RuntimeVersion>, other: seq<RuntimeVersion>, requested: RuntimeVersion,
      policy: Policy, stableOnly: bool,
                     r: Option<RuntimeVersion>, r': Option<RuntimeVersion>)
    requires IsBest(installed, requested, policy, stableOnly, r) && IsBest(other, requested, policy, stableOnly, r')
    requires forall v :: v in installed <==> v in other
    ensures r.Some? == r'.Some? && (r.Some? ==> SamePrecedence(r.value, r'.value))
  {
    hide Compare, Candidate;
    if r.Some? && r'.Some? {
      CompareIsOrder(r.value, r'.value, requested);
      if policy.Disable? {
        assert Compare(r.value, requested) == Equal && Compare(r'.value, requested) == Equal by {
          DisableIsEqual(r.value, r'.value, requested, stableOnly);
        }
        CompareIsOrder(requested, r'.value, requested);
        CompareIsOrder(r'.value, requested, requested);
        CompareIsOrder(r.value, requested, r'.value);
      }
    }
  }

  lemma DisableIsEqual(v: RuntimeVersion, w: RuntimeVersion, requested: RuntimeVersion, stableOnly: bool)
    requires Candidate(v, requested, Disable, stableOnly) && Candidate(w, requested, Disable, stableOnly)
    ensures Compare(v, requested) == Equal && Compare(w, requested) == Equal
  {
  }

  /** One policy's band of candidates inside a wider policy's. */
  predicate Nested(narrow: Policy, wide: Policy) {
    (narrow == LatestPatch && wide == Minor) || (narrow == Minor && wide == Major)
  }

  /** `Minor` is `LatestPatch` and `Major` is `Minor` whenever the narrower one finds something at the same stage. */
  lemma WiderPolicyAgrees(installed: seq<RuntimeVersion>, requested: RuntimeVersion, narrow: Policy, wide: Policy,
      stableOnly: bool)
    requires Nested(narrow, wide) && SelectByPolicy(installed, requested, narrow, stableOnly).Some?
    ensures SelectByPolicy(installed, requested, wide, stableOnly) == SelectByPolicy(installed, requested, narrow, stableOnly)
  {
    hide SelectByPolicy, Greatest, LeastBand, Filter;
    SelectsAmongCandidates(installed, requested, narrow, stableOnly);
    SelectsAmongCandidates(installed, requested, wide, stableOnly);
    PolicyPicksBest(installed, requested, narrow, stableOnly);
    var found := SelectByPolicy(installed, requested, narrow, stableOnly).value;
    var few, many := Candidates(installed, requested, narrow, stableOnly), Candidates(installed, requested, wide, stableOnly);
    var isFew := (v: RuntimeVersion) => Candidate(v, requested, narrow, stableOnly);
    var isMany := (v: RuntimeVersion) => Candidate(v, requested, wide, stableOnly);
    FilterKeeps(installed, isFew);
    FilterKeeps(installed, isMany);
    LeastIsLeast(few);
    LeastIsLeast(many);
    NarrowIsNearer(installed, requested, narrow, wide, stableOnly, found);
    var nearest := LeastBand(many).value;
    assert found in many;
    var inBand := (v: RuntimeVersion) => BandOf(v) == nearest;
    FilterTwice(installed, isMany, inBand);
    if narrow == LatestPatch {
      assert nearest == BandOf(found);
      FilterSame(installed, v => isMany(v) && inBand(v), isFew);
    } else {
      assert found in few;
      assert nearest == LeastBand(few).value by {
        FewAreNearer(installed, requested, narrow, wide, stableOnly);
        SameLeast(few, many);
      }
      FilterTwice(installed, isFew, inBand);
      FilterSame(installed, v => isMany(v) && inBand(v), v => isFew(v) && inBand(v));
    }
  }

  /** What only the wider policy allows lies in a later band than everything the narrower one allows. */
  lemma NarrowIsNearer(installed: seq<RuntimeVersion>, requested: RuntimeVersion, narrow: Policy, wide: Policy,
      stableOnly: bool, found: RuntimeVersion)
    requires Nested(narrow, wide) && Candidate(found, requested, narrow, stableOnly)
    ensures Candidate(found, requested, wide, stableOnly)
    ensures forall v | Candidate(v, requested, narrow, stableOnly) :: Candidate(v, requested, wide, stableOnly)
    ensures forall v | Candidate(v, requested, wide, stableOnly) && !Candidate(v, requested, narrow, stableOnly) ::
              BandBefore(BandOf(found), BandOf(v))
    ensures narrow == LatestPatch ==> forall v | Candidate(v, requested, narrow, stableOnly) :: BandOf(v) == BandOf(found)
  {
  }

  lemma FewAreNearer(installed: seq<RuntimeVersion>, requested: RuntimeVersion, narrow: Policy, wide: Policy, stableOnly: bool)
    requires Nested(narrow, wide)
    ensures var few, many := Candidates(installed, requested, narrow, stableOnly),
              Candidates(installed, requested, wide, stableOnly);
            && (forall v | v in few :: v in many)
            && forall v, w | v in many && v !in few && w in few :: BandBefore(BandOf(w), BandOf(v))
  {
    hide Filter, Candidate;
    FilterKeeps(installed, v => Candidate(v, requested, narrow, stableOnly));
    FilterKeeps(installed, v => Candidate(v, requested, wide, stableOnly));
    var few := Candidates(installed, requested, narrow, stableOnly);
    forall w | w in few
      ensures Candidate(w, requested, wide, stableOnly)
      ensures forall v | Candidate(v, requested, wide, stableOnly) && !Candidate(v, requested, narrow, stableOnly) ::
                BandBefore(BandOf(w), BandOf(v))
    {
      NarrowIsNearer(installed, requested, narrow, wide, stableOnly, w);
    }
  }

  lemma SameLeast(few: seq<RuntimeVersion>, many: seq<RuntimeVersion>)
    requires few != [] && forall v | v in few :: v in many
    requires forall v, w | v in many && v !in few && w in few :: BandBefore(BandOf(w), BandOf(v))
    ensures LeastBand(many) == LeastBand(few)
  {
    hide LeastBand;
    LeastIsLeast(few);
    LeastIsLeast(many);
    assert few[0] in few;
    var v :| v in many && BandOf(v) == LeastBand(many).value;
    var w :| w in few && BandOf(w) == LeastBand(few).value;
  }

  /**
   * A stable request gets a prerelease only when the policy finds nothing stable; the result is always installed and
   * high enough.
   */
  lemma SelectIsSafe(installed: seq<RuntimeVersion>, requested: RuntimeVersion, policy: Policy)
    ensures var r := Select(installed, requested, policy);
            && (r.Some? ==> r.value in installed && AtLeast(r.value, requested))
            && (r.Some? && Stable(requested) && !Stable(r.value) ==>
                forall v | v in installed :: !Candidate(v, requested, policy, true))
            && (r.None? <==> forall v | v in installed :: !Candidate(v, requested, policy, false))
  {
    hide SelectByPolicy;
    PolicyPicksBest(installed, requested, policy, true);
    PolicyPicksBest(installed, requested, policy, false);
    assert forall v | Candidate(v, requested, policy, true) :: Candidate(v, requested, policy, false);
  }

  /** The chain of policies that take the latest. */
  predicate Wider(narrow: Policy, wide: Policy) {
    (narrow == LatestPatch && wide == LatestMinor) || (narrow == LatestMinor && wide == LatestMajor)
  }

  /** `LatestPatch`, `LatestMinor`, `LatestMajor`: each finds something where the one before does, and nothing lower. */
  lemma LatestIsMonotone(installed: seq<RuntimeVersion>, requested: RuntimeVersion, narrow: Policy, wide: Policy)
    requires Wider(narrow, wide) && Select(installed, requested, narrow).Some?
    ensures Select(installed, requested, wide).Some?
    ensures AtLeast(Select(installed, requested, wide).value, Select(installed, requested, narrow).value)
  {
    hide SelectByPolicy, Compare;
    PolicyPicksBest(installed, requested, narrow, true);
    PolicyPicksBest(installed, requested, narrow, false);
    PolicyPicksBest(installed, requested, wide, true);
    PolicyPicksBest(installed, requested, wide, false);
    var a := Select(installed, requested, narrow).value;
    WiderAllows(requested, narrow, wide, a);
    var b := Select(installed, requested, wide).value;
    if Stable(requested) && Stable(b) && !Candidate(b, requested, narrow, true) {
      BeyondIsGreater(requested, narrow, wide, a, b);
    }
  }

  lemma WiderAllows(requested: RuntimeVersion, narrow: Policy, wide: Policy, v: RuntimeVersion)
    requires Wider(narrow, wide)
    ensures forall stableOnly | Candidate(v, requested, narrow, stableOnly) :: Candidate(v, requested, wide, stableOnly)
  {
  }

  lemma BeyondIsGreater(requested: RuntimeVersion, narrow: Policy, wide: Policy, a: RuntimeVersion, b: RuntimeVersion)
    requires Wider(narrow, wide) && Candidate(a, requested, narrow, false)
    requires Candidate(b, requested, wide, true) && !Candidate(b, requested, narrow, true)
    ensures AtLeast(b, a)
  {
    hide ComparePrerelease;
  }

  /**
   * With the fallback to prereleases the nested policies can differ: the narrower one may fall back where the wider
   * one still finds something stable. They agree exactly when that does not happen: a prerelease is requested, or the
   * narrower policy has a stable candidate, or the wider one has none either.
   */
  lemma NestedSelectAgreesExactly(installed: seq<RuntimeVersion>, requested: RuntimeVersion, narrow: Policy, wide: Policy)
    requires Nested(narrow, wide) && Select(installed, requested, narrow).Some?
    ensures Select(installed, requested, wide) == Select(installed, requested, narrow) <==>
            || !Stable(requested)
            || (exists v :: v in installed && Candidate(v, requested, narrow, true))
            || forall v | v in installed :: !Candidate(v, requested, wide, true)
  {
    hide SelectByPolicy, Candidate;
    PolicyPicksBest(installed, requested, narrow, true);
    PolicyPicksBest(installed, requested, narrow, false);
    PolicyPicksBest(installed, requested, wide, true);
    forall stableOnly | SelectByPolicy(installed, requested, narrow, stableOnly).Some?
      ensures SelectByPolicy(installed, requested, wide, stableOnly) == SelectByPolicy(installed, requested, narrow, stableOnly)
    {
      WiderPolicyAgrees(installed, requested, narrow, wide, stableOnly);
    }
    StableStages(installed, requested, narrow, wide);
  }

  lemma StableStages(installed: seq<RuntimeVersion>, requested: RuntimeVersion, narrow: Policy, wide: Policy)
    requires Nested(narrow, wide)
    ensures SelectByPolicy(installed, requested, wide, true).Some? ==>
              Stable(SelectByPolicy(installed, requested, wide, true).value)
    ensures var r := SelectByPolicy(installed, requested, narrow, false);
            r.Some? && Stable(r.value) ==> SelectByPolicy(installed, requested, narrow, true).Some?
  {
    hide SelectByPolicy;
    PolicyPicksBest(installed, requested, wide, true);
    PolicyPicksBest(installed, requested, narrow, true);
    PolicyPicksBest(installed, requested, narrow, false);
    assert forall v | Stable(v) && Candidate(v, requested, narrow, false) :: Candidate(v, requested, narrow, true);
  }

  /** Such a case: 1.0.1-rc and 1.1.0 for a request of 1.0.0. */
  lemma NestedSelectCanDiffer() returns (installed: seq<RuntimeVersion>, requested: RuntimeVersion)
    ensures Select(installed, requested, LatestPatch).Some?
    ensures Select(installed, requested, Minor) != Select(installed, requested, LatestPatch)
  {
    requested := RuntimeVersion("1.0.0", 1, 0, 0, None);
    var rc, next := RuntimeVersion("1.0.1-rc", 1, 0, 1, Some("rc")), RuntimeVersion("1.1.0", 1, 1, 0, None);
    installed := [rc, next];
    hide SelectByPolicy, Candidate;
    PolicyPicksBest(installed, requested, LatestPatch, true);
    PolicyPicksBest(installed, requested, LatestPatch, false);
    OnlyTheNextIsStable(requested, rc, next);
    assert rc in installed && next in installed;
    NestedSelectAgreesExactly(installed, requested, LatestPatch, Minor);
  }

  lemma OnlyTheNextIsStable(requested: RuntimeVersion, rc: RuntimeVersion, next: RuntimeVersion)
    requires requested == RuntimeVersion("1.0.0", 1, 0, 0, None)
    requires rc == RuntimeVersion("1.0.1-rc", 1, 0, 1, Some("rc")) && next == RuntimeVersion("1.1.0", 1, 1, 0, None)
    ensures Candidate(rc, requested, LatestPatch, false) && Candidate(next, requested, Minor, true)
    ensures !Candidate(rc, requested, LatestPatch, true) && !Candidate(next, requested, LatestPatch, true)
  {
  }
}
