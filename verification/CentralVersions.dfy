/** Central package versions (crates/dv-core/src/project.rs, inside `materialize_project`). */
module CentralVersions {
  import opened Wrappers
  import opened Ascii
  import opened TextOrder

  // The declarations that apply are sorted without regard to case, duplicates are refused, and references look their
  // version up.

  datatype CentralVersion = CentralVersion(id: string, version: string)

  /** A declaration as read: whether its conditions hold, or their error, and a version if it has one. */
  datatype Declaration = Declaration(id: string, version: Option<string>, applies: Result<bool, nat>)

  datatype CentralError =
    | ConditionFailed(fault: nat) | MissingVersion(id: string) | NotLiteral(id: string) | Duplicate(id: string)
    | OverrideDisabled | LocalVersion | Unlisted

  // ---------------------------------------------------------------- order without case

  function Lowered(s: string): (t: string)
    ensures |t| == |s| && forall i | 0 <= i < |s| :: t[i] == Lower(s[i])
  {
    seq(|s|, i requires 0 <= i < |s| => Lower(s[i]))
  }

  lemma LoweredIsCaseless(a: string, b: string)
    ensures Lowered(a) == Lowered(b) <==> EqIgnoreCase(a, b)
  {
    if Lowered(a) == Lowered(b) {
      assert |a| == |b| && forall i | 0 <= i < |a| :: Lowered(a)[i] == Lowered(b)[i];
    }
  }

  function Keys(versions: seq<CentralVersion>): (keys: seq<string>)
    ensures |keys| == |versions| && forall i | 0 <= i < |keys| :: keys[i] == Lowered(versions[i].id)
  {
    seq(|versions|, i requires 0 <= i < |versions| => Lowered(versions[i].id))
  }

  predicate NotAbove(a: string, b: string) {
    a == b || Before(a, b)
  }

  predicate Sorted(versions: seq<CentralVersion>) {
    forall i, j | 0 <= i < j < |versions| :: NotAbove(Lowered(versions[i].id), Lowered(versions[j].id))
  }

  // ---------------------------------------------------------------- selection

  /** What is wrong with a declaration that applies, if anything. `literal` says whether a version is a literal one. */
  function Problem(declaration: Declaration, literal: string -> bool, reference: bool): Option<CentralError> {
    match declaration.version
    case None => Some(MissingVersion(declaration.id))
    case Some(version) =>
      if declaration.id == "" || reference || !literal(version) then Some(NotLiteral(declaration.id)) else None
  }

  predicate HasReference(id: string) {
    exists i | 0 <= i < |id| - 1 :: id[i] == '$' && id[i + 1] == '('
  }

  /** The declarations that apply, or the first problem. */
  function Applying(declarations: seq<Declaration>, literal: string -> bool, n: nat): Result<seq<CentralVersion>, CentralError>
    requires n <= |declarations|
  {
    if n == 0 then Success([]) else
      match Applying(declarations, literal, n - 1)
      case Failure(e) => Failure(e)
      case Success(versions) =>
        var declaration := declarations[n - 1];
        match declaration.applies
        case Failure(fault) => Failure(ConditionFailed(fault))
        case Success(false) => Success(versions)
        case Success(true) =>
          match Problem(declaration, literal, HasReference(declaration.id))
          case Some(e) => Failure(e)
          case None => Success(versions + [CentralVersion(declaration.id, declaration.version.value)])
  }

  method InsertionPoint(sorted: seq<CentralVersion>, key: string) returns (at: nat)
    requires Sorted(sorted)
    ensures at <= |sorted|
    ensures forall i | 0 <= i < at :: NotAbove(Lowered(sorted[i].id), key)
    ensures forall i | at <= i < |sorted| :: NotAbove(key, Lowered(sorted[i].id))
  {
    at := |sorted|;
    while at > 0 && Before(key, Lowered(sorted[at - 1].id))
      invariant at <= |sorted| && forall i | at <= i < |sorted| :: NotAbove(key, Lowered(sorted[i].id))
    {
      at := at - 1;
    }
    if at > 0 {
      BeforeIsTotal(key, Lowered(sorted[at - 1].id));
      forall i | 0 <= i < at - 1 ensures NotAbove(Lowered(sorted[i].id), key) {
        NotAboveIsTransitive(Lowered(sorted[i].id), Lowered(sorted[at - 1].id), key);
      }
    }
  }

  lemma NotAboveIsTransitive(a: string, b: string, c: string)
    requires NotAbove(a, b) && NotAbove(b, c)
    ensures NotAbove(a, c)
  {
    if a != b && b != c { BeforeIsTransitive(a, b, c); }
  }

  method SortById(versions: seq<CentralVersion>) returns (sorted: seq<CentralVersion>)
    ensures Sorted(sorted) && multiset(sorted) == multiset(versions)
  {
    hide NotAbove;
    sorted := [];
    var n := 0;
    while n < |versions|
      invariant n <= |versions| && Sorted(sorted) && multiset(sorted) == multiset(versions[..n])
    {
      var at := InsertionPoint(sorted, Lowered(versions[n].id));
      assert sorted == sorted[..at] + sorted[at..] && versions[..n + 1] == versions[..n] + [versions[n]];
      sorted := sorted[..at] + [versions[n]] + sorted[at..];
      n := n + 1;
    }
    assert versions[..n] == versions;
  }

  /** Two applying declarations of one package. */
  ghost predicate HasDuplicate(versions: seq<CentralVersion>) {
    exists i, j :: 0 <= i < j < |versions| && EqIgnoreCase(versions[i].id, versions[j].id)
  }

  /**
   * The table of versions: sorted, without duplicates, and exactly the applying declarations. It is refused exactly
   * when a declaration has a problem or two name the same package.
   */
  ghost predicate Selects(declarations: seq<Declaration>, literal: string -> bool, r: Result<seq<CentralVersion>, CentralError>) {
    match Applying(declarations, literal, |declarations|)
    case Failure(e) => r == Failure(e)
    case Success(versions) =>
      if HasDuplicate(versions) then r.Failure? && r.error.Duplicate?
      else r.Success? && Increasing(Keys(r.value)) && multiset(r.value) == multiset(versions)
  }

  method SelectCentralVersions(declarations: seq<Declaration>, literal: string -> bool)
      returns (r: Result<seq<CentralVersion>, CentralError>)
    ensures Selects(declarations, literal, r)
  {
    hide HasDuplicate, EqIgnoreCase, Sorted, Increasing, HasReference;
    var selected: seq<CentralVersion> := [];
    var n := 0;
    while n < |declarations|
      invariant n <= |declarations| && Applying(declarations, literal, n) == Success(selected)
    {
      ApplyingFails(declarations, literal, n + 1, |declarations|);
      var declaration := declarations[n];
      if declaration.applies.Failure? { return Failure(ConditionFailed(declaration.applies.error)); }
      if declaration.applies.value {
        var problem := Problem(declaration, literal, HasReference(declaration.id));
        if problem.Some? { return Failure(problem.value); }
        selected := selected + [CentralVersion(declaration.id, declaration.version.value)];
      }
      n := n + 1;
    }
    var sorted := SortById(selected);
    var duplicate := AdjacentDuplicate(sorted);
    DuplicatesAreShared(sorted, selected);
    DuplicatesAreShared(selected, sorted);
    return if duplicate.Some? then Failure(Duplicate(duplicate.value)) else Success(sorted);
  }

  /** In a sorted table duplicates are neighbours. */
  method AdjacentDuplicate(sorted: seq<CentralVersion>) returns (duplicate: Option<string>)
    requires Sorted(sorted)
    ensures if HasDuplicate(sorted) then duplicate.Some? else duplicate.None? && Increasing(Keys(sorted))
  {
    hide EqIgnoreCase;
    var k := 1;
    while k < |sorted|
      invariant 1 <= k && (k <= |sorted| || |sorted| == 0)
      invariant forall i | 0 < i < k && i < |sorted| :: !EqIgnoreCase(sorted[i - 1].id, sorted[i].id)
    {
      if EqIgnoreCase(sorted[k - 1].id, sorted[k].id) { return Some(sorted[k].id); }
      k := k + 1;
    }
    NeighboursDiffer(sorted);
    NoDuplicateWhenIncreasing(sorted);
    return None;
  }

  lemma {:induction false} ApplyingFails(declarations: seq<Declaration>, literal: string -> bool, n: nat, m: nat)
    requires n <= m <= |declarations|
    ensures Applying(declarations, literal, n).Failure? ==>
              Applying(declarations, literal, m) == Applying(declarations, literal, n)
  {
    if n < m { ApplyingFails(declarations, literal, n, m - 1); }
  }

  lemma NeighboursDiffer(sorted: seq<CentralVersion>)
    requires Sorted(sorted) && forall i | 0 < i < |sorted| :: !EqIgnoreCase(sorted[i - 1].id, sorted[i].id)
    ensures Increasing(Keys(sorted))
  {
    forall i, j | 0 <= i < j < |sorted| ensures Before(Lowered(sorted[i].id), Lowered(sorted[j].id)) {
      LoweredIsCaseless(sorted[j - 1].id, sorted[j].id);
      assert !EqIgnoreCase(sorted[j - 1].id, sorted[j].id);
      if i < j - 1 {
        assert NotAbove(Lowered(sorted[i].id), Lowered(sorted[j - 1].id));
        var a, b, c := Lowered(sorted[i].id), Lowered(sorted[j - 1].id), Lowered(sorted[j].id);
        if a != b { BeforeIsTransitive(a, b, c); }
      }
    }
  }

  lemma NoDuplicateWhenIncreasing(versions: seq<CentralVersion>)
    requires Increasing(Keys(versions))
    ensures !HasDuplicate(versions)
  {
    forall i, j | 0 <= i < j < |versions| ensures !EqIgnoreCase(versions[i].id, versions[j].id) {
      LoweredIsCaseless(versions[i].id, versions[j].id);
      assert Before(Keys(versions)[i], Keys(versions)[j]);
      BeforeIsIrreflexive(Keys(versions)[i]);
    }
  }

  lemma WithoutOne<T>(s: seq<T>, q: nat)
    requires q < |s|
    ensures multiset(s[..q] + s[q + 1..]) == multiset(s) - multiset{s[q]}
  {
    assert s == s[..q] + ([s[q]] + s[q + 1..]);
  }

  /** A duplicate does not depend on the order. */
  lemma DuplicatesAreShared(a: seq<CentralVersion>, b: seq<CentralVersion>)
    requires multiset(a) == multiset(b)
    ensures HasDuplicate(a) ==> HasDuplicate(b)
  {
    hide EqIgnoreCase;
    if HasDuplicate(a) {
      var i, j :| 0 <= i < j < |a| && EqIgnoreCase(a[i].id, a[j].id);
      assert a[j] in multiset(a);
      var q := PlaceOf(b, a[j]);
      WithoutOne(a, j);
      WithoutOne(b, q);
      var rest, others := a[..j] + a[j + 1..], b[..q] + b[q + 1..];
      assert rest[i] == a[i] && rest[i] in multiset(rest);
      var p := PlaceOf(others, a[i]);
      PairAt(b, others, p, q);
    }
  }

  lemma PairAt(b: seq<CentralVersion>, others: seq<CentralVersion>, p: nat, q: nat)
    requires q < |b| && others == b[..q] + b[q + 1..] && p < |others| && EqIgnoreCase(others[p].id, b[q].id)
    ensures HasDuplicate(b)
  {
    if p < q {
      assert b[p] == others[p];
    } else {
      assert b[p + 1] == others[p];
      assert EqIgnoreCase(b[q].id, b[p + 1].id);
    }
  }

  lemma PlaceOf(s: seq<CentralVersion>, x: CentralVersion) returns (q: nat)
    requires x in multiset(s)
    ensures q < |s| && s[q] == x
  {
    q :| 0 <= q < |s| && s[q] == x;
  }

  // ---------------------------------------------------------------- lookup

  function Lookup(versions: seq<CentralVersion>, id: string): Option<string>
    requires Increasing(Keys(versions))
  {
    match BinarySearch(Keys(versions), Lowered(id))
    case Success(i) => Some(versions[i].version)
    case Failure(_) => None
  }

  datatype PackageReference = PackageReference(id: string, version: Option<string>, versionOverride: Option<string>)

  /** The version of one package reference under the project's management settings. */
  function ResolveVersion(reference: PackageReference, central: bool, overrides: bool, versions: seq<CentralVersion>)
    : Result<Option<string>, CentralError>
    requires Increasing(Keys(versions))
  {
    if reference.versionOverride.Some? then
      if central && !overrides then Failure(OverrideDisabled) else Success(reference.versionOverride)
    else if !central then Success(reference.version)
    else if reference.version.Some? then Failure(LocalVersion)
    else
      match Lookup(versions, reference.id)
      case None => Failure(Unlisted)
      case Some(version) => Success(Some(version))
  }

  /** Lookup finds exactly the declared version of a package, whatever the spelling of either. */
  lemma LookupIsDeclaration(versions: seq<CentralVersion>, id: string, version: string)
    requires Increasing(Keys(versions))
    ensures Lookup(versions, id) == Some(version) <==>
            exists i :: 0 <= i < |versions| && EqIgnoreCase(versions[i].id, id) && versions[i].version == version
  {
    forall i | 0 <= i < |versions| && EqIgnoreCase(versions[i].id, id) ensures Lookup(versions, id) == Some(versions[i].version) {
      LoweredIsCaseless(versions[i].id, id);
      assert Keys(versions)[i] == Lowered(id);
      IncreasingIsDistinct(Keys(versions), BinarySearch(Keys(versions), Lowered(id)).value, i);
    }
    if Lookup(versions, id) == Some(version) {
      var i := BinarySearch(Keys(versions), Lowered(id)).value;
      LoweredIsCaseless(versions[i].id, id);
    }
  }

  /** A version is declared for the package, however either is spelled. */
  ghost predicate IsListed(versions: seq<CentralVersion>, id: string, version: string) {
    exists i :: 0 <= i < |versions| && EqIgnoreCase(versions[i].id, id) && versions[i].version == version
  }

  /**
   * The version of a reference: its override where overrides are possible, its own version without central management,
   * and otherwise the declared one, which it may not have besides one of its own.
   */
  lemma ResolvedIsDeclared(reference: PackageReference, central: bool, overrides: bool, versions: seq<CentralVersion>,
      version: string)
    requires Increasing(Keys(versions))
    ensures var r, own := ResolveVersion(reference, central, overrides, versions), reference.version;
            && (r == Success(Some(version)) <==>
                || (reference.versionOverride == Some(version) && (central ==> overrides))
                || (reference.versionOverride.None? && !central && own == Some(version))
                || (reference.versionOverride.None? && central && own.None? && IsListed(versions, reference.id, version)))
            && (r == Success(None) <==> reference.versionOverride.None? && !central && own.None?)
            && (r.Failure? <==> central && if reference.versionOverride.Some? then !overrides
                                           else own.Some? || forall v :: !IsListed(versions, reference.id, v))
  {
    hide Increasing, Keys, Lookup;
    LookupIsDeclaration(versions, reference.id, version);
    forall v ensures Lookup(versions, reference.id) == Some(v) <==> IsListed(versions, reference.id, v) {
      LookupIsDeclaration(versions, reference.id, v);
    }
  }

  // ---------------------------------------------------------------- what is selected

  /** No dollar sign in front of an opening parenthesis. */
  predicate IsPlain(id: string) {
    forall i, j | 0 <= i < j == i + 1 < |id| :: id[i] == '$' ==> id[j] != '('
  }

  /** A declaration whose conditions hold and that has a literal version for a literal id. */
  predicate Declares(d: Declaration, literal: string -> bool, id: string, version: string) {
    && d.applies == Success(true) && d.id == id && d.version == Some(version) && literal(version)
    && id != "" && IsPlain(id)
  }

  /** A declaration that makes the project fail. */
  ghost predicate IsFaulty(d: Declaration, literal: string -> bool) {
    d.applies.Failure? || (d.applies.value && forall id, version :: !Declares(d, literal, id, version))
  }

  /** The error of such a declaration. */
  predicate Blames(d: Declaration, error: CentralError) {
    if d.applies.Failure? then error == ConditionFailed(d.applies.error)
    else error == if d.version.None? then MissingVersion(d.id) else NotLiteral(d.id)
  }

  lemma PlainHasNoReference(id: string)
    ensures HasReference(id) <==> !IsPlain(id)
  {
    if HasReference(id) {
      var i :| 0 <= i < |id| - 1 && id[i] == '$' && id[i + 1] == '(';
      var j := i + 1;
      assert id[j] == '(';
    }
  }

  lemma ProblemExactly(d: Declaration, literal: string -> bool)
    requires d.applies == Success(true)
    ensures match Problem(d, literal, HasReference(d.id))
            case Some(e) => IsFaulty(d, literal) && Blames(d, e)
            case None => d.version.Some? && !IsFaulty(d, literal) && Declares(d, literal, d.id, d.version.value)
  {
    hide HasReference, IsPlain;
    PlainHasNoReference(d.id);
    if d.version.Some? && Problem(d, literal, HasReference(d.id)).None? {
      assert Declares(d, literal, d.id, d.version.value);
    }
  }

  /** The places of the declarations that apply. */
  function Places(declarations: seq<Declaration>, n: nat): (places: seq<nat>)
    requires n <= |declarations|
    ensures forall k | 0 <= k < |places| :: places[k] < n && declarations[places[k]].applies == Success(true)
    ensures forall i | 0 <= i < n && declarations[i].applies == Success(true) :: i in places
    ensures forall k, l | 0 <= k < l < |places| :: places[k] < places[l]
  {
    if n == 0 then [] else
      var rest := Places(declarations, n - 1);
      if declarations[n - 1].applies == Success(true) then rest + [n - 1] else rest
  }

  ghost predicate NoneFaulty(declarations: seq<Declaration>, literal: string -> bool, n: nat)
    requires n <= |declarations|
  {
    forall i | 0 <= i < n :: !IsFaulty(declarations[i], literal)
  }

  /** The versions are those that the declarations at these places declare, in this order. */
  predicate AreDeclared(declarations: seq<Declaration>, literal: string -> bool, places: seq<nat>, versions: seq<CentralVersion>)
    requires forall k | 0 <= k < |places| :: places[k] < |declarations|
  {
    |versions| == |places| && forall k | 0 <= k < |versions| ::
        Declares(declarations[places[k]], literal, versions[k].id, versions[k].version)
  }

  /** The applying versions are those of the places that apply, in order; the first faulty declaration is the error. */
  lemma {:induction false} ApplyingExactly(declarations: seq<Declaration>, literal: string -> bool, n: nat)
    requires n <= |declarations|
    ensures match Applying(declarations, literal, n)
            case Failure(e) =>
              exists i: nat :: i < n && IsFaulty(declarations[i], literal) && Blames(declarations[i], e)
                               && NoneFaulty(declarations, literal, i)
            case Success(versions) =>
              NoneFaulty(declarations, literal, n) && AreDeclared(declarations, literal, Places(declarations, n), versions)
  {
    hide IsFaulty, Declares, Blames, Problem, NoneFaulty, AreDeclared, HasReference;
    if n == 0 {
      NothingApplies(declarations, literal);
    } else {
      ApplyingExactly(declarations, literal, n - 1);
      var d := declarations[n - 1];
      if d.applies == Success(true) { ProblemExactly(d, literal); } else { NotFaulty(d, literal); }
      OneMoreApplies(declarations, literal, n);
    }
  }

  lemma {:induction false} NothingApplies(declarations: seq<Declaration>, literal: string -> bool)
    ensures NoneFaulty(declarations, literal, 0) && AreDeclared(declarations, literal, Places(declarations, 0), [])
  {
  }

  lemma {:induction false} OneMoreApplies(declarations: seq<Declaration>, literal: string -> bool, n: nat)
    requires 0 < n <= |declarations|
    ensures NoneFaulty(declarations, literal, n) <==>
            NoneFaulty(declarations, literal, n - 1) && !IsFaulty(declarations[n - 1], literal)
    ensures declarations[n - 1].applies != Success(true) ==> Places(declarations, n) == Places(declarations, n - 1)
    ensures declarations[n - 1].applies == Success(true) ==> forall versions, v: CentralVersion |
              AreDeclared(declarations, literal, Places(declarations, n - 1), versions)
              && Declares(declarations[n - 1], literal, v.id, v.version) ::
                AreDeclared(declarations, literal, Places(declarations, n), versions + [v])
  {
    hide IsFaulty, Declares;
  }

  lemma NotFaulty(d: Declaration, literal: string -> bool)
    requires d.applies != Success(true)
    ensures if d.applies.Failure? then IsFaulty(d, literal) && Blames(d, ConditionFailed(d.applies.error))
            else !IsFaulty(d, literal)
  {
  }

  /** Two declarations that apply to one package. */
  ghost predicate DeclaredTwice(declarations: seq<Declaration>) {
    exists i, j :: 0 <= i < j < |declarations| && declarations[i].applies == declarations[j].applies == Success(true)
                   && EqIgnoreCase(declarations[i].id, declarations[j].id)
  }

  /**
   * Main result: the table is refused exactly for a faulty declaration or a package declared twice, and otherwise lists
   * what the applying declarations declare and nothing else.
   */
  lemma {:induction false} SelectedAreDeclared(declarations: seq<Declaration>, literal: string -> bool,
      r: Result<seq<CentralVersion>, CentralError>)
    requires Selects(declarations, literal, r)
    ensures r.Success? <==> NoneFaulty(declarations, literal, |declarations|) && !DeclaredTwice(declarations)
    ensures r.Success? ==> forall id, version ::
      CentralVersion(id, version) in r.value <==>
      exists i :: 0 <= i < |declarations| && Declares(declarations[i], literal, id, version)
  {
    hide IsFaulty, Blames, EqIgnoreCase, Increasing, Keys, NoneFaulty, AreDeclared, Declares, HasDuplicate, DeclaredTwice, Places,
      Applying;
    var n := |declarations|;
    ApplyingExactly(declarations, literal, n);
    var applying := Applying(declarations, literal, n);
    if applying.Success? {
      var versions, places := applying.value, Places(declarations, n);
      DuplicatesAt(declarations, literal, versions);
      if r.Success? {
        forall id, version ensures CentralVersion(id, version) in r.value <==>
                                   exists i :: 0 <= i < n && Declares(declarations[i], literal, id, version)
        {
          var v := CentralVersion(id, version);
          assert v in multiset(r.value) <==> v in multiset(versions);
          ListedIsDeclared(declarations, literal, versions, id, version);
        }
      }
    } else {
      var i: nat :| i < n && IsFaulty(declarations[i], literal);
      assert !NoneFaulty(declarations, literal, n) by { SomeFaulty(declarations, literal, i); }
    }
  }

  lemma {:induction false} SomeFaulty(declarations: seq<Declaration>, literal: string -> bool, i: nat)
    requires i < |declarations| && IsFaulty(declarations[i], literal)
    ensures !NoneFaulty(declarations, literal, |declarations|)
  {
    hide IsFaulty;
  }

  lemma {:induction false} ListedIsDeclared(declarations: seq<Declaration>, literal: string -> bool,
      versions: seq<CentralVersion>,
                         id: string, version: string)
    requires AreDeclared(declarations, literal, Places(declarations, |declarations|), versions)
    ensures CentralVersion(id, version) in versions <==>
            exists i :: 0 <= i < |declarations| && Declares(declarations[i], literal, id, version)
  {
    var v, places := CentralVersion(id, version), Places(declarations, |declarations|);
    hide Places, IsPlain;
    if v in versions {
      var k :| 0 <= k < |versions| && versions[k] == v;
      assert Declares(declarations[places[k]], literal, id, version);
    }
    if i :| 0 <= i < |declarations| && Declares(declarations[i], literal, id, version) {
      assert i in places;
      var k :| 0 <= k < |places| && places[k] == i;
      assert Declares(declarations[places[k]], literal, versions[k].id, versions[k].version) && versions[k] == v;
    }
  }

  /** The ids of the versions are those of the declarations at their places. */
  predicate SameIds(declarations: seq<Declaration>, places: seq<nat>, versions: seq<CentralVersion>) {
    |versions| == |places| && forall k | 0 <= k < |versions| ::
        places[k] < |declarations| && declarations[places[k]].applies == Success(true)
        && declarations[places[k]].id == versions[k].id
  }

  lemma {:induction false} DuplicatesAt(declarations: seq<Declaration>, literal: string -> bool, versions: seq<CentralVersion>)
    requires AreDeclared(declarations, literal, Places(declarations, |declarations|), versions)
    ensures HasDuplicate(versions) <==> DeclaredTwice(declarations)
  {
    var places := Places(declarations, |declarations|);
    assert SameIds(declarations, places, versions) by { hide Places, IsPlain; }
    hide EqIgnoreCase, Places, Declares, AreDeclared, SameIds, HasDuplicate, DeclaredTwice;
    if HasDuplicate(versions) { DuplicateIsTwice(declarations, places, versions); }
    if DeclaredTwice(declarations) {
      var i: nat, j: nat := DeclaredAt(declarations);
      var k := PlaceAt(declarations, i);
      var l := PlaceAt(declarations, j);
      PlacesAreDuplicates(declarations, places, versions, k, l);
    }
  }

  lemma DuplicateIsTwice(declarations: seq<Declaration>, places: seq<nat>, versions: seq<CentralVersion>)
    requires SameIds(declarations, places, versions) && HasDuplicate(versions)
    requires forall k, l | 0 <= k < l < |places| :: places[k] < places[l]
    ensures DeclaredTwice(declarations)
  {
    hide EqIgnoreCase;
    var k, l :| 0 <= k < l < |versions| && EqIgnoreCase(versions[k].id, versions[l].id);
    assert places[k] < places[l];
  }

  lemma DeclaredAt(declarations: seq<Declaration>) returns (i: nat, j: nat)
    requires DeclaredTwice(declarations)
    ensures i < j < |declarations| && declarations[i].applies == declarations[j].applies == Success(true)
    ensures EqIgnoreCase(declarations[i].id, declarations[j].id)
  {
    hide EqIgnoreCase;
    i, j :| 0 <= i < j < |declarations| && declarations[i].applies == declarations[j].applies == Success(true)
      && EqIgnoreCase(declarations[i].id, declarations[j].id);
  }

  lemma PlacesAreDuplicates(declarations: seq<Declaration>, places: seq<nat>, versions: seq<CentralVersion>, k: nat, l: nat)
    requires SameIds(declarations, places, versions) && k < |places| && l < |places| && places[k] < places[l] < |declarations|
    requires forall k, l | 0 <= k < l < |places| :: places[k] < places[l]
    requires EqIgnoreCase(declarations[places[k]].id, declarations[places[l]].id)
    ensures HasDuplicate(versions)
  {
    hide EqIgnoreCase;
    assert k < l && EqIgnoreCase(versions[k].id, versions[l].id);
  }

  lemma {:induction false} PlaceAt(declarations: seq<Declaration>, i: nat) returns (k: nat)
    requires i < |declarations| && declarations[i].applies == Success(true)
    ensures k < |Places(declarations, |declarations|)| && Places(declarations, |declarations|)[k] == i
  {
    var places := Places(declarations, |declarations|);
    hide Places;
    assert i in places;
    k :| 0 <= k < |places| && places[k] == i;
  }

  /** There is only one sorted order of the same versions. */
  lemma {:induction false} SortedTablesAgree(a: seq<CentralVersion>, b: seq<CentralVersion>)
    requires Increasing(Keys(a)) && Increasing(Keys(b)) && multiset(a) == multiset(b)
    ensures a == b
    decreases |a|
  {
    hide Increasing, Keys;
    SameSize(a, b);
    if a != [] {
      LastsAgree(a, b);
      WithoutLast(a);
      WithoutLast(b);
      SortedTablesAgree(a[..|a| - 1], b[..|b| - 1]);
      SameEnds(a, b);
    }
  }

  lemma SameSize(a: seq<CentralVersion>, b: seq<CentralVersion>)
    requires multiset(a) == multiset(b)
    ensures |a| == |b|
  {
    assert |a| == |multiset(a)| == |multiset(b)| == |b|;
  }

  lemma SameEnds(a: seq<CentralVersion>, b: seq<CentralVersion>)
    requires |a| == |b| > 0 && a[..|a| - 1] == b[..|b| - 1] && a[|a| - 1] == b[|b| - 1]
    ensures a == b
  {
    assert a == a[..|a| - 1] + [a[|a| - 1]] && b == b[..|b| - 1] + [b[|b| - 1]];
  }

  lemma LastsAgree(a: seq<CentralVersion>, b: seq<CentralVersion>)
    requires Increasing(Keys(a)) && Increasing(Keys(b)) && |a| == |b| > 0 && multiset(a) == multiset(b)
    ensures a[|a| - 1] == b[|b| - 1]
  {
    var n := |a| - 1;
    assert a[n] in multiset(a) && b[n] in multiset(b);
    var q := PlaceOf(b, a[n]);
    var p := PlaceOf(a, b[n]);
    LastIsGreatest(a, b, p, q);
  }

  lemma WithoutLast(a: seq<CentralVersion>)
    requires a != [] && Increasing(Keys(a))
    ensures Increasing(Keys(a[..|a| - 1])) && multiset(a[..|a| - 1]) == multiset(a) - multiset{a[|a| - 1]}
  {
    WithoutOne(a, |a| - 1);
    assert a[..|a| - 1] + a[|a|..] == a[..|a| - 1];
    assert Keys(a[..|a| - 1]) == Keys(a)[..|a| - 1];
  }

  lemma LastIsGreatest(a: seq<CentralVersion>, b: seq<CentralVersion>, p: nat, q: nat)
    requires Increasing(Keys(a)) && Increasing(Keys(b)) && |a| == |b| > 0
    requires q < |b| && b[q] == a[|a| - 1] && p < |a| && a[p] == b[|b| - 1]
    ensures a[|a| - 1] == b[|b| - 1]
  {
    var n := |a| - 1;
    if q < n && p < n {
      assert Before(Keys(b)[q], Keys(b)[n]) && Before(Keys(a)[p], Keys(a)[n]);
      BeforeIsTransitive(Keys(a)[n], Keys(a)[p], Keys(a)[n]);
      BeforeIsIrreflexive(Keys(a)[n]);
      assert false;
    }
  }

  // ---------------------------------------------------------------- the order of the declarations

  lemma {:induction false} ApplyingPrefix(declarations: seq<Declaration>, more: seq<Declaration>, literal: string -> bool, n: nat)
    requires n <= |declarations|
    ensures Applying(declarations + more, literal, n) == Applying(declarations, literal, n)
  {
    hide HasReference, Problem;
    if n > 0 {
      ApplyingPrefix(declarations, more, literal, n - 1);
    }
  }

  /** Declarations are judged one by one: those of two lists apply if those of each do, one list behind the other. */
  lemma {:induction false} ApplyingBoth(a: seq<Declaration>, b: seq<Declaration>, literal: string -> bool)
    ensures var front, back, all := Applying(a, literal, |a|), Applying(b, literal, |b|), Applying(a + b, literal, |a + b|);
            && (all.Success? <==> front.Success? && back.Success?)
            && (all.Success? ==> all.value == front.value + back.value)
    decreases |b|
  {
    if b == [] {
      assert a + b == a;
    } else {
      var most, last := b[..|b| - 1], b[|b| - 1];
      assert a + b == (a + most) + [last] && b == most + [last];
      ApplyingBoth(a, most, literal);
      ApplyingLast(a + most, last, literal);
      ApplyingLast(most, last, literal);
    }
  }

  /** What one more declaration does, whatever stands in front of it. */
  lemma ApplyingLast(a: seq<Declaration>, last: Declaration, literal: string -> bool)
    ensures var front, one, all := Applying(a, literal, |a|), Applying([last], literal, 1),
              Applying(a + [last], literal, |a| + 1);
            && (all.Success? <==> front.Success? && one.Success?)
            && (all.Success? ==> all.value == front.value + one.value)
  {
    hide HasReference;
    ApplyingPrefix(a, [last], literal, |a|);
    assert Applying([last], literal, 0) == Success([]);
  }

  /** Permuted declarations apply or fail together, and the same versions apply. */
  lemma {:induction false} ApplyingPermuted(a: seq<Declaration>, b: seq<Declaration>, literal: string -> bool)
    requires multiset(a) == multiset(b)
    ensures var one, two := Applying(a, literal, |a|), Applying(b, literal, |b|);
            && (one.Success? <==> two.Success?)
            && (one.Success? ==> multiset(one.value) == multiset(two.value))
    decreases |a|
  {
    hide Applying;
    assert |a| == |multiset(a)| == |multiset(b)| == |b|;
    if a != [] {
      var last := a[|a| - 1];
      assert last in multiset(a);
      var q :| 0 <= q < |b| && b[q] == last;
      WithoutOne(a, |a| - 1);
      WithoutOne(b, q);
      assert a[..|a| - 1] + a[|a|..] == a[..|a| - 1];
      ApplyingPermuted(a[..|a| - 1], b[..q] + b[q + 1..], literal);
      ApplyingAround(a, |a| - 1, literal);
      ApplyingAround(b, q, literal);
    } else {
      assert b == [];
    }
  }

  /** One declaration adds its own versions, wherever it stands. */
  lemma ApplyingAround(s: seq<Declaration>, q: nat, literal: string -> bool)
    requires q < |s|
    ensures var rest := s[..q] + s[q + 1..];
            var others, one, all := Applying(rest, literal, |rest|), Applying([s[q]], literal, 1), Applying(s, literal, |s|);
            && (all.Success? <==> others.Success? && one.Success?)
            && (all.Success? ==> multiset(all.value) == multiset(others.value) + multiset(one.value))
  {
    hide Applying;
    var front, back := s[..q], s[q + 1..];
    assert s == front + ([s[q]] + back);
    ApplyingBoth(front, back, literal);
    ApplyingBoth(front, [s[q]] + back, literal);
    ApplyingBoth([s[q]], back, literal);
  }

  /**
   * Main result: permuting the declarations changes nothing. They are refused in every order or in none, and the table,
   * and with it every lookup, is the same.
   */
  lemma OrderDoesNotMatter(a: seq<Declaration>, b: seq<Declaration>, literal: string -> bool,
                           one: Result<seq<CentralVersion>, CentralError>, two: Result<seq<CentralVersion>, CentralError>)
    requires multiset(a) == multiset(b) && Selects(a, literal, one) && Selects(b, literal, two)
    ensures one.Success? <==> two.Success?
    ensures one.Success? ==> one == two
  {
    hide Applying, HasDuplicate, Increasing, Keys;
    ApplyingPermuted(a, b, literal);
    var before, after := Applying(a, literal, |a|), Applying(b, literal, |b|);
    if before.Success? {
      DuplicatesAreShared(before.value, after.value);
      DuplicatesAreShared(after.value, before.value);
      if one.Success? {
        SortedTablesAgree(one.value, two.value);
      }
    }
  }
}
