/**
 * Runtime versions and their order (crates/dv-core/src/framework_reference.rs, `RuntimeVersion`), against section 11 of
 * Semantic Versioning 2.0.0.
 */
module RuntimeVersions {
  import opened Wrappers
  import opened Spans
  import opened TextOrder

  // ---------------------------------------------------------------- text

  predicate IsDigit(c: char) {
    '0' <= c <= '9'
  }

  predicate AllDigits(s: string) {
    forall i | 0 <= i < |s| :: IsDigit(s[i])
  }

  predicate IsIdentifierChar(c: char) {
    IsDigit(c) || 'a' <= c <= 'z' || 'A' <= c <= 'Z' || c == '-'
  }

  predicate IsIdentifier(s: string) {
    s != "" && forall i | 0 <= i < |s| :: IsIdentifierChar(s[i])
  }

  /** The pieces between separators; always at least one. */
  function Split(s: string, c: char): (parts: seq<string>)
    ensures parts != [] && forall i | 0 <= i < |parts| :: c !in parts[i]
  {
    if s == "" then [""]
    else
      var rest := Split(s[1..], c);
      if s[0] == c then [""] + rest else [[s[0]] + rest[0]] + rest[1..]
  }

  function Join(parts: seq<string>, c: char): string
    requires parts != []
  {
    if |parts| == 1 then parts[0] else parts[0] + ([c] + Join(parts[1..], c))
  }

  lemma {:induction false} JoinUndoesSplit(s: string, c: char)
    ensures Join(Split(s, c), c) == s
  {
    hide Join;
    if s == "" {
      JoinOne("", c);
    } else {
      var rest := Split(s[1..], c);
      JoinUndoesSplit(s[1..], c);
      if s[0] == c { JoinBehindSeparator(rest, c); } else { JoinLonger(s[0], rest, c); }
      assert s == [s[0]] + s[1..];
    }
  }

  lemma JoinOne(part: string, c: char)
    ensures Join([part], c) == part
  {
  }

  lemma JoinBehindSeparator(rest: seq<string>, c: char)
    requires rest != []
    ensures Join([""] + rest, c) == [c] + Join(rest, c)
  {
    assert ([""] + rest)[1..] == rest;
    assert "" + ([c] + Join(rest, c)) == [c] + Join(rest, c);
  }

  lemma JoinLonger(x: char, rest: seq<string>, c: char)
    requires rest != []
    ensures Join([[x] + rest[0]] + rest[1..], c) == [x] + Join(rest, c)
  {
    var parts := [[x] + rest[0]] + rest[1..];
    assert parts[1..] == rest[1..];
    if |rest| > 1 {
      var tail := [c] + Join(rest[1..], c);
      assert ([x] + rest[0]) + tail == [x] + (rest[0] + tail);
    }
  }

  lemma {:induction false} SplitUndoesJoin(parts: seq<string>, c: char)
    requires parts != [] && forall i | 0 <= i < |parts| :: c !in parts[i]
    ensures Split(Join(parts, c), c) == parts
    decreases |parts|
  {
    if |parts| == 1 {
      SplitPlain(parts[0], "", c);
      assert parts[0] + "" == parts[0] && parts == [parts[0]];
    } else {
      SplitUndoesJoin(parts[1..], c);
      SplitPlain(parts[0], [c] + Join(parts[1..], c), c);
      assert ([c] + Join(parts[1..], c))[1..] == Join(parts[1..], c);
      assert parts[0] + "" == parts[0] && parts == [parts[0]] + parts[1..];
    }
  }

  lemma {:induction false} SplitPlain(plain: string, rest: string, c: char)
    requires c !in plain
    ensures Split(plain + rest, c) == [plain + Split(rest, c)[0]] + Split(rest, c)[1..]
  {
    if plain == "" {
      assert plain + rest == rest && plain + Split(rest, c)[0] == Split(rest, c)[0];
    } else {
      assert (plain + rest)[1..] == plain[1..] + rest;
      SplitPlain(plain[1..], rest, c);
      assert [plain[0]] + (plain[1..] + Split(rest, c)[0]) == plain + Split(rest, c)[0];
    }
  }

  /** What stands before and behind the first `c`. */
  function SplitOnce(s: string, c: char): (r: Option<(string, string)>)
    ensures r.Some? ==> s == r.value.0 + ([c] + r.value.1) && c !in r.value.0
    ensures r.None? ==> c !in s
  {
    if s == "" then None
    else if s[0] == c then Some(("", s[1..]))
    else
      match SplitOnce(s[1..], c)
      case None => None
      case Some((before, behind)) =>
        assert s == [s[0]] + s[1..];
        assert [s[0]] + (before + ([c] + behind)) == ([s[0]] + before) + ([c] + behind);
        Some(([s[0]] + before, behind))
  }

  lemma {:induction false} SplitOnceAt(before: string, c: char, behind: string)
    requires c !in before
    ensures SplitOnce(before + ([c] + behind), c) == Some((before, behind))
  {
    if before != "" {
      assert (before + ([c] + behind))[1..] == before[1..] + ([c] + behind);
      SplitOnceAt(before[1..], c, behind);
      assert before == [before[0]] + before[1..];
    } else {
      assert before + ([c] + behind) == [c] + behind;
    }
  }

  // ---------------------------------------------------------------- numbers

  function Digit(c: char): (d: nat)
    requires IsDigit(c)
    ensures d <= 9
  {
    (c - '0') as nat
  }

  function Value(digits: string): nat
    requires AllDigits(digits)
  {
    if digits == "" then 0 else 10 * Value(digits[..|digits| - 1]) + Digit(digits[|digits| - 1])
  }

  function Decimal(n: nat): (s: string)
    ensures s != "" && AllDigits(s)
  {
    var digit := ['0' + (n % 10) as char];
    if n < 10 then digit else Decimal(n / 10) + digit
  }

  /** A number without superfluous zeros in front. */
  predicate IsCanonical(digits: string) {
    digits != "" && AllDigits(digits) && (|digits| > 1 ==> digits[0] != '0')
  }

  lemma {:induction false} DecimalIsCanonical(n: nat)
    ensures IsCanonical(Decimal(n)) && Value(Decimal(n)) == n
    ensures n > 0 ==> Decimal(n)[0] != '0'
  {
    if n >= 10 {
      DecimalIsCanonical(n / 10);
      var front := Decimal(n / 10);
      assert Decimal(n)[..|Decimal(n)| - 1] == front;
    }
  }

  lemma {:induction false} CanonicalIsDecimal(digits: string)
    requires IsCanonical(digits)
    ensures Decimal(Value(digits)) == digits
    ensures digits[0] != '0' ==> Value(digits) > 0
  {
    var n := |digits| - 1;
    if n > 0 {
      var front := digits[..n];
      CanonicalIsDecimal(front);
      assert digits == front + [digits[n]];
      assert Value(digits) / 10 == Value(front) && Value(digits) % 10 == Digit(digits[n]);
    }
  }

  /** A version number: decimal digits without superfluous zeros that fit 32 bits. */
  function NumericPart(value: string): Option<nat> {
    if value == "" || (|value| > 1 && value[0] == '0') || !AllDigits(value) then None
    else if Value(value) > U32_MAX then None
    else Some(Value(value))
  }

  lemma NumericPartIsDecimal(value: string, n: nat)
    ensures NumericPart(value) == Some(n) <==> value == Decimal(n) && n <= U32_MAX
  {
    DecimalIsCanonical(n);
    if IsCanonical(value) { CanonicalIsDecimal(value); }
  }

  // ---------------------------------------------------------------- versions

  /** Dot-separated identifiers of a prerelease or of build metadata. */
  type Identifiers = seq<string>

  datatype RuntimeVersion = RuntimeVersion(text: string, major: nat, minor: nat, patch: nat, prerelease: Option<string>)

  predicate ValidIdentifiers(value: string) {
    forall i | 0 <= i < |Split(value, '.')| :: IsIdentifier(Split(value, '.')[i])
  }

  /** Letters, digits, hyphens and points, with no point at the end and no two points in a row. */
  predicate IsTail(s: string) {
    && (forall i | 0 <= i < |s| ::
          'a' <= s[i] <= 'z' || 'A' <= s[i] <= 'Z' || '0' <= s[i] <= '9' || s[i] == '-' || s[i] == '.')
    && (s != "" ==> s[|s| - 1] != '.')
    && forall i, j | 0 <= i < j == i + 1 < |s| :: s[i] == '.' ==> s[j] != '.'
  }

  /** Valid identifiers, the first of which may lack its beginning. */
  predicate AlmostValid(parts: seq<string>)
    requires parts != []
  {
    && (forall i | 0 <= i < |parts[0]| :: IsIdentifierChar(parts[0][i]))
    && forall i | 1 <= i < |parts| :: IsIdentifier(parts[i])
  }

  /** Identifiers are valid exactly if the text is a tail that does not begin with a point, and not empty. */
  lemma IdentifiersExactly(value: string)
    ensures ValidIdentifiers(value) <==> value != "" && value[0] != '.' && IsTail(value)
  {
    TailIsAlmostValid(value);
    var parts := Split(value, '.');
    assert ValidIdentifiers(value) <==> parts[0] != "" && AlmostValid(parts) by {
      hide IsIdentifierChar;
      assert parts[0] != "" && AlmostValid(parts) ==> IsIdentifier(parts[0]);
    }
    assert parts[0] == "" <==> value == "" || value[0] == '.';
  }

  lemma {:induction false} TailIsAlmostValid(s: string)
    ensures AlmostValid(Split(s, '.')) <==> IsTail(s)
  {
    if s != "" {
      var rest := Split(s[1..], '.');
      TailIsAlmostValid(s[1..]);
      TailUnfolds(s);
      hide IsTail, IsIdentifierChar, Split;
      if s[0] == '.' {
        PointInFront(rest);
        assert rest[0] != "" <==> s[1..] != "" && s[1..][0] != '.' by { FirstPart(s[1..]); }
      } else {
        CharacterInFront(s[0], rest);
      }
      assert Split(s, '.') == (if s[0] == '.' then [""] + rest else [[s[0]] + rest[0]] + rest[1..]) by { FirstPart(s); }
    }
  }

  lemma FirstPart(s: string)
    ensures Split(s, '.')[0] == "" <==> s == "" || s[0] == '.'
    ensures s != "" ==> var rest := Split(s[1..], '.');
                        Split(s, '.') == if s[0] == '.' then [""] + rest else [[s[0]] + rest[0]] + rest[1..]
  {
  }

  lemma TailUnfolds(s: string)
    requires s != ""
    ensures IsTail(s) <==>
            IsTail(s[1..]) && if s[0] == '.' then s[1..] != "" && s[1..][0] != '.' else IsIdentifierChar(s[0])
  {
    var t := s[1..];
    assert forall i | 0 <= i < |t| :: t[i] == s[i + 1];
    if IsTail(t) && (if s[0] == '.' then t != "" && t[0] != '.' else IsIdentifierChar(s[0])) {
      forall i | 0 <= i < |s|
        ensures 'a' <= s[i] <= 'z' || 'A' <= s[i] <= 'Z' || '0' <= s[i] <= '9' || s[i] == '-' || s[i] == '.'
      {
        if i > 0 { assert s[i] == t[i - 1]; }
      }
      forall i, j | 0 <= i < j == i + 1 < |s| ensures s[i] == '.' ==> s[j] != '.' {
        if i > 0 { assert s[i] == t[i - 1] && s[j] == t[j - 1]; }
      }
    }
    if IsTail(s) {
      forall i, j | 0 <= i < j == i + 1 < |t| ensures t[i] == '.' ==> t[j] != '.' {
        assert s[i + 1] == t[i] && s[j + 1] == t[j];
      }
    }
  }

  lemma PointInFront(rest: seq<string>)
    requires rest != []
    ensures AlmostValid([""] + rest) <==> AlmostValid(rest) && rest[0] != ""
  {
    hide IsIdentifierChar;
    var parts := [""] + rest;
    assert forall i | 0 <= i < |rest| :: parts[i + 1] == rest[i];
    if AlmostValid(parts) { assert IsIdentifier(parts[1]); }
    if AlmostValid(rest) && rest[0] != "" {
      forall i | 1 <= i < |parts| ensures IsIdentifier(parts[i]) { assert parts[i] == rest[i - 1]; }
    }
  }

  lemma CharacterInFront(c: char, rest: seq<string>)
    requires rest != []
    ensures AlmostValid([[c] + rest[0]] + rest[1..]) <==> IsIdentifierChar(c) && AlmostValid(rest)
  {
    hide IsIdentifierChar, IsIdentifier;
    var parts := [[c] + rest[0]] + rest[1..];
    assert forall i | 1 <= i < |rest| :: parts[i] == rest[i];
    assert parts[0][0] == c && parts[0][1..] == rest[0];
    assert forall i | 0 <= i < |rest[0]| :: parts[0][i + 1] == rest[0][i];
    if IsIdentifierChar(c) && AlmostValid(rest) {
      forall i | 0 <= i < |parts[0]| ensures IsIdentifierChar(parts[0][i]) {
        if i > 0 { assert parts[0][i] == rest[0][i - 1]; }
      }
    }
  }

  function ParseNumbers(value: string, numbers: string, prerelease: Option<string>): Option<RuntimeVersion> {
    var parts := Split(numbers, '.');
    if |parts| != 3 then None else
      match (NumericPart(parts[0]), NumericPart(parts[1]), NumericPart(parts[2]))
      case (Some(major), Some(minor), Some(patch)) => Some(RuntimeVersion(value, major, minor, patch, prerelease))
      case _ => None
  }

  function Parse(value: string): Option<RuntimeVersion> {
    var plus := SplitOnce(value, '+');
    var precedence := if plus.Some? then plus.value.0 else value;
    if plus.Some? && !ValidIdentifiers(plus.value.1) then None else
      var dash := SplitOnce(precedence, '-');
      if dash.Some? && !ValidIdentifiers(dash.value.1) then None else
        ParseNumbers(value, if dash.Some? then dash.value.0 else precedence, if dash.Some? then Some(dash.value.1) else None)
  }

  function Suffix(mark: char, value: Option<string>): string {
    match value
    case None => ""
    case Some(text) => [mark] + text
  }

  function Print(major: nat, minor: nat, patch: nat, prerelease: Option<string>, build: Option<string>): string {
    Join([Decimal(major), Decimal(minor), Decimal(patch)], '.') + (Suffix('-', prerelease) + Suffix('+', build))
  }

  predicate Printable(major: nat, minor: nat, patch: nat, prerelease: Option<string>, build: Option<string>) {
    && major <= U32_MAX && minor <= U32_MAX && patch <= U32_MAX
    && (prerelease.Some? ==> ValidIdentifiers(prerelease.value)) && (build.Some? ==> ValidIdentifiers(build.value))
  }

  // ---------------------------------------------------------------- the order

  datatype Ordering = Less | Equal | Greater

  function Flip(o: Ordering): Ordering {
    match o case Less => Greater case Equal => Equal case Greater => Less
  }

  function ThenBy(first: Ordering, second: Ordering): Ordering {
    if first == Equal then second else first
  }

  function CompareNumbers(a: nat, b: nat): Ordering {
    if a < b then Less else if a == b then Equal else Greater
  }

  function CompareText(a: string, b: string): Ordering {
    if a == b then Equal else if Before(a, b) then Less else Greater
  }

  /** Numeric identifiers by length and then by text, below all others; those by text. */
  function CompareIdentifier(a: string, b: string): Ordering {
    if AllDigits(a) then if AllDigits(b) then ThenBy(CompareNumbers(|a|, |b|), CompareText(a, b)) else Less
    else if AllDigits(b) then Greater
    else CompareText(a, b)
  }

  /** The first difference decides; the longer list wins if there is none. */
  function CompareIdentifiers(a: Identifiers, b: Identifiers): Ordering {
    if a == [] then if b == [] then Equal else Less
    else if b == [] then Greater
    else ThenBy(CompareIdentifier(a[0], b[0]), CompareIdentifiers(a[1..], b[1..]))
  }

  function ComparePrerelease(a: Option<string>, b: Option<string>): Ordering {
    match (a, b)
    case (None, None) => Equal
    case (None, Some(_)) => Greater
    case (Some(_), None) => Less
    case (Some(left), Some(right)) => CompareIdentifiers(Split(left, '.'), Split(right, '.'))
  }

  function Compare(a: RuntimeVersion, b: RuntimeVersion): Ordering {
    ThenBy(CompareNumbers(a.major, b.major),
      ThenBy(CompareNumbers(a.minor, b.minor),
        ThenBy(CompareNumbers(a.patch, b.patch), ComparePrerelease(a.prerelease, b.prerelease))))
  }

  /** The loop of `compare_prerelease`: both lists are walked in step until they differ or one ends. */
  method WalkIdentifiers(left: string, right: string) returns (r: Ordering)
    ensures r == ComparePrerelease(Some(left), Some(right))
  {
    var lefts, rights := Split(left, '.'), Split(right, '.');
    var k := 0;
    while true
      invariant k <= |lefts| && k <= |rights|
      invariant CompareIdentifiers(lefts[k..], rights[k..]) == CompareIdentifiers(lefts, rights)
      decreases |lefts| - k
    {
      if k == |lefts| { return if k == |rights| then Equal else Less; }
      if k == |rights| { return Greater; }
      var leftNumeric, rightNumeric := AllDigits(lefts[k]), AllDigits(rights[k]);
      var ordering := match (leftNumeric, rightNumeric) {
        case (true, true) => ThenBy(CompareNumbers(|lefts[k]|, |rights[k]|), CompareText(lefts[k], rights[k]))
        case (true, false) => Less
        case (false, true) => Greater
        case (false, false) => CompareText(lefts[k], rights[k])
      };
      if ordering != Equal { return ordering; }
      assert lefts[k..][1..] == lefts[k + 1..] && rights[k..][1..] == rights[k + 1..];
      k := k + 1;
    }
  }

  // ---------------------------------------------------------------- it is an order

  /** Reversal, equality and transitivity for one comparison and three values. */
  predicate Ordered(ab: Ordering, ba: Ordering, bc: Ordering, ac: Ordering, same: bool) {
    && ba == Flip(ab) && (ab == Equal <==> same)
    && (ab == Equal ==> ac == bc) && (bc == Equal ==> ac == ab)
    && (ab == Less && bc == Less ==> ac == Less) && (ab == Greater && bc == Greater ==> ac == Greater)
  }

  lemma TextIsOrdered(a: string, b: string, c: string)
    ensures Ordered(CompareText(a, b), CompareText(b, a), CompareText(b, c), CompareText(a, c), a == b)
  {
    BeforeIsTotal(a, b);
    BeforeIsTotal(b, c);
    BeforeIsTotal(a, c);
    BeforeIsIrreflexive(a);
    NeverBoth(a, b);
    NeverBoth(a, c);
    NeverBoth(b, c);
    if Before(a, b) && Before(b, c) { BeforeIsTransitive(a, b, c); }
    if Before(c, b) && Before(b, a) { BeforeIsTransitive(c, b, a); }
  }

  lemma NeverBoth(a: string, b: string)
    ensures !(Before(a, b) && Before(b, a))
  {
    BeforeIsIrreflexive(a);
    if Before(a, b) && Before(b, a) { BeforeIsTransitive(a, b, a); }
  }

  lemma IdentifierIsOrdered(a: string, b: string, c: string)
    ensures Ordered(CompareIdentifier(a, b), CompareIdentifier(b, a), CompareIdentifier(b, c), CompareIdentifier(a, c), a == b)
  {
    hide CompareText, AllDigits;
    TextIsOrdered(a, b, c);
  }

  lemma {:induction false} IdentifiersAreOrdered(a: Identifiers, b: Identifiers, c: Identifiers)
    ensures Ordered(CompareIdentifiers(a, b), CompareIdentifiers(b, a), CompareIdentifiers(b, c),
              CompareIdentifiers(a, c), a == b)
  {
    hide CompareIdentifier;
    if a != [] && b != [] {
      assert a == [a[0]] + a[1..] && b == [b[0]] + b[1..];
      if c != [] {
        IdentifiersAreOrdered(a[1..], b[1..], c[1..]);
        IdentifierIsOrdered(a[0], b[0], c[0]);
      } else {
        IdentifiersAreOrdered(a[1..], b[1..], []);
        IdentifierIsOrdered(a[0], b[0], "");
      }
    }
  }

  /** Everything that counts for precedence; build metadata and spelling do not. */
  predicate SamePrecedence(a: RuntimeVersion, b: RuntimeVersion) {
    a.major == b.major && a.minor == b.minor && a.patch == b.patch && a.prerelease == b.prerelease
  }

  lemma PrereleaseIsOrdered(a: Option<string>, b: Option<string>, c: Option<string>)
    ensures Ordered(ComparePrerelease(a, b), ComparePrerelease(b, a), ComparePrerelease(b, c), ComparePrerelease(a, c), a == b)
  {
    hide CompareIdentifiers, Split;
    if a.Some? && b.Some? {
      var left, right := Split(a.value, '.'), Split(b.value, '.');
      JoinUndoesSplit(a.value, '.');
      JoinUndoesSplit(b.value, '.');
      IdentifiersAreOrdered(left, right, if c.Some? then Split(c.value, '.') else []);
    }
  }

  /** `Ord` is a total order up to build metadata: reversible, transitive, and equal exactly on the same precedence. */
  lemma CompareIsOrder(a: RuntimeVersion, b: RuntimeVersion, c: RuntimeVersion)
    ensures Ordered(Compare(a, b), Compare(b, a), Compare(b, c), Compare(a, c), SamePrecedence(a, b))
  {
    hide ComparePrerelease;
    PrereleaseIsOrdered(a.prerelease, b.prerelease, c.prerelease);
  }

  // ---------------------------------------------------------------- reading and writing

  lemma {:induction false} JoinChars(parts: seq<string>, c: char, x: char)
    requires parts != [] && x in Join(parts, c)
    ensures x == c || exists i :: 0 <= i < |parts| && x in parts[i]
    decreases |parts|
  {
    if |parts| > 1 && x !in parts[0] && x != c {
      JoinChars(parts[1..], c, x);
      var i :| 0 <= i < |parts[1..]| && x in parts[1..][i];
      assert x in parts[i + 1];
    }
  }

  lemma IdentifierChars(value: string, x: char)
    requires ValidIdentifiers(value) && x in value
    ensures x == '.' || IsIdentifierChar(x)
  {
    JoinUndoesSplit(value, '.');
    JoinChars(Split(value, '.'), '.', x);
    if x != '.' {
      var i :| 0 <= i < |Split(value, '.')| && x in Split(value, '.')[i];
      assert IsIdentifier(Split(value, '.')[i]);
    }
  }

  lemma IdentifiersHaveNoPlus(value: string)
    requires ValidIdentifiers(value)
    ensures '+' !in value
  {
    forall x | x in value ensures x != '+' {
      IdentifierChars(value, x);
    }
  }

  function Core(major: nat, minor: nat, patch: nat): string {
    Join([Decimal(major), Decimal(minor), Decimal(patch)], '.')
  }

  lemma CoreIs(major: nat, minor: nat, patch: nat)
    ensures Split(Core(major, minor, patch), '.') == [Decimal(major), Decimal(minor), Decimal(patch)]
    ensures '+' !in Core(major, minor, patch) && '-' !in Core(major, minor, patch)
  {
    var parts := [Decimal(major), Decimal(minor), Decimal(patch)];
    SplitUndoesJoin(parts, '.');
    forall x | x in Join(parts, '.') ensures x == '.' || IsDigit(x) {
      JoinChars(parts, '.', x);
    }
  }

  lemma {:induction false} SplitOnceNone(s: string, c: char)
    requires c !in s
    ensures SplitOnce(s, c).None?
  {
    if s != "" { SplitOnceNone(s[1..], c); }
  }

  lemma SuffixSplits(before: string, mark: char, suffix: Option<string>)
    requires mark !in before
    ensures SplitOnce(before + Suffix(mark, suffix), mark) == if suffix.Some? then Some((before, suffix.value)) else None
  {
    if suffix.Some? {
      SplitOnceAt(before, mark, suffix.value);
    } else {
      assert before + "" == before;
      SplitOnceNone(before, mark);
    }
  }

  lemma CoreParses(value: string, major: nat, minor: nat, patch: nat, prerelease: Option<string>)
    requires major <= U32_MAX && minor <= U32_MAX && patch <= U32_MAX
    ensures ParseNumbers(value, Core(major, minor, patch), prerelease) ==
              Some(RuntimeVersion(value, major, minor, patch, prerelease))
  {
    hide Decimal, NumericPart, Split;
    CoreIs(major, minor, patch);
    NumericPartIsDecimal(Decimal(major), major);
    NumericPartIsDecimal(Decimal(minor), minor);
    NumericPartIsDecimal(Decimal(patch), patch);
  }

  lemma PiecesParse(value: string, core: string, prerelease: Option<string>, build: Option<string>)
    requires '+' !in core && '-' !in core && value == (core + Suffix('-', prerelease)) + Suffix('+', build)
    requires prerelease.Some? ==> '+' !in prerelease.value && ValidIdentifiers(prerelease.value)
    requires build.Some? ==> ValidIdentifiers(build.value)
    ensures Parse(value) == ParseNumbers(value, core, prerelease)
  {
    hide ValidIdentifiers, ParseNumbers, SplitOnce;
    var precedence := core + Suffix('-', prerelease);
    SuffixSplits(core, '-', prerelease);
    SuffixSplits(precedence, '+', build);
    SuffixNone(core, '-', prerelease);
    SuffixNone(precedence, '+', build);
  }

  lemma SuffixNone(before: string, mark: char, suffix: Option<string>)
    ensures suffix.None? ==> before + Suffix(mark, suffix) == before
  {
    assert before + "" == before;
  }

  /** Parsing recovers what was printed, whatever the build metadata. */
  lemma ParseUndoesPrint(major: nat, minor: nat, patch: nat, prerelease: Option<string>, build: Option<string>)
    requires Printable(major, minor, patch, prerelease, build)
    ensures var value := Print(major, minor, patch, prerelease, build);
            Parse(value) == Some(RuntimeVersion(value, major, minor, patch, prerelease))
  {
    hide ValidIdentifiers, Decimal, ParseNumbers, Parse, Join, Suffix;
    var core, value := Core(major, minor, patch), Print(major, minor, patch, prerelease, build);
    CoreIs(major, minor, patch);
    CoreParses(value, major, minor, patch, prerelease);
    if prerelease.Some? { IdentifiersHaveNoPlus(prerelease.value); }
    assert value == (core + Suffix('-', prerelease)) + Suffix('+', build);
    PiecesParse(value, core, prerelease, build);
  }

  /** Everything that parses is a print of its fields, with some build metadata. */
  lemma ParseReads(value: string) returns (build: Option<string>)
    requires Parse(value).Some?
    ensures var v := Parse(value).value;
            && v.text == value && Printable(v.major, v.minor, v.patch, v.prerelease, build)
            && Print(v.major, v.minor, v.patch, v.prerelease, build) == value
  {
    hide ValidIdentifiers, Decimal, NumericPart, Split;
    var v := Parse(value).value;
    var plus := SplitOnce(value, '+');
    build := if plus.Some? then Some(plus.value.1) else None;
    var precedence := if plus.Some? then plus.value.0 else value;
    var dash := SplitOnce(precedence, '-');
    var numbers := if dash.Some? then dash.value.0 else precedence;
    var parts := Split(numbers, '.');
    JoinUndoesSplit(numbers, '.');
    NumericPartIsDecimal(parts[0], v.major);
    NumericPartIsDecimal(parts[1], v.minor);
    NumericPartIsDecimal(parts[2], v.patch);
    assert parts == [Decimal(v.major), Decimal(v.minor), Decimal(v.patch)];
    assert precedence == numbers + Suffix('-', v.prerelease);
    assert value == precedence + Suffix('+', build);
  }

  /** A text is a version if and only if it is the print of one, and then it has one reading. */
  lemma ParseIsExact(value: string, major: nat, minor: nat, patch: nat, prerelease: Option<string>)
    ensures Parse(value) == Some(RuntimeVersion(value, major, minor, patch, prerelease)) <==>
            exists build :: Printable(major, minor, patch, prerelease, build)
                && Print(major, minor, patch, prerelease, build) == value
  {
    hide Parse, Print, Printable;
    if Parse(value) == Some(RuntimeVersion(value, major, minor, patch, prerelease)) {
      var build := ParseReads(value);
    }
    forall build | Printable(major, minor, patch, prerelease, build) && Print(major, minor, patch, prerelease, build) == value
      ensures Parse(value) == Some(RuntimeVersion(value, major, minor, patch, prerelease))
    {
      ParseUndoesPrint(major, minor, patch, prerelease, build);
    }
  }

  // ---------------------------------------------------------------- section 11 of Semantic Versioning 2.0.0

  /** Numeric identifiers are compared numerically and are lower than others, which are compared by their ASCII text. */
  function SemVerIdentifier(a: string, b: string): Ordering {
    if AllDigits(a) && AllDigits(b) then CompareNumbers(Value(a), Value(b))
    else if AllDigits(a) then Less
    else if AllDigits(b) then Greater
    else CompareText(a, b)
  }

  /** From left to right until a difference is found; a larger set of identifiers is higher. */
  function SemVerIdentifiers(a: Identifiers, b: Identifiers): Ordering {
    if a == [] || b == [] then CompareNumbers(|a|, |b|)
    else ThenBy(SemVerIdentifier(a[0], b[0]), SemVerIdentifiers(a[1..], b[1..]))
  }

  /** Major, minor and patch numerically; a version without a prerelease is higher than the same with one. */
  function SemVerCompare(a: RuntimeVersion, b: RuntimeVersion): Ordering {
    if a.major != b.major then CompareNumbers(a.major, b.major)
    else if a.minor != b.minor then CompareNumbers(a.minor, b.minor)
    else if a.patch != b.patch then CompareNumbers(a.patch, b.patch)
    else if a.prerelease.Some? && b.prerelease.Some? then
      SemVerIdentifiers(Split(a.prerelease.value, '.'), Split(b.prerelease.value, '.'))
    else if a.prerelease.Some? then Less else if b.prerelease.Some? then Greater else Equal
  }

  lemma {:induction false} BeforeByLast(a: string, b: string, x: char, y: char)
    requires |a| == |b|
    ensures Before(a + [x], b + [y]) <==> Before(a, b) || (a == b && x < y)
  {
    if a != "" {
      assert (a + [x])[1..] == a[1..] + [x] && (b + [y])[1..] == b[1..] + [y];
      BeforeByLast(a[1..], b[1..], x, y);
      assert a == [a[0]] + a[1..] && b == [b[0]] + b[1..];
    } else {
      assert a + [x] == [x] && b + [y] == [y];
    }
  }

  lemma {:induction false} SameLengthByText(a: string, b: string)
    requires AllDigits(a) && AllDigits(b) && |a| == |b|
    ensures Before(a, b) <==> Value(a) < Value(b)
    ensures a == b <==> Value(a) == Value(b)
  {
    if a != "" {
      var n := |a| - 1;
      SameLengthByText(a[..n], b[..n]);
      BeforeByLast(a[..n], b[..n], a[n], b[n]);
      assert a == a[..n] + [a[n]] && b == b[..n] + [b[n]];
    }
  }

  lemma {:induction false} LongerIsGreater(a: string, b: string)
    requires AllDigits(a) && AllDigits(b) && |a| < |b| && b[0] != '0'
    ensures Value(a) < Value(b)
    decreases |b|
  {
    var n := |b| - 1;
    if a != "" {
      LongerIsGreater(a[..|a| - 1], b[..n]);
    } else if n > 0 {
      LongerIsGreater("", b[..n]);
    }
  }

  /** Length and then text is numeric order for numbers without superfluous zeros. */
  lemma CanonicalAgrees(a: string, b: string)
    requires IsCanonical(a) && IsCanonical(b)
    ensures CompareIdentifier(a, b) == SemVerIdentifier(a, b)
  {
    if |a| < |b| {
      LongerIsGreater(a, b);
    } else if |b| < |a| {
      LongerIsGreater(b, a);
    } else {
      SameLengthByText(a, b);
      BeforeIsTotal(a, b);
    }
  }

  /**
   * The parser also takes numeric identifiers with zeros in front, which the standard forbids. Exactly those compare
   * differently from their number.
   */
  lemma NumericOrderExactly(a: string)
    requires a != "" && AllDigits(a)
    ensures IsCanonical(a) <==> forall b | IsCanonical(b) :: CompareIdentifier(a, b) == SemVerIdentifier(a, b)
  {
    if IsCanonical(a) {
      forall b | IsCanonical(b) ensures CompareIdentifier(a, b) == SemVerIdentifier(a, b) {
        CanonicalAgrees(a, b);
      }
    } else {
      var b := Decimal(Value(a));
      DecimalIsCanonical(Value(a));
      IdentifierIsOrdered(a, b, b);
      assert CompareIdentifier(a, b) != SemVerIdentifier(a, b);
    }
  }

  /** Two versions that the parser accepts and orders against the standard's numbers: 10 would be below 11. */
  lemma LeadingZeroIsMisordered()
    ensures Parse("1.0.0-010").Some? && Parse("1.0.0-11").Some?
    ensures Compare(Parse("1.0.0-010").value, Parse("1.0.0-11").value) == Greater
    ensures SemVerCompare(Parse("1.0.0-010").value, Parse("1.0.0-11").value) == Less
  {
    hide Parse, Compare, SemVerCompare, Split;
    assert "1.0.0-" + "010" == "1.0.0-010" && "1.0.0-" + "11" == "1.0.0-11";
    OneIdentifier("010");
    OneIdentifier("11");
    Number010();
    OnlyIdentifiersDiffer("010", "11");
  }

  lemma OneIdentifier(text: string)
    requires IsIdentifier(text) && '.' !in text
    ensures Split(text, '.') == [text]
    ensures Parse("1.0.0-" + text) == Some(RuntimeVersion("1.0.0-" + text, 1, 0, 0, Some(text)))
  {
    hide Print, Parse, Split;
    SplitUndoesJoin([text], '.');
    ParseUndoesPrint(1, 0, 0, Some(text), None);
    PrintedOne(text);
  }

  lemma OnlyIdentifiersDiffer(a: string, b: string)
    requires Split(a, '.') == [a] && Split(b, '.') == [b]
    ensures var v, w := RuntimeVersion("1.0.0-" + a, 1, 0, 0, Some(a)), RuntimeVersion("1.0.0-" + b, 1, 0, 0, Some(b));
            Compare(v, w) == CompareIdentifier(a, b) && SemVerCompare(v, w) == SemVerIdentifier(a, b)
  {
    hide CompareIdentifier, SemVerIdentifier, Split;
    assert [a][1..] == [] && [b][1..] == [];
    assert CompareIdentifiers([], []) == Equal && SemVerIdentifiers([], []) == Equal;
  }

  lemma PrintedOne(text: string)
    ensures Print(1, 0, 0, Some(text), None) == "1.0.0-" + text
  {
    assert Decimal(1) == "1" && Decimal(0) == "0";
    assert [Decimal(1), Decimal(0), Decimal(0)][1..] == [Decimal(0), Decimal(0)];
    assert [Decimal(0), Decimal(0)][1..] == [Decimal(0)];
    assert Core(1, 0, 0) == "1" + ("." + ("0" + ("." + "0"))) == "1.0.0";
    assert ("1.0.0" + ("-" + text)) + "" == "1.0.0-" + text;
  }

  lemma Number010()
    ensures AllDigits("010") && AllDigits("11") && Value("010") == 10 && Value("11") == 11
  {
    assert "010"[..2] == "01" && "01"[..1] == "0" && "0"[..0] == "";
    assert "11"[..1] == "1" && "1"[..0] == "";
    assert Value("0") == 0 && Value("01") == 1 && Value("1") == 1;
  }

  /** No numeric identifier has a superfluous zero, as section 9 of the standard demands. */
  predicate Standard(v: RuntimeVersion) {
    v.prerelease.Some? ==>
      forall i | 0 <= i < |Split(v.prerelease.value, '.')| :: StandardIdentifier(Split(v.prerelease.value, '.')[i])
  }

  predicate StandardIdentifier(identifier: string) {
    AllDigits(identifier) ==> IsCanonical(identifier)
  }

  lemma {:induction false} IdentifiersAgree(a: Identifiers, b: Identifiers)
    requires forall i | 0 <= i < |a| :: StandardIdentifier(a[i])
    requires forall i | 0 <= i < |b| :: StandardIdentifier(b[i])
    ensures CompareIdentifiers(a, b) == SemVerIdentifiers(a, b)
  {
    if a != [] && b != [] {
      if AllDigits(a[0]) && AllDigits(b[0]) { CanonicalAgrees(a[0], b[0]); }
      IdentifiersAgree(a[1..], b[1..]);
    }
  }

  /** On versions that keep the standard, `Ord` is its precedence. */
  lemma CompareIsSemVer(a: RuntimeVersion, b: RuntimeVersion)
    requires Standard(a) && Standard(b)
    ensures Compare(a, b) == SemVerCompare(a, b)
  {
    if a.prerelease.Some? && b.prerelease.Some? {
      IdentifiersAgree(Split(a.prerelease.value, '.'), Split(b.prerelease.value, '.'));
    }
  }

  // ---------------------------------------------------------------- exactly which versions follow the standard

  /** The identifiers are ones that the parser accepts. */
  predicate HasValidPrerelease(v: RuntimeVersion) {
    v.prerelease.Some? ==> ValidIdentifiers(v.prerelease.value)
  }

  /** The same identifier without superfluous zeros. */
  function Canonical(identifier: string): (c: string)
    ensures AllDigits(identifier) ==> AllDigits(c)
  {
    if AllDigits(identifier) then Decimal(Value(identifier)) else identifier
  }

  lemma CanonicalIsStandard(identifier: string)
    requires IsIdentifier(identifier)
    ensures StandardIdentifier(Canonical(identifier)) && IsIdentifier(Canonical(identifier))
    ensures '.' !in identifier ==> '.' !in Canonical(identifier)
    ensures SemVerIdentifier(identifier, Canonical(identifier)) == Equal
    ensures StandardIdentifier(identifier) ==> Canonical(identifier) == identifier
  {
    if AllDigits(identifier) {
      DecimalIsCanonical(Value(identifier));
      if IsCanonical(identifier) { CanonicalIsDecimal(identifier); }
    }
  }

  function Canonicals(identifiers: Identifiers): (c: Identifiers)
    ensures |c| == |identifiers| && forall i | 0 <= i < |c| :: c[i] == Canonical(identifiers[i])
  {
    seq(|identifiers|, i requires 0 <= i < |identifiers| => Canonical(identifiers[i]))
  }

  lemma {:induction false} EqualInSemVer(a: Identifiers, b: Identifiers)
    requires |a| == |b| && forall i | 0 <= i < |a| :: SemVerIdentifier(a[i], b[i]) == Equal
    ensures SemVerIdentifiers(a, b) == Equal
  {
    hide SemVerIdentifier;
    if a != [] {
      EqualInSemVer(a[1..], b[1..]);
    }
  }

  /** The version with its numeric identifiers in canonical form, which the standard does not tell from it. */
  lemma CanonicalVersion(a: RuntimeVersion) returns (b: RuntimeVersion)
    requires HasValidPrerelease(a)
    ensures Standard(b) && HasValidPrerelease(b) && SemVerCompare(a, b) == Equal
    ensures SamePrecedence(a, b) ==> Standard(a)
  {
    b := a;
    if a.prerelease.Some? {
      var identifiers := Split(a.prerelease.value, '.');
      var canonicals := Canonicals(identifiers);
      forall i | 0 <= i < |identifiers|
        ensures StandardIdentifier(canonicals[i]) && IsIdentifier(canonicals[i]) && '.' !in canonicals[i]
                && SemVerIdentifier(identifiers[i], canonicals[i]) == Equal
      {
        CanonicalIsStandard(identifiers[i]);
      }
      SplitUndoesJoin(canonicals, '.');
      b := a.(prerelease := Some(Join(canonicals, '.')));
      EqualInSemVer(identifiers, canonicals);
    }
  }

  /**
   * Main result: the order is that of the standard for exactly the versions whose numeric identifiers have no superfluous
   * zeros. Every other version is ordered against the standard with respect to some version that keeps it.
   */
  lemma OrderIsSemVerExactly(a: RuntimeVersion)
    requires HasValidPrerelease(a)
    ensures Standard(a) <==> forall b | Standard(b) && HasValidPrerelease(b) :: Compare(a, b) == SemVerCompare(a, b)
  {
    hide Standard, HasValidPrerelease, Compare, SemVerCompare, SamePrecedence;
    if Standard(a) {
      forall b | Standard(b) && HasValidPrerelease(b) ensures Compare(a, b) == SemVerCompare(a, b) {
        CompareIsSemVer(a, b);
      }
    } else {
      var b := CanonicalVersion(a);
      CompareIsOrder(a, b, b);
    }
  }
}
