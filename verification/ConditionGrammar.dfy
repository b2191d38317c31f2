/**
 * The language of reference conditions (crates/dv-core/src/project.rs, `ReferenceConditionParser`), as concrete
 * syntax trees: a tree keeps every blank and every spelling, so its text is the condition itself.
 */
module ConditionGrammar {
  import opened Wrappers
  import opened Ascii

  const MAX_BYTES: nat := 1_024
  const MAX_COMPARISONS: nat := 32
  const MAX_DEPTH: nat := 8

  // ---------------------------------------------------------------- characters and words

  predicate IsWordChar(c: char) {
    'a' <= c <= 'z' || 'A' <= c <= 'Z' || '0' <= c <= '9' || c == '_'
  }

  /** What ends an operand without quotes. */
  predicate IsDelimiter(c: char) {
    IsSpace(c) || c == '(' || c == ')' || c == '!' || c == '='
  }

  predicate AllSpace(s: string) {
    forall i | 0 <= i < |s| :: IsSpace(s[i])
  }

  /** Length of the leading blanks. */
  function Blanks(s: string): (n: nat)
    ensures n <= |s| && AllSpace(s[..n]) && (n < |s| ==> !IsSpace(s[n]))
  {
    if s == "" || !IsSpace(s[0]) then 0 else
      var n := 1 + Blanks(s[1..]);
      assert s[..n] == [s[0]] + s[1..][..n - 1];
      n
  }

  function Find(s: string, c: char): (r: Option<nat>)
    ensures r.Some? ==> r.value < |s| && s[r.value] == c && c !in s[..r.value]
    ensures r.None? ==> c !in s
  {
    if s == "" then None
    else if s[0] == c then Some(0)
    else
      var r := Find(s[1..], c);
      assert s == [s[0]] + s[1..];
      if r.Some? then
        assert s[..r.value + 1] == [s[0]] + s[1..][..r.value];
        Some(r.value + 1)
      else None
  }

  predicate OpensReference(s: string) {
    StartsWith(s, "$(")
  }

  // ---------------------------------------------------------------- trees

  /** A comparison operand. A bare one is made of characters that end nothing and of closed `$(...)` references. */
  datatype Operand = Quoted(quote: char, body: string) | Bare(body: string)

  /** `left == right`, `left != right`, or a lone truth value. Blanks in front of an operand belong to the tree. */
  datatype Comparison =
    | Compare(left: Operand, gap: string, equal: bool, gap2: string, right: Operand)
    | Truth(left: Operand, gap: string)

  datatype Unary =
    | Not(lead: string, inner: Unary)
    | Group(lead: string, body: OrTree, close: string)
    | Test(lead: string, comparison: Comparison)

  /** Operands of `And`, each after the first with the blanks and the spelling of its keyword. */
  datatype AndTree = AndTree(head: Unary, tail: AndTail)
  datatype AndTail = AndEnd | AndLink(gap: string, word: string, operand: Unary, rest: AndTail)

  datatype OrTree = OrTree(head: AndTree, tail: OrTail)
  datatype OrTail = OrEnd | OrLink(gap: string, word: string, operand: AndTree, rest: OrTail)

  function OperandText(op: Operand): string {
    match op
    case Quoted(q, body) => [q] + body + [q]
    case Bare(body) => body
  }

  function Symbol(equal: bool): string {
    if equal then "==" else "!="
  }

  function ComparisonText(c: Comparison): string {
    match c
    case Compare(left, gap, equal, gap2, right) => OperandText(left) + (gap + (Symbol(equal) + (gap2 + OperandText(right))))
    case Truth(left, gap) => OperandText(left) + gap
  }

  function UnaryText(u: Unary): string {
    match u
    case Not(lead, inner) => lead + ("!" + UnaryText(inner))
    case Group(lead, body, close) => lead + ("(" + (OrText(body) + (close + ")")))
    case Test(lead, c) => lead + ComparisonText(c)
  }

  function AndText(a: AndTree): string {
    UnaryText(a.head) + AndTailText(a.tail)
  }

  function AndTailText(t: AndTail): string {
    match t
    case AndEnd => ""
    case AndLink(gap, word, operand, rest) => gap + (word + (UnaryText(operand) + AndTailText(rest)))
  }

  function OrText(o: OrTree): string {
    AndText(o.head) + OrTailText(o.tail)
  }

  function OrTailText(t: OrTail): string {
    match t
    case OrEnd => ""
    case OrLink(gap, word, operand, rest) => gap + (word + (AndText(operand) + OrTailText(rest)))
  }

  // ---------------------------------------------------------------- meaning

  /** The three dimensions a condition may name. */
  datatype Context = Context(targetFramework: string, runtimeIdentifier: Option<string>, configuration: string)

  datatype ConditionError =
    | TooLong | NotAscii | TrailingSyntax | TooManyComparisons | MustCompare | TooDeep | UnsupportedProperty
    | UnclosedGroup | EndsBeforeValue | UnterminatedQuote | UnterminatedReference | MissingValue

  function PropertyValue(ctx: Context, name: string): Result<string, ConditionError> {
    if EqIgnoreCase(name, "TargetFramework") then Success(ctx.targetFramework)
    else if EqIgnoreCase(name, "RuntimeIdentifier") then
      Success(if ctx.runtimeIdentifier.Some? then ctx.runtimeIdentifier.value else "")
    else if EqIgnoreCase(name, "Configuration") then Success(ctx.configuration)
    else Failure(UnsupportedProperty)
  }

  /** Where the first `$(` stands. */
  function FindReference(s: string): (r: Option<nat>)
    ensures r.Some? ==> r.value + 2 <= |s|
  {
    if s == "" then None
    else if OpensReference(s) then Some(0)
    else
      var r := FindReference(s[1..]);
      if r.Some? then Some(r.value + 1) else None
  }

  /** Replaces every reference by its value, from left to right. */
  function Expand(ctx: Context, s: string): Result<string, ConditionError>
    decreases |s|
  {
    match FindReference(s)
    case None => Success(s)
    case Some(first) =>
      match Find(s[first + 2..], ')')
      case None => Failure(UnterminatedReference)
      case Some(close) =>
        match PropertyValue(ctx, s[first + 2..first + 2 + close])
        case Failure(e) => Failure(e)
        case Success(value) =>
          match Expand(ctx, s[first + close + 3..])
          case Failure(e) => Failure(e)
          case Success(rest) => Success(s[..first] + value + rest)
  }

  function OperandValue(ctx: Context, op: Operand): string {
    match Expand(ctx, op.body)
    case Success(value) => value
    case Failure(_) => ""
  }

  predicate IsTruth(value: string) {
    EqIgnoreCase(value, "true") || EqIgnoreCase(value, "false")
  }

  function ComparisonValue(ctx: Context, c: Comparison): bool {
    match c
    case Compare(left, _, equal, _, right) => EqIgnoreCase(OperandValue(ctx, left), OperandValue(ctx, right)) == equal
    case Truth(left, _) => EqIgnoreCase(OperandValue(ctx, left), "true")
  }

  function UnaryValue(ctx: Context, u: Unary): bool {
    match u
    case Not(_, inner) => !UnaryValue(ctx, inner)
    case Group(_, body, _) => OrValue(ctx, body)
    case Test(_, c) => ComparisonValue(ctx, c)
  }

  function AndValue(ctx: Context, a: AndTree): bool {
    UnaryValue(ctx, a.head) && AndTailValue(ctx, a.tail)
  }

  function AndTailValue(ctx: Context, t: AndTail): bool {
    match t
    case AndEnd => true
    case AndLink(_, _, operand, rest) => UnaryValue(ctx, operand) && AndTailValue(ctx, rest)
  }

  function OrValue(ctx: Context, o: OrTree): bool {
    AndValue(ctx, o.head) || OrTailValue(ctx, o.tail)
  }

  function OrTailValue(ctx: Context, t: OrTail): bool {
    match t
    case OrEnd => false
    case OrLink(_, _, operand, rest) => AndValue(ctx, operand) || OrTailValue(ctx, rest)
  }

  // ---------------------------------------------------------------- limits

  function UnaryCount(u: Unary): nat {
    match u
    case Not(_, inner) => UnaryCount(inner)
    case Group(_, body, _) => OrCount(body)
    case Test(_, _) => 1
  }

  function AndCount(a: AndTree): nat {
    UnaryCount(a.head) + AndTailCount(a.tail)
  }

  function AndTailCount(t: AndTail): nat {
    match t
    case AndEnd => 0
    case AndLink(_, _, operand, rest) => UnaryCount(operand) + AndTailCount(rest)
  }

  function OrCount(o: OrTree): nat {
    AndCount(o.head) + OrTailCount(o.tail)
  }

  function OrTailCount(t: OrTail): nat {
    match t
    case OrEnd => 0
    case OrLink(_, _, operand, rest) => AndCount(operand) + OrTailCount(rest)
  }

  function Max(a: nat, b: nat): nat {
    if a < b then b else a
  }

  /** Nesting of `!` and parentheses. */
  function UnaryDepth(u: Unary): nat {
    match u
    case Not(_, inner) => 1 + UnaryDepth(inner)
    case Group(_, body, _) => 1 + OrDepth(body)
    case Test(_, _) => 0
  }

  function AndDepth(a: AndTree): nat {
    Max(UnaryDepth(a.head), AndTailDepth(a.tail))
  }

  function AndTailDepth(t: AndTail): nat {
    match t
    case AndEnd => 0
    case AndLink(_, _, operand, rest) => Max(UnaryDepth(operand), AndTailDepth(rest))
  }

  function OrDepth(o: OrTree): nat {
    Max(AndDepth(o.head), OrTailDepth(o.tail))
  }

  function OrTailDepth(t: OrTail): nat {
    match t
    case OrEnd => 0
    case OrLink(_, _, operand, rest) => Max(AndDepth(operand), OrTailDepth(rest))
  }

  // ---------------------------------------------------------------- which trees a text stands for

  /** Characters that end nothing, and closed references. */
  predicate IsBareBody(s: string) {
    if s == "" then true
    else if OpensReference(s) then
      var close := Find(s[2..], ')'); close.Some? && IsBareBody(s[close.value + 3..])
    else !IsDelimiter(s[0]) && IsBareBody(s[1..])
  }

  /** The operand is spelled as one and ends where `follow` begins. */
  predicate OperandFits(op: Operand, follow: string) {
    match op
    case Quoted(q, body) => IsQuote(q) && q !in body
    case Bare(body) =>
      && body != "" && !IsQuote(body[0]) && IsBareBody(body)
      && (follow == "" || (IsDelimiter(follow[0]) && !(follow[0] == '(' && body[|body| - 1] == '$')))
  }

  predicate ComparisonFits(ctx: Context, c: Comparison, follow: string) {
    match c
    case Compare(left, gap, equal, gap2, right) =>
      && AllSpace(gap) && AllSpace(gap2)
      && OperandFits(left, gap + (Symbol(equal) + (gap2 + (OperandText(right) + follow)))) && Expand(ctx, left.body).Success?
      && OperandFits(right, follow) && Expand(ctx, right.body).Success?
    case Truth(left, gap) =>
      && AllSpace(gap) && (follow != "" ==> !IsSpace(follow[0])) && !StartsWith(follow, "==") && !StartsWith(follow, "!=")
      && OperandFits(left, gap + follow) && Expand(ctx, left.body).Success? && IsTruth(OperandValue(ctx, left))
  }

  predicate UnaryFits(ctx: Context, u: Unary, follow: string) {
    match u
    case Not(lead, inner) => AllSpace(lead) && UnaryFits(ctx, inner, follow)
    case Group(lead, body, close) => AllSpace(lead) && AllSpace(close) && OrFits(ctx, body, close + (")" + follow))
    case Test(lead, c) => AllSpace(lead) && ComparisonFits(ctx, c, follow)
  }

  /** `s` goes on with a keyword: blanks, the word in any case, and then no further word character. */
  predicate KeywordAhead(s: string, word: string) {
    var start := Blanks(s);
    var end := start + |word|;
    end <= |s| && EqIgnoreCase(s[start..end], word) && (end < |s| ==> !IsWordChar(s[end]))
  }

  predicate AndFits(ctx: Context, a: AndTree, follow: string) {
    UnaryFits(ctx, a.head, AndTailText(a.tail) + follow) && AndTailFits(ctx, a.tail, follow)
  }

  predicate AndTailFits(ctx: Context, t: AndTail, follow: string) {
    match t
    case AndEnd => !KeywordAhead(follow, "And")
    case AndLink(gap, word, operand, rest) =>
      && AllSpace(gap) && EqIgnoreCase(word, "And")
      && EndsWord(UnaryText(operand) + (AndTailText(rest) + follow))
      && UnaryFits(ctx, operand, AndTailText(rest) + follow) && AndTailFits(ctx, rest, follow)
  }

  predicate OrFits(ctx: Context, o: OrTree, follow: string) {
    AndFits(ctx, o.head, OrTailText(o.tail) + follow) && OrTailFits(ctx, o.tail, follow)
  }

  predicate OrTailFits(ctx: Context, t: OrTail, follow: string) {
    match t
    case OrEnd => !KeywordAhead(follow, "Or")
    case OrLink(gap, word, operand, rest) =>
      && AllSpace(gap) && EqIgnoreCase(word, "Or")
      && EndsWord(AndText(operand) + (OrTailText(rest) + follow))
      && AndFits(ctx, operand, OrTailText(rest) + follow) && OrTailFits(ctx, rest, follow)
  }

  predicate EndsWord(s: string) {
    s != "" ==> !IsWordChar(s[0])
  }

  predicate IsAscii(s: string) {
    forall i | 0 <= i < |s| :: s[i] < '\U{0080}'
  }

  /** `s` is the text of `tree`, up to blanks at its end, within every limit. */
  ghost predicate Spells(ctx: Context, s: string, tree: OrTree) {
    && |s| <= MAX_BYTES && IsAscii(s)
    && OrCount(tree) <= MAX_COMPARISONS && OrDepth(tree) <= MAX_DEPTH
    && |OrText(tree)| <= |s| && s[..|OrText(tree)|] == OrText(tree)
    && AllSpace(s[|OrText(tree)|..]) && OrFits(ctx, tree, s[|OrText(tree)|..])
  }
}
