/**
 * The recursive descent of `ReferenceConditionParser` as functions from the text that is left: each returns the tree
 * it read, what is left then, and how many comparisons have been read so far.
 */
module ConditionSpec {
  import opened Wrappers
  import opened Ascii
  import opened ConditionGrammar

  datatype Parsed<+T> = Ok(tree: T, rest: string, used: nat) | Bad(error: ConditionError)

  /** Length of the bare operand at the start of `s`. */
  function BareLength(s: string): (r: Result<nat, ConditionError>)
    ensures r.Success? ==> r.value <= |s|
    decreases |s|
  {
    if s == "" then Success(0)
    else if OpensReference(s) then
      match Find(s[2..], ')')
      case None => Failure(UnterminatedReference)
      case Some(close) =>
        match BareLength(s[close + 3..])
        case Failure(e) => Failure(e)
        case Success(n) => Success(close + 3 + n)
    else if IsDelimiter(s[0]) then Success(0)
    else
      match BareLength(s[1..])
      case Failure(e) => Failure(e)
      case Success(n) => Success(1 + n)
  }

  /** Reads one operand; blanks in front of it have been skipped. */
  function ParseOperand(ctx: Context, s: string, used: nat): (r: Parsed<Operand>)
    ensures r.Ok? ==> |r.rest| < |s| && r.used == used
  {
    if s == "" then Bad(EndsBeforeValue)
    else if IsQuote(s[0]) then
      match Find(s[1..], s[0])
      case None => Bad(UnterminatedQuote)
      case Some(n) => Expanded(ctx, Quoted(s[0], s[1..n + 1]), s[n + 2..], used)
    else
      match BareLength(s)
      case Failure(e) => Bad(e)
      case Success(n) => if n == 0 then Bad(MissingValue) else Expanded(ctx, Bare(s[..n]), s[n..], used)
  }

  function Expanded(ctx: Context, op: Operand, rest: string, used: nat): Parsed<Operand> {
    match Expand(ctx, op.body)
    case Failure(e) => Bad(e)
    case Success(_) => Ok(op, rest, used)
  }

  function Skip(s: string): string {
    s[Blanks(s)..]
  }

  function ParseComparison(ctx: Context, s: string, used: nat): (r: Parsed<Comparison>)
    ensures r.Ok? ==> |r.rest| < |s|
  {
    if used >= MAX_COMPARISONS then Bad(TooManyComparisons) else
      match ParseOperand(ctx, s, used + 1)
      case Bad(e) => Bad(e)
      case Ok(left, rest, n) =>
        var gap := rest[..Blanks(rest)];
        if StartsWith(Skip(rest), "==") then ParseRight(ctx, left, gap, true, Skip(rest)[2..], n)
        else if StartsWith(Skip(rest), "!=") then ParseRight(ctx, left, gap, false, Skip(rest)[2..], n)
        else if IsTruth(OperandValue(ctx, left)) then Ok(Truth(left, gap), Skip(rest), n)
        else Bad(MustCompare)
  }

  function ParseRight(ctx: Context, left: Operand, gap: string, equal: bool, s: string, used: nat): (r: Parsed<Comparison>)
    ensures r.Ok? ==> |r.rest| < |s|
  {
    match ParseOperand(ctx, Skip(s), used)
    case Bad(e) => Bad(e)
    case Ok(right, rest, n) => Ok(Compare(left, gap, equal, s[..Blanks(s)], right), rest, n)
  }

  function ParseUnary(ctx: Context, s: string, used: nat, depth: nat): (r: Parsed<Unary>)
    ensures r.Ok? ==> |r.rest| < |s|
    decreases |s|, 0
  {
    var lead, t := s[..Blanks(s)], Skip(s);
    if t != "" && t[0] == '!' then
      if depth >= MAX_DEPTH then Bad(TooDeep) else
        match ParseUnary(ctx, t[1..], used, depth + 1)
        case Bad(e) => Bad(e)
        case Ok(inner, rest, n) => Ok(Not(lead, inner), rest, n)
    else if t != "" && t[0] == '(' then
      if depth >= MAX_DEPTH then Bad(TooDeep) else
        match ParseOr(ctx, t[1..], used, depth + 1)
        case Bad(e) => Bad(e)
        case Ok(body, rest, n) =>
          if Skip(rest) != "" && Skip(rest)[0] == ')' then Ok(Group(lead, body, rest[..Blanks(rest)]), Skip(rest)[1..], n)
          else Bad(UnclosedGroup)
    else
      match ParseComparison(ctx, t, used)
      case Bad(e) => Bad(e)
      case Ok(c, rest, n) => Ok(Test(lead, c), rest, n)
  }

  function ParseAnd(ctx: Context, s: string, used: nat, depth: nat): (r: Parsed<AndTree>)
    ensures r.Ok? ==> |r.rest| < |s|
    decreases |s|, 1
  {
    match ParseUnary(ctx, s, used, depth)
    case Bad(e) => Bad(e)
    case Ok(head, rest, n) =>
      match ParseAndTail(ctx, rest, n, depth)
      case Bad(e) => Bad(e)
      case Ok(tail, rest', n') => Ok(AndTree(head, tail), rest', n')
  }

  function ParseAndTail(ctx: Context, s: string, used: nat, depth: nat): (r: Parsed<AndTail>)
    ensures r.Ok? ==> |r.rest| <= |s|
    decreases |s|, 2
  {
    if !KeywordAhead(s, "And") then Ok(AndEnd, s, used) else
      match ParseUnary(ctx, Skip(s)[3..], used, depth)
      case Bad(e) => Bad(e)
      case Ok(operand, rest, n) =>
        match ParseAndTail(ctx, rest, n, depth)
        case Bad(e) => Bad(e)
        case Ok(tail, rest', n') => Ok(AndLink(s[..Blanks(s)], Skip(s)[..3], operand, tail), rest', n')
  }

  function ParseOr(ctx: Context, s: string, used: nat, depth: nat): (r: Parsed<OrTree>)
    ensures r.Ok? ==> |r.rest| < |s|
    decreases |s|, 3
  {
    match ParseAnd(ctx, s, used, depth)
    case Bad(e) => Bad(e)
    case Ok(head, rest, n) =>
      match ParseOrTail(ctx, rest, n, depth)
      case Bad(e) => Bad(e)
      case Ok(tail, rest', n') => Ok(OrTree(head, tail), rest', n')
  }

  function ParseOrTail(ctx: Context, s: string, used: nat, depth: nat): (r: Parsed<OrTail>)
    ensures r.Ok? ==> |r.rest| <= |s|
    decreases |s|, 4
  {
    if !KeywordAhead(s, "Or") then Ok(OrEnd, s, used) else
      match ParseAnd(ctx, Skip(s)[2..], used, depth)
      case Bad(e) => Bad(e)
      case Ok(operand, rest, n) =>
        match ParseOrTail(ctx, rest, n, depth)
        case Bad(e) => Bad(e)
        case Ok(tail, rest', n') => Ok(OrLink(s[..Blanks(s)], Skip(s)[..2], operand, tail), rest', n')
  }

  /** The whole evaluation, with its limits on size and characters. */
  function Evaluate(ctx: Context, s: string): Result<bool, ConditionError> {
    if |s| > MAX_BYTES then Failure(TooLong)
    else if !IsAscii(s) then Failure(NotAscii)
    else
      match ParseOr(ctx, s, 0, 0)
      case Bad(e) => Failure(e)
      case Ok(tree, rest, _) => if Skip(rest) == "" then Success(OrValue(ctx, tree)) else Failure(TrailingSyntax)
  }
}
