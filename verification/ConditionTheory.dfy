/**
 * The condition evaluator accepts exactly the texts of fitting syntax trees, and its answer is the tree's meaning.
 */
module ConditionTheory {
  import opened Wrappers
  import opened Ascii
  import opened ConditionGrammar
  import opened ConditionSpec

  // ---------------------------------------------------------------- texts

  lemma Assoc(a: string, b: string, c: string)
    ensures (a + b) + c == a + (b + c)
  {
  }

  lemma SplitAt(s: string, n: nat)
    requires n <= |s|
    ensures s[..n] + s[n..] == s
  {
  }

  lemma FindIs(s: string, c: char, n: nat)
    requires n < |s| && s[n] == c && c !in s[..n]
    ensures Find(s, c) == Some(n)
  {
    assert s[n] in s;
    var found := Find(s, c).value;
    assert forall i | 0 <= i < n :: s[i] != c by {
      assert forall i | 0 <= i < n :: s[..n][i] == s[i];
    }
    assert forall i | 0 <= i < found :: s[i] != c by {
      assert forall i | 0 <= i < found :: s[..found][i] == s[i];
    }
  }

  lemma BlanksAre(gap: string, t: string)
    requires AllSpace(gap) && (t != "" ==> !IsSpace(t[0]))
    ensures Blanks(gap + t) == |gap| && (gap + t)[..|gap|] == gap && Skip(gap + t) == t
  {
    var s, n := gap + t, Blanks(gap + t);
    assert forall i | 0 <= i < n :: IsSpace(s[i]) by {
      assert forall i | 0 <= i < n :: s[..n][i] == s[i];
    }
    assert forall i | 0 <= i < |gap| :: IsSpace(s[i]) by {
      assert forall i | 0 <= i < |gap| :: s[i] == gap[i];
    }
    assert t != "" ==> s[|gap|] == t[0];
  }

  lemma SkipSplits(s: string)
    ensures s == s[..Blanks(s)] + Skip(s) && AllSpace(s[..Blanks(s)]) && (Skip(s) != "" ==> !IsSpace(Skip(s)[0]))
  {
  }

  // ---------------------------------------------------------------- operands

  lemma {:induction false} BareLengthSound(s: string, n: nat)
    requires BareLength(s) == Success(n)
    ensures IsBareBody(s[..n]) && (n < |s| ==> IsDelimiter(s[n]))
    ensures 0 < n < |s| && s[n] == '(' ==> s[n - 1] != '$'
    decreases |s|
  {
    if s == "" {
    } else if OpensReference(s) {
      var close := Find(s[2..], ')').value;
      var m := BareLength(s[close + 3..]).value;
      BareLengthSound(s[close + 3..], m);
      ReferencePrefix(s, close, n);
      assert s[..n][close + 3..] == s[close + 3..][..m];
    } else if !IsDelimiter(s[0]) {
      var m := BareLength(s[1..]).value;
      BareLengthSound(s[1..], m);
      assert s[..n][1..] == s[1..][..m];
      assert n >= 2 ==> s[..2] == s[..n][..2];
    }
  }

  lemma ReferencePrefix(s: string, close: nat, n: nat)
    requires OpensReference(s) && Find(s[2..], ')') == Some(close) && close + 3 <= n <= |s|
    ensures OpensReference(s[..n]) && Find(s[..n][2..], ')') == Some(close)
  {
    assert s[..n][..2] == s[..2];
    assert s[..n][2..][..close] == s[2..][..close];
    FindIs(s[..n][2..], ')', close);
  }

  /** What may follow a bare operand. */
  predicate FollowsBare(body: string, follow: string) {
    follow == "" || (IsDelimiter(follow[0]) && !(body != "" && follow[0] == '(' && body[|body| - 1] == '$'))
  }

  function Advanced(n: nat, rest: Result<nat, ConditionError>): Result<nat, ConditionError> {
    match rest
    case Failure(e) => Failure(e)
    case Success(m) => Success(n + m)
  }

  lemma BareSteps(s: string)
    ensures if s == "" then BareLength(s) == Success(0)
            else if OpensReference(s) then
              var close := Find(s[2..], ')');
              if close.None? then BareLength(s) == Failure(UnterminatedReference)
              else BareLength(s) == Advanced(close.value + 3, BareLength(s[close.value + 3..]))
            else if IsDelimiter(s[0]) then BareLength(s) == Success(0)
            else BareLength(s) == Advanced(1, BareLength(s[1..]))
    ensures OpensReference(s) ==> 2 <= |s|
  {
    hide Find;
  }

  lemma {:induction false} BareLengthComplete(body: string, follow: string)
    requires IsBareBody(body) && FollowsBare(body, follow)
    ensures BareLength(body + follow) == Success(|body|)
    decreases |body|
  {
    hide BareLength, Find, OpensReference, IsDelimiter;
    BareSteps(body + follow);
    if body == "" {
      assert body + follow == follow;
      OpensWithDollar(follow);
      return;
    }
    BodySteps(body);
    if OpensReference(body) {
      var close := Find(body[2..], ')').value;
      ReferenceExtends(body, follow, close);
      assert FollowsBare(body[close + 3..], follow);
      BareLengthComplete(body[close + 3..], follow);
    } else {
      assert (body + follow)[1..] == body[1..] + follow;
      PlainExtends(body, follow);
      BareLengthComplete(body[1..], follow);
    }
  }

  lemma BodySteps(body: string)
    requires IsBareBody(body) && body != ""
    ensures if OpensReference(body) then
              2 <= |body| && Find(body[2..], ')').Some? && IsBareBody(body[Find(body[2..], ')').value + 3..])
            else !IsDelimiter(body[0]) && IsBareBody(body[1..])
  {
    hide Find, IsDelimiter;
  }

  lemma OpensWithDollar(s: string)
    ensures OpensReference(s) ==> s[0] == '$' && !IsDelimiter(s[0])
  {
    assert |s| >= 2 ==> s[..2][0] == s[0];
  }

  lemma ReferenceExtends(body: string, follow: string, close: nat)
    requires OpensReference(body) && Find(body[2..], ')') == Some(close)
    ensures OpensReference(body + follow) && Find((body + follow)[2..], ')') == Some(close)
    ensures (body + follow)[close + 3..] == body[close + 3..] + follow
  {
    var s := body + follow;
    assert s[..2] == body[..2];
    assert s[2..][..close] == body[2..][..close];
    FindIs(s[2..], ')', close);
  }

  lemma PlainExtends(body: string, follow: string)
    requires body != "" && !OpensReference(body) && FollowsBare(body, follow)
    ensures !OpensReference(body + follow)
  {
    var s := body + follow;
    assert |body| > 1 ==> s[..2] == body[..2];
    assert |s| > 1 ==> s[..2] == [s[0], s[1]];
    assert |body| == 1 && follow != "" ==> s[0] == body[0] && s[1] == follow[0];
  }

  lemma OperandSound(ctx: Context, s: string, used: nat)
    requires ParseOperand(ctx, s, used).Ok?
    ensures var Ok(op, rest, n) := ParseOperand(ctx, s, used);
            s == OperandText(op) + rest && OperandFits(op, rest) && Expand(ctx, op.body).Success? && n == used
  {
    hide BareLength, IsBareBody, Find, Expand;
    if IsQuote(s[0]) {
      var n := Find(s[1..], s[0]).value;
      assert s[1..n + 1] == s[1..][..n];
      assert s == [s[0]] + s[1..n + 1] + [s[0]] + s[n + 2..];
    } else {
      var n := BareLength(s).value;
      BareLengthSound(s, n);
      SplitAt(s, n);
    }
  }

  lemma OperandComplete(ctx: Context, op: Operand, follow: string, used: nat)
    requires OperandFits(op, follow) && Expand(ctx, op.body).Success?
    ensures ParseOperand(ctx, OperandText(op) + follow, used) == Ok(op, follow, used)
  {
    var s := OperandText(op) + follow;
    match op
    case Quoted(q, body) =>
      var n := |body|;
      assert s[1..] == body + ([q] + follow);
      assert s[1..][..n] == body && s[1..][n] == q;
      FindIs(s[1..], q, n);
      assert s[1..n + 1] == body && s[n + 2..] == follow;
    case Bare(body) =>
      BareLengthComplete(body, follow);
      assert s[0] == body[0];
      assert s[..|body|] == body && s[|body|..] == follow;
  }

  /** An operand's text begins with a character that is no blank and opens no group, negation or comparison. */
  lemma OperandBegins(op: Operand, follow: string)
    requires OperandFits(op, follow)
    ensures OperandText(op) != "" && !IsSpace(OperandText(op)[0]) && OperandText(op)[0] != '!' && OperandText(op)[0] != '('
  {
  }

  // ---------------------------------------------------------------- comparisons

  lemma StartsWithSymbol(equal: bool, t: string)
    ensures StartsWith(Symbol(equal) + t, Symbol(equal)) && !StartsWith(Symbol(equal) + t, Symbol(!equal))
    ensures (Symbol(equal) + t)[2..] == t && !IsSpace((Symbol(equal) + t)[0])
  {
    assert (Symbol(equal) + t)[..2] == Symbol(equal);
    assert Symbol(equal)[0] != Symbol(!equal)[0];
  }

  lemma RightSound(ctx: Context, left: Operand, gap: string, equal: bool, s: string, used: nat)
    requires ParseRight(ctx, left, gap, equal, s, used).Ok?
    ensures var Ok(c, rest, n) := ParseRight(ctx, left, gap, equal, s, used);
            && c.Compare? && c.left == left && c.gap == gap && c.equal == equal && n == used
            && s == c.gap2 + (OperandText(c.right) + rest) && AllSpace(c.gap2)
            && OperandFits(c.right, rest) && Expand(ctx, c.right.body).Success?
  {
    SkipSplits(s);
    OperandSound(ctx, Skip(s), used);
  }

  /** What `ParseComparison` and its parts promise about what they read from `s`. */
  predicate ComparisonReads(ctx: Context, s: string, used: nat, r: Parsed<Comparison>) {
    r.Ok? ==> s == ComparisonText(r.tree) + r.rest && ComparisonFits(ctx, r.tree, r.rest) && r.used == used + 1 <= MAX_COMPARISONS
  }

  lemma ComparisonSound(ctx: Context, s: string, used: nat)
    ensures ComparisonReads(ctx, s, used, ParseComparison(ctx, s, used))
  {
    if used < MAX_COMPARISONS && ParseOperand(ctx, s, used + 1).Ok? {
      OperandSound(ctx, s, used + 1);
      AfterLeftSound(ctx, s, used, ParseOperand(ctx, s, used + 1).tree, ParseOperand(ctx, s, used + 1).rest);
    }
  }

  lemma AfterLeftSound(ctx: Context, s: string, used: nat, left: Operand, rest: string)
    requires used < MAX_COMPARISONS && ParseOperand(ctx, s, used + 1) == Ok(left, rest, used + 1)
    requires s == OperandText(left) + rest && OperandFits(left, rest) && Expand(ctx, left.body).Success?
    ensures ComparisonReads(ctx, s, used, ParseComparison(ctx, s, used))
  {
    var t, gap := Skip(rest), rest[..Blanks(rest)];
    if StartsWith(t, "==") {
      assert ParseComparison(ctx, s, used) == ParseRight(ctx, left, gap, true, t[2..], used + 1);
      SymbolSound(ctx, s, left, rest, true, used + 1);
    } else if StartsWith(t, "!=") {
      assert ParseComparison(ctx, s, used) == ParseRight(ctx, left, gap, false, t[2..], used + 1);
      SymbolSound(ctx, s, left, rest, false, used + 1);
    } else if IsTruth(OperandValue(ctx, left)) {
      assert ParseComparison(ctx, s, used) == Ok(Truth(left, gap), t, used + 1);
      TruthSound(ctx, s, left, rest);
    }
  }

  lemma TruthSound(ctx: Context, s: string, left: Operand, rest: string)
    requires s == OperandText(left) + rest && OperandFits(left, rest) && Expand(ctx, left.body).Success?
    requires !StartsWith(Skip(rest), "==") && !StartsWith(Skip(rest), "!=") && IsTruth(OperandValue(ctx, left))
    ensures var c := Truth(left, rest[..Blanks(rest)]);
            s == ComparisonText(c) + Skip(rest) && ComparisonFits(ctx, c, Skip(rest))
  {
    SkipSplits(rest);
    Assoc(OperandText(left), rest[..Blanks(rest)], Skip(rest));
  }

  lemma SymbolSound(ctx: Context, s: string, left: Operand, rest: string, equal: bool, used: nat)
    requires s == OperandText(left) + rest && OperandFits(left, rest) && Expand(ctx, left.body).Success?
    requires StartsWith(Skip(rest), Symbol(equal)) && 0 < used <= MAX_COMPARISONS
    ensures ComparisonReads(ctx, s, used - 1, ParseRight(ctx, left, rest[..Blanks(rest)], equal, Skip(rest)[2..], used))
  {
    var gap, t := rest[..Blanks(rest)], Skip(rest);
    var r := ParseRight(ctx, left, gap, equal, t[2..], used);
    if r.Ok? {
      SkipSplits(rest);
      SplitAt(t, 2);
      RightSound(ctx, left, gap, equal, t[2..], used);
      CompareText(r.tree, r.rest);
    }
  }

  lemma CompareText(c: Comparison, follow: string)
    requires c.Compare?
    ensures ComparisonText(c) + follow ==
            OperandText(c.left) + (c.gap + (Symbol(c.equal) + (c.gap2 + (OperandText(c.right) + follow))))
  {
    Assoc(c.gap2, OperandText(c.right), follow);
    Assoc(Symbol(c.equal), c.gap2 + OperandText(c.right), follow);
    Assoc(c.gap, Symbol(c.equal) + (c.gap2 + OperandText(c.right)), follow);
    Assoc(OperandText(c.left), c.gap + (Symbol(c.equal) + (c.gap2 + OperandText(c.right))), follow);
  }

  lemma ComparisonComplete(ctx: Context, c: Comparison, follow: string, used: nat)
    requires ComparisonFits(ctx, c, follow) && used < MAX_COMPARISONS
    ensures ParseComparison(ctx, ComparisonText(c) + follow, used) == Ok(c, follow, used + 1)
  {
    match c
    case Compare(left, gap, equal, gap2, right) =>
      CompareText(c, follow);
      var back := gap2 + (OperandText(right) + follow);
      OperandComplete(ctx, left, gap + (Symbol(equal) + back), used + 1);
      StartsWithSymbol(equal, back);
      BlanksAre(gap, Symbol(equal) + back);
      OperandBegins(right, follow);
      BlanksAre(gap2, OperandText(right) + follow);
      OperandComplete(ctx, right, follow, used + 1);
    case Truth(left, gap) =>
      Assoc(OperandText(left), gap, follow);
      OperandComplete(ctx, left, gap + follow, used + 1);
      BlanksAre(gap, follow);
  }

  lemma ComparisonBegins(ctx: Context, c: Comparison, follow: string)
    requires ComparisonFits(ctx, c, follow)
    ensures var s := ComparisonText(c);
            s != "" && !IsSpace(s[0]) && s[0] != '!' && s[0] != '('
  {
    match c
    case Compare(left, gap, equal, gap2, right) =>
      OperandBegins(left, gap + (Symbol(equal) + (gap2 + (OperandText(right) + follow))));
    case Truth(left, gap) =>
      OperandBegins(left, gap + follow);
  }

  // ---------------------------------------------------------------- what is read is what is written

  predicate UnaryReads(ctx: Context, s: string, used: nat, depth: nat, r: Parsed<Unary>) {
    r.Ok? ==>
      && s == UnaryText(r.tree) + r.rest && UnaryFits(ctx, r.tree, r.rest)
      && r.used == used + UnaryCount(r.tree) && r.used <= MAX_COMPARISONS && depth + UnaryDepth(r.tree) <= MAX_DEPTH
  }

  predicate AndReads(ctx: Context, s: string, used: nat, depth: nat, r: Parsed<AndTree>) {
    r.Ok? ==>
      && s == AndText(r.tree) + r.rest && AndFits(ctx, r.tree, r.rest)
      && r.used == used + AndCount(r.tree) && r.used <= MAX_COMPARISONS && depth + AndDepth(r.tree) <= MAX_DEPTH
  }

  predicate AndTailReads(ctx: Context, s: string, used: nat, depth: nat, r: Parsed<AndTail>) {
    r.Ok? ==>
      && s == AndTailText(r.tree) + r.rest && AndTailFits(ctx, r.tree, r.rest)
      && r.used == used + AndTailCount(r.tree) && r.used <= MAX_COMPARISONS && depth + AndTailDepth(r.tree) <= MAX_DEPTH
  }

  predicate OrReads(ctx: Context, s: string, used: nat, depth: nat, r: Parsed<OrTree>) {
    r.Ok? ==>
      && s == OrText(r.tree) + r.rest && OrFits(ctx, r.tree, r.rest)
      && r.used == used + OrCount(r.tree) && r.used <= MAX_COMPARISONS && depth + OrDepth(r.tree) <= MAX_DEPTH
  }

  predicate OrTailReads(ctx: Context, s: string, used: nat, depth: nat, r: Parsed<OrTail>) {
    r.Ok? ==>
      && s == OrTailText(r.tree) + r.rest && OrTailFits(ctx, r.tree, r.rest)
      && r.used == used + OrTailCount(r.tree) && r.used <= MAX_COMPARISONS && depth + OrTailDepth(r.tree) <= MAX_DEPTH
  }

  lemma {:induction false} UnarySound(ctx: Context, s: string, used: nat, depth: nat)
    requires depth <= MAX_DEPTH
    ensures UnaryReads(ctx, s, used, depth, ParseUnary(ctx, s, used, depth))
    decreases |s|, 0
  {
    var lead, t := s[..Blanks(s)], Skip(s);
    if t != "" && t[0] == '!' {
      if depth < MAX_DEPTH {
        UnarySound(ctx, t[1..], used, depth + 1);
        NotSound(ctx, s, used, depth, ParseUnary(ctx, t[1..], used, depth + 1));
      }
    } else if t != "" && t[0] == '(' {
      if depth < MAX_DEPTH {
        OrSound(ctx, t[1..], used, depth + 1);
        GroupSound(ctx, s, used, depth, ParseOr(ctx, t[1..], used, depth + 1));
      }
    } else {
      ComparisonSound(ctx, t, used);
      TestSound(ctx, s, used, depth, ParseComparison(ctx, t, used));
    }
  }

  lemma NotSound(ctx: Context, s: string, used: nat, depth: nat, r: Parsed<Unary>)
    requires depth < MAX_DEPTH && Skip(s) != "" && Skip(s)[0] == '!' && UnaryReads(ctx, Skip(s)[1..], used, depth + 1, r)
    ensures r.Ok? ==> UnaryReads(ctx, s, used, depth, Ok(Not(s[..Blanks(s)], r.tree), r.rest, r.used))
  {
    if r.Ok? {
      hide Blanks, Skip, UnaryFits;
      OpensWith(s, '!');
      NegationText(s[..Blanks(s)], r.tree, r.rest);
      NotParts(ctx, s[..Blanks(s)], r.tree, r.rest);
    }
  }

  lemma NotParts(ctx: Context, lead: string, inner: Unary, follow: string)
    requires AllSpace(lead) && UnaryFits(ctx, inner, follow)
    ensures UnaryFits(ctx, Not(lead, inner), follow)
  {
  }

  /** A text that begins, behind blanks, with the character `c`. */
  lemma OpensWith(s: string, c: char)
    requires Skip(s) != "" && Skip(s)[0] == c
    ensures s == s[..Blanks(s)] + ([c] + Skip(s)[1..]) && AllSpace(s[..Blanks(s)])
  {
    SkipSplits(s);
    assert Skip(s) == [c] + Skip(s)[1..];
  }

  lemma GroupSound(ctx: Context, s: string, used: nat, depth: nat, r: Parsed<OrTree>)
    requires depth < MAX_DEPTH && Skip(s) != "" && Skip(s)[0] == '(' && OrReads(ctx, Skip(s)[1..], used, depth + 1, r)
    ensures r.Ok? && Skip(r.rest) != "" && Skip(r.rest)[0] == ')' ==>
              UnaryReads(ctx, s, used, depth,
                  Ok(Group(s[..Blanks(s)], r.tree, r.rest[..Blanks(r.rest)]), Skip(r.rest)[1..], r.used))
  {
    if r.Ok? && Skip(r.rest) != "" && Skip(r.rest)[0] == ')' {
      hide Blanks, Skip, OrFits, UnaryFits;
      var lead, close, follow := s[..Blanks(s)], r.rest[..Blanks(r.rest)], Skip(r.rest)[1..];
      OpensWith(s, '(');
      OpensWith(r.rest, ')');
      GroupText(lead, r.tree, close, follow);
      GroupParts(ctx, lead, r.tree, close, follow);
    }
  }

  lemma GroupParts(ctx: Context, lead: string, body: OrTree, close: string, follow: string)
    requires AllSpace(lead) && AllSpace(close) && OrFits(ctx, body, close + (")" + follow))
    ensures UnaryFits(ctx, Group(lead, body, close), follow)
  {
  }

  lemma TestSound(ctx: Context, s: string, used: nat, depth: nat, r: Parsed<Comparison>)
    requires depth <= MAX_DEPTH && ComparisonReads(ctx, Skip(s), used, r)
    ensures r.Ok? ==> UnaryReads(ctx, s, used, depth, Ok(Test(s[..Blanks(s)], r.tree), r.rest, r.used))
  {
    if r.Ok? {
      SkipSplits(s);
      Assoc(s[..Blanks(s)], ComparisonText(r.tree), r.rest);
    }
  }

  lemma NegationText(lead: string, inner: Unary, follow: string)
    ensures UnaryText(Not(lead, inner)) + follow == lead + ("!" + (UnaryText(inner) + follow))
  {
    Assoc("!", UnaryText(inner), follow);
    Assoc(lead, "!" + UnaryText(inner), follow);
  }

  lemma GroupText(lead: string, body: OrTree, close: string, follow: string)
    ensures UnaryText(Group(lead, body, close)) + follow == lead + ("(" + (OrText(body) + (close + (")" + follow))))
  {
    Assoc(close, ")", follow);
    Assoc(OrText(body), close + ")", follow);
    Assoc("(", OrText(body) + (close + ")"), follow);
    Assoc(lead, "(" + (OrText(body) + (close + ")")), follow);
  }

  lemma {:induction false} AndSound(ctx: Context, s: string, used: nat, depth: nat)
    requires depth <= MAX_DEPTH
    ensures AndReads(ctx, s, used, depth, ParseAnd(ctx, s, used, depth))
    decreases |s|, 1
  {
    UnarySound(ctx, s, used, depth);
    var head := ParseUnary(ctx, s, used, depth);
    if head.Ok? {
      AndTailSound(ctx, head.rest, head.used, depth);
      AndPairSound(ctx, s, used, depth, head, ParseAndTail(ctx, head.rest, head.used, depth));
    }
  }

  lemma AndPairSound(ctx: Context, s: string, used: nat, depth: nat, head: Parsed<Unary>, tail: Parsed<AndTail>)
    requires head.Ok? && UnaryReads(ctx, s, used, depth, head) && AndTailReads(ctx, head.rest, head.used, depth, tail)
    ensures tail.Ok? ==> AndReads(ctx, s, used, depth, Ok(AndTree(head.tree, tail.tree), tail.rest, tail.used))
  {
    if tail.Ok? {
      Assoc(UnaryText(head.tree), AndTailText(tail.tree), tail.rest);
    }
  }

  lemma KeywordSplits(s: string, word: string)
    requires KeywordAhead(s, word)
    ensures |Skip(s)| >= |word| && EqIgnoreCase(Skip(s)[..|word|], word) && EndsWord(Skip(s)[|word|..])
    ensures s == s[..Blanks(s)] + (Skip(s)[..|word|] + Skip(s)[|word|..]) && AllSpace(s[..Blanks(s)])
  {
    SkipSplits(s);
    var start := Blanks(s);
    assert s[start..start + |word|] == Skip(s)[..|word|];
    SplitAt(Skip(s), |word|);
  }

  lemma LinkText(gap: string, word: string, operand: string, tail: string, follow: string)
    ensures (gap + (word + (operand + tail))) + follow == gap + (word + (operand + (tail + follow)))
  {
    Assoc(operand, tail, follow);
    Assoc(word, operand + tail, follow);
    Assoc(gap, word + (operand + tail), follow);
  }

  lemma {:induction false} AndTailSound(ctx: Context, s: string, used: nat, depth: nat)
    requires depth <= MAX_DEPTH && used <= MAX_COMPARISONS
    ensures AndTailReads(ctx, s, used, depth, ParseAndTail(ctx, s, used, depth))
    decreases |s|, 2
  {
    if KeywordAhead(s, "And") {
      UnarySound(ctx, Skip(s)[3..], used, depth);
      var operand := ParseUnary(ctx, Skip(s)[3..], used, depth);
      if operand.Ok? {
        AndTailSound(ctx, operand.rest, operand.used, depth);
        AndLinkSound(ctx, s, used, depth, operand, ParseAndTail(ctx, operand.rest, operand.used, depth));
      }
    }
  }

  lemma AndLinkSound(ctx: Context, s: string, used: nat, depth: nat, operand: Parsed<Unary>, tail: Parsed<AndTail>)
    requires KeywordAhead(s, "And") && operand.Ok? && UnaryReads(ctx, Skip(s)[3..], used, depth, operand)
    requires AndTailReads(ctx, operand.rest, operand.used, depth, tail)
    ensures tail.Ok? ==>
              AndTailReads(ctx, s, used, depth,
                  Ok(AndLink(s[..Blanks(s)], Skip(s)[..3], operand.tree, tail.tree), tail.rest, tail.used))
  {
    hide Blanks, Skip, KeywordAhead, EqIgnoreCase, EndsWord, UnaryReads, AndTailReads;
    if tail.Ok? {
      KeywordSplits(s, "And");
      AndLinkReads(ctx, s, s[..Blanks(s)], Skip(s)[..3], Skip(s)[3..], used, depth, operand, tail);
    }
  }

  lemma AndLinkReads(ctx: Context, s: string, gap: string, word: string, after: string, used: nat, depth: nat,
                     operand: Parsed<Unary>, tail: Parsed<AndTail>)
    requires s == gap + (word + after) && AllSpace(gap) && EqIgnoreCase(word, "And") && EndsWord(after)
    requires operand.Ok? && UnaryReads(ctx, after, used, depth, operand)
    requires tail.Ok? && AndTailReads(ctx, operand.rest, operand.used, depth, tail)
    ensures AndTailReads(ctx, s, used, depth, Ok(AndLink(gap, word, operand.tree, tail.tree), tail.rest, tail.used))
  {
    hide EqIgnoreCase, UnaryText, AndTailText, UnaryFits, AndTailFits, EndsWord, AllSpace;
    LinkText(gap, word, UnaryText(operand.tree), AndTailText(tail.tree), tail.rest);
    AndLinkParts(ctx, gap, word, operand.tree, tail.tree, tail.rest);
  }

  lemma AndLinkParts(ctx: Context, gap: string, word: string, operand: Unary, tail: AndTail, follow: string)
    requires AllSpace(gap) && EqIgnoreCase(word, "And") && EndsWord(UnaryText(operand) + (AndTailText(tail) + follow))
    requires UnaryFits(ctx, operand, AndTailText(tail) + follow) && AndTailFits(ctx, tail, follow)
    ensures AndTailFits(ctx, AndLink(gap, word, operand, tail), follow)
    ensures AndTailText(AndLink(gap, word, operand, tail)) == gap + (word + (UnaryText(operand) + AndTailText(tail)))
  {
    hide EqIgnoreCase, EndsWord, UnaryText, UnaryFits;
  }

  lemma {:induction false} OrSound(ctx: Context, s: string, used: nat, depth: nat)
    requires depth <= MAX_DEPTH
    ensures OrReads(ctx, s, used, depth, ParseOr(ctx, s, used, depth))
    decreases |s|, 3
  {
    AndSound(ctx, s, used, depth);
    var head := ParseAnd(ctx, s, used, depth);
    if head.Ok? {
      OrTailSound(ctx, head.rest, head.used, depth);
      OrPairSound(ctx, s, used, depth, head, ParseOrTail(ctx, head.rest, head.used, depth));
    }
  }

  lemma OrPairSound(ctx: Context, s: string, used: nat, depth: nat, head: Parsed<AndTree>, tail: Parsed<OrTail>)
    requires head.Ok? && AndReads(ctx, s, used, depth, head) && OrTailReads(ctx, head.rest, head.used, depth, tail)
    ensures tail.Ok? ==> OrReads(ctx, s, used, depth, Ok(OrTree(head.tree, tail.tree), tail.rest, tail.used))
  {
    if tail.Ok? {
      Assoc(AndText(head.tree), OrTailText(tail.tree), tail.rest);
    }
  }

  lemma {:induction false} OrTailSound(ctx: Context, s: string, used: nat, depth: nat)
    requires depth <= MAX_DEPTH && used <= MAX_COMPARISONS
    ensures OrTailReads(ctx, s, used, depth, ParseOrTail(ctx, s, used, depth))
    decreases |s|, 4
  {
    if KeywordAhead(s, "Or") {
      AndSound(ctx, Skip(s)[2..], used, depth);
      var operand := ParseAnd(ctx, Skip(s)[2..], used, depth);
      if operand.Ok? {
        OrTailSound(ctx, operand.rest, operand.used, depth);
        OrLinkSound(ctx, s, used, depth, operand, ParseOrTail(ctx, operand.rest, operand.used, depth));
      }
    }
  }

  lemma OrLinkSound(ctx: Context, s: string, used: nat, depth: nat, operand: Parsed<AndTree>, tail: Parsed<OrTail>)
    requires KeywordAhead(s, "Or") && operand.Ok? && AndReads(ctx, Skip(s)[2..], used, depth, operand)
    requires OrTailReads(ctx, operand.rest, operand.used, depth, tail)
    ensures tail.Ok? ==>
              OrTailReads(ctx, s, used, depth,
                  Ok(OrLink(s[..Blanks(s)], Skip(s)[..2], operand.tree, tail.tree), tail.rest, tail.used))
  {
    hide Blanks, Skip, KeywordAhead, EqIgnoreCase, EndsWord, AndReads, OrTailReads;
    if tail.Ok? {
      KeywordSplits(s, "Or");
      OrLinkReads(ctx, s, s[..Blanks(s)], Skip(s)[..2], Skip(s)[2..], used, depth, operand, tail);
    }
  }

  lemma OrLinkReads(ctx: Context, s: string, gap: string, word: string, after: string, used: nat, depth: nat,
                     operand: Parsed<AndTree>, tail: Parsed<OrTail>)
    requires s == gap + (word + after) && AllSpace(gap) && EqIgnoreCase(word, "Or") && EndsWord(after)
    requires operand.Ok? && AndReads(ctx, after, used, depth, operand)
    requires tail.Ok? && OrTailReads(ctx, operand.rest, operand.used, depth, tail)
    ensures OrTailReads(ctx, s, used, depth, Ok(OrLink(gap, word, operand.tree, tail.tree), tail.rest, tail.used))
  {
    hide EqIgnoreCase, AndText, OrTailText, AndFits, OrTailFits, EndsWord, AllSpace;
    LinkText(gap, word, AndText(operand.tree), OrTailText(tail.tree), tail.rest);
    OrLinkParts(ctx, gap, word, operand.tree, tail.tree, tail.rest);
  }

  lemma OrLinkParts(ctx: Context, gap: string, word: string, operand: AndTree, tail: OrTail, follow: string)
    requires AllSpace(gap) && EqIgnoreCase(word, "Or") && EndsWord(AndText(operand) + (OrTailText(tail) + follow))
    requires AndFits(ctx, operand, OrTailText(tail) + follow) && OrTailFits(ctx, tail, follow)
    ensures OrTailFits(ctx, OrLink(gap, word, operand, tail), follow)
    ensures OrTailText(OrLink(gap, word, operand, tail)) == gap + (word + (AndText(operand) + OrTailText(tail)))
  {
    hide EqIgnoreCase, EndsWord, AndText, AndFits;
  }

  // ---------------------------------------------------------------- what is written is read

  lemma {:induction false} UnaryComplete(ctx: Context, u: Unary, follow: string, used: nat, depth: nat)
    requires UnaryFits(ctx, u, follow) && used + UnaryCount(u) <= MAX_COMPARISONS && depth + UnaryDepth(u) <= MAX_DEPTH
    ensures ParseUnary(ctx, UnaryText(u) + follow, used, depth) == Ok(u, follow, used + UnaryCount(u))
    decreases u
  {
    hide ParseUnary, ParseOr, ParseComparison;
    match u
    case Not(lead, inner) =>
      UnaryComplete(ctx, inner, follow, used, depth + 1);
      NegationText(lead, inner, follow);
      NotIsRead(ctx, lead, inner, UnaryText(inner) + follow, follow, used, used + UnaryCount(inner), depth);
    case Group(lead, body, close) =>
      OrComplete(ctx, body, close + (")" + follow), used, depth + 1);
      GroupText(lead, body, close, follow);
      GroupIsRead(ctx, lead, body, close, OrText(body) + (close + (")" + follow)), follow, used, used + OrCount(body), depth);
    case Test(lead, c) =>
      ComparisonBegins(ctx, c, follow);
      ComparisonComplete(ctx, c, follow, used);
      Assoc(lead, ComparisonText(c), follow);
      TestIsRead(ctx, lead, c, ComparisonText(c) + follow, follow, used, depth);
  }

  lemma NotIsRead(ctx: Context, lead: string, inner: Unary, t: string, follow: string, used: nat, n: nat, depth: nat)
    requires AllSpace(lead) && depth < MAX_DEPTH && ParseUnary(ctx, t, used, depth + 1) == Ok(inner, follow, n)
    ensures ParseUnary(ctx, lead + ("!" + t), used, depth) == Ok(Not(lead, inner), follow, n)
  {
    BlanksAre(lead, "!" + t);
    assert ("!" + t)[1..] == t;
  }

  lemma GroupIsRead(ctx: Context, lead: string, body: OrTree, close: string, t: string, follow: string, used: nat,
      n: nat, depth: nat)
    requires AllSpace(lead) && AllSpace(close) && depth < MAX_DEPTH
    requires ParseOr(ctx, t, used, depth + 1) == Ok(body, close + (")" + follow), n)
    ensures ParseUnary(ctx, lead + ("(" + t), used, depth) == Ok(Group(lead, body, close), follow, n)
  {
    BlanksAre(lead, "(" + t);
    assert ("(" + t)[1..] == t;
    BlanksAre(close, ")" + follow);
    assert (")" + follow)[1..] == follow;
  }

  lemma TestIsRead(ctx: Context, lead: string, c: Comparison, t: string, follow: string, used: nat, depth: nat)
    requires AllSpace(lead) && t != "" && !IsSpace(t[0]) && t[0] != '!' && t[0] != '('
    requires ParseComparison(ctx, t, used) == Ok(c, follow, used + 1)
    ensures ParseUnary(ctx, lead + t, used, depth) == Ok(Test(lead, c), follow, used + 1)
  {
    BlanksAre(lead, t);
  }

  lemma KeywordComplete(gap: string, word: string, keyword: string, after: string)
    requires AllSpace(gap) && EqIgnoreCase(word, keyword) && EndsWord(after) && (keyword == "And" || keyword == "Or")
    ensures var s := gap + (word + after);
            && KeywordAhead(s, keyword) && s[..Blanks(s)] == gap
            && Skip(s)[..|keyword|] == word && Skip(s)[|keyword|..] == after
  {
    assert Lower(word[0]) == Lower(keyword[0]);
    BlanksAre(gap, word + after);
    var s := gap + (word + after);
    assert s[|gap|..|gap| + |keyword|] == word;
    assert after != "" ==> s[|gap| + |keyword|] == after[0];
  }

  lemma {:induction false} AndComplete(ctx: Context, a: AndTree, follow: string, used: nat, depth: nat)
    requires AndFits(ctx, a, follow) && used + AndCount(a) <= MAX_COMPARISONS && depth + AndDepth(a) <= MAX_DEPTH
    ensures ParseAnd(ctx, AndText(a) + follow, used, depth) == Ok(a, follow, used + AndCount(a))
    decreases a
  {
    hide ParseAnd, ParseUnary, ParseAndTail;
    var middle := AndTailText(a.tail) + follow;
    UnaryComplete(ctx, a.head, middle, used, depth);
    AndTailComplete(ctx, a.tail, follow, used + UnaryCount(a.head), depth);
    Assoc(UnaryText(a.head), AndTailText(a.tail), follow);
    AndIsRead(ctx, a.head, a.tail, UnaryText(a.head) + middle, middle, follow, used, used + UnaryCount(a.head),
        used + AndCount(a), depth);
  }

  lemma AndIsRead(ctx: Context, head: Unary, tail: AndTail, s: string, middle: string, follow: string, used: nat,
      n: nat, m: nat, depth: nat)
    requires ParseUnary(ctx, s, used, depth) == Ok(head, middle, n) && ParseAndTail(ctx, middle, n, depth) == Ok(tail, follow, m)
    ensures ParseAnd(ctx, s, used, depth) == Ok(AndTree(head, tail), follow, m)
  {
  }

  lemma {:induction false} AndTailComplete(ctx: Context, t: AndTail, follow: string, used: nat, depth: nat)
    requires AndTailFits(ctx, t, follow) && used + AndTailCount(t) <= MAX_COMPARISONS && depth + AndTailDepth(t) <= MAX_DEPTH
    ensures ParseAndTail(ctx, AndTailText(t) + follow, used, depth) == Ok(t, follow, used + AndTailCount(t))
    decreases t
  {
    hide ParseAndTail, ParseUnary;
    match t
    case AndEnd =>
      assert AndTailText(t) + follow == follow;
      AndEndIsRead(ctx, follow, used, depth);
    case AndLink(gap, word, operand, rest) =>
      var middle := AndTailText(rest) + follow;
      UnaryComplete(ctx, operand, middle, used, depth);
      AndTailComplete(ctx, rest, follow, used + UnaryCount(operand), depth);
      LinkText(gap, word, UnaryText(operand), AndTailText(rest), follow);
      AndLinkIsRead(ctx, gap, word, operand, rest, UnaryText(operand) + middle, middle, follow,
                    used, used + UnaryCount(operand), used + AndTailCount(t), depth);
  }

  lemma AndEndIsRead(ctx: Context, follow: string, used: nat, depth: nat)
    requires !KeywordAhead(follow, "And")
    ensures ParseAndTail(ctx, follow, used, depth) == Ok(AndEnd, follow, used)
  {
  }

  lemma AndLinkIsRead(ctx: Context, gap: string, word: string, operand: Unary, rest: AndTail, after: string,
      middle: string, follow: string,
                      used: nat, n: nat, m: nat, depth: nat)
    requires AllSpace(gap) && EqIgnoreCase(word, "And") && EndsWord(after)
    requires ParseUnary(ctx, after, used, depth) == Ok(operand, middle, n)
             && ParseAndTail(ctx, middle, n, depth) == Ok(rest, follow, m)
    ensures ParseAndTail(ctx, gap + (word + after), used, depth) == Ok(AndLink(gap, word, operand, rest), follow, m)
  {
    KeywordComplete(gap, word, "And", after);
  }

  lemma {:induction false} OrComplete(ctx: Context, o: OrTree, follow: string, used: nat, depth: nat)
    requires OrFits(ctx, o, follow) && used + OrCount(o) <= MAX_COMPARISONS && depth + OrDepth(o) <= MAX_DEPTH
    ensures ParseOr(ctx, OrText(o) + follow, used, depth) == Ok(o, follow, used + OrCount(o))
    decreases o
  {
    hide ParseOr, ParseAnd, ParseOrTail;
    var middle := OrTailText(o.tail) + follow;
    AndComplete(ctx, o.head, middle, used, depth);
    OrTailComplete(ctx, o.tail, follow, used + AndCount(o.head), depth);
    Assoc(AndText(o.head), OrTailText(o.tail), follow);
    OrIsRead(ctx, o.head, o.tail, AndText(o.head) + middle, middle, follow, used, used + AndCount(o.head),
        used + OrCount(o), depth);
  }

  lemma OrIsRead(ctx: Context, head: AndTree, tail: OrTail, s: string, middle: string, follow: string, used: nat,
      n: nat, m: nat, depth: nat)
    requires ParseAnd(ctx, s, used, depth) == Ok(head, middle, n) && ParseOrTail(ctx, middle, n, depth) == Ok(tail, follow, m)
    ensures ParseOr(ctx, s, used, depth) == Ok(OrTree(head, tail), follow, m)
  {
  }

  lemma {:induction false} OrTailComplete(ctx: Context, t: OrTail, follow: string, used: nat, depth: nat)
    requires OrTailFits(ctx, t, follow) && used + OrTailCount(t) <= MAX_COMPARISONS && depth + OrTailDepth(t) <= MAX_DEPTH
    ensures ParseOrTail(ctx, OrTailText(t) + follow, used, depth) == Ok(t, follow, used + OrTailCount(t))
    decreases t
  {
    hide ParseOrTail, ParseAnd;
    match t
    case OrEnd =>
      assert OrTailText(t) + follow == follow;
      OrEndIsRead(ctx, follow, used, depth);
    case OrLink(gap, word, operand, rest) =>
      var middle := OrTailText(rest) + follow;
      AndComplete(ctx, operand, middle, used, depth);
      OrTailComplete(ctx, rest, follow, used + AndCount(operand), depth);
      LinkText(gap, word, AndText(operand), OrTailText(rest), follow);
      OrLinkIsRead(ctx, gap, word, operand, rest, AndText(operand) + middle, middle, follow,
                   used, used + AndCount(operand), used + OrTailCount(t), depth);
  }

  lemma OrEndIsRead(ctx: Context, follow: string, used: nat, depth: nat)
    requires !KeywordAhead(follow, "Or")
    ensures ParseOrTail(ctx, follow, used, depth) == Ok(OrEnd, follow, used)
  {
  }

  lemma OrLinkIsRead(ctx: Context, gap: string, word: string, operand: AndTree, rest: OrTail, after: string,
      middle: string, follow: string,
                     used: nat, n: nat, m: nat, depth: nat)
    requires AllSpace(gap) && EqIgnoreCase(word, "Or") && EndsWord(after)
    requires ParseAnd(ctx, after, used, depth) == Ok(operand, middle, n)
             && ParseOrTail(ctx, middle, n, depth) == Ok(rest, follow, m)
    ensures ParseOrTail(ctx, gap + (word + after), used, depth) == Ok(OrLink(gap, word, operand, rest), follow, m)
  {
    KeywordComplete(gap, word, "Or", after);
  }

  // ---------------------------------------------------------------- the language

  /**
   * Main result: a condition evaluates to `b` if and only if it is the text of a fitting tree within the limits
   * whose meaning is `b`. Everything else is an error.
   */
  lemma EvaluateIsMeaning(ctx: Context, s: string, b: bool)
    ensures Evaluate(ctx, s) == Success(b) <==> exists tree :: Spells(ctx, s, tree) && OrValue(ctx, tree) == b
  {
    if Evaluate(ctx, s) == Success(b) {
      OrSound(ctx, s, 0, 0);
      var tree, rest := ParseOr(ctx, s, 0, 0).tree, ParseOr(ctx, s, 0, 0).rest;
      assert s[..|OrText(tree)|] == OrText(tree) && s[|OrText(tree)|..] == rest;
      SkipSplits(rest);
      assert Spells(ctx, s, tree);
    }
    forall tree | Spells(ctx, s, tree) ensures Evaluate(ctx, s) == Success(OrValue(ctx, tree)) {
      SpelledEvaluates(ctx, s, tree);
    }
  }

  /** A tree's text has one reading: the tree. */
  lemma SpelledParses(ctx: Context, s: string, tree: OrTree)
    requires Spells(ctx, s, tree)
    ensures ParseOr(ctx, s, 0, 0) == Ok(tree, s[|OrText(tree)|..], OrCount(tree))
  {
    var rest := s[|OrText(tree)|..];
    SplitAt(s, |OrText(tree)|);
    OrComplete(ctx, tree, rest, 0, 0);
  }

  lemma SpelledEvaluates(ctx: Context, s: string, tree: OrTree)
    requires Spells(ctx, s, tree)
    ensures Evaluate(ctx, s) == Success(OrValue(ctx, tree))
  {
    SpelledParses(ctx, s, tree);
    var rest := s[|OrText(tree)|..];
    BlanksAre(rest, "");
    assert rest + "" == rest;
  }

  /** No condition has two readings. */
  lemma SpellingIsUnambiguous(ctx: Context, s: string, one: OrTree, two: OrTree)
    requires Spells(ctx, s, one) && Spells(ctx, s, two)
    ensures one == two
  {
    SpelledParses(ctx, s, one);
    SpelledParses(ctx, s, two);
  }
}
