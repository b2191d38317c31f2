/**
 * `ReferenceConditionParser` itself: one pass over the condition by position, with counters for comparisons and
 * nesting. Every method is proved to do what the function of the same name in `ConditionSpec` says.
 */
module ConditionParser {
  import opened Wrappers
  import opened Ascii
  import opened ConditionGrammar
  import opened ConditionReferences
  import opened ConditionTheory
  import Spec = ConditionSpec

  class ReferenceConditionParser {
    const input: string
    const context: Context
    var position: nat
    var comparisons: nat
    var depth: nat

    ghost predicate Valid()
      reads this
    {
      position <= |input| && comparisons <= MAX_COMPARISONS && depth <= MAX_DEPTH
    }

    ghost function Rest(): string
      reads this
      requires Valid()
    {
      input[position..]
    }

    constructor (input: string, context: Context)
      ensures Valid() && this.input == input && this.context == context && position == 0 && comparisons == 0 && depth == 0
    {
      this.input, this.context := input, context;
      position, comparisons, depth := 0, 0, 0;
    }

    /** The parser stands behind what `r` read, at the depth it had before. */
    ghost predicate StandsBehind<T>(r: Spec.Parsed<T>, depthBefore: nat)
      reads this
    {
      r.Ok? ==> Valid() && Rest() == r.rest && comparisons == r.used && depth == depthBefore
    }

    method SkipWhitespace()
      requires Valid()
      modifies `position
      ensures Valid() && Rest() == Spec.Skip(old(Rest())) && position == old(position) + Blanks(old(Rest()))
    {
      ghost var before := Rest();
      while position < |input| && IsSpace(input[position])
        invariant Valid() && old(position) <= position && Rest() == before[position - old(position)..]
        invariant Blanks(before) == position - old(position) + Blanks(Rest())
      {
        assert Rest()[1..] == input[position + 1..];
        position := position + 1;
      }
    }

    method ConsumeByte(c: char) returns (matches: bool)
      requires Valid()
      modifies `position
      ensures Valid() && matches == (old(Rest()) != "" && old(Rest())[0] == c)
      ensures Rest() == if matches then old(Rest())[1..] else old(Rest())
      ensures position == old(position) + if matches then 1 else 0
    {
      matches := position < |input| && input[position] == c;
      if matches { position := position + 1; }
    }

    method ConsumeText(value: string) returns (matches: bool)
      requires Valid()
      modifies `position
      ensures Valid() && matches == StartsWith(old(Rest()), value)
      ensures Rest() == if matches then old(Rest())[|value|..] else old(Rest())
      ensures position == old(position) + if matches then |value| else 0
    {
      matches := StartsWith(input[position..], value);
      if matches { position := position + |value|; }
    }

    method ConsumeKeyword(keyword: string) returns (matches: bool)
      requires Valid()
      modifies `position
      ensures Valid() && matches == KeywordAhead(old(Rest()), keyword)
      ensures Rest() == if matches then Spec.Skip(old(Rest()))[|keyword|..] else old(Rest())
      ensures position == old(position) + if matches then Blanks(old(Rest())) + |keyword| else 0
    {
      hide Blanks, EqIgnoreCase;
      var original := position;
      ghost var rest := Rest();
      SkipWhitespace();
      var end := position + |keyword|;
      matches := end <= |input| && EqIgnoreCase(input[position..end], keyword) && (end < |input| ==> !IsWordChar(input[end]));
      assert end <= |input| ==> input[position..end] == rest[position - original..end - original];
      if matches { position := end; } else { position := original; }
    }

    method EnterNested() returns (r: Result<(), ConditionError>)
      requires Valid()
      modifies `depth
      ensures Valid() && r == if old(depth) < MAX_DEPTH then Success(()) else Failure(TooDeep)
      ensures depth == if old(depth) < MAX_DEPTH then old(depth) + 1 else old(depth)
    {
      if depth == MAX_DEPTH { return Failure(TooDeep); }
      depth := depth + 1;
      return Success(());
    }

    /** A lone reference is looked up directly; anything else is built piece by piece. */
    method ExpandOperand(value: string) returns (r: Result<string, ConditionError>)
      ensures r == Expand(context, value)
    {
      hide Expand, Find, FindReference, PropertyValue;
      ExpandSteps(context, value);
      var first := FindReference(value);
      if first.None? { return Success(value); }
      if first.value == 0 {
        var close := Find(value[2..], ')');
        if close.Some? && close.value + 3 == |value| {
          r := PropertyValue(context, value[2..close.value + 2]);
          ExpandSteps(context, "");
          NoReference();
          assert value[close.value + 3..] == "";
          assert r.Success? ==> value[..0] + r.value + "" == r.value;
          return;
        }
      }
      var expanded, remaining, offset := "", value, first.value;
      PrefixedByNothing(Expand(context, value));
      while true
        invariant FindReference(remaining) == Some(offset)
        invariant Expand(context, value) == Prefixed(expanded, Expand(context, remaining))
        decreases |remaining|
      {
        ExpandSteps(context, remaining);
        var close := Find(remaining[offset + 2..], ')');
        if close.None? { return Failure(UnterminatedReference); }
        var property := PropertyValue(context, remaining[offset + 2..offset + 2 + close.value]);
        if property.Failure? { return Failure(property.error); }
        ghost var before := expanded;
        expanded := expanded + remaining[..offset];
        expanded := expanded + property.value;
        PrefixedTwice(before, remaining[..offset], property.value, Expand(context, remaining[offset + close.value + 3..]));
        remaining := remaining[offset + close.value + 3..];
        ExpandSteps(context, remaining);
        var next := FindReference(remaining);
        if next.None? { return Success(expanded + remaining); }
        offset := next.value;
      }
    }

    method ParseOperand() returns (r: Result<string, ConditionError>)
      requires Valid()
      modifies `position
      ensures Valid()
      ensures var s := Spec.ParseOperand(context, Spec.Skip(old(Rest())), comparisons);
              && StandsBehind(s, depth)
              && OperandAgrees(context, s, r)
    {
      hide Spec.BareLength, Expand, Find, Spec.Skip, Blanks, OpensReference;
      SkipWhitespace();
      ghost var s := Rest();
      if position == |input| { return Failure(EndsBeforeValue); }
      var first := input[position];
      var value: string;
      if IsQuote(first) {
        position := position + 1;
        var start := position;
        assert input[start..] == s[1..];
        var offset := Find(input[start..], first);
        if offset.None? { return Failure(UnterminatedQuote); }
        position := start + offset.value + 1;
        value := input[start..start + offset.value];
        assert value == s[1..offset.value + 1] && Rest() == s[offset.value + 2..];
      } else {
        var start := position;
        var failed := SkipBare();
        if failed { return Failure(UnterminatedReference); }
        if position == start { return Failure(MissingValue); }
        value := input[start..position];
        assert value == s[..position - start] && Rest() == s[position - start..];
      }
      r := ExpandOperand(value);
    }

    /** The loop over an operand without quotes. */
    method SkipBare() returns (failed: bool)
      requires Valid()
      modifies `position
      ensures Valid() && old(position) <= position
      ensures Spec.BareLength(old(Rest())) == if failed then Failure(UnterminatedReference) else Success(position - old(position))
    {
      hide Spec.BareLength, Find, OpensReference, IsDelimiter;
      ghost var s := Rest();
      while position < |input|
        invariant Valid() && old(position) <= position
        invariant Spec.BareLength(s) == Advanced(position - old(position), Spec.BareLength(Rest()))
      {
        BareSteps(Rest());
        if OpensReference(input[position..]) {
          assert input[position + 2..] == Rest()[2..];
          var close := Find(input[position + 2..], ')');
          if close.None? { return true; }
          assert Rest()[close.value + 3..] == input[position + close.value + 3..];
          position := position + close.value + 3;
          continue;
        }
        assert Rest()[1..] == input[position + 1..];
        if IsDelimiter(input[position]) { break; }
        position := position + 1;
      }
      BareSteps(Rest());
      return false;
    }

    method ParseComparison() returns (r: Result<bool, ConditionError>)
      requires Valid() && Spec.Skip(Rest()) == Rest()
      modifies `position, `comparisons
      ensures var s := Spec.ParseComparison(context, old(Rest()), old(comparisons));
              && StandsBehind(s, depth)
              && ComparisonAgrees(context, s, r)
    {
      hide Spec.ParseComparison, Spec.ParseRight, Spec.ParseOperand, Spec.Skip, Blanks, EqIgnoreCase, StartsWith, OperandValue;
      ComparisonSteps(context, Rest(), comparisons);
      if comparisons == MAX_COMPARISONS { return Failure(TooManyComparisons); }
      comparisons := comparisons + 1;
      var left := ParseOperand();
      if left.Failure? { return Failure(left.error); }
      SkipWhitespace();
      var equal := ConsumeText("==");
      if !equal {
        var unequal := ConsumeText("!=");
        if !unequal {
          if EqIgnoreCase(left.value, "true") { return Success(true); }
          if EqIgnoreCase(left.value, "false") { return Success(false); }
          return Failure(MustCompare);
        }
      }
      var right := ParseOperand();
      if right.Failure? { return Failure(right.error); }
      var matches := EqIgnoreCase(left.value, right.value);
      return Success(if equal then matches else !matches);
    }

    method ParseUnary() returns (r: Result<bool, ConditionError>)
      requires Valid()
      modifies this
      ensures var s := Spec.ParseUnary(context, old(Rest()), old(comparisons), old(depth));
              && StandsBehind(s, old(depth))
              && UnaryAgrees(context, s, r)
      decreases |input| - position, 0
    {
      hide Spec.ParseUnary, Spec.ParseOr, Spec.ParseComparison, Spec.Skip, Blanks, UnaryValue, OrValue, ComparisonValue;
      UnarySteps(context, Rest(), comparisons, depth);
      SkipWhitespace();
      var negated := ConsumeByte('!');
      if negated {
        var entered := EnterNested();
        if entered.Failure? { return Failure(entered.error); }
        var value := ParseUnary();
        if value.Failure? { return value; }
        depth := depth - 1;
        return Success(!value.value);
      }
      var grouped := ConsumeByte('(');
      if grouped {
        var entered := EnterNested();
        if entered.Failure? { return Failure(entered.error); }
        var value := ParseOr();
        if value.Failure? { return value; }
        depth := depth - 1;
        SkipWhitespace();
        var closed := ConsumeByte(')');
        if !closed { return Failure(UnclosedGroup); }
        return value;
      }
      SkipTwice(old(Rest()));
      r := ParseComparison();
    }

    method ParseAnd() returns (r: Result<bool, ConditionError>)
      requires Valid()
      modifies this
      ensures var s := Spec.ParseAnd(context, old(Rest()), old(comparisons), old(depth));
              && StandsBehind(s, old(depth))
              && AndAgrees(context, s, r)
      decreases |input| - position, 1
    {
      hide Spec.ParseAnd, Spec.ParseAndTail, Spec.ParseUnary, KeywordAhead, Spec.Skip, Blanks, AndGoesOn;
      ghost var s := Rest();
      var head := ParseUnary();
      AndSteps(context, s, old(comparisons), old(depth));
      if head.Failure? { return head; }
      var value := head.value;
      ghost var tail := Spec.ParseAndTail(context, Rest(), comparisons, depth);
      AndStarts(context, tail, value);
      while true
        invariant Valid() && depth == old(depth) && old(position) < position
        invariant AndGoesOn(context, tail, head.value, Spec.ParseAndTail(context, Rest(), comparisons, depth), value)
        decreases |input| - position
      {
        AndChain(context, tail, head.value, Rest(), comparisons, depth, value);
        var more := ConsumeKeyword("And");
        if !more { break; }
        var right := ParseUnary();
        if right.Failure? { return right; }
        value := value && right.value;
      }
      return Success(value);
    }

    method ParseOr() returns (r: Result<bool, ConditionError>)
      requires Valid()
      modifies this
      ensures var s := Spec.ParseOr(context, old(Rest()), old(comparisons), old(depth));
              && StandsBehind(s, old(depth))
              && OrAgrees(context, s, r)
      decreases |input| - position, 2
    {
      hide Spec.ParseOr, Spec.ParseOrTail, Spec.ParseAnd, KeywordAhead, Spec.Skip, Blanks, OrGoesOn;
      ghost var s := Rest();
      var head := ParseAnd();
      OrSteps(context, s, old(comparisons), old(depth));
      if head.Failure? { return head; }
      var value := head.value;
      ghost var tail := Spec.ParseOrTail(context, Rest(), comparisons, depth);
      OrStarts(context, tail, value);
      while true
        invariant Valid() && depth == old(depth) && old(position) < position
        invariant OrGoesOn(context, tail, head.value, Spec.ParseOrTail(context, Rest(), comparisons, depth), value)
        decreases |input| - position
      {
        OrChain(context, tail, head.value, Rest(), comparisons, depth, value);
        var more := ConsumeKeyword("Or");
        if !more { break; }
        var right := ParseAnd();
        if right.Failure? { return right; }
        value := value || right.value;
      }
      return Success(value);
    }

    static method Evaluate(input: string, context: Context) returns (r: Result<bool, ConditionError>)
      ensures r == Spec.Evaluate(context, input)
    {
      if |input| > MAX_BYTES { return Failure(TooLong); }
      if !IsAscii(input) { return Failure(NotAscii); }
      var parser := new ReferenceConditionParser(input, context);
      assert parser.Rest() == input;
      var value := parser.ParseOr();
      if value.Failure? { return value; }
      parser.SkipWhitespace();
      if parser.position != |parser.input| { return Failure(TrailingSyntax); }
      return value;
    }
  }

  // ---------------------------------------------------------------- the answer for a tree

  ghost predicate OperandAgrees(ctx: Context, s: Spec.Parsed<Operand>, r: Result<string, ConditionError>) {
    r == if s.Ok? then Success(OperandValue(ctx, s.tree)) else Failure(s.error)
  }

  ghost predicate ComparisonAgrees(ctx: Context, s: Spec.Parsed<Comparison>, r: Result<bool, ConditionError>) {
    r == if s.Ok? then Success(ComparisonValue(ctx, s.tree)) else Failure(s.error)
  }

  ghost predicate UnaryAgrees(ctx: Context, s: Spec.Parsed<Unary>, r: Result<bool, ConditionError>) {
    r == if s.Ok? then Success(UnaryValue(ctx, s.tree)) else Failure(s.error)
  }

  ghost predicate AndAgrees(ctx: Context, s: Spec.Parsed<AndTree>, r: Result<bool, ConditionError>) {
    r == if s.Ok? then Success(AndValue(ctx, s.tree)) else Failure(s.error)
  }

  ghost predicate OrAgrees(ctx: Context, s: Spec.Parsed<OrTree>, r: Result<bool, ConditionError>) {
    r == if s.Ok? then Success(OrValue(ctx, s.tree)) else Failure(s.error)
  }

  // ---------------------------------------------------------------- one step of each function

  lemma ComparisonSteps(ctx: Context, s: string, used: nat)
    ensures var r := Spec.ParseComparison(ctx, s, used);
            if used >= MAX_COMPARISONS then r == Spec.Bad(TooManyComparisons) else
              var left := Spec.ParseOperand(ctx, s, used + 1);
              if left.Bad? then r == Spec.Bad(left.error) else
                var t, value := Spec.Skip(left.rest), OperandValue(ctx, left.tree);
                if StartsWith(t, "==") then ComparesRight(ctx, value, true, t[2..], left.used, r)
                else if StartsWith(t, "!=") then ComparesRight(ctx, value, false, t[2..], left.used, r)
                else if EqIgnoreCase(value, "true")
                    then r.Ok? && r.rest == t && r.used == left.used && ComparisonValue(ctx, r.tree)
                else if EqIgnoreCase(value, "false")
                    then r.Ok? && r.rest == t && r.used == left.used && !ComparisonValue(ctx, r.tree)
                else r == Spec.Bad(MustCompare)
  {
    hide Spec.ParseOperand, Spec.Skip, StartsWith, OperandValue;
    NotBothWords(if Spec.ParseOperand(ctx, s, used + 1).Ok?
        then OperandValue(ctx, Spec.ParseOperand(ctx, s, used + 1).tree) else "");
  }

  lemma NotBothWords(value: string)
    ensures !(EqIgnoreCase(value, "true") && EqIgnoreCase(value, "false"))
  {
  }

  /** The second half of a comparison, from the text behind its symbol. */
  ghost predicate ComparesRight(ctx: Context, left: string, equal: bool, s: string, used: nat, r: Spec.Parsed<Comparison>) {
    var right := Spec.ParseOperand(ctx, Spec.Skip(s), used);
    if right.Bad? then r == Spec.Bad(right.error) else
      && r.Ok? && r.rest == right.rest && r.used == right.used
      && ComparisonValue(ctx, r.tree) == (EqIgnoreCase(left, OperandValue(ctx, right.tree)) == equal)
  }

  lemma SkipTwice(s: string)
    ensures Spec.Skip(Spec.Skip(s)) == Spec.Skip(s)
  {
    assert Spec.Skip(s)[0..] == Spec.Skip(s);
  }

  lemma UnarySteps(ctx: Context, s: string, used: nat, depth: nat)
    ensures var t, r := Spec.Skip(s), Spec.ParseUnary(ctx, s, used, depth);
            if t != "" && t[0] == '!' then
              if depth >= MAX_DEPTH then r == Spec.Bad(TooDeep) else
                var inner := Spec.ParseUnary(ctx, t[1..], used, depth + 1);
                if inner.Bad? then r == Spec.Bad(inner.error) else
                  r.Ok? && r.rest == inner.rest && r.used == inner.used && UnaryValue(ctx, r.tree) == !UnaryValue(ctx, inner.tree)
            else if t != "" && t[0] == '(' then
              if depth >= MAX_DEPTH then r == Spec.Bad(TooDeep) else
                var body := Spec.ParseOr(ctx, t[1..], used, depth + 1);
                if body.Bad? then r == Spec.Bad(body.error)
                else if Spec.Skip(body.rest) == "" || Spec.Skip(body.rest)[0] != ')' then r == Spec.Bad(UnclosedGroup)
                else
                  && r.Ok? && r.rest == Spec.Skip(body.rest)[1..] && r.used == body.used
                  && UnaryValue(ctx, r.tree) == OrValue(ctx, body.tree)
            else
              var c := Spec.ParseComparison(ctx, t, used);
              if c.Bad? then r == Spec.Bad(c.error) else
                r.Ok? && r.rest == c.rest && r.used == c.used && UnaryValue(ctx, r.tree) == ComparisonValue(ctx, c.tree)
  {
    hide Spec.Skip, Spec.ParseComparison, Spec.ParseOr, ComparisonValue;
  }

  lemma AndSteps(ctx: Context, s: string, used: nat, depth: nat)
    ensures var head, r := Spec.ParseUnary(ctx, s, used, depth), Spec.ParseAnd(ctx, s, used, depth);
            if head.Bad? then r == Spec.Bad(head.error) else
              var tail := Spec.ParseAndTail(ctx, head.rest, head.used, depth);
              if tail.Bad? then r == Spec.Bad(tail.error) else
                && r.Ok? && r.rest == tail.rest && r.used == tail.used
                && AndValue(ctx, r.tree) == (UnaryValue(ctx, head.tree) && AndTailValue(ctx, tail.tree))
  {
    hide Spec.ParseUnary, Spec.ParseAndTail;
  }

  lemma OrSteps(ctx: Context, s: string, used: nat, depth: nat)
    ensures var head, r := Spec.ParseAnd(ctx, s, used, depth), Spec.ParseOr(ctx, s, used, depth);
            if head.Bad? then r == Spec.Bad(head.error) else
              var tail := Spec.ParseOrTail(ctx, head.rest, head.used, depth);
              if tail.Bad? then r == Spec.Bad(tail.error) else
                && r.Ok? && r.rest == tail.rest && r.used == tail.used
                && OrValue(ctx, r.tree) == (AndValue(ctx, head.tree) || OrTailValue(ctx, tail.tree))
  {
    hide Spec.ParseAnd, Spec.ParseOrTail;
  }

  /** The `And` chain `whole` after the value `first` is the chain `left` after the value `value`. */
  ghost predicate AndGoesOn(ctx: Context, whole: Spec.Parsed<AndTail>, first: bool, left: Spec.Parsed<AndTail>, value: bool) {
    if whole.Ok? then
      && left.Ok? && left.rest == whole.rest && left.used == whole.used
      && (first && AndTailValue(ctx, whole.tree)) == (value && AndTailValue(ctx, left.tree))
    else left == whole
  }

  ghost predicate OrGoesOn(ctx: Context, whole: Spec.Parsed<OrTail>, first: bool, left: Spec.Parsed<OrTail>, value: bool) {
    if whole.Ok? then
      && left.Ok? && left.rest == whole.rest && left.used == whole.used
      && (first || OrTailValue(ctx, whole.tree)) == (value || OrTailValue(ctx, left.tree))
    else left == whole
  }

  lemma AndStarts(ctx: Context, tail: Spec.Parsed<AndTail>, first: bool)
    ensures AndGoesOn(ctx, tail, first, tail, first)
  {
  }

  lemma OrStarts(ctx: Context, tail: Spec.Parsed<OrTail>, first: bool)
    ensures OrGoesOn(ctx, tail, first, tail, first)
  {
  }

  lemma AndChain(ctx: Context, whole: Spec.Parsed<AndTail>, first: bool, s: string, used: nat, depth: nat, value: bool)
    requires AndGoesOn(ctx, whole, first, Spec.ParseAndTail(ctx, s, used, depth), value)
    ensures if !KeywordAhead(s, "And") then
              whole.Ok? && whole.rest == s && whole.used == used && (first && AndTailValue(ctx, whole.tree)) == value
            else
              var u := Spec.ParseUnary(ctx, Spec.Skip(s)[3..], used, depth);
              if u.Bad? then whole == Spec.Bad(u.error) else
                AndGoesOn(ctx, whole, first, Spec.ParseAndTail(ctx, u.rest, u.used, depth), value && UnaryValue(ctx, u.tree))
  {
    hide Spec.ParseUnary, Blanks;
  }

  lemma OrChain(ctx: Context, whole: Spec.Parsed<OrTail>, first: bool, s: string, used: nat, depth: nat, value: bool)
    requires OrGoesOn(ctx, whole, first, Spec.ParseOrTail(ctx, s, used, depth), value)
    ensures if !KeywordAhead(s, "Or") then
              whole.Ok? && whole.rest == s && whole.used == used && (first || OrTailValue(ctx, whole.tree)) == value
            else
              var u := Spec.ParseAnd(ctx, Spec.Skip(s)[2..], used, depth);
              if u.Bad? then whole == Spec.Bad(u.error) else
                OrGoesOn(ctx, whole, first, Spec.ParseOrTail(ctx, u.rest, u.used, depth), value || AndValue(ctx, u.tree))
  {
    hide Spec.ParseAnd, Blanks;
  }
}
