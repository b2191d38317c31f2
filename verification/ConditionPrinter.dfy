/**
 * Printing a condition and reading it back: the evaluator gives the printed text the meaning of the expression it was
 * printed from. Parentheses stand where precedence needs them and wherever else the expression has them, blanks are free,
 * words come in any case, and plain literals may stand without quotes.
 */
module ConditionPrinter {
  import opened Wrappers
  import opened Ascii
  import opened ConditionGrammar
  import opened ConditionSpec
  import opened ConditionTheory

  datatype Dimension = TargetFramework | RuntimeIdentifier | Configuration
  /** A literal text, quoted or bare, or a dimension under a name in any case. */
  datatype Term = Literal(text: string, bare: bool) | Property(dimension: Dimension, name: string)

  /** An expression with its blanks and the spelling of its words. */
  datatype Expr =
    | Comparing(left: Term, gap: string, equal: bool, gap2: string, right: Term)
    | Constant(value: bool, word: string)
    | Negation(gap: string, inner: Expr)
    | Both(left': Expr, link: Link, right': Expr)
    | Either(left': Expr, link: Link, right': Expr)
    | Bracketed(gap: string, inner: Expr, gap2: string)

  /** A keyword between two blanks. */
  datatype Link = Link(before: string, word: string, behind: string)

  // ---------------------------------------------------------------- meaning and limits

  function DimensionValue(ctx: Context, d: Dimension): string {
    match d
    case TargetFramework => ctx.targetFramework
    case RuntimeIdentifier => if ctx.runtimeIdentifier.Some? then ctx.runtimeIdentifier.value else ""
    case Configuration => ctx.configuration
  }

  function TermValue(ctx: Context, t: Term): string {
    match t
    case Literal(text, _) => text
    case Property(d, _) => DimensionValue(ctx, d)
  }

  predicate Holds(ctx: Context, e: Expr) {
    match e
    case Comparing(left, _, equal, _, right) => EqIgnoreCase(TermValue(ctx, left), TermValue(ctx, right)) == equal
    case Constant(value, _) => value
    case Negation(_, inner) => !Holds(ctx, inner)
    case Both(left, _, right) => Holds(ctx, left) && Holds(ctx, right)
    case Either(left, _, right) => Holds(ctx, left) || Holds(ctx, right)
    case Bracketed(_, inner, _) => Holds(ctx, inner)
  }

  function Leaves(e: Expr): nat {
    match e
    case Comparing(_, _, _, _, _) | Constant(_, _) => 1
    case Negation(_, inner) => Leaves(inner)
    case Both(left, _, right) => Leaves(left) + Leaves(right)
    case Either(left, _, right) => Leaves(left) + Leaves(right)
    case Bracketed(_, inner, _) => Leaves(inner)
  }

  /** Where an expression stands: alone or under `Or`, under `And`, or under `!`. */
  datatype Place = InOr | InAnd | InNot

  predicate NeedsGroup(e: Expr, place: Place) {
    (e.Both? && place == InNot) || (e.Either? && place != InOr)
  }

  function Nesting(e: Expr, place: Place): nat {
    match e
    case Comparing(_, _, _, _, _) | Constant(_, _) => 0
    case Negation(_, inner) => 1 + Nesting(inner, InNot)
    case Both(left, _, right) => Max(Nesting(left, InAnd), Nesting(right, InNot)) + if NeedsGroup(e, place) then 1 else 0
    case Either(left, _, right) => Max(Nesting(left, InOr), Nesting(right, InAnd)) + if NeedsGroup(e, place) then 1 else 0
    case Bracketed(_, inner, _) => 1 + Nesting(inner, InOr)
  }

  // ---------------------------------------------------------------- text

  function DimensionName(d: Dimension): string {
    match d
    case TargetFramework => "TargetFramework"
    case RuntimeIdentifier => "RuntimeIdentifier"
    case Configuration => "Configuration"
  }

  function QuoteFor(text: string): char {
    if '\'' in text then '"' else '\''
  }

  function TermOperand(t: Term): Operand {
    match t
    case Literal(text, bare) => if bare then Bare(text) else Quoted(QuoteFor(text), text)
    case Property(_, name) => Bare("$(" + (name + ")"))
  }

  function Word(value: bool): string {
    if value then "true" else "false"
  }

  function Print(e: Expr, place: Place): string
    decreases e, 1
  {
    if NeedsGroup(e, place) then "(" + (PrintOpen(e) + ")") else PrintOpen(e)
  }

  function PrintOpen(e: Expr): string
    decreases e, 0
  {
    match e
    case Comparing(left, gap, equal, gap2, right) =>
      OperandText(TermOperand(left)) + (gap + (Symbol(equal) + (gap2 + OperandText(TermOperand(right)))))
    case Constant(_, word) => word
    case Negation(gap, inner) => "!" + (gap + Print(inner, InNot))
    case Both(left, link, right) => Print(left, InAnd) + (LinkText(link) + Print(right, InNot))
    case Either(left, link, right) => Print(left, InOr) + (LinkText(link) + Print(right, InAnd))
    case Bracketed(gap, inner, gap2) => "(" + (gap + (Print(inner, InOr) + (gap2 + ")")))
  }

  function LinkText(link: Link): string {
    link.before + (link.word + link.behind)
  }

  /** Letters, digits, points, hyphens and underscores, at least one. */
  predicate IsPlain(text: string) {
    text != "" && forall i | 0 <= i < |text| ::
      'a' <= text[i] <= 'z' || 'A' <= text[i] <= 'Z' || '0' <= text[i] <= '9' || text[i] == '.' || text[i] == '-'
          || text[i] == '_'
  }

  predicate OnlyBlanks(s: string) {
    forall i | 0 <= i < |s| :: s[i] == ' ' || s[i] == '\t' || s[i] == '\n' || s[i] == '\r' || s[i] == '\U{000C}'
  }

  predicate PrintableLink(link: Link, word: string) {
    && OnlyBlanks(link.before) && OnlyBlanks(link.behind) && link.before != "" && link.behind != ""
    && EqIgnoreCase(link.word, word)
  }

  /** A quoted literal must leave one of the two quotes free and must not look like a reference, a bare one must be plain. */
  predicate PrintableTerm(t: Term) {
    match t
    case Literal(text, bare) => if bare then IsPlain(text) else ('\'' !in text || '"' !in text) && FindReference(text).None?
    case Property(d, name) => EqIgnoreCase(name, DimensionName(d))
  }

  predicate Printable(e: Expr) {
    match e
    case Comparing(left, gap, _, gap2, right) =>
      PrintableTerm(left) && PrintableTerm(right) && OnlyBlanks(gap) && OnlyBlanks(gap2)
    case Constant(value, word) => EqIgnoreCase(word, Word(value))
    case Negation(gap, inner) => OnlyBlanks(gap) && Printable(inner)
    case Both(left, link, right) => Printable(left) && PrintableLink(link, "And") && Printable(right)
    case Either(left, link, right) => Printable(left) && PrintableLink(link, "Or") && Printable(right)
    case Bracketed(gap, inner, gap2) => OnlyBlanks(gap) && Printable(inner) && OnlyBlanks(gap2)
  }

  // ---------------------------------------------------------------- the tree of a printed expression

  /** Whether the print ends with a lone truth value, which takes the blank behind it. */
  predicate EndsInConstant(e: Expr, place: Place) {
    match e
    case Comparing(_, _, _, _, _) => false
    case Constant(_, _) => true
    case Negation(_, inner) => EndsInConstant(inner, InNot)
    case Both(_, _, right) => !NeedsGroup(e, place) && EndsInConstant(right, InNot)
    case Either(_, _, right) => !NeedsGroup(e, place) && EndsInConstant(right, InAnd)
    case Bracketed(_, _, _) => false
  }

  function Taken(e: Expr, place: Place, pad: string): string {
    if EndsInConstant(e, place) then pad else ""
  }

  function Left(e: Expr, place: Place, pad: string): string {
    if EndsInConstant(e, place) then "" else pad
  }

  function UnaryOf(e: Expr, lead: string, pad: string): Unary
    decreases e, if e.Both? then 2 else if e.Either? then 1 else 0
  {
    match e
    case Comparing(left, gap, equal, gap2, right) =>
      Test(lead, Compare(TermOperand(left), gap, equal, gap2, TermOperand(right)))
    case Constant(_, word) => Test(lead, Truth(Bare(word), pad))
    case Negation(gap, inner) => Not(lead, UnaryOf(inner, gap, pad))
    case Bracketed(gap, inner, gap2) => Group(lead, OrOf(inner, gap, gap2, OrEnd), Left(inner, InOr, gap2))
    case _ => Group(lead, OrOf(e, "", "", OrEnd), "")
  }

  function AndOf(e: Expr, lead: string, pad: string, tail: AndTail): AndTree
    decreases e, if e.Both? then 0 else if e.Either? then 2 else 1
  {
    match e
    case Both(left, link, right) =>
      AndOf(left, lead, link.before, AndLink(Left(left, InAnd, link.before), link.word, UnaryOf(right, link.behind, pad), tail))
    case _ => AndTree(UnaryOf(e, lead, pad), tail)
  }

  function OrOf(e: Expr, lead: string, pad: string, tail: OrTail): OrTree
    decreases e, if e.Both? then 1 else if e.Either? then 0 else 2
  {
    match e
    case Either(left, link, right) =>
      OrOf(left, lead, link.before,
           OrLink(Left(left, InOr, link.before), link.word, AndOf(right, link.behind, pad, AndEnd), tail))
    case _ => OrTree(AndOf(e, lead, pad, AndEnd), tail)
  }

  // ---------------------------------------------------------------- its text

  lemma {:induction false} UnaryOfText(e: Expr, lead: string, pad: string)
    ensures UnaryText(UnaryOf(e, lead, pad)) == lead + (Print(e, InNot) + Taken(e, InNot, pad))
    decreases e, if e.Both? then 2 else if e.Either? then 1 else 0
  {
    hide OrText, Print, Taken, Left;
    match e
    case Comparing(_, _, _, _, _) =>
      LeafText(e, lead, pad);
    case Constant(_, _) =>
      LeafText(e, lead, pad);
    case Negation(gap, inner) =>
      UnaryOfText(inner, gap, pad);
      NegationText(gap, inner, lead, pad);
    case Bracketed(gap, inner, gap2) =>
      OrOfText(inner, gap, gap2, OrEnd);
      BracketedText(gap, inner, gap2, lead, pad);
    case _ =>
      OrOfText(e, "", "", OrEnd);
      GroupText(e, lead, pad);
  }

  lemma LeafText(e: Expr, lead: string, pad: string)
    requires e.Comparing? || e.Constant?
    ensures UnaryText(UnaryOf(e, lead, pad)) == lead + (Print(e, InNot) + Taken(e, InNot, pad))
  {
    assert PrintOpen(e) + "" == PrintOpen(e);
  }

  lemma NegationText(gap: string, inner: Expr, lead: string, pad: string)
    requires UnaryText(UnaryOf(inner, gap, pad)) == gap + (Print(inner, InNot) + Taken(inner, InNot, pad))
    ensures var e := Negation(gap, inner);
            UnaryText(UnaryOf(e, lead, pad)) == lead + (Print(e, InNot) + Taken(e, InNot, pad))
  {
    var body, taken := Print(inner, InNot), Taken(inner, InNot, pad);
    Assoc("!", gap + body, taken);
    Assoc(gap, body, taken);
    assert Taken(Negation(gap, inner), InNot, pad) == taken;
    assert Print(Negation(gap, inner), InNot) == "!" + (gap + body);
  }

  lemma BracketedText(gap: string, inner: Expr, gap2: string, lead: string, pad: string)
    requires OrText(OrOf(inner, gap, gap2, OrEnd)) == gap + (Print(inner, InOr) + (Taken(inner, InOr, gap2) + OrTailText(OrEnd)))
    ensures var e := Bracketed(gap, inner, gap2);
            UnaryText(UnaryOf(e, lead, pad)) == lead + (Print(e, InNot) + Taken(e, InNot, pad))
  {
    BracketedPrint(gap, inner, gap2);
    assert UnaryText(UnaryOf(Bracketed(gap, inner, gap2), lead, pad)) ==
           lead + ("(" + (OrText(OrOf(inner, gap, gap2, OrEnd)) + (Left(inner, InOr, gap2) + ")"))) by {
      hide OrText, OrOf, EndsInConstant;
    }
    var body, taken, left := Print(inner, InOr), Taken(inner, InOr, gap2), Left(inner, InOr, gap2);
    assert OrTailText(OrEnd) == "" && taken + left == gap2 by { hide EndsInConstant; }
    hide *;
    BracketPrints(gap, body, taken, left);
    var e := Print(Bracketed(gap, inner, gap2), InNot);
    assert e + "" == e;
  }

  lemma BracketedPrint(gap: string, inner: Expr, gap2: string)
    ensures Print(Bracketed(gap, inner, gap2), InNot) == "(" + (gap + (Print(inner, InOr) + (gap2 + ")")))
    ensures forall pad :: Taken(Bracketed(gap, inner, gap2), InNot, pad) == ""
  {
  }

  lemma GroupText(e: Expr, lead: string, pad: string)
    requires e.Both? || e.Either?
    requires OrText(OrOf(e, "", "", OrEnd)) == "" + (Print(e, InOr) + (Taken(e, InOr, "") + OrTailText(OrEnd)))
    ensures UnaryText(UnaryOf(e, lead, pad)) == lead + (Print(e, InNot) + Taken(e, InNot, pad))
  {
    hide OrText, OrOf;
    assert "" + (PrintOpen(e) + ("" + "")) == PrintOpen(e);
    assert Print(e, InNot) == "(" + (PrintOpen(e) + ")") && Print(e, InNot) + "" == Print(e, InNot);
    assert "" + ")" == ")";
  }

  lemma BracketPrints(gap: string, body: string, taken: string, left: string)
    ensures "(" + ((gap + (body + (taken + ""))) + (left + ")")) == "(" + (gap + (body + ((taken + left) + ")")))
  {
    assert taken + "" == taken;
    Assoc(gap, body + taken, left + ")");
    Assoc(body, taken, left + ")");
    Assoc(taken, left, ")");
  }

  lemma {:induction false} AndOfText(e: Expr, lead: string, pad: string, tail: AndTail)
    ensures AndText(AndOf(e, lead, pad, tail)) == lead + (Print(e, InAnd) + (Taken(e, InAnd, pad) + AndTailText(tail)))
    decreases e, if e.Both? then 0 else if e.Either? then 2 else 1
  {
    match e
    case Both(left, link, right) =>
      var operand := UnaryOf(right, link.behind, pad);
      AndOfText(left, lead, link.before, AndLink(Left(left, InAnd, link.before), link.word, operand, tail));
      UnaryOfText(right, link.behind, pad);
      AndLinkPrint(left, link, right, operand, pad, tail);
    case _ =>
      UnaryOfText(e, lead, pad);
      Assoc(lead, Print(e, InAnd) + Taken(e, InAnd, pad), AndTailText(tail));
      Assoc(Print(e, InAnd), Taken(e, InAnd, pad), AndTailText(tail));
  }

  lemma {:induction false} OrOfText(e: Expr, lead: string, pad: string, tail: OrTail)
    ensures OrText(OrOf(e, lead, pad, tail)) == lead + (Print(e, InOr) + (Taken(e, InOr, pad) + OrTailText(tail)))
    decreases e, if e.Both? then 1 else if e.Either? then 0 else 2
  {
    match e
    case Either(left, link, right) =>
      var operand := AndOf(right, link.behind, pad, AndEnd);
      OrOfText(left, lead, link.before, OrLink(Left(left, InOr, link.before), link.word, operand, tail));
      AndOfText(right, link.behind, pad, AndEnd);
      assert Taken(right, InAnd, pad) + "" == Taken(right, InAnd, pad);
      OrLinkPrint(left, link, right, operand, pad, tail);
    case _ =>
      AndOfText(e, lead, pad, AndEnd);
      assert Taken(e, InOr, pad) + "" == Taken(e, InOr, pad);
      Assoc(lead, Print(e, InOr) + Taken(e, InOr, pad), OrTailText(tail));
      Assoc(Print(e, InOr), Taken(e, InOr, pad), OrTailText(tail));
  }

  lemma AndLinkPrint(left: Expr, link: Link, right: Expr, operand: Unary, pad: string, tail: AndTail)
    requires UnaryText(operand) == link.behind + (Print(right, InNot) + Taken(right, InNot, pad))
    ensures var e, next := Both(left, link, right), AndLink(Left(left, InAnd, link.before), link.word, operand, tail);
            Print(left, InAnd) + (Taken(left, InAnd, link.before) + AndTailText(next)) ==
            Print(e, InAnd) + (Taken(e, InAnd, pad) + AndTailText(tail))
  {
    hide UnaryText, EndsInConstant, Print, PrintOpen;
    BothPrints(left, link, right);
    LinkPrint(Print(left, InAnd), Taken(left, InAnd, link.before), Left(left, InAnd, link.before), link,
              Print(right, InNot), Taken(right, InNot, pad), AndTailText(tail));
    assert Taken(Both(left, link, right), InAnd, pad) == Taken(right, InNot, pad) by { BothEnds(left, link, right); }
  }

  lemma OrLinkPrint(left: Expr, link: Link, right: Expr, operand: AndTree, pad: string, tail: OrTail)
    requires AndText(operand) == link.behind + (Print(right, InAnd) + Taken(right, InAnd, pad))
    ensures var e, next := Either(left, link, right), OrLink(Left(left, InOr, link.before), link.word, operand, tail);
            Print(left, InOr) + (Taken(left, InOr, link.before) + OrTailText(next)) ==
            Print(e, InOr) + (Taken(e, InOr, pad) + OrTailText(tail))
  {
    hide AndText, EndsInConstant, Print, PrintOpen;
    BothPrints(left, link, right);
    LinkPrint(Print(left, InOr), Taken(left, InOr, link.before), Left(left, InOr, link.before), link,
              Print(right, InAnd), Taken(right, InAnd, pad), OrTailText(tail));
    assert Taken(Either(left, link, right), InOr, pad) == Taken(right, InAnd, pad) by { BothEnds(left, link, right); }
  }

  lemma BothPrints(left: Expr, link: Link, right: Expr)
    ensures Print(Both(left, link, right), InAnd) == Print(left, InAnd) + (LinkText(link) + Print(right, InNot))
    ensures Print(Either(left, link, right), InOr) == Print(left, InOr) + (LinkText(link) + Print(right, InAnd))
  {
  }

  lemma BothEnds(left: Expr, link: Link, right: Expr)
    ensures EndsInConstant(Both(left, link, right), InAnd) == EndsInConstant(right, InNot)
    ensures EndsInConstant(Either(left, link, right), InOr) == EndsInConstant(right, InAnd)
  {
  }

  /** The blanks in front of a keyword, whichever side they belong to. */
  lemma LinkPrint(left: string, taken: string, gap: string, link: Link, right: string, end: string, tail: string)
    requires taken + gap == link.before
    ensures left + (taken + (gap + (link.word + ((link.behind + (right + end)) + tail)))) ==
              (left + (LinkText(link) + right)) + (end + tail)
  {
    var rest := link.word + ((link.behind + (right + end)) + tail);
    Assoc(taken, gap, rest);
    LinkRegroups(link, right, end, tail);
    Assoc(left, LinkText(link) + right, end + tail);
  }

  lemma LinkRegroups(link: Link, right: string, end: string, tail: string)
    ensures link.before + (link.word + ((link.behind + (right + end)) + tail)) == (LinkText(link) + right) + (end + tail)
  {
  }

  // ---------------------------------------------------------------- its meaning and size

  lemma {:induction false} OrOfMeans(ctx: Context, e: Expr, lead: string, pad: string, tail: OrTail)
    requires Printable(e)
    ensures OrValue(ctx, OrOf(e, lead, pad, tail)) == (Holds(ctx, e) || OrTailValue(ctx, tail))
    ensures OrCount(OrOf(e, lead, pad, tail)) == Leaves(e) + OrTailCount(tail)
    ensures OrDepth(OrOf(e, lead, pad, tail)) == Max(Nesting(e, InOr), OrTailDepth(tail))
    decreases e, if e.Both? then 1 else if e.Either? then 0 else 2
  {
    match e
    case Either(left, link, right) =>
      OrOfMeans(ctx, left, lead, link.before,
                OrLink(Left(left, InOr, link.before), link.word, AndOf(right, link.behind, pad, AndEnd), tail));
      AndOfMeans(ctx, right, link.behind, pad, AndEnd);
    case _ =>
      AndOfMeans(ctx, e, lead, pad, AndEnd);
  }

  lemma {:induction false} AndOfMeans(ctx: Context, e: Expr, lead: string, pad: string, tail: AndTail)
    requires Printable(e)
    ensures AndValue(ctx, AndOf(e, lead, pad, tail)) == (Holds(ctx, e) && AndTailValue(ctx, tail))
    ensures AndCount(AndOf(e, lead, pad, tail)) == Leaves(e) + AndTailCount(tail)
    ensures AndDepth(AndOf(e, lead, pad, tail)) == Max(Nesting(e, InAnd), AndTailDepth(tail))
    decreases e, if e.Both? then 0 else if e.Either? then 2 else 1
  {
    match e
    case Both(left, link, right) =>
      AndOfMeans(ctx, left, lead, link.before,
                 AndLink(Left(left, InAnd, link.before), link.word, UnaryOf(right, link.behind, pad), tail));
      UnaryOfMeans(ctx, right, link.behind, pad);
    case _ =>
      UnaryOfMeans(ctx, e, lead, pad);
  }

  lemma {:induction false} UnaryOfMeans(ctx: Context, e: Expr, lead: string, pad: string)
    requires Printable(e)
    ensures UnaryValue(ctx, UnaryOf(e, lead, pad)) == Holds(ctx, e)
    ensures UnaryCount(UnaryOf(e, lead, pad)) == Leaves(e)
    ensures UnaryDepth(UnaryOf(e, lead, pad)) == Nesting(e, InNot)
    decreases e, if e.Both? then 2 else if e.Either? then 1 else 0
  {
    match e
    case Comparing(left, _, _, _, right) =>
      TermExpands(ctx, left);
      TermExpands(ctx, right);
    case Constant(value, word) =>
      WordExpands(ctx, value, word);
    case Negation(gap, inner) =>
      UnaryOfMeans(ctx, inner, gap, pad);
    case Bracketed(gap, inner, gap2) =>
      OrOfMeans(ctx, inner, gap, gap2, OrEnd);
    case _ =>
      OrOfMeans(ctx, e, "", "", OrEnd);
  }

  lemma TermExpands(ctx: Context, t: Term)
    requires PrintableTerm(t)
    ensures Expand(ctx, TermOperand(t).body) == Success(TermValue(ctx, t))
  {
    match t
    case Literal(text, bare) =>
      if bare { NoDollar(text); }
    case Property(d, name) =>
      var s := TermOperand(t).body;
      assert s[..2] == "$(" && s[0..] == s;
      assert s[2..] == name + ")" && (name + ")")[..|name|] == name;
      NameHasNoParenthesis(d, name);
      FindIs(s[2..], ')', |name|);
      assert s[2..2 + |name|] == name && s[|name| + 3..] == "";
      NameIsKnown(ctx, d, name);
      assert s[..0] + DimensionValue(ctx, d) + "" == DimensionValue(ctx, d);
  }

  /** A text that equals a word of letters, but for case, is made of letters. */
  lemma SpelledInLetters(spelled: string, word: string)
    requires EqIgnoreCase(spelled, word) && forall i | 0 <= i < |word| :: 'a' <= Lower(word[i]) <= 'z'
    ensures |spelled| == |word| && forall i | 0 <= i < |spelled| :: 'a' <= spelled[i] <= 'z' || 'A' <= spelled[i] <= 'Z'
  {
  }

  lemma NameIsLetters(d: Dimension, i: nat)
    requires i < |DimensionName(d)|
    ensures 'a' <= Lower(DimensionName(d)[i]) <= 'z'
  {
  }

  lemma NameHasNoParenthesis(d: Dimension, name: string)
    requires EqIgnoreCase(name, DimensionName(d))
    ensures ')' !in name
  {
    forall i | 0 <= i < |DimensionName(d)| ensures 'a' <= Lower(DimensionName(d)[i]) <= 'z' { NameIsLetters(d, i); }
    SpelledInLetters(name, DimensionName(d));
  }

  lemma NameIsKnown(ctx: Context, d: Dimension, name: string)
    requires EqIgnoreCase(name, DimensionName(d))
    ensures PropertyValue(ctx, name) == Success(DimensionValue(ctx, d))
  {
    assert |DimensionName(RuntimeIdentifier)| == 17 && |DimensionName(Configuration)| == 13 && |"TargetFramework"| == 15;
  }

  lemma WordExpands(ctx: Context, value: bool, word: string)
    requires EqIgnoreCase(word, Word(value))
    ensures Expand(ctx, word) == Success(word) && IsTruth(word) && EqIgnoreCase(word, "true") == value
    ensures IsBareBody(word) && word != "" && !IsQuote(word[0])
  {
    assert |"true"| == 4 && |"false"| == 5;
    assert forall i | 0 <= i < |Word(value)| :: 'a' <= Lower(Word(value)[i]) <= 'z';
    SpelledInLetters(word, Word(value));
    NoDollar(word);
    PlainBody(word);
  }

  lemma {:induction false} NoDollar(s: string)
    requires '$' !in s
    ensures FindReference(s).None?
  {
    if s != "" {
      assert 2 <= |s| ==> s[..2][0] == s[0];
      NoDollar(s[1..]);
    }
  }

  lemma {:induction false} PlainBody(s: string)
    requires forall i | 0 <= i < |s| :: !IsDelimiter(s[i])
    ensures IsBareBody(s)
  {
    if s != "" {
      assert |s| >= 2 ==> s[..2][1] == s[1];
      PlainBody(s[1..]);
    }
  }

  // ---------------------------------------------------------------- it fits

  /** What may stand behind the tree of an expression, given the blanks that were offered to it. */
  predicate Follows(taken: bool, pad: string, follow: string) {
    if taken then AllSpace(pad) && (follow == "" || follow[0] == ')' || (pad != "" && BeginsKeyword(follow[0])))
    else follow == "" || follow[0] == ')' || IsSpace(follow[0])
  }

  predicate BeginsKeyword(c: char) {
    Lower(c) == 'a' || Lower(c) == 'o'
  }

  lemma BlanksAreSpace(s: string)
    requires OnlyBlanks(s)
    ensures AllSpace(s)
  {
  }

  lemma TermFits(t: Term, follow: string)
    requires PrintableTerm(t) && (follow == "" || IsSpace(follow[0]) || follow[0] == ')' || follow[0] == '=' || follow[0] == '!')
    ensures OperandFits(TermOperand(t), follow)
  {
    if t.Property? { NameIsBare(t.dimension, t.name); }
    hide FindReference, EqIgnoreCase, DimensionName;
    if t.Literal? && t.bare { PlainBody(t.text); }
  }

  lemma NameIsBare(d: Dimension, name: string)
    requires EqIgnoreCase(name, DimensionName(d))
    ensures IsBareBody("$(" + (name + ")"))
  {
    var s := "$(" + (name + ")");
    assert s[..2] == "$(" && s[2..] == name + ")" && (name + ")")[..|name|] == name;
    NameHasNoParenthesis(d, name);
    FindIs(s[2..], ')', |name|);
    assert s[|name| + 3..] == "";
  }

  lemma {:induction false} UnaryOfFits(ctx: Context, e: Expr, lead: string, pad: string, follow: string)
    requires Printable(e) && AllSpace(lead) && Follows(EndsInConstant(e, InNot), pad, follow)
    ensures UnaryFits(ctx, UnaryOf(e, lead, pad), follow)
    decreases e, if e.Both? then 2 else if e.Either? then 1 else 0
  {
    match e
    case Comparing(left, gap, equal, gap2, right) =>
      ComparingFits(ctx, left, gap, equal, gap2, right, follow);
    case Constant(value, word) =>
      ConstantFits(ctx, value, word, pad, follow);
    case Negation(gap, inner) =>
      BlanksAreSpace(gap);
      UnaryOfFits(ctx, inner, gap, pad, follow);
    case Bracketed(gap, inner, gap2) =>
      BlanksAreSpace(gap);
      BlanksAreSpace(gap2);
      InsideFits(ctx, inner, gap, gap2, follow);
    case _ =>
      NotAKeyword("", ")" + follow, "And");
      NotAKeyword("", ")" + follow, "Or");
      OrOfFits(ctx, e, "", "", OrEnd, "" + (")" + follow));
  }

  lemma {:induction false} InsideFits(ctx: Context, inner: Expr, gap: string, gap2: string, follow: string)
    requires Printable(inner) && AllSpace(gap) && AllSpace(gap2)
    ensures OrFits(ctx, OrOf(inner, gap, gap2, OrEnd), Left(inner, InOr, gap2) + (")" + follow))
    decreases inner, 3
  {
    hide AllSpace, KeywordAhead, EndsInConstant;
    var close := Left(inner, InOr, gap2) + (")" + follow);
    CloseFollows(inner, gap2, follow);
    assert OrTailText(OrEnd) + close == close;
    OrOfFits(ctx, inner, gap, gap2, OrEnd, close);
  }

  lemma CloseFollows(inner: Expr, gap2: string, follow: string)
    requires AllSpace(gap2)
    ensures var close := Left(inner, InOr, gap2) + (")" + follow);
            && Follows(EndsInConstant(inner, InOr), gap2, close)
            && !KeywordAhead(close, "And") && !KeywordAhead(close, "Or")
  {
    hide EndsInConstant, KeywordAhead;
    NotAKeyword(Left(inner, InOr, gap2), ")" + follow, "And");
    NotAKeyword(Left(inner, InOr, gap2), ")" + follow, "Or");
  }

  lemma ComparingFits(ctx: Context, left: Term, gap: string, equal: bool, gap2: string, right: Term, follow: string)
    requires PrintableTerm(left) && PrintableTerm(right) && OnlyBlanks(gap) && OnlyBlanks(gap2)
    requires follow == "" || IsSpace(follow[0]) || follow[0] == ')'
    ensures ComparisonFits(ctx, Compare(TermOperand(left), gap, equal, gap2, TermOperand(right)), follow)
  {
    hide Expand, OperandFits;
    BlanksAreSpace(gap);
    BlanksAreSpace(gap2);
    TermFits(left, gap + (Symbol(equal) + (gap2 + (OperandText(TermOperand(right)) + follow))));
    TermFits(right, follow);
    TermExpands(ctx, left);
    TermExpands(ctx, right);
  }

  lemma ConstantFits(ctx: Context, value: bool, word: string, pad: string, follow: string)
    requires Follows(true, pad, follow) && EqIgnoreCase(word, Word(value))
    ensures ComparisonFits(ctx, Truth(Bare(word), pad), follow)
  {
    hide Expand, IsBareBody;
    WordExpands(ctx, value, word);
    assert |follow| >= 2 ==> follow[..2][0] == follow[0];
  }

  lemma NotAKeyword(gap: string, rest: string, word: string)
    requires AllSpace(gap) && (rest == "" || rest[0] == ')' || (Lower(rest[0]) == 'o' && word == "And"))
    requires word == "And" || word == "Or"
    ensures !KeywordAhead(gap + rest, word)
  {
    BlanksAre(gap, rest);
    if rest != "" { assert (gap + rest)[|gap|] == rest[0]; }
  }

  lemma {:induction false} AndOfFits(ctx: Context, e: Expr, lead: string, pad: string, tail: AndTail, follow: string)
    requires Printable(e) && AllSpace(lead) && AndTailFits(ctx, tail, follow)
    requires Follows(EndsInConstant(e, InAnd), pad, AndTailText(tail) + follow)
    ensures AndFits(ctx, AndOf(e, lead, pad, tail), follow)
    decreases e, if e.Both? then 0 else if e.Either? then 2 else 1
  {
    match e
    case Both(left, link, right) =>
      BlanksAreSpace(link.before);
      BlanksAreSpace(link.behind);
      var operand := UnaryOf(right, link.behind, pad);
      UnaryOfFits(ctx, right, link.behind, pad, AndTailText(tail) + follow);
      UnaryOfText(right, link.behind, pad);
      var next := AndLink(Left(left, InAnd, link.before), link.word, operand, tail);
      AndLinkFits(ctx, Left(left, InAnd, link.before), link.word, operand, tail, follow);
      AndLinkFollows(left, link, operand, tail, follow);
      AndOfFits(ctx, left, lead, link.before, next, follow);
    case _ =>
      UnaryOfFits(ctx, e, lead, pad, AndTailText(tail) + follow);
  }

  lemma AndLinkFollows(left: Expr, link: Link, operand: Unary, tail: AndTail, follow: string)
    requires PrintableLink(link, "And")
    ensures var next := AndLink(Left(left, InAnd, link.before), link.word, operand, tail);
            Follows(EndsInConstant(left, InAnd), link.before, AndTailText(next) + follow)
  {
    hide EndsInConstant, UnaryText;
    BlanksAreSpace(link.before);
    assert |link.word| == 3 && Lower(link.word[0]) == Lower("And"[0]) == 'a';
  }

  lemma AndLinkFits(ctx: Context, gap: string, word: string, operand: Unary, tail: AndTail, follow: string)
    requires AllSpace(gap) && EqIgnoreCase(word, "And") && UnaryText(operand) != "" && IsSpace(UnaryText(operand)[0])
    requires UnaryFits(ctx, operand, AndTailText(tail) + follow) && AndTailFits(ctx, tail, follow)
    ensures AndTailFits(ctx, AndLink(gap, word, operand, tail), follow)
  {
    hide UnaryFits, UnaryText;
  }

  lemma {:induction false} OrOfFits(ctx: Context, e: Expr, lead: string, pad: string, tail: OrTail, follow: string)
    requires Printable(e) && AllSpace(lead) && OrTailFits(ctx, tail, follow) && !KeywordAhead(OrTailText(tail) + follow, "And")
    requires Follows(EndsInConstant(e, InOr), pad, OrTailText(tail) + follow)
    ensures OrFits(ctx, OrOf(e, lead, pad, tail), follow)
    decreases e, if e.Both? then 1 else if e.Either? then 0 else 2
  {
    var behind := OrTailText(tail) + follow;
    assert AndTailText(AndEnd) + behind == behind;
    match e
    case Either(left, link, right) =>
      BlanksAreSpace(link.before);
      BlanksAreSpace(link.behind);
      var operand := AndOf(right, link.behind, pad, AndEnd);
      AndOfFits(ctx, right, link.behind, pad, AndEnd, behind);
      AndOfText(right, link.behind, pad, AndEnd);
      var next := OrLink(Left(left, InOr, link.before), link.word, operand, tail);
      OrLinkFits(ctx, Left(left, InOr, link.before), link.word, operand, tail, follow);
      OrLinkFollows(left, link, operand, tail, follow);
      OrOfFits(ctx, left, lead, link.before, next, follow);
    case _ =>
      AndOfFits(ctx, e, lead, pad, AndEnd, behind);
  }

  lemma OrLinkFits(ctx: Context, gap: string, word: string, operand: AndTree, tail: OrTail, follow: string)
    requires AllSpace(gap) && EqIgnoreCase(word, "Or") && AndText(operand) != "" && IsSpace(AndText(operand)[0])
    requires AndFits(ctx, operand, OrTailText(tail) + follow) && OrTailFits(ctx, tail, follow)
    ensures OrTailFits(ctx, OrLink(gap, word, operand, tail), follow)
  {
    hide AndFits, AndText;
  }

  lemma OrLinkFollows(left: Expr, link: Link, operand: AndTree, tail: OrTail, follow: string)
    requires PrintableLink(link, "Or")
    ensures var behind := OrTailText(OrLink(Left(left, InOr, link.before), link.word, operand, tail)) + follow;
            Follows(EndsInConstant(left, InOr), link.before, behind) && !KeywordAhead(behind, "And")
  {
    hide EndsInConstant, AndText;
    BlanksAreSpace(link.before);
    assert |link.word| == 2 && Lower(link.word[0]) == Lower("Or"[0]) == 'o';
    var gap := Left(left, InOr, link.before);
    var rest := (link.word + (AndText(operand) + OrTailText(tail))) + follow;
    assert OrTailText(OrLink(gap, link.word, operand, tail)) + follow == gap + rest;
    NotAKeyword(gap, rest, "And");
  }

  // ---------------------------------------------------------------- reading it back

  /** The printed condition is the text of its own tree. */
  lemma PrintedIsSpelled(ctx: Context, e: Expr)
    requires Printable(e) && |Print(e, InOr)| <= MAX_BYTES && IsAscii(Print(e, InOr))
    requires Leaves(e) <= MAX_COMPARISONS && Nesting(e, InOr) <= MAX_DEPTH
    ensures Spells(ctx, Print(e, InOr), OrOf(e, "", "", OrEnd))
    ensures OrValue(ctx, OrOf(e, "", "", OrEnd)) == Holds(ctx, e)
  {
    var s, tree := Print(e, InOr), OrOf(e, "", "", OrEnd);
    OrOfText(e, "", "", OrEnd);
    assert "" + (s + ("" + "")) == s;
    OrOfMeans(ctx, e, "", "", OrEnd);
    NotAKeyword("", "", "And");
    NotAKeyword("", "", "Or");
    assert "" + "" == "";
    OrOfFits(ctx, e, "", "", OrEnd, "");
    assert s[|s|..] == "" && s[..|s|] == s;
  }

  /**
   * Main result: evaluating a printed expression gives the truth of the expression, whatever its nesting and with no
   * more parentheses than `!` over `And` over `Or` needs, as long as the print keeps the evaluator's limits.
   */
  lemma EvaluateUndoesPrint(ctx: Context, e: Expr)
    requires Printable(e) && |Print(e, InOr)| <= MAX_BYTES && IsAscii(Print(e, InOr))
    requires Leaves(e) <= MAX_COMPARISONS && Nesting(e, InOr) <= MAX_DEPTH
    ensures Evaluate(ctx, Print(e, InOr)) == Success(Holds(ctx, e))
  {
    PrintedIsSpelled(ctx, e);
    SpelledEvaluates(ctx, Print(e, InOr), OrOf(e, "", "", OrEnd));
  }

  // ---------------------------------------------------------------- what is no name and no keyword

  /** Only the three dimensions have a value, under their names in any case. */
  lemma OnlyDimensionsAreKnown(ctx: Context, name: string)
    ensures PropertyValue(ctx, name).Success? <==> exists d :: EqIgnoreCase(name, DimensionName(d))
  {
    if PropertyValue(ctx, name).Success? {
      assert exists d :: EqIgnoreCase(name, DimensionName(d)) by {
        assert EqIgnoreCase(name, DimensionName(TargetFramework)) || EqIgnoreCase(name, DimensionName(RuntimeIdentifier))
               || EqIgnoreCase(name, DimensionName(Configuration));
      }
    }
    forall d | EqIgnoreCase(name, DimensionName(d)) ensures PropertyValue(ctx, name).Success? {
      NameIsKnown(ctx, d, name);
    }
  }

  predicate IsWordPart(c: char) {
    'a' <= c <= 'z' || 'A' <= c <= 'Z' || '0' <= c <= '9' || c == '_'
  }

  /** Behind blanks, a keyword in any case is one exactly if no letter, digit or underscore follows it. */
  lemma KeywordIsWhole(gap: string, spelled: string, word: string, behind: string)
    requires OnlyBlanks(gap) && (word == "And" || word == "Or") && EqIgnoreCase(spelled, word)
    ensures KeywordAhead(gap + (spelled + behind), word) <==> behind == "" || !IsWordPart(behind[0])
  {
    var s, rest := gap + (spelled + behind), spelled + behind;
    BlanksAreSpace(gap);
    assert forall i | 0 <= i < |word| :: 'a' <= Lower(word[i]) <= 'z';
    SpelledInLetters(spelled, word);
    BlanksAre(gap, rest);
    assert s[|gap|..|gap| + |word|] == spelled;
    if behind != "" {
      assert s[|gap| + |word|] == behind[0];
    }
  }
}
