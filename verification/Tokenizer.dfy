/**
 * The script tokenizer (crates/dv-cli/src/compatibility_check.rs, `tokenize_line`): words, quoted texts and operators of
 * one line as ranges, written into a fixed table.
 */
module Tokenizer {
  import opened Wrappers
  import opened Ascii

  const MAX_LINE_TOKENS: nat := 64

  datatype Flags = Flags(complex: bool, boundary: bool, observation: bool)
  datatype Token = Token(start: nat, end: nat, flags: Flags)
  datatype LineError = TooManyTokens | UnterminatedQuote

  const PLAIN := Flags(false, false, false)

  predicate IsOperator(c: char) {
    c == ';' || c == '|' || c == '&' || c == '<' || c == '>'
  }

  predicate EndsWord(c: char) {
    IsSpace(c) || IsOperator(c)
  }

  function OperatorFlags(operator: char, doubled: bool): Flags {
    Flags(false, operator == ';' || operator == '|' || operator == '&',
          operator == '<' || operator == '>' || ((operator == '|' || operator == '&') && !doubled))
  }

  // ---------------------------------------------------------------- one token

  function SkipBlanks(line: string, i: nat): (r: nat)
    requires i <= |line|
    ensures i <= r <= |line| && (r < |line| ==> !IsSpace(line[r]))
    decreases |line| - i
  {
    if i < |line| && IsSpace(line[i]) then SkipBlanks(line, i + 1) else i
  }

  function WordEnd(line: string, i: nat): (r: nat)
    requires i <= |line|
    ensures i <= r <= |line| && (r < |line| ==> EndsWord(line[r]))
    decreases |line| - i
  {
    if i < |line| && !EndsWord(line[i]) then WordEnd(line, i + 1) else i
  }

  /** Behind a backslash the next character counts as text. */
  function BehindEscape(line: string, i: nat): (r: nat)
    requires i < |line|
    ensures i < r <= |line|
  {
    if line[i] != '\\' then i + 1 else if i + 2 <= |line| then i + 2 else |line|
  }

  /** Where the closing quote stands, or the end of the line. */
  function QuoteEnd(line: string, i: nat, quote: char): (r: nat)
    requires i <= |line|
    ensures i <= r <= |line| && (r < |line| ==> line[r] == quote)
    decreases |line| - i
  {
    if i == |line| || line[i] == quote then i else QuoteEnd(line, BehindEscape(line, i), quote)
  }

  predicate HasEscape(line: string, i: nat, quote: char)
    requires i <= |line|
    decreases |line| - i
  {
    i < |line| && line[i] != quote && (line[i] == '\\' || HasEscape(line, BehindEscape(line, i), quote))
  }

  predicate HasSpace(s: string) {
    exists i | 0 <= i < |s| :: IsSpace(s[i])
  }

  predicate HasQuote(s: string) {
    exists i | 0 <= i < |s| :: IsQuote(s[i])
  }

  datatype Taken = Open | Took(token: Token, next: nat)

  /** A quoted text; what sticks to it is skipped and makes it complex. */
  function TakeQuoted(line: string, i: nat): (r: Taken)
    requires i < |line|
    ensures r.Took? ==> i < r.token.start <= r.token.end < r.next <= |line|
  {
    var end := QuoteEnd(line, i + 1, line[i]);
    if end == |line| then Open else
      var sticks := end + 1 < |line| && !EndsWord(line[end + 1]) && line[end + 1] != '#';
      var complex := HasEscape(line, i + 1, line[i]) || HasSpace(line[i + 1..end]) || sticks;
      Took(Token(i + 1, end, Flags(complex, false, false)), if sticks then WordEnd(line, end + 1) else end + 1)
  }

  /** The token that begins at `i`. */
  function Take(line: string, i: nat): (r: Taken)
    requires i < |line| && !IsSpace(line[i])
    ensures r.Took? ==> i <= r.token.start <= r.token.end <= r.next <= |line| && i < r.next
  {
    if IsOperator(line[i]) then
      var doubled := i + 1 < |line| && line[i + 1] == line[i];
      var end := if doubled then i + 2 else i + 1;
      Took(Token(i, end, OperatorFlags(line[i], doubled)), end)
    else if IsQuote(line[i]) then TakeQuoted(line, i)
    else Took(Token(i, WordEnd(line, i), Flags(HasQuote(line[i..WordEnd(line, i)]), false, false)), WordEnd(line, i))
  }

  // ---------------------------------------------------------------- the line

  function Prefixed(first: seq<Token>, rest: Result<seq<Token>, LineError>): Result<seq<Token>, LineError> {
    match rest
    case Failure(e) => Failure(e)
    case Success(tokens) => Success(first + tokens)
  }

  /** The tokens from `index` on, `count` of them being there already. A `#` in front of a token ends the line. */
  function Tokens(line: string, index: nat, count: nat): Result<seq<Token>, LineError>
    requires index <= |line|
    decreases |line| - index
  {
    var i := SkipBlanks(line, index);
    if i == |line| || line[i] == '#' then Success([])
    else if count >= MAX_LINE_TOKENS then Failure(TooManyTokens)
    else
      match Take(line, i)
      case Open => Failure(UnterminatedQuote)
      case Took(token, next) => Prefixed([token], Tokens(line, next, count + 1))
  }

  lemma TokensSteps(line: string, index: nat, count: nat)
    requires index <= |line|
    ensures var i := SkipBlanks(line, index);
            Tokens(line, index, count) ==
            if i == |line| || line[i] == '#' then Success([])
            else if count >= MAX_LINE_TOKENS then Failure(TooManyTokens)
            else match Take(line, i)
                 case Open => Failure(UnterminatedQuote)
                 case Took(token, next) => Prefixed([token], Tokens(line, next, count + 1))
  {
    hide Take, SkipBlanks;
  }

  lemma PrefixedTwice(a: seq<Token>, b: seq<Token>, rest: Result<seq<Token>, LineError>)
    ensures Prefixed(a, Prefixed(b, rest)) == Prefixed(a + b, rest)
  {
    if rest.Success? { assert a + (b + rest.value) == (a + b) + rest.value; }
  }

  /** The scan of a quoted text up to its end. */
  method ScanQuoted(line: string, i: nat) returns (taken: Taken)
    requires i < |line|
    ensures taken == TakeQuoted(line, i)
  {
    var quote, index, complex := line[i], i + 1, false;
    while index < |line| && line[index] != quote
      invariant i < index <= |line|
      invariant QuoteEnd(line, i + 1, quote) == QuoteEnd(line, index, quote)
      invariant HasEscape(line, i + 1, quote) == (complex || HasEscape(line, index, quote))
    {
      if line[index] == '\\' {
        complex := true;
        index := if index + 2 <= |line| then index + 2 else |line|;
      } else {
        index := index + 1;
      }
    }
    if index == |line| { return Open; }
    var end := index;
    if HasSpace(line[i + 1..end]) { complex := true; }
    index := index + 1;
    if index < |line| && !EndsWord(line[index]) && line[index] != '#' {
      complex := true;
      ghost var stuck := index;
      while index < |line| && !EndsWord(line[index])
        invariant stuck <= index <= |line| && WordEnd(line, stuck) == WordEnd(line, index)
      {
        index := index + 1;
      }
    }
    return Took(Token(i + 1, end, Flags(complex, false, false)), index);
  }

  /** The scan of a word. */
  method ScanWord(line: string, i: nat) returns (end: nat, quoted: bool)
    requires i < |line|
    ensures end == WordEnd(line, i) && quoted == HasQuote(line[i..end])
  {
    end, quoted := i, false;
    while end < |line| && !EndsWord(line[end])
      invariant i <= end <= |line| && WordEnd(line, i) == WordEnd(line, end) && quoted == HasQuote(line[i..end])
    {
      HasQuoteGrows(line, i, end);
      if IsQuote(line[end]) { quoted := true; }
      end := end + 1;
    }
  }

  lemma HasQuoteGrows(line: string, i: nat, end: nat)
    requires i <= end < |line|
    ensures HasQuote(line[i..end + 1]) == (HasQuote(line[i..end]) || IsQuote(line[end]))
  {
    var s, t := line[i..end], line[i..end + 1];
    assert t == s + [line[end]];
    if HasQuote(s) { var k :| 0 <= k < |s| && IsQuote(s[k]); assert t[k] == s[k]; }
    if IsQuote(line[end]) { assert t[end - i] == line[end]; }
  }

  /** The branches of one token. */
  method ScanToken(line: string, i: nat) returns (taken: Taken)
    requires i < |line| && !IsSpace(line[i])
    ensures taken == Take(line, i)
  {
    hide TakeQuoted, WordEnd, HasQuote;
    if IsOperator(line[i]) {
      var operator, index := line[i], i + 1;
      if index < |line| && line[index] == operator { index := index + 1; }
      return Took(Token(i, index, OperatorFlags(operator, index - i == 2)), index);
    }
    if IsQuote(line[i]) {
      taken := ScanQuoted(line, i);
      return;
    }
    var end, quoted := ScanWord(line, i);
    return Took(Token(i, end, Flags(quoted, false, false)), end);
  }

  lemma NothingInFront(rest: Result<seq<Token>, LineError>)
    ensures Prefixed([], rest) == rest
  {
    assert rest.Success? ==> [] + rest.value == rest.value;
  }

  lemma EverythingFound(found: seq<Token>)
    ensures Prefixed(found, Success([])) == Success(found)
  {
    assert found + [] == found;
  }

  /** Writes the tokens of a line into the table and returns their number. */
  method TokenizeLine(line: string, output: array<Token>) returns (r: Result<nat, LineError>)
    requires output.Length == MAX_LINE_TOKENS
    modifies output
    ensures match Tokens(line, 0, 0)
            case Failure(e) => r == Failure(e)
            case Success(tokens) => |tokens| <= MAX_LINE_TOKENS && r == Success(|tokens|) && output[..|tokens|] == tokens
  {
    hide Tokens, Take, TakeQuoted, WordEnd, QuoteEnd, HasEscape, HasSpace, HasQuote;
    var index, count := 0, 0;
    NothingInFront(Tokens(line, 0, 0));
    while index < |line|
      invariant index <= |line| && count <= MAX_LINE_TOKENS
      invariant Prefixed(output[..count], Tokens(line, index, count)) == Tokens(line, 0, 0)
    {
      TokensSteps(line, index, count);
      ghost var before := index;
      while index < |line| && IsSpace(line[index])
        invariant before <= index <= |line| && SkipBlanks(line, before) == SkipBlanks(line, index)
      {
        index := index + 1;
      }
      if index == |line| || line[index] == '#' {
        EverythingFound(output[..count]);
        return Success(count);
      }
      if count == output.Length { return Failure(TooManyTokens); }
      var taken := ScanToken(line, index);
      if taken.Open? { return Failure(UnterminatedQuote); }
      ghost var found := output[..count];
      PrefixedTwice(found, [taken.token], Tokens(line, taken.next, count + 1));
      output[count] := taken.token;
      assert output[..count + 1] == found + [taken.token];
      count := count + 1;
      index := taken.next;
    }
    TokensSteps(line, index, count);
    EverythingFound(output[..count]);
    return Success(count);
  }

  // ---------------------------------------------------------------- spans

  /** The tokens lie in the line behind `index`, in order and without overlap. */
  predicate InOrder(line: string, index: nat, tokens: seq<Token>) {
    && (forall i | 0 <= i < |tokens| :: index <= tokens[i].start <= tokens[i].end <= |line|)
    && forall i, j | 0 <= i < j < |tokens| :: tokens[i].end <= tokens[j].start
  }

  lemma {:induction false} TokensAreInOrder(line: string, index: nat, count: nat)
    requires index <= |line|
    ensures var r := Tokens(line, index, count);
            r.Success? ==> InOrder(line, index, r.value) && (|r.value| > 0 ==> count + |r.value| <= MAX_LINE_TOKENS)
    decreases |line| - index
  {
    hide Tokens, Take;
    TokensSteps(line, index, count);
    var i := SkipBlanks(line, index);
    if i < |line| && line[i] != '#' && count < MAX_LINE_TOKENS && Take(line, i).Took? {
      TokensAreInOrder(line, Take(line, i).next, count + 1);
    }
  }

  // ---------------------------------------------------------------- tokenizing again

  predicate IsWord(text: string) {
    && text != "" && text[0] != '#'
    && forall i | 0 <= i < |text| :: !EndsWord(text[i]) && !IsQuote(text[i])
  }

  predicate IsOperatorText(text: string) {
    (|text| == 1 || (|text| == 2 && text[1] == text[0])) && IsOperator(text[0])
  }

  predicate IsPlainText(text: string) {
    IsWord(text) || IsOperatorText(text)
  }

  /** The flags of a token without quotes are those of its text. */
  function FlagsOf(text: string): Flags
    requires IsPlainText(text)
  {
    if IsOperatorText(text) then OperatorFlags(text[0], |text| == 2) else PLAIN
  }

  /** The token is the plain text `text` of the line. */
  predicate Stands(line: string, token: Token, text: string) {
    IsPlainText(text) && token.start <= token.end <= |line| && line[token.start..token.end] == text
        && token.flags == FlagsOf(text)
  }

  predicate QuoteFree(line: string) {
    forall i | 0 <= i < |line| :: !IsQuote(line[i])
  }

  function TextOf(line: string, token: Token): string
    requires token.start <= token.end <= |line|
  {
    line[token.start..token.end]
  }

  lemma {:induction false} WordIsPlain(line: string, i: nat)
    requires i <= |line|
    ensures forall k | i <= k < WordEnd(line, i) :: !EndsWord(line[k])
    decreases |line| - i
  {
    if i < |line| && !EndsWord(line[i]) { WordIsPlain(line, i + 1); }
  }

  lemma TakenIsPlain(line: string, i: nat)
    requires i < |line| && !IsSpace(line[i]) && line[i] != '#' && QuoteFree(line)
    ensures var r := Take(line, i);
            r.Took? && r.token.start == i && r.token.end == r.next <= |line| && Stands(line, r.token, line[i..r.next])
  {
    if !IsOperator(line[i]) {
      var end := WordEnd(line, i);
      WordIsPlain(line, i);
      assert !EndsWord(line[i]) && end > i;
      assert IsWord(line[i..end]);
    }
  }

  lemma {:induction false} TokensArePlain(line: string, index: nat, count: nat)
    requires index <= |line| && QuoteFree(line) && Tokens(line, index, count).Success?
    ensures forall k | 0 <= k < |Tokens(line, index, count).value| ::
              && Tokens(line, index, count).value[k].start <= Tokens(line, index, count).value[k].end <= |line|
              && Stands(line, Tokens(line, index, count).value[k], TextOf(line, Tokens(line, index, count).value[k]))
    decreases |line| - index
  {
    hide Tokens, Take, Stands;
    TokensSteps(line, index, count);
    var i := SkipBlanks(line, index);
    if i < |line| && line[i] != '#' {
      TakenIsPlain(line, i);
      TokensArePlain(line, Take(line, i).next, count + 1);
    }
  }

  /** The texts with one blank between them. */
  function JoinTexts(texts: seq<string>): string {
    if texts == [] then "" else if |texts| == 1 then texts[0] else texts[0] + (" " + JoinTexts(texts[1..]))
  }

  lemma {:induction false} WordEndIs(line: string, i: nat, end: nat)
    requires i <= end <= |line| && (forall k | i <= k < end :: !EndsWord(line[k])) && (end < |line| ==> EndsWord(line[end]))
    ensures WordEnd(line, i) == end
    decreases end - i
  {
    if i < end { WordEndIs(line, i + 1, end); }
  }

  /** A plain text followed by a blank or by nothing is one token again. */
  lemma PlainTextIsTaken(before: string, text: string, behind: string)
    requires IsPlainText(text) && (behind == "" || behind[0] == ' ')
    ensures var line, i := before + (text + behind), |before|;
            && SkipBlanks(line, i) == i && line[i] != '#'
            && Take(line, i) == Took(Token(i, i + |text|, FlagsOf(text)), i + |text|)
  {
    var line, i := before + (text + behind), |before|;
    assert forall k | 0 <= k < |text| :: line[i + k] == text[k];
    assert behind != "" ==> line[i + |text|] == ' ';
    if IsWord(text) {
      forall k | i <= k < i + |text| ensures !EndsWord(line[k]) {
        assert line[k] == text[k - i];
      }
      WordEndIs(line, i, i + |text|);
      assert line[i..i + |text|] == text;
    }
  }

  lemma BlankIsSkipped(line: string, index: nat, count: nat)
    requires index < |line| && line[index] == ' '
    ensures Tokens(line, index, count) == Tokens(line, index + 1, count)
  {
    TokensSteps(line, index, count);
    TokensSteps(line, index + 1, count);
  }

  lemma {:induction false} JoinedIsTokenized(before: string, texts: seq<string>, count: nat)
    requires (forall k | 0 <= k < |texts| :: IsPlainText(texts[k])) && count + |texts| <= MAX_LINE_TOKENS
    ensures var line := before + JoinTexts(texts);
            var r := Tokens(line, |before|, count);
            r.Success? && |r.value| == |texts| && forall k | 0 <= k < |texts| :: Stands(line, r.value[k], texts[k])
    decreases |texts|
  {
    hide Tokens, Take, IsPlainText, FlagsOf;
    var line, i := before + JoinTexts(texts), |before|;
    if texts == [] {
      assert line == before;
      TokensSteps(line, i, count);
    } else {
      var text := texts[0];
      var behind := if |texts| == 1 then "" else " " + JoinTexts(texts[1..]);
      assert text + "" == text;
      PlainTextIsTaken(before, text, behind);
      TokensSteps(line, i, count);
      assert line[i..i + |text|] == text;
      if |texts| == 1 {
        TokensSteps(line, |line|, count + 1);
      } else {
        var more := before + text + " ";
        assert line == more + JoinTexts(texts[1..]);
        BlankIsSkipped(line, i + |text|, count + 1);
        JoinedIsTokenized(more, texts[1..], count + 1);
        assert forall k | 1 <= k < |texts| :: texts[k] == texts[1..][k - 1];
      }
    }
  }

  function Texts(line: string, tokens: seq<Token>): (texts: seq<string>)
    requires InOrder(line, 0, tokens)
    ensures |texts| == |tokens| && forall k | 0 <= k < |texts| :: texts[k] == TextOf(line, tokens[k])
  {
    seq(|tokens|, k requires 0 <= k < |tokens| => TextOf(line, tokens[k]))
  }

  /** A line without quotes, written again with its tokens' texts and single blanks, has the same tokens and flags. */
  lemma RetokenizingIsStable(line: string)
    requires QuoteFree(line) && Tokens(line, 0, 0).Success?
    ensures InOrder(line, 0, Tokens(line, 0, 0).value)
    ensures var tokens := Tokens(line, 0, 0).value;
            var texts := Texts(line, tokens);
            var again := Tokens(JoinTexts(texts), 0, 0);
            && again.Success? && |again.value| == |tokens| && InOrder(JoinTexts(texts), 0, again.value)
            && forall k | 0 <= k < |tokens| :: TextOf(JoinTexts(texts), again.value[k]) == texts[k]
                && again.value[k].flags == tokens[k].flags
  {
    hide Tokens, IsPlainText, FlagsOf;
    TokensAreInOrder(line, 0, 0);
    TokensArePlain(line, 0, 0);
    var texts := Texts(line, Tokens(line, 0, 0).value);
    JoinedIsTokenized("", texts, 0);
    assert "" + JoinTexts(texts) == JoinTexts(texts);
    TokensAreInOrder(JoinTexts(texts), 0, 0);
  }

  // ---------------------------------------------------------------- quoted texts and operators

  /** A character of a quoted text, alone or behind a backslash. */
  datatype Part = Letter(c: char) | Escaped(c: char)

  function Body(parts: seq<Part>): string {
    if parts == [] then "" else PartText(parts[0]) + Body(parts[1..])
  }

  function PartText(part: Part): string {
    match part case Letter(c) => [c] case Escaped(c) => ['\\', c]
  }

  predicate FitQuote(parts: seq<Part>, quote: char) {
    forall k | 0 <= k < |parts| :: parts[k].Letter? ==> parts[k].c != quote && parts[k].c != '\\'
  }

  predicate SomeEscaped(parts: seq<Part>) {
    exists k | 0 <= k < |parts| :: parts[k].Escaped?
  }

  /** Blanks and the five operators stand between tokens. */
  predicate IsBetween(c: char) {
    c in " \t\n\r\U{000C};|&<>"
  }

  predicate HasBlank(s: string) {
    exists k | 0 <= k < |s| :: s[k] in " \t\n\r\U{000C}"
  }

  /** What follows a closing quote without anything between. */
  predicate Sticks(behind: string) {
    behind != "" && !IsBetween(behind[0]) && behind[0] != '#'
  }

  lemma {:induction false} BodyIsRead(line: string, i: nat, parts: seq<Part>, quote: char)
    requires FitQuote(parts, quote) && quote != '\\' && i + |Body(parts)| <= |line| && line[i..i + |Body(parts)|] == Body(parts)
    ensures QuoteEnd(line, i, quote) == QuoteEnd(line, i + |Body(parts)|, quote)
    ensures HasEscape(line, i, quote) == (SomeEscaped(parts) || HasEscape(line, i + |Body(parts)|, quote))
    decreases |parts|
  {
    hide QuoteEnd, HasEscape, SomeEscaped, PartText;
    if parts == [] {
      NoneEscaped();
    } else {
      var width := |PartText(parts[0])|;
      BodyStands(line, i, parts);
      PartIsRead(line, i, parts[0], quote);
      BodyIsRead(line, i + width, parts[1..], quote);
      EscapedFirst(parts);
    }
  }

  lemma NoneEscaped()
    ensures !SomeEscaped([])
  {
  }

  lemma BodyStands(line: string, i: nat, parts: seq<Part>)
    requires parts != [] && i + |Body(parts)| <= |line| && line[i..i + |Body(parts)|] == Body(parts)
    ensures var first, rest := PartText(parts[0]), Body(parts[1..]);
            && |Body(parts)| == |first| + |rest| && line[i..i + |first|] == first
            && line[i + |first|..i + |first| + |rest|] == rest
  {
    hide PartText;
    var first, rest := PartText(parts[0]), Body(parts[1..]);
    var body := Body(parts);
    assert body[..|first|] == first && body[|first|..] == rest;
    assert line[i..i + |body|][..|first|] == line[i..i + |first|];
    assert line[i..i + |body|][|first|..] == line[i + |first|..i + |body|];
  }

  lemma PartIsRead(line: string, i: nat, part: Part, quote: char)
    requires (part.Letter? ==> part.c != quote && part.c != '\\') && quote != '\\'
    requires i + |PartText(part)| <= |line| && line[i..i + |PartText(part)|] == PartText(part)
    ensures QuoteEnd(line, i, quote) == QuoteEnd(line, i + |PartText(part)|, quote)
    ensures HasEscape(line, i, quote) == (part.Escaped? || HasEscape(line, i + |PartText(part)|, quote))
  {
    assert line[i] == PartText(part)[0];
    assert BehindEscape(line, i) == i + |PartText(part)|;
  }

  lemma EscapedFirst(parts: seq<Part>)
    requires parts != []
    ensures SomeEscaped(parts) == (parts[0].Escaped? || SomeEscaped(parts[1..]))
  {
    assert forall k | 0 <= k < |parts| - 1 :: parts[1..][k] == parts[k + 1];
    if SomeEscaped(parts) && !parts[0].Escaped? {
      var k :| 0 <= k < |parts| && parts[k].Escaped?;
      assert parts[1..][k - 1].Escaped?;
    }
  }

  lemma BlanksAreSame(s: string)
    ensures HasBlank(s) == HasSpace(s) && forall c :: IsBetween(c) == EndsWord(c)
  {
    assert forall c :: IsSpace(c) <==> c in " \t\n\r\U{000C}";
  }

  /** At `i` the line has a quote, the parts, and then `rest`. */
  predicate Quotes(line: string, i: nat, quote: char, parts: seq<Part>, rest: string) {
    && |line| == i + 1 + |Body(parts)| + |rest| && line[i] == quote
    && line[i + 1..i + 1 + |Body(parts)|] == Body(parts) && line[i + 1 + |Body(parts)|..] == rest
  }

  lemma QuotesStand(before: string, quote: char, parts: seq<Part>, rest: string)
    ensures Quotes(before + ([quote] + (Body(parts) + rest)), |before|, quote, parts, rest)
  {
    hide Body;
    var body, i := Body(parts), |before| + 1;
    var line := before + ([quote] + (body + rest));
    assert line[|before|..] == [quote] + (body + rest);
    assert line[i..] == line[|before|..][1..] == body + rest;
    assert line[i..i + |body|] == line[i..][..|body|] && line[i + |body|..] == line[i..][|body|..];
  }

  /**
   * A closed quoted text is one token of what stands between the quotes, complex exactly if it has an escape or a blank or
   * something sticks to it; whatever sticks to it is passed over.
   */
  lemma QuotedIsTaken(line: string, i: nat, quote: char, parts: seq<Part>, behind: string)
    requires IsQuote(quote) && FitQuote(parts, quote) && Quotes(line, i, quote, parts, [quote] + behind)
    ensures var start, end := i + 1, i + 1 + |Body(parts)|;
            var r := Take(line, i);
            && r.Took? && end + 1 <= r.next <= |line|
            && r.token == Token(start, end, Flags(SomeEscaped(parts) || HasBlank(Body(parts)) || Sticks(behind), false, false))
            && (!Sticks(behind) ==> r.next == end + 1)
            && (Sticks(behind) ==> (forall k | end + 1 <= k < r.next :: !IsBetween(line[k]))
                                   && (r.next < |line| ==> IsBetween(line[r.next])))
  {
    hide SomeEscaped, HasBlank, HasSpace, FitQuote, Body, EndsWord, Quotes, Sticks, QuoteEnd, HasEscape, WordEnd, IsBetween;
    var start, end := i + 1, i + 1 + |Body(parts)|;
    QuoteCloses(line, i, quote, parts, behind);
    BlanksAreSame(Body(parts));
    StuckIsSkipped(line, end + 1);
    assert !IsOperator(quote);
  }

  lemma QuoteCloses(line: string, i: nat, quote: char, parts: seq<Part>, behind: string)
    requires IsQuote(quote) && FitQuote(parts, quote) && Quotes(line, i, quote, parts, [quote] + behind)
    ensures var start, end := i + 1, i + 1 + |Body(parts)|;
            && line[i] == quote && end < |line| && line[start..end] == Body(parts) && line[end + 1..] == behind
            && QuoteEnd(line, start, quote) == end && HasEscape(line, start, quote) == SomeEscaped(parts)
  {
    var end := i + 1 + |Body(parts)|;
    BodyIsRead(line, i + 1, parts, quote);
    hide SomeEscaped, FitQuote, Body;
    assert line[end..][0] == line[end] == quote && line[end + 1..] == line[end..][1..] == behind;
  }

  lemma StuckIsSkipped(line: string, i: nat)
    requires i <= |line|
    ensures Sticks(line[i..]) == (i < |line| && !EndsWord(line[i]) && line[i] != '#')
    ensures (forall k | i <= k < WordEnd(line, i) :: !IsBetween(line[k]))
            && (WordEnd(line, i) < |line| ==> IsBetween(line[WordEnd(line, i)]))
  {
    hide EndsWord, IsBetween;
    BlanksAreSame(line);
    WordIsPlain(line, i);
  }

  /** A quoted text is open exactly if it ends with the line, be it with a lone backslash. */
  lemma OpenIsOpen(line: string, i: nat, quote: char, parts: seq<Part>, lone: bool)
    requires IsQuote(quote) && FitQuote(parts, quote) && Quotes(line, i, quote, parts, if lone then "\\" else "")
    ensures Take(line, i) == Open
  {
    var end := i + 1 + |Body(parts)|;
    BodyIsRead(line, i + 1, parts, quote);
    assert lone ==> line[end..][0] == line[end];
    hide SomeEscaped, FitQuote, Body, Quotes, HasEscape;
    assert QuoteEnd(line, i + 1, quote) == QuoteEnd(line, end, quote) == |line|;
    assert !IsOperator(quote);
  }

  /** Behind every quote the line has parts, and then the closing quote, a lone backslash, or nothing. */
  lemma QuoteHasParts(line: string, i: nat) returns (parts: seq<Part>, rest: string)
    requires i < |line| && IsQuote(line[i])
    ensures FitQuote(parts, line[i]) && Quotes(line, i, line[i], parts, rest)
    ensures rest == "" || rest == "\\" || rest[0] == line[i]
  {
    parts, rest := PartsOf(line[i + 1..], line[i]);
    QuotesStand(line[..i], line[i], parts, rest);
    assert line == line[..i] + ([line[i]] + line[i + 1..]);
  }

  lemma {:induction false} PartsOf(s: string, quote: char) returns (parts: seq<Part>, rest: string)
    ensures FitQuote(parts, quote) && s == Body(parts) + rest
    ensures rest == "" || rest == "\\" || rest[0] == quote
    decreases |s|
  {
    if s == "" || s == "\\" || s[0] == quote {
      parts, rest := [], s;
    } else {
      var first, width := if s[0] == '\\' then Escaped(s[1]) else Letter(s[0]), if s[0] == '\\' then 2 else 1;
      var others;
      others, rest := PartsOf(s[width..], quote);
      parts := [first] + others;
      assert s == s[..width] + s[width..] && Body(parts) == s[..width] + Body(others);
    }
  }

  const OPERATORS := [";", ";;", "|", "||", "&", "&&", "<", "<<", ">", ">>"]

  /** Every operator is one token, doubled where it can be; only redirections and single bars are observations. */
  lemma OperatorIsTaken(before: string, text: string, behind: string)
    requires text in OPERATORS && (|text| == 1 && behind != "" ==> behind[0] != text[0])
    ensures Take(before + text + behind, |before|) ==
            Took(Token(|before|, |before| + |text|,
                       Flags(false, text in [";", ";;", "|", "||", "&", "&&"], text in ["|", "&", "<", "<<", ">", ">>"])),
                 |before| + |text|)
  {
    var line, i := before + text + behind, |before|;
    assert line[i..i + |text|] == text && line[i] == text[0];
    assert |text| == 2 ==> line[i + 1] == text[1];
    assert |text| == 1 && behind != "" ==> line[i + 1] == behind[0];
  }
}
