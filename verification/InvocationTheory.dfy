/**
 * What a command line is made of (crates/dv-cli/src/invocation.rs): global options in their spellings, arguments, and a
 * separator, and what the scan makes of a line that is written so.
 */
module InvocationTheory {
  import opened Wrappers
  import opened Ascii
  import opened Invocation

  // ---------------------------------------------------------------- options

  /** At `i` the line has these words. */
  predicate At(raw: seq<string>, i: nat, words: seq<string>) {
    i + |words| <= |raw| && raw[i..i + |words|] == words
  }

  /** A global option. Two of them have a value, joined by an equals sign or as an argument of its own. */
  datatype Flag =
    | Json
    | Loud
    | Silent
    | Colored(on: bool)
    | Compat(mode: Mode, joined: bool)
    | Level(verbosity: Verbosity, joined: bool)
    | Environment(text: string)

  function ModeName(mode: Mode): string {
    match mode
    case Native => ""
    case Dotnet => "dotnet"
    case Msbuild => "msbuild"
    case Nuget => "nuget"
    case Vstest => "vstest"
  }

  function LevelName(verbosity: Verbosity): string {
    match verbosity
    case Quiet => "quiet"
    case Minimal => "minimal"
    case Normal => "normal"
    case Detailed => "detailed"
    case Diagnostic => "diagnostic"
  }

  function Spelled(flag: Flag): seq<string> {
    match flag
    case Json => ["--json"]
    case Loud => ["--verbose"]
    case Silent => ["--quiet"]
    case Colored(on) => [if on then "--color" else "--no-color"]
    case Compat(mode, joined) => if joined then ["--compat=" + ModeName(mode)] else ["--compat", ModeName(mode)]
    case Level(level, joined) => if joined then ["--verbosity=" + LevelName(level)] else ["--verbosity", LevelName(level)]
    case Environment(text) => [text]
  }

  /** An option that may be given: modes once, and no directive that the grammar refuses. */
  predicate MayBeGiven(grammar: Grammar, flag: Flag, scan: Scan) {
    match flag
    case Compat(mode, _) => mode != Native && !scan.modeExplicit
    case Environment(text) => "[env:" <= text && grammar.directive(text)
    case _ => true
  }

  function Given(flag: Flag, scan: Scan): Scan {
    match flag
    case Json => scan.(json := true)
    case Loud => scan.(verbosity := Detailed, verbosityExplicit := true)
    case Silent => scan.(verbosity := Quiet, verbosityExplicit := true)
    case Colored(on) => scan.(color := if on then Always else Never, colorExplicit := true)
    case Compat(mode, _) => scan.(mode := mode, modeExplicit := true)
    case Level(level, _) => scan.(verbosity := level, verbosityExplicit := true)
    case Environment(_) => scan
  }

  /** What begins like an option of the program. */
  predicate LooksGlobal(argument: string) {
    || argument in ["--json", "--verbose", "--quiet", "--color", "--no-color", "--compat", "--verbosity"]
    || "--compat=" <= argument || "--verbosity=" <= argument || "[env:" <= argument
  }

  lemma PrefixStarts(s: string, prefix: string)
    ensures StartsWith(s, prefix) <==> prefix <= s
  {
  }

  lemma NamesAreRead(mode: Mode, level: Verbosity)
    ensures mode != Native ==> ParseMode(ModeName(mode)) == Some(mode)
    ensures ParseVerbosity(LevelName(level)) == Some(level)
  {
  }

  lemma ReadNames(value: string)
    ensures ParseMode(value).Some? ==> ParseMode(value).value != Native && value == ModeName(ParseMode(value).value)
    ensures ParseVerbosity(value).Some? ==> value == LevelName(ParseVerbosity(value).value)
  {
  }

  /** Every option is taken in each of its spellings, with what it says, and as wide as it is written. */
  lemma FlagIsTaken(grammar: Grammar, raw: seq<string>, i: nat, flag: Flag, scan: Scan)
    requires i < |raw| && At(raw, i, Spelled(flag)) && MayBeGiven(grammar, flag, scan)
    ensures ParseGlobalOption(grammar, raw, i, scan) == Takes(|Spelled(flag)|, Given(flag, scan))
    ensures raw[i] != "--" && LooksGlobal(raw[i])
  {
    assert raw[i] == Spelled(flag)[0] && (|Spelled(flag)| == 2 ==> raw[i + 1] == Spelled(flag)[1]);
    hide ParseMode, ParseVerbosity, ModeName, LevelName;
    match flag
    case Compat(mode, joined) =>
      NamesAreRead(mode, Quiet);
      if joined { ValueBehind("--compat=", ModeName(mode)); }
    case Level(level, joined) =>
      NamesAreRead(Native, level);
      if joined { ValueBehind("--verbosity=", LevelName(level)); }
      VerbosityIsNotCompat();
    case Environment(text) =>
      assert text[..5] == "[env:" && text[0] == '[';
    case _ =>
  }

  lemma VerbosityIsNotCompat()
    ensures !StartsWith("--verbosity", "--compat=")
  {
    assert "--verbosity"[..9][2] == 'v';
  }

  /** The value behind an equals sign; the two options that have one are told apart by their third letter. */
  lemma ValueBehind(head: string, value: string)
    requires head == "--compat=" || head == "--verbosity="
    ensures var argument := head + value;
            && head <= argument && argument[|head|..] == value && StartsWith(argument, head)
            && (head == "--verbosity=" ==> !StartsWith(argument, "--compat="))
            && argument !in ["--", "--json", "--verbose", "--quiet", "--color", "--no-color", "--compat", "--verbosity"]
  {
    var argument := head + value;
    assert argument[|head| - 1] == '=' && argument[2] == head[2];
    if StartsWith(argument, "--compat=") { assert argument[2] == "--compat="[2]; }
  }

  /** Whatever is taken is an option in one of its spellings. */
  lemma TakenIsFlag(grammar: Grammar, raw: seq<string>, i: nat, scan: Scan) returns (flag: Flag)
    requires i < |raw| && ParseGlobalOption(grammar, raw, i, scan).Takes?
    ensures IsTakenFlag(grammar, raw, i, scan, flag)
  {
    var argument := raw[i];
    if argument == "--compat" || argument == "--verbosity" {
      flag := PairIsFlag(grammar, raw, i, scan);
    } else if StartsWith(argument, "--compat=") {
      flag := CompatIsFlag(grammar, raw, i, scan);
    } else if StartsWith(argument, "--verbosity=") {
      flag := LevelIsFlag(grammar, raw, i, scan);
    } else {
      flag := SingleIsFlag(grammar, raw, i, scan);
    }
  }

  predicate IsTakenFlag(grammar: Grammar, raw: seq<string>, i: nat, scan: Scan, flag: Flag)
    requires i < |raw|
  {
    && ParseGlobalOption(grammar, raw, i, scan) == Takes(|Spelled(flag)|, Given(flag, scan))
    && At(raw, i, Spelled(flag)) && MayBeGiven(grammar, flag, scan)
  }

  lemma SingleIsFlag(grammar: Grammar, raw: seq<string>, i: nat, scan: Scan) returns (flag: Flag)
    requires i < |raw| && ParseGlobalOption(grammar, raw, i, scan).Takes?
    requires raw[i] != "--compat" && raw[i] != "--verbosity"
    requires !StartsWith(raw[i], "--compat=") && !StartsWith(raw[i], "--verbosity=")
    ensures IsTakenFlag(grammar, raw, i, scan, flag)
  {
    var argument := raw[i];
    flag :=
      if argument == "--json" then Json else if argument == "--verbose" then Loud else if argument == "--quiet" then Silent
      else if argument == "--color" then Colored(true) else if argument == "--no-color" then Colored(false)
      else Environment(argument);
    PrefixStarts(argument, "[env:");
    assert raw[i..i + 1] == [argument];
  }

  lemma PairIsFlag(grammar: Grammar, raw: seq<string>, i: nat, scan: Scan) returns (flag: Flag)
    requires i < |raw| && ParseGlobalOption(grammar, raw, i, scan).Takes?
    requires raw[i] == "--compat" || raw[i] == "--verbosity"
    ensures IsTakenFlag(grammar, raw, i, scan, flag)
  {
    assert i + 1 < |raw|;
    var value := raw[i + 1];
    ReadNames(value);
    hide ParseMode, ParseVerbosity, ModeName, LevelName;
    flag := if raw[i] == "--compat" then Compat(ParseMode(value).value, false) else Level(ParseVerbosity(value).value, false);
    assert raw[i..i + 2] == [raw[i], value];
  }

  lemma CompatIsFlag(grammar: Grammar, raw: seq<string>, i: nat, scan: Scan) returns (flag: Flag)
    requires i < |raw| && ParseGlobalOption(grammar, raw, i, scan).Takes? && StartsWith(raw[i], "--compat=")
    ensures IsTakenFlag(grammar, raw, i, scan, flag)
  {
    var value := raw[i][|"--compat="|..];
    assert raw[i] == "--compat=" + value;
    ReadNames(value);
    ValueBehind("--compat=", value);
    hide ParseMode, ModeName, StartsWith;
    assert ParseGlobalOption(grammar, raw, i, scan) == SelectMode(scan, value, 1);
    hide ParseGlobalOption;
    flag := Compat(ParseMode(value).value, true);
    assert raw[i..i + 1] == [raw[i]];
  }

  lemma LevelIsFlag(grammar: Grammar, raw: seq<string>, i: nat, scan: Scan) returns (flag: Flag)
    requires i < |raw| && ParseGlobalOption(grammar, raw, i, scan).Takes? && StartsWith(raw[i], "--verbosity=")
    ensures IsTakenFlag(grammar, raw, i, scan, flag)
  {
    var value := raw[i][|"--verbosity="|..];
    assert raw[i] == "--verbosity=" + value;
    ReadNames(value);
    ValueBehind("--verbosity=", value);
    hide ParseVerbosity, LevelName, StartsWith;
    assert ParseGlobalOption(grammar, raw, i, scan) == SelectVerbosity(scan, value, 1);
    hide ParseGlobalOption;
    flag := Level(ParseVerbosity(value).value, true);
    assert raw[i..i + 1] == [raw[i]];
  }

  /** Only what looks like an option of the program is taken or refused; a second mode leaves none. */
  lemma OthersAreLeft(grammar: Grammar, raw: seq<string>, i: nat, scan: Scan)
    requires i < |raw|
    ensures ParseGlobalOption(grammar, raw, i, scan).NoOption? <==> !LooksGlobal(raw[i])
    ensures ParseGlobalOption(grammar, raw, i, scan).Refused? && scan.modeExplicit
            && ("--compat=" <= raw[i] || (raw[i] == "--compat" && i + 1 < |raw|)) ==>
              ParseGlobalOption(grammar, raw, i, scan).scan.mode == Native
  {
    PrefixStarts(raw[i], "[env:");
    PrefixStarts(raw[i], "--compat=");
    PrefixStarts(raw[i], "--verbosity=");
  }

  // ---------------------------------------------------------------- a command line

  datatype Piece = Global(flag: Flag) | Plain(text: string)

  function Words(piece: Piece): seq<string> {
    match piece case Global(flag) => Spelled(flag) case Plain(text) => [text]
  }

  function Line(pieces: seq<Piece>): seq<string> {
    if pieces == [] then [] else Words(pieces[0]) + Line(pieces[1..])
  }

  function After(pieces: seq<Piece>, scan: Scan): Scan {
    if pieces == [] then scan
    else After(pieces[1..], match pieces[0] case Global(flag) => Given(flag, scan) case Plain(_) => scan)
  }

  /** The options may be given one behind the other, and no argument looks like one while options are open. */
  predicate Follow(grammar: Grammar, pieces: seq<Piece>, scan: Scan) {
    pieces != [] ==>
      match pieces[0]
      case Global(flag) =>
        !scan.optionsClosed && MayBeGiven(grammar, flag, scan) && Follow(grammar, pieces[1..], Given(flag, scan))
      case Plain(text) => text != "--" && (scan.optionsClosed || !LooksGlobal(text)) && Follow(grammar, pieces[1..], scan)
  }

  /** The places of the arguments, if the pieces begin at `i`. */
  function ArgumentPlaces(pieces: seq<Piece>, i: nat): seq<nat> {
    if pieces == [] then []
    else if pieces[0].Plain? then [i] + ArgumentPlaces(pieces[1..], i + 1)
    else ArgumentPlaces(pieces[1..], i + |Words(pieces[0])|)
  }

  /** Behind the command: the arguments are kept, and from a separator on all or nothing is. */
  function Read(grammar: Grammar, raw: seq<string>, command: nat, pieces: seq<Piece>, i: nat, scan: Scan): Captured
    requires command < |raw| && i + |Line(pieces)| <= |raw|
  {
    Kept(ArgumentPlaces(pieces, i), Ending(grammar, raw, command, i + |Line(pieces)|, After(pieces, scan).mode))
  }

  /** At the end or at a separator: what is forwarded has no places, and everything is kept if nothing is forwarded. */
  function Ending(grammar: Grammar, raw: seq<string>, command: nat, end: nat, mode: Mode): Captured
    requires command < |raw| && end <= |raw|
  {
    if end == |raw| then Captured(Some(command), [], None, false)
    else if grammar.forwards(mode, raw[command]) then Captured(Some(command), [], Some(end + 1), false)
    else Captured(Some(command), Range(end, |raw|), None, false)
  }

  function Kept(places: seq<nat>, captured: Captured): Captured {
    captured.(kept := places + captured.kept)
  }

  predicate EndsAt(raw: seq<string>, i: nat) {
    i == |raw| || (i < |raw| && raw[i] == "--")
  }

  /** At `i` the line has the pieces, and then nothing or a separator. */
  predicate Has(raw: seq<string>, i: nat, pieces: seq<Piece>) {
    At(raw, i, Line(pieces)) && EndsAt(raw, i + |Line(pieces)|)
  }

  lemma AtSplits(raw: seq<string>, i: nat, a: seq<string>, b: seq<string>)
    ensures At(raw, i, a + b) <==> At(raw, i, a) && At(raw, i + |a|, b)
  {
    if At(raw, i, a + b) {
      var slice := raw[i..i + |a + b|];
      assert slice[..|a|] == a && slice[|a|..] == b;
    }
  }

  lemma AtFirst(raw: seq<string>, i: nat, words: seq<string>)
    requires At(raw, i, words) && words != []
    ensures i < |raw| && raw[i] == words[0]
  {
    assert raw[i..i + |words|][0] == raw[i];
  }

  lemma {:induction false} LineIs(pieces: seq<Piece>)
    requires pieces != []
    ensures Line(pieces) == Words(pieces[0]) + Line(pieces[1..])
  {
  }

  lemma SomeWords(piece: Piece)
    ensures |Words(piece)| > 0
  {
  }

  /** Main result: a line of pieces is read as it was written, whatever its options, arguments and separator. */
  lemma {:induction false} BehindIsRead(grammar: Grammar, raw: seq<string>, command: nat, i: nat, pieces: seq<Piece>, scan: Scan)
    requires command < |raw| && Has(raw, i, pieces) && Follow(grammar, pieces, scan)
    ensures Behind(grammar, raw, command, i, scan) == Read(grammar, raw, command, pieces, i, scan)
    decreases |pieces|
  {
    hide ParseGlobalOption, Spelled, LooksGlobal, MayBeGiven, Given, Read, Has, Behind;
    if pieces == [] {
      NothingIsRead(grammar, raw, command, i, scan);
    } else {
      HasUnfolds(raw, i, pieces);
      match pieces[0]
      case Global(flag) =>
        FlagIsTaken(grammar, raw, i, flag, scan);
        FlagIsRead(grammar, raw, command, i, pieces, scan);
        BehindIsRead(grammar, raw, command, i + |Words(pieces[0])|, pieces[1..], Given(flag, scan));
      case Plain(text) =>
        OthersAreLeft(grammar, raw, i, scan);
        ArgumentIsRead(grammar, raw, command, i, pieces, scan);
        BehindIsRead(grammar, raw, command, i + 1, pieces[1..], scan);
    }
  }

  lemma NothingIsRead(grammar: Grammar, raw: seq<string>, command: nat, i: nat, scan: Scan)
    requires command < |raw| && Has(raw, i, [])
    ensures Behind(grammar, raw, command, i, scan) == Read(grammar, raw, command, [], i, scan)
  {
    var end := Ending(grammar, raw, command, i, scan.mode);
    assert [] + end.kept == end.kept;
  }

  lemma {:induction false} HasUnfolds(raw: seq<string>, i: nat, pieces: seq<Piece>)
    requires Has(raw, i, pieces) && pieces != []
    ensures var first := Words(pieces[0]);
            && first != [] && At(raw, i, first) && i < |raw| && raw[i] == first[0]
            && Has(raw, i + |first|, pieces[1..]) && |Line(pieces)| == |first| + |Line(pieces[1..])|
    ensures i + |Line(pieces)| <= |raw|
  {
    hide Words, Line, At, EndsAt;
    var first, rest := Words(pieces[0]), Line(pieces[1..]);
    LineIs(pieces);
    SomeWords(pieces[0]);
    AtIsInside(raw, i, Line(pieces));
    AtSplits(raw, i, first, rest);
    AtFirst(raw, i, first);
  }

  lemma AtIsInside(raw: seq<string>, i: nat, words: seq<string>)
    requires At(raw, i, words)
    ensures i + |words| <= |raw|
  {
  }

  lemma {:induction false} FlagIsRead(grammar: Grammar, raw: seq<string>, command: nat, i: nat, pieces: seq<Piece>, scan: Scan)
    requires command < |raw| && Has(raw, i, pieces) && pieces != [] && pieces[0].Global?
    requires !scan.optionsClosed && raw[i] != "--"
    requires ParseGlobalOption(grammar, raw, i, scan) == Takes(|Words(pieces[0])|, Given(pieces[0].flag, scan))
    ensures var next, scan' := i + |Words(pieces[0])|, Given(pieces[0].flag, scan);
            && Has(raw, next, pieces[1..])
            && Behind(grammar, raw, command, i, scan) == Behind(grammar, raw, command, next, scan')
            && Read(grammar, raw, command, pieces, i, scan) == Read(grammar, raw, command, pieces[1..], next, scan')
  {
    hide ParseGlobalOption, Words, Line, Given, Has, At, EndsAt, After, ArgumentPlaces, Ending, Kept, Behind;
    HasUnfolds(raw, i, pieces);
    PiecesUnfold(pieces, i, scan);
    BehindSteps(grammar, raw, command, i, scan);
  }

  lemma BehindSteps(grammar: Grammar, raw: seq<string>, command: nat, i: nat, scan: Scan)
    requires command < |raw| && i < |raw| && raw[i] != "--"
    ensures Behind(grammar, raw, command, i, scan) ==
            match OptionAt(grammar, raw, i, scan)
            case Takes(width, scan') => Behind(grammar, raw, command, i + width, scan')
            case Refused(_) => Captured(Some(command), [], None, true)
            case NoOption => Keep(i, Behind(grammar, raw, command, i + 1, scan))
  {
    hide OptionAt;
  }

  lemma {:induction false} PiecesUnfold(pieces: seq<Piece>, i: nat, scan: Scan)
    requires pieces != []
    ensures After(pieces, scan) == After(pieces[1..], if pieces[0].Global? then Given(pieces[0].flag, scan) else scan)
    ensures ArgumentPlaces(pieces, i) == if pieces[0].Plain? then [i] + ArgumentPlaces(pieces[1..], i + 1)
                                         else ArgumentPlaces(pieces[1..], i + |Words(pieces[0])|)
  {
    hide Given;
  }

  lemma {:induction false} ArgumentIsRead(grammar: Grammar, raw: seq<string>, command: nat, i: nat, pieces: seq<Piece>,
      scan: Scan)
    requires command < |raw| && Has(raw, i, pieces) && pieces != [] && pieces[0].Plain? && raw[i] != "--"
    requires scan.optionsClosed || ParseGlobalOption(grammar, raw, i, scan).NoOption?
    ensures Has(raw, i + 1, pieces[1..])
    ensures Behind(grammar, raw, command, i, scan) == Keep(i, Behind(grammar, raw, command, i + 1, scan))
    ensures Read(grammar, raw, command, pieces, i, scan) == Keep(i, Read(grammar, raw, command, pieces[1..], i + 1, scan))
  {
    hide ParseGlobalOption, Line, Given, Has, At, EndsAt, Range, After, ArgumentPlaces, Words, Behind, Ending, Kept, Keep;
    assert |Words(pieces[0])| == 1 by { OneWord(pieces[0].text); }
    HasUnfolds(raw, i, pieces);
    assert Behind(grammar, raw, command, i, scan) == Keep(i, Behind(grammar, raw, command, i + 1, scan)) by {
      BehindSteps(grammar, raw, command, i, scan);
    }
    hide OptionAt;
    var end, mode := i + |Line(pieces)|, After(pieces, scan).mode;
    PiecesUnfold(pieces, i, scan);
    KeptFirst(i, ArgumentPlaces(pieces[1..], i + 1), Ending(grammar, raw, command, end, mode));
  }

  lemma OneWord(text: string)
    ensures Words(Plain(text)) == [text]
  {
  }

  lemma KeptFirst(i: nat, places: seq<nat>, captured: Captured)
    ensures Kept([i] + places, captured) == Keep(i, Kept(places, captured))
  {
    assert ([i] + places) + captured.kept == [i] + (places + captured.kept);
  }

  /** Every line that is not refused is such a line. */
  lemma {:induction false} BehindIsPieces(grammar: Grammar, raw: seq<string>, command: nat, i: nat, scan: Scan)
      returns (pieces: seq<Piece>)
    requires command < |raw| && i <= |raw| && !Behind(grammar, raw, command, i, scan).refused
    ensures Has(raw, i, pieces) && Follow(grammar, pieces, scan)
    decreases |raw| - i
  {
    hide ParseGlobalOption, Spelled, LooksGlobal, MayBeGiven, Given;
    if i == |raw| || raw[i] == "--" {
      pieces := [];
    } else {
      var first: Piece;
      var scan' := scan;
      if OptionAt(grammar, raw, i, scan).Takes? {
        var flag := TakenIsFlag(grammar, raw, i, scan);
        assert IsTakenFlag(grammar, raw, i, scan, flag);
        first, scan' := Global(flag), Given(flag, scan);
      } else {
        OthersAreLeft(grammar, raw, i, scan);
        first := Plain(raw[i]);
      }
      var rest := BehindIsPieces(grammar, raw, command, i + |Words(first)|, scan');
      pieces := [first] + rest;
      assert pieces[1..] == rest;
      HasOneMore(raw, i, first, rest);
    }
  }

  lemma HasOneMore(raw: seq<string>, i: nat, first: Piece, rest: seq<Piece>)
    requires At(raw, i, Words(first)) && Has(raw, i + |Words(first)|, rest)
    ensures Has(raw, i, [first] + rest)
  {
    var pieces := [first] + rest;
    LineIs(pieces);
    assert pieces[1..] == rest;
    hide Words, Line, At;
    AtSplits(raw, i, Words(first), Line(rest));
  }

  // ---------------------------------------------------------------- up to the command

  predicate AllGlobal(pieces: seq<Piece>) {
    forall k | 0 <= k < |pieces| :: pieces[k].Global?
  }

  /** Options up to the command are read one behind the other. */
  lemma {:induction false} OptionsAreRead(grammar: Grammar, raw: seq<string>, i: nat, pieces: seq<Piece>, scan: Scan)
    requires AllGlobal(pieces) && Follow(grammar, pieces, scan)
    requires i + |Line(pieces)| <= |raw| && At(raw, i, Line(pieces))
    ensures Capture(grammar, raw, i, scan) == Capture(grammar, raw, i + |Line(pieces)|, After(pieces, scan))
    ensures After(pieces, scan).optionsClosed == scan.optionsClosed
    decreases |pieces|
  {
    hide ParseGlobalOption, Spelled, LooksGlobal, MayBeGiven, At, Line, Capture, After;
    if pieces == [] {
      assert Line(pieces) == [] && After(pieces, scan) == scan by { NoPieces(scan); }
    } else {
      var first, rest := Words(pieces[0]), pieces[1..];
      LineIs(pieces);
      SomeWords(pieces[0]);
      PiecesUnfold(pieces, i, scan);
      AtSplits(raw, i, first, Line(rest));
      AtFirst(raw, i, first);
      assert AllGlobal(rest) by { assert forall k | 0 <= k < |rest| :: rest[k] == pieces[k + 1]; }
      var flag := pieces[0].flag;
      FlagIsTaken(grammar, raw, i, flag, scan);
      CaptureSteps(grammar, raw, i, scan);
      OptionsAreRead(grammar, raw, i + |first|, rest, Given(flag, scan));
    }
  }

  lemma NoPieces(scan: Scan)
    ensures Line([]) == [] && After([], scan) == scan
  {
  }

  lemma CaptureSteps(grammar: Grammar, raw: seq<string>, i: nat, scan: Scan)
    requires i < |raw| && raw[i] != "--" && OptionAt(grammar, raw, i, scan).Takes?
    ensures var taken := OptionAt(grammar, raw, i, scan);
            Capture(grammar, raw, i, scan) == Capture(grammar, raw, i + taken.width, taken.scan)
  {
    hide OptionAt;
  }

  /** Separators in front of the command close the options. */
  lemma {:induction false} SeparatorsClose(grammar: Grammar, raw: seq<string>, i: nat, n: nat, scan: Scan)
    requires i + n <= |raw| && forall k | i <= k < i + n :: raw[k] == "--"
    ensures Capture(grammar, raw, i, scan) ==
            Capture(grammar, raw, i + n, scan.(optionsClosed := scan.optionsClosed || n > 0))
    decreases n
  {
    hide ParseGlobalOption;
    if n > 0 {
      SeparatorsClose(grammar, raw, i + 1, n - 1, scan.(optionsClosed := true));
    }
  }

  /**
   * Main result: a whole line. Options, perhaps separators, the command, and behind it what its pieces say, with the
   * options of the front still in force. Behind a separator the command and its arguments may look like anything.
   */
  lemma {:induction false} CommandIsRead(grammar: Grammar, raw: seq<string>, front: seq<Piece>, n: nat,
      pieces: seq<Piece>, start: Scan)
    requires AllGlobal(front) && Follow(grammar, front, start) && !start.optionsClosed
    requires |Line(front)| + n < |raw| && At(raw, 0, Line(front))
    requires forall k | |Line(front)| <= k < |Line(front)| + n :: raw[k] == "--"
    requires var command, scan := |Line(front)| + n, After(front, start).(optionsClosed := n > 0);
             && raw[command] != "--"
             && (n == 0 ==> !LooksGlobal(raw[command]) && (raw[command] == "" || raw[command][0] != '-'
                                                           || grammar.known(scan.mode, raw[command])))
             && Has(raw, command + 1, pieces) && Follow(grammar, pieces, scan)
    ensures var command, scan := |Line(front)| + n, After(front, start).(optionsClosed := n > 0);
            Capture(grammar, raw, 0, start) == Read(grammar, raw, command, pieces, command + 1, scan)
  {
    hide ParseGlobalOption, LooksGlobal, Read, Follow, Line, Has, Behind, After;
    var command, scan := |Line(front)| + n, After(front, start).(optionsClosed := n > 0);
    OptionsAreRead(grammar, raw, 0, front, start);
    SeparatorsClose(grammar, raw, |Line(front)|, n, After(front, start));
    OthersAreLeft(grammar, raw, command, scan);
    BehindIsRead(grammar, raw, command, command + 1, pieces, scan);
  }
}
