/** The argument scan (crates/dv-cli/src/invocation.rs, `capture_with_environment`). */
module Invocation {
  import opened Wrappers
  import opened Ascii

  // One pass finds the command and the arguments that belong to it. The indices of those arguments are only written down
  // once a global option has to be skipped, first into a small fixed table and then into a list. Arguments are text here.

  const INLINE_SEMANTIC_ARGUMENTS: nat := 16
  const U16_MAX: nat := 0xFFFF

  // ---------------------------------------------------------------- global options

  datatype Mode = Native | Dotnet | Msbuild | Nuget | Vstest
  datatype Color = Auto | Always | Never
  datatype Verbosity = Quiet | Minimal | Normal | Detailed | Diagnostic

  datatype Scan = Scan(json: bool, color: Color, verbosity: Verbosity, mode: Mode,
                       colorExplicit: bool, verbosityExplicit: bool, modeExplicit: bool, optionsClosed: bool)

  /** How commands and directives are classified: a parameter of the scan. */
  datatype Grammar = Grammar(forwards: (Mode, string) -> bool, known: (Mode, string) -> bool, directive: string -> bool)

  /** The option takes one or two arguments, or is none, or is refused. */
  datatype Parsed = Takes(width: nat, scan: Scan) | NoOption | Refused(scan: Scan)

  function ParseMode(value: string): Option<Mode> {
    if value == "dotnet" then Some(Dotnet) else if value == "msbuild" then Some(Msbuild)
    else if value == "nuget" then Some(Nuget) else if value == "vstest" then Some(Vstest) else None
  }

  function ParseVerbosity(value: string): Option<Verbosity> {
    if value == "quiet" then Some(Quiet) else if value == "minimal" then Some(Minimal) else if value == "normal" then Some(Normal)
    else if value == "detailed" then Some(Detailed) else if value == "diagnostic" then Some(Diagnostic) else None
  }

  /** A second mode is refused and resets the first. */
  function SelectMode(scan: Scan, value: string, width: nat): Parsed {
    if scan.modeExplicit then Refused(scan.(mode := Native)) else
      match ParseMode(value)
      case None => Refused(scan)
      case Some(mode) => Takes(width, scan.(mode := mode, modeExplicit := true))
  }

  function SelectVerbosity(scan: Scan, value: string, width: nat): Parsed {
    match ParseVerbosity(value)
    case None => Refused(scan)
    case Some(verbosity) => Takes(width, scan.(verbosity := verbosity, verbosityExplicit := true))
  }

  function ParseGlobalOption(grammar: Grammar, raw: seq<string>, index: nat, scan: Scan): (r: Parsed)
    requires index < |raw|
    ensures r.Takes? ==> 1 <= r.width && index + r.width <= |raw| && r.scan.optionsClosed == scan.optionsClosed
  {
    var argument := raw[index];
    if argument == "--json" then Takes(1, scan.(json := true))
    else if argument == "--verbose" then Takes(1, scan.(verbosity := Detailed, verbosityExplicit := true))
    else if argument == "--quiet" then Takes(1, scan.(verbosity := Quiet, verbosityExplicit := true))
    else if argument == "--color" then Takes(1, scan.(color := Always, colorExplicit := true))
    else if argument == "--no-color" then Takes(1, scan.(color := Never, colorExplicit := true))
    else if argument == "--compat" then if index + 1 < |raw| then SelectMode(scan, raw[index + 1], 2) else Refused(scan)
    else if StartsWith(argument, "--compat=") then SelectMode(scan, argument[|"--compat="|..], 1)
    else if argument == "--verbosity" then if index + 1 < |raw| then SelectVerbosity(scan, raw[index + 1], 2) else Refused(scan)
    else if StartsWith(argument, "--verbosity=") then SelectVerbosity(scan, argument[|"--verbosity="|..], 1)
    else if StartsWith(argument, "[env:") then if grammar.directive(argument) then Takes(1, scan) else Refused(scan)
    else NoOption
  }

  predicate IsOption(argument: string) {
    argument != "" && argument[0] == '-'
  }

  // ---------------------------------------------------------------- the simple filter

  function Range(start: nat, end: nat): (r: seq<nat>)
    ensures |r| == if start <= end then end - start else 0
    ensures forall i | 0 <= i < |r| :: r[i] == start + i
  {
    seq(if start <= end then end - start else 0, i requires 0 <= i => start + i)
  }

  /** What a scan comes to: the command, the arguments kept for it, where forwarded ones begin, or a refused option. */
  datatype Captured = Captured(command: Option<nat>, kept: seq<nat>, forwarded: Option<nat>, refused: bool)

  /** The option at `i`, unless options are closed. */
  function OptionAt(grammar: Grammar, raw: seq<string>, i: nat, scan: Scan): (r: Parsed)
    requires i < |raw|
    ensures r.Takes? ==> 1 <= r.width && i + r.width <= |raw|
  {
    if scan.optionsClosed then NoOption else ParseGlobalOption(grammar, raw, i, scan)
  }

  /**
   * The arguments behind the command: whole global options are left out, and a `--` either ends them, for commands that
   * forward what follows, or keeps everything from there on.
   */
  function Behind(grammar: Grammar, raw: seq<string>, command: nat, i: nat, scan: Scan): Captured
    requires command < |raw| && i <= |raw|
    decreases |raw| - i
  {
    if i == |raw| then Captured(Some(command), [], None, false)
    else if raw[i] == "--" then
      if grammar.forwards(scan.mode, raw[command]) then Captured(Some(command), [], Some(i + 1), false)
      else Captured(Some(command), Range(i, |raw|), None, false)
    else
      match OptionAt(grammar, raw, i, scan)
      case Takes(width, scan') => Behind(grammar, raw, command, i + width, scan')
      case Refused(_) => Captured(Some(command), [], None, true)
      case NoOption => Keep(i, Behind(grammar, raw, command, i + 1, scan))
  }

  function Keep(i: nat, captured: Captured): Captured {
    captured.(kept := [i] + captured.kept)
  }

  /** The arguments up to the command. A first `--` closes the options. */
  function Capture(grammar: Grammar, raw: seq<string>, i: nat, scan: Scan): Captured
    requires i <= |raw|
    decreases |raw| - i
  {
    if i == |raw| then Captured(None, [], None, false)
    else if raw[i] == "--" then Capture(grammar, raw, i + 1, scan.(optionsClosed := true))
    else
      match OptionAt(grammar, raw, i, scan)
      case Takes(width, scan') => Capture(grammar, raw, i + width, scan')
      case Refused(_) => Captured(None, [], None, true)
      case NoOption =>
        if !scan.optionsClosed && IsOption(raw[i]) && !grammar.known(scan.mode, raw[i]) then Captured(None, [], None, true)
        else Behind(grammar, raw, i, i + 1, scan)
  }

  // ---------------------------------------------------------------- indices

  /** Small indices go into a fixed table; the first one too many or too large moves all of them to a list. */
  class SemanticIndices {
    const values: array<nat>
    var len: nat
    var heap: Option<seq<nat>>

    ghost predicate Valid()
      reads this, values
    {
      values.Length == INLINE_SEMANTIC_ARGUMENTS && len <= values.Length && forall i | 0 <= i < len :: values[i] <= U16_MAX
    }

    ghost function Contents(): seq<nat>
      reads this, values
      requires Valid()
    {
      if heap.Some? then heap.value else values[..len]
    }

    constructor ()
      ensures Valid() && Contents() == [] && fresh(values)
    {
      values := new nat[INLINE_SEMANTIC_ARGUMENTS](_ => 0);
      len, heap := 0, None;
    }

    method Push(index: nat)
      requires Valid()
      modifies this, values
      ensures Valid() && Contents() == old(Contents()) + [index]
    {
      if heap.Some? {
        heap := Some(heap.value + [index]);
      } else if len < values.Length && index <= U16_MAX {
        values[len] := index;
        len := len + 1;
      } else {
        heap := Some(values[..len] + [index]);
      }
    }

    method PushRange(start: nat, end: nat)
      requires Valid() && start <= end
      modifies this, values
      ensures Valid() && Contents() == old(Contents()) + Range(start, end)
    {
      var index := start;
      while index < end
        invariant start <= index <= end && Valid() && Contents() == old(Contents()) + Range(start, index)
      {
        Push(index);
        index := index + 1;
      }
    }

    function Get(index: nat): (r: Option<nat>)
      reads this, values
      requires Valid()
      ensures r == if index < |Contents()| then Some(Contents()[index]) else None
    {
      if heap.Some? then if index < |heap.value| then Some(heap.value[index]) else None
      else if index < len then Some(values[index]) else None
    }

    function Len(): (r: nat)
      reads this, values
      requires Valid()
      ensures r == |Contents()|
    {
      if heap.Some? then |heap.value| else len
    }
  }

  // ---------------------------------------------------------------- the scan

  lemma KeepFirst(front: seq<nat>, i: nat, captured: Captured)
    ensures captured.(kept := front + Keep(i, captured).kept) == captured.(kept := (front + [i]) + captured.kept)
  {
    assert front + ([i] + captured.kept) == (front + [i]) + captured.kept;
  }

  predicate AllBelow(indices: seq<nat>, n: nat) {
    forall k | 0 <= k < |indices| :: indices[k] < n
  }

  lemma BelowWithRange(indices: seq<nat>, start: nat, end: nat, n: nat)
    requires AllBelow(indices, n) && end <= n
    ensures AllBelow(indices + Range(start, end), n)
  {
  }

  lemma BelowWithOne(indices: seq<nat>, index: nat, n: nat)
    requires AllBelow(indices, n) && index < n
    ensures AllBelow(indices + [index], n)
  {
  }

  lemma NothingBelow(start: nat, end: nat, n: nat)
    requires end <= n
    ensures [] + Range(start, end) == Range(start, end) && AllBelow(Range(start, end), n)
  {
  }

  /** The arguments at the given indices. */
  function Texts(raw: seq<string>, indices: seq<nat>): (texts: seq<string>)
    requires AllBelow(indices, |raw|)
    ensures |texts| == |indices| && forall k | 0 <= k < |texts| :: texts[k] == raw[indices[k]]
  {
    seq(|indices|, k requires 0 <= k < |indices| => raw[indices[k]])
  }

  // ---------------------------------------------------------------- the view of a command

  datatype Storage = Direct(arguments: seq<string>) | Indexed(raw: seq<string>, indices: SemanticIndices)

  function Footprint(storage: Storage): set<object> {
    match storage case Direct(_) => {} case Indexed(_, indices) => {indices, indices.values}
  }

  ghost predicate Readable(storage: Storage)
    reads Footprint(storage)
  {
    storage.Indexed? ==> storage.indices.Valid() && AllBelow(storage.indices.Contents(), |storage.raw|)
  }

  ghost function All(storage: Storage): seq<string>
    reads Footprint(storage)
    requires Readable(storage)
  {
    match storage case Direct(arguments) => arguments case Indexed(raw, indices) => Texts(raw, indices.Contents())
  }

  datatype ArgumentView = ArgumentView(storage: Storage, start: nat)

  ghost predicate IsView(a: ArgumentView)
    reads Footprint(a.storage)
  {
    Readable(a.storage) && a.start <= |All(a.storage)|
  }

  /** The arguments that a view shows. */
  ghost function View(a: ArgumentView): seq<string>
    reads Footprint(a.storage)
    requires IsView(a)
  {
    All(a.storage)[a.start..]
  }

  function Len(a: ArgumentView): (r: nat)
    reads Footprint(a.storage)
    requires IsView(a)
    ensures r == |View(a)|
  {
    (if a.storage.Indexed? then a.storage.indices.Len() else |a.storage.arguments|) - a.start
  }

  function Get(a: ArgumentView, index: nat): (r: Option<string>)
    reads Footprint(a.storage)
    requires IsView(a)
    ensures r == if index < |View(a)| then Some(View(a)[index]) else None
  {
    var i := a.start + index;
    if a.storage.Indexed? then
      var k := a.storage.indices.Get(i);
      if k.Some? then Some(a.storage.raw[k.value]) else None
    else if i < |a.storage.arguments| then Some(a.storage.arguments[i])
    else None
  }

  function SliceFrom(a: ArgumentView, start: nat): (r: ArgumentView)
    reads Footprint(a.storage)
    requires IsView(a)
    ensures IsView(r) && View(r) == View(a)[if start <= |View(a)| then start else |View(a)|..]
  {
    a.(start := if start <= Len(a) then a.start + start else a.start + Len(a))
  }

  /** What the indices written so far stand for: everything since the command if none had to be written. */
  function Written(indices: Option<seq<nat>>, command: nat, index: nat): seq<nat> {
    if indices.Some? then indices.value else Range(command + 1, index)
  }

  class InvocationBatch {
    const raw: seq<string>
    const grammar: Grammar
    var semanticIndices: SemanticIndices?
    var forwardedIndex: Option<nat>
    var commandIndex: Option<nat>
    var refused: bool

    ghost predicate Valid()
      reads this, semanticIndices, if semanticIndices == null then {} else {semanticIndices.values}
    {
      && (semanticIndices != null ==>
          semanticIndices.Valid() && commandIndex.Some? && AllBelow(semanticIndices.Contents(), |raw|))
      && (commandIndex.Some? ==> commandIndex.value < |raw|)
      && (forwardedIndex.Some? ==> commandIndex.Some? && commandIndex.value + 1 < forwardedIndex.value <= |raw|)
    }

    ghost function Indices(): Option<seq<nat>>
      reads this, semanticIndices, if semanticIndices == null then {} else {semanticIndices.values}
      requires Valid()
    {
      if semanticIndices == null then None else Some(semanticIndices.Contents())
    }

    /** Where the arguments of the command end. */
    function Limit(): nat
      reads this
    {
      if forwardedIndex.Some? && forwardedIndex.value > 0 then forwardedIndex.value - 1 else |raw|
    }

    constructor (raw: seq<string>, grammar: Grammar, indices: SemanticIndices?, forwarded: Option<nat>,
        command: Option<nat>, refused: bool)
      requires indices != null ==> indices.Valid() && command.Some? && AllBelow(indices.Contents(), |raw|)
      requires command.Some? ==> command.value < |raw|
      requires forwarded.Some? ==> command.Some? && command.value + 1 < forwarded.value <= |raw|
      ensures Valid() && this.raw == raw && this.grammar == grammar && semanticIndices == indices
      ensures forwardedIndex == forwarded && commandIndex == command && this.refused == refused
    {
      this.raw, this.grammar := raw, grammar;
      semanticIndices, forwardedIndex, commandIndex, this.refused := indices, forwarded, command, refused;
    }

    /** The arguments of the command, from the indices if there are any, or as one piece of the raw arguments. */
    function CommandArguments(): (a: ArgumentView)
      reads this, semanticIndices, if semanticIndices == null then {} else {semanticIndices.values}
      requires Valid()
      ensures IsView(a)
      ensures View(a) == if commandIndex.None? then [] else
                var indices := Written(Indices(), commandIndex.value, Limit());
                assert AllBelow(indices, |raw|); Texts(raw, indices)
    {
      var storage :=
        if semanticIndices != null then Indexed(raw, semanticIndices)
        else if commandIndex.None? then Direct([])
        else Direct(raw[commandIndex.value + 1..Limit()]);
      ArgumentView(storage, 0)
    }

    /** What is forwarded is everything behind the separator. */
    function ForwardedArguments(): (f: Option<seq<string>>)
      reads this, semanticIndices, if semanticIndices == null then {} else {semanticIndices.values}
      requires Valid()
      ensures f.Some? <==> forwardedIndex.Some?
      ensures f.Some? ==> Limit() < |raw| && raw == raw[..Limit() + 1] + f.value
    {
      if forwardedIndex.None? then None else Some(raw[forwardedIndex.value..])
    }

    /** The one pass. Its lazily written indices stand for exactly what the simple filter keeps. */
    static method CaptureArguments(raw: seq<string>, grammar: Grammar, start: Scan) returns (batch: InvocationBatch)
      ensures fresh(batch) && batch.Valid() && batch.raw == raw
      ensures var simple := Capture(grammar, raw, 0, start);
              if simple.refused then batch.refused else
                && !batch.refused && batch.commandIndex == simple.command && batch.forwardedIndex == simple.forwarded
                && (simple.command.Some? ==> Written(batch.Indices(), simple.command.value, batch.Limit()) == simple.kept)
    {
      hide OptionAt, Capture, Behind, Progress, AllBelow, Written, Range, IsOption, StartsWith;
      var scan, index := start, 0;
      var command: Option<nat>, indices: SemanticIndices? := None, null;
      var forwarded: Option<nat>, refused := None, false;
      ghost var simple := Capture(grammar, raw, 0, start);
      ProgressEnds(grammar, raw, start, None, None);
      while index < |raw|
        invariant index <= |raw| && (command.Some? ==> command.value < index)
        invariant indices != null ==>
                    && fresh(indices) && fresh(indices.values) && indices.Valid() && command.Some?
                    && AllBelow(indices.Contents(), |raw|)
        invariant forwarded.None? && !refused
        invariant simple == Progress(grammar, raw, index, scan, command,
                                     if indices == null then None else Some(indices.Contents()))
        decreases |raw| - index
      {
        ghost var written := if indices == null then None else Some(indices.Contents());
        ProgressSteps(grammar, raw, index, scan, command, written);
        if raw[index] == "--" {
          if command.Some? {
            if grammar.forwards(scan.mode, raw[command.value]) {
              forwarded := Some(index + 1);
            } else if indices != null {
              BelowWithRange(indices.Contents(), index, |raw|, |raw|);
              indices.PushRange(index, |raw|);
            }
            break;
          }
          scan := scan.(optionsClosed := true);
          index := index + 1;
          continue;
        }
        var parsed := OptionAt(grammar, raw, index, scan);
        match parsed
        case Takes(width, scan') =>
          if command.Some? && indices == null {
            indices := new SemanticIndices();
            NothingBelow(command.value + 1, index, |raw|);
            indices.PushRange(command.value + 1, index);
          }
          scan, index := scan', index + width;
        case NoOption =>
          if command.None? {
            if !scan.optionsClosed && IsOption(raw[index]) && !grammar.known(scan.mode, raw[index]) {
              refused := true;
              break;
            }
            command := Some(index);
          } else if indices != null {
            BelowWithOne(indices.Contents(), index, |raw|);
            indices.Push(index);
          }
          index := index + 1;
        case Refused(_) =>
          refused := true;
          break;
      }
      if index == |raw| { ProgressEnds(grammar, raw, scan, command, if indices == null then None else Some(indices.Contents())); }
      batch := new InvocationBatch(raw, grammar, indices, forwarded, command, refused);
    }
  }

  /** The simple filter from the middle of the pass, behind what has been kept. */
  ghost function Progress(grammar: Grammar, raw: seq<string>, index: nat, scan: Scan, command: Option<nat>,
      written: Option<seq<nat>>): Captured
    requires index <= |raw| && (command.Some? ==> command.value < index)
  {
    match command
    case None => Capture(grammar, raw, index, scan)
    case Some(c) =>
      Behind(grammar, raw, c, index, scan).(kept := Written(written, c, index) + Behind(grammar, raw, c, index, scan).kept)
  }

  /** One turn of the pass, as the filter sees it. */
  lemma ProgressSteps(grammar: Grammar, raw: seq<string>, index: nat, scan: Scan, command: Option<nat>, written: Option<seq<nat>>)
    requires index < |raw| && (command.Some? ==> command.value < index) && (command.None? ==> written.None?)
    ensures var here := Progress(grammar, raw, index, scan, command, written);
            if raw[index] == "--" then
              if command.None? then here == Progress(grammar, raw, index + 1, scan.(optionsClosed := true), None, None)
              else if grammar.forwards(scan.mode, raw[command.value]) then
                here == Captured(command, Written(written, command.value, index), Some(index + 1), false)
              else here == Captured(command,
                  Written(if written.Some? then Some(written.value + Range(index, |raw|)) else None, command.value, |raw|),
                                    None, false)
            else
              match OptionAt(grammar, raw, index, scan)
              case Refused(_) => here.refused
              case Takes(width, scan') =>
                here == Progress(grammar, raw, index + width, scan', command,
                                 if command.None? || written.Some? then written else Some(Range(command.value + 1, index)))
              case NoOption =>
                if command.Some? then
                  here == Progress(grammar, raw, index + 1, scan, command,
                                   if written.Some? then Some(written.value + [index]) else None)
                else if !scan.optionsClosed && IsOption(raw[index]) && !grammar.known(scan.mode, raw[index]) then here.refused
                else here == Progress(grammar, raw, index + 1, scan, Some(index), None)
  {
    hide OptionAt;
    if command.None? {
      var tail := Behind(grammar, raw, index, index + 1, scan).kept;
      assert Range(index + 1, index + 1) + tail == tail;
    } else {
      var c := command.value;
      assert Range(c + 1, index) + Range(index, |raw|) == Range(c + 1, |raw|);
      assert Range(c + 1, index) + [index] == Range(c + 1, index + 1);
      assert Written(written, c, index) + [] == Written(written, c, index);
      if OptionAt(grammar, raw, index, scan).NoOption? && raw[index] != "--" {
        KeepFirst(Written(written, c, index), index, Behind(grammar, raw, c, index + 1, scan));
      }
    }
  }

  lemma ProgressEnds(grammar: Grammar, raw: seq<string>, scan: Scan, command: Option<nat>, written: Option<seq<nat>>)
    requires command.Some? ==> command.value < |raw|
    ensures Progress(grammar, raw, |raw|, scan, command, written) ==
            Captured(command, if command.Some? then Written(written, command.value, |raw|) else [], None, false)
    ensures Progress(grammar, raw, 0, scan, None, None) == Capture(grammar, raw, 0, scan)
  {
    if command.Some? { assert Written(written, command.value, |raw|) + [] == Written(written, command.value, |raw|); }
  }

  lemma {:induction false} KeptIsBehind(grammar: Grammar, raw: seq<string>, command: nat, i: nat, scan: Scan)
    requires command < i <= |raw|
    ensures var r := Behind(grammar, raw, command, i, scan);
            && (forall k | 0 <= k < |r.kept| :: i <= r.kept[k] < |raw|)
            && (forall k, l | 0 <= k < l < |r.kept| :: r.kept[k] < r.kept[l])
            && (r.forwarded.Some? ==>
                  && i < r.forwarded.value <= |raw| && raw[r.forwarded.value - 1] == "--"
                  && forall k | 0 <= k < |r.kept| :: r.kept[k] < r.forwarded.value - 1 && raw[r.kept[k]] != "--")
    decreases |raw| - i
  {
    hide OptionAt;
    if i < |raw| && raw[i] != "--" {
      match OptionAt(grammar, raw, i, scan)
      case Takes(width, scan') => KeptIsBehind(grammar, raw, command, i + width, scan');
      case NoOption => KeptIsBehind(grammar, raw, command, i + 1, scan);
      case Refused(_) =>
    }
  }
}
