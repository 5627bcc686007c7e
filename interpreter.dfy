/**
 * The command interpreter: a typed line becomes a command name, the raw
 * argument text and the argument list; each command's argument count is
 * checked; the result is the call the interpreter makes, or the diagnostic
 * it prints instead.
 */
module Interpreter {
  import opened Wrappers
  import opened JavaText

  /** The diagnostic of `wrongNumberArguments`. */
  datatype Diagnostic =
    | TooMany(have: int, expected: int)
    | TooFew(have: int, expected: int)
    | InternalError

  datatype ArityCheck = Accepted | Mismatch(diagnostic: Diagnostic)

  /** What one input line makes the client do. */
  datatype Action =
    | NoAction                                  // an empty line
    | HelpCmd
    | CloseCmd
    | ConnectCmd(host: JString, port: JString)
    | SendCmd(typeName: JString, data: JString)
    | ReadCmd(typeName: JString)
    | GetTimeoutCmd
    | SetTimeoutCmd(value: JString)
    | StatusCmd
    | PingCmd
    | WrongArity(diagnostic: Diagnostic)
    | TimeoutUsage                               // "Expected 0 arguments ... 1 argument ..."
    | UnknownCommand(name: JString)
    | SendMissingData                            // `substring(0, -1)` throws and nothing catches it

  /** `arrayIsEmpty`: None stands for a null array. */
  function ArrayIsEmpty(arr: Option<seq<JString>>): (r: bool)
    ensures r <==> arr.None? || |arr.value| == 0
  {
    match arr
    case None => true
    case Some(a) =>
      if |a| == 0 then true
      // the loop returns at its first element, since `arr` is known to be non-null
      else false
  }

  /** `hasArguments`. */
  function HasArguments(args: seq<JString>, number: int): (r: bool)
    ensures r <==> |args| == number
  {
    if ArrayIsEmpty(Some(args)) then number == 0 else |args| == number
  }

  /** `wrongNumberArguments`. */
  function WrongNumberArguments(have: int, expected: int): (d: Diagnostic)
    ensures d.TooMany? <==> have > expected
    ensures d.TooFew? <==> have < expected
    ensures d.InternalError? <==> have == expected
    ensures !d.InternalError? ==> d.have == have && d.expected == expected
  {
    if have > expected then TooMany(have, expected)
    else if have < expected then TooFew(have, expected)
    else InternalError
  }

  /** `expectArguments`: accepts the right count, and otherwise never reports an internal error. */
  function ExpectArguments(args: seq<JString>, number: int): (r: ArityCheck)
    ensures r.Accepted? <==> |args| == number
    ensures r.Mismatch? ==> r.diagnostic == WrongNumberArguments(|args|, number)
    ensures r.Mismatch? ==> (r.diagnostic.TooMany? <==> |args| > number) && !r.diagnostic.InternalError?
  {
    if HasArguments(args, number) then Accepted else Mismatch(WrongNumberArguments(|args|, number))
  }

  /** `processCommand`: the case-insensitive chain of command names. */
  function ProcessCommand(command: JString, rawArgs: JString, args: seq<JString>): (a: Action)
    ensures a != NoAction
  {
    if MatchesKeyword(command, Lit("help")) then HelpCmd
    else if MatchesKeyword(command, Lit("close")) then
      (match ExpectArguments(args, 0)
       case Accepted => CloseCmd
       case Mismatch(d) => WrongArity(d))
    else if MatchesKeyword(command, Lit("connect")) then
      (match ExpectArguments(args, 2)
       case Accepted => ConnectCmd(args[0], args[1])
       case Mismatch(d) => WrongArity(d))
    else if MatchesKeyword(command, Lit("send")) then
      var loc := IndexOf(rawArgs, Space);
      if loc < 0 then SendMissingData else SendCmd(rawArgs[..loc], rawArgs[loc + 1..])
    else if MatchesKeyword(command, Lit("read")) then
      (match ExpectArguments(args, 1)
       case Accepted => ReadCmd(args[0])
       case Mismatch(d) => WrongArity(d))
    else if MatchesKeyword(command, Lit("timeout")) then
      if HasArguments(args, 0) then GetTimeoutCmd
      else if HasArguments(args, 1) then SetTimeoutCmd(args[0])
      else TimeoutUsage
    else if MatchesKeyword(command, Lit("status")) then
      (match ExpectArguments(args, 0)
       case Accepted => StatusCmd
       case Mismatch(d) => WrongArity(d))
    else if MatchesKeyword(command, Lit("ping")) then
      (match ExpectArguments(args, 0)
       case Accepted => PingCmd
       case Mismatch(d) => WrongArity(d))
    else UnknownCommand(command)
  }

  /** `processInput`: split at the first space; a line without one is a command alone, trimmed. */
  function ProcessInput(line: JString): (a: Action)
    ensures a == NoAction <==> line == []
  {
    var spaceIndex := IndexOf(line, Space);
    if spaceIndex == -1 then
      if |line| == 0 then NoAction else ProcessCommand(Trim(line), [], [])
    else
      var rawArgs := line[spaceIndex + 1..];
      ProcessCommand(line[..spaceIndex], rawArgs, JavaSplit(rawArgs))
  }

  /** A name that matches one keyword matches no keyword that differs from it in length or first letter. */
  lemma Excludes(command: JString, kw: JString, other: JString)
    requires MatchesKeyword(command, kw)
    requires |kw| != |other| || (kw != [] && other != [] && kw[0] != other[0])
    ensures !MatchesKeyword(command, other)
  {
    if MatchesKeyword(command, other) {
      KeywordMatchUnique(command, kw, other);
    }
  }

  // ---------------------------------------------------------------------
  // Line splitting.

  /** Only the empty line does nothing. */
  lemma EmptyLineOnly(line: JString)
    ensures ProcessInput(line) == NoAction <==> line == []
  {
  }

  /** A line without a space is its trimmed self as a command, with no arguments. */
  lemma LineWithoutSpace(line: JString)
    requires Space !in line && line != []
    ensures ProcessInput(line) == ProcessCommand(Trim(line), [], [])
  {
  }

  /** Otherwise the command is the text before the first space and the arguments are the rest, split. */
  lemma LineWithSpace(command: JString, rawArgs: JString)
    requires Space !in command
    ensures ProcessInput(command + [Space] + rawArgs) == ProcessCommand(command, rawArgs, JavaSplit(rawArgs))
  {
    var line := command + [Space] + rawArgs;
    assert line[|command|] == Space;
    assert line[..|command|] == command;
    assert IndexOf(line, Space) == |command|;
    assert line[|command| + 1..] == rawArgs;
  }

  /** A command followed by single-space-separated words receives exactly those words. */
  lemma LineOfWords(command: JString, words: seq<JString>)
    requires Space !in command
    requires words != [] && forall k :: 0 <= k < |words| ==> Space !in words[k] && words[k] != []
    ensures ProcessInput(command + [Space] + Join(words)) == ProcessCommand(command, Join(words), words)
  {
    LineWithSpace(command, Join(words));
    JavaSplitJoin(words);
  }

  /** A command followed by a lone space receives one empty argument, not none. */
  lemma TrailingSpaceIsOneArgument(command: JString)
    requires Space !in command
    ensures ProcessInput(command + [Space]) == ProcessCommand(command, [], [[]])
  {
    assert command + [Space] == command + [Space] + [];
    LineWithSpace(command, []);
  }

  /** So `close ` is refused as one argument too many. */
  lemma CloseWithTrailingSpace(command: JString)
    requires MatchesKeyword(command, Lit("close")) && Space !in command
    ensures ProcessInput(command + [Space]) == WrongArity(TooMany(1, 0))
  {
    TrailingSpaceIsOneArgument(command);
    FixedArityCommands(command, [], [[]]);
  }

  // ---------------------------------------------------------------------
  // Dispatch.

  /** `help` is dispatched whatever follows it. */
  lemma HelpTakesAnyArguments(command: JString, rawArgs: JString, args: seq<JString>)
    requires MatchesKeyword(command, Lit("help"))
    ensures ProcessCommand(command, rawArgs, args) == HelpCmd
  {
  }

  /** The commands with a fixed argument count run exactly when the count matches. */
  lemma FixedArityCommands(command: JString, rawArgs: JString, args: seq<JString>)
    ensures MatchesKeyword(command, Lit("close")) ==>
      ProcessCommand(command, rawArgs, args) ==
        if |args| == 0 then CloseCmd else WrongArity(WrongNumberArguments(|args|, 0))
    ensures MatchesKeyword(command, Lit("connect")) ==>
      ProcessCommand(command, rawArgs, args) ==
        if |args| == 2 then ConnectCmd(args[0], args[1]) else WrongArity(WrongNumberArguments(|args|, 2))
    ensures MatchesKeyword(command, Lit("read")) ==>
      ProcessCommand(command, rawArgs, args) ==
        if |args| == 1 then ReadCmd(args[0]) else WrongArity(WrongNumberArguments(|args|, 1))
    ensures MatchesKeyword(command, Lit("status")) ==>
      ProcessCommand(command, rawArgs, args) ==
        if |args| == 0 then StatusCmd else WrongArity(WrongNumberArguments(|args|, 0))
    ensures MatchesKeyword(command, Lit("ping")) ==>
      ProcessCommand(command, rawArgs, args) ==
        if |args| == 0 then PingCmd else WrongArity(WrongNumberArguments(|args|, 0))
  {
    if MatchesKeyword(command, Lit("close")) {
      Excludes(command, Lit("close"), Lit("help"));
    } else if MatchesKeyword(command, Lit("connect")) {
      Excludes(command, Lit("connect"), Lit("help"));
      Excludes(command, Lit("connect"), Lit("close"));
    } else if MatchesKeyword(command, Lit("read")) {
      Excludes(command, Lit("read"), Lit("help"));
      Excludes(command, Lit("read"), Lit("close"));
      Excludes(command, Lit("read"), Lit("connect"));
      Excludes(command, Lit("read"), Lit("send"));
    } else if MatchesKeyword(command, Lit("status")) {
      Excludes(command, Lit("status"), Lit("help"));
      Excludes(command, Lit("status"), Lit("close"));
      Excludes(command, Lit("status"), Lit("connect"));
      Excludes(command, Lit("status"), Lit("send"));
      Excludes(command, Lit("status"), Lit("read"));
      Excludes(command, Lit("status"), Lit("timeout"));
    } else if MatchesKeyword(command, Lit("ping")) {
      Excludes(command, Lit("ping"), Lit("help"));
      Excludes(command, Lit("ping"), Lit("close"));
      Excludes(command, Lit("ping"), Lit("connect"));
      Excludes(command, Lit("ping"), Lit("send"));
      Excludes(command, Lit("ping"), Lit("read"));
      Excludes(command, Lit("ping"), Lit("timeout"));
      Excludes(command, Lit("ping"), Lit("status"));
    }
  }

  /** `timeout` reads with no argument, sets with one, and only complains otherwise. */
  lemma TimeoutDispatch(command: JString, rawArgs: JString, args: seq<JString>)
    requires MatchesKeyword(command, Lit("timeout"))
    ensures |args| == 0 ==> ProcessCommand(command, rawArgs, args) == GetTimeoutCmd
    ensures |args| == 1 ==> ProcessCommand(command, rawArgs, args) == SetTimeoutCmd(args[0])
    ensures |args| > 1 ==> ProcessCommand(command, rawArgs, args) == TimeoutUsage
  {
    Excludes(command, Lit("timeout"), Lit("help"));
    Excludes(command, Lit("timeout"), Lit("close"));
    Excludes(command, Lit("timeout"), Lit("connect"));
    Excludes(command, Lit("timeout"), Lit("send"));
    Excludes(command, Lit("timeout"), Lit("read"));
  }

  /** `send` takes its type up to the first space and keeps the rest verbatim, spaces included. */
  lemma SendKeepsPayload(command: JString, typeName: JString, data: JString, args: seq<JString>)
    requires MatchesKeyword(command, Lit("send")) && Space !in typeName
    ensures ProcessCommand(command, typeName + [Space] + data, args) == SendCmd(typeName, data)
  {
    Excludes(command, Lit("send"), Lit("help"));
    Excludes(command, Lit("send"), Lit("close"));
    Excludes(command, Lit("send"), Lit("connect"));
    var raw := typeName + [Space] + data;
    assert raw[|typeName|] == Space;
    assert raw[..|typeName|] == typeName;
    assert IndexOf(raw, Space) == |typeName|;
    assert raw[|typeName| + 1..] == data;
  }

  /** So a whole `send` line delivers its data untouched. */
  lemma SendLine(command: JString, typeName: JString, data: JString)
    requires MatchesKeyword(command, Lit("send")) && Space !in command && Space !in typeName
    ensures ProcessInput(command + [Space] + typeName + [Space] + data) == SendCmd(typeName, data)
  {
    assert command + [Space] + typeName + [Space] + data == command + [Space] + (typeName + [Space] + data);
    LineWithSpace(command, typeName + [Space] + data);
    SendKeepsPayload(command, typeName, data, JavaSplit(typeName + [Space] + data));
  }

  /** `send` with no space after its type ends the program instead of sending. */
  lemma SendWithoutData(command: JString, rawArgs: JString, args: seq<JString>)
    requires MatchesKeyword(command, Lit("send")) && Space !in rawArgs
    ensures ProcessCommand(command, rawArgs, args) == SendMissingData
  {
    Excludes(command, Lit("send"), Lit("help"));
    Excludes(command, Lit("send"), Lit("close"));
    Excludes(command, Lit("send"), Lit("connect"));
  }

  /** An unrecognised name is reported and nothing runs. */
  lemma UnknownNames(command: JString, rawArgs: JString, args: seq<JString>)
    requires forall kw :: kw in KnownCommands() ==> !MatchesKeyword(command, kw)
    ensures ProcessCommand(command, rawArgs, args) == UnknownCommand(command)
  {
    assert Lit("help") in KnownCommands();
    assert Lit("close") in KnownCommands();
    assert Lit("connect") in KnownCommands();
    assert Lit("send") in KnownCommands();
    assert Lit("read") in KnownCommands();
    assert Lit("timeout") in KnownCommands();
    assert Lit("status") in KnownCommands();
    assert Lit("ping") in KnownCommands();
  }

  function KnownCommands(): seq<JString> {
    [Lit("help"), Lit("close"), Lit("connect"), Lit("send"), Lit("read"), Lit("timeout"), Lit("status"), Lit("ping")]
  }
}
