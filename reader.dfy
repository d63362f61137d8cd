/** RegFileReader.Read: a line-by-line state machine from the lines of a
    .reg file to the subkey commands it describes. The spec functions here
    give the meaning of one line; the class below runs them over a
    TextReader, building the command objects. */
module RegFileReading {
  import opened RegTypes
  import opened Strings
  import opened RegFileExtensions
  import opened RegistryCommands

  /** The first line every file must have. */
  const Signature: string := "Windows Registry Editor Version 5.00"

  /** The state of a new RegistryValueCommand. */
  const NewValue: ValueCmd := ValueCmd("", false, false, DefaultInfo, Null)

  /** A value whose text goes on over the following lines: the command as
      CreateCommand made it, its type token (currentKindId), its descriptor
      (currentValueInfo) and the text collected so far (valueBuffer). */
  datatype Pending = Pending(command: ValueCmd, kindId: string, info: RegValueInfo, buffer: string)

  /** Read's locals between two lines: the location of the last line read,
      the commands so far, whether currentSubKey is set (it is then the
      last of them) and the value being continued, if any. */
  datatype ReaderState = ReaderState(location: SourceLocation, result: seq<SubKeyCmd>, open: bool, pending: Option<Pending>)

  /** currentSubKey is only ever set to a command already in the result. */
  predicate Valid(st: ReaderState)
  {
    st.open ==> |st.result| > 0
  }

  /** The locals before the first line: line 0, nothing read. */
  function Start(source: string): ReaderState
  {
    ReaderState(SourceLocation(source, 0), [], false, Nothing)
  }

  /** currentSubKey.Commands.Add(command). */
  function AddToLast(ks: seq<SubKeyCmd>, c: ValueCmd): seq<SubKeyCmd>
    requires |ks| > 0
  {
    var last := ks[|ks| - 1];
    ks[..|ks| - 1] + [last.(commands := last.commands + [c])]
  }

  /** What a value line or a continuation line does with its command: add
      it to the current subkey, or hold it until the next line. */
  datatype ValueAction = Append(command: ValueCmd) | Hold(pending: Pending)

  // ------------------------------------------------------------ header

  /** A header line after trimming both ends: "[" and "]" around an
      optional "-" and a HIVE\sub\key path, as a new subkey command. */
  function ParseHeader(loc: SourceLocation, data: string): (r: Result<SubKeyCmd>)
    requires |data| > 0 && data[0] == '['
    ensures r.Err? ==> r.error.IOException? && r.error.location == loc
    ensures r.Ok? ==> r.value.commands == [] && !r.value.hive.Undefined? && !IsBlank(r.value.subKey)
  {
    if data[|data| - 1] != ']' then Err(IOException(loc, MissingClosingBracket))
    else
      var inner := data[1..|data| - 1];
      if IsBlank(inner) then Err(IOException(loc, MissingSubkeyName))
      else
        var remove := inner[0] == '-';
        var path := if remove then inner[1..] else inner;
        match SplitIntoHiveAndSubKey(path, loc)
        case Err(e) => Err(e)
        case Ok(split) => Ok(SubKeyCmd(split.0, split.1, remove, []))
  }

  // ------------------------------------------------------ value lines

  /** CreateCommand: "@" is the default value; a quoted name runs to the
      next quote and must not be empty (SetName raises); anything else is
      rejected. With the command comes the rest of the line. */
  function ParseValueName(loc: SourceLocation, data: string): (r: Result<(ValueCmd, string)>)
    requires |data| > 0
    ensures r.Err? && r.error.IOException? ==> r.error.location == loc
    ensures r.Ok? ==> var v := r.value.0;
      !v.remove && v.info == DefaultInfo && v.value == Null && (v.isDefault <==> v.name == "")
      && (v.isDefault <==> data[0] == '@') && |r.value.1| < |data|
  {
    if data[0] == '@' then Ok((NewValue.(isDefault := true, name := ""), data[1..]))
    else if data[0] == '"' then
      var d := data[1..];
      var e := IndexOf(d, '"');
      if e == -1 then Err(IOException(loc, MissingClosingQuoteInKey))
      else if e == 0 then Err(ArgumentException)
      else Ok((NewValue.(name := d[..e]), d[e + 1..]))
    else Err(IOException(loc, InvalidKeySpecification))
  }

  /** GetNativeValue on a payload, then SetValue on the command. */
  function Decode(loc: SourceLocation, command: ValueCmd, info: RegValueInfo, payload: string): (r: Result<ValueAction>)
    ensures r.Err? && r.error.IOException? ==> r.error.location == loc
    ensures r.Ok? ==> r.value.Append? && r.value.command.info == info && r.value.command.name == command.name
  {
    match NativeValue(info, payload, loc)
    case Err(e) => Err(e)
    case Ok(value) => Ok(Append(command.(info := info, value := value)))
  }

  /** A quoted string: the text up to the last quote, unescaped. A lone
      opening quote makes the substring length negative. */
  function ParseQuoted(loc: SourceLocation, command: ValueCmd, d: string): (r: Result<ValueAction>)
    requires |d| > 0 && d[0] == '"'
    ensures r.Err? && r.error.IOException? ==> r.error.location == loc
  {
    var q := LastIndexOf(d, '"');
    if q == 0 then Err(ArgumentOutOfRangeException)
    else Decode(loc, command, RegValueInfo(ValueKind.String, ValueFormat.String), d[1..q])
  }

  /** A type token up to the first ":", then a payload that is decoded at
      once or, ending in a backslash, held for the following lines. */
  function ParseTyped(loc: SourceLocation, command: ValueCmd, d: string): (r: Result<ValueAction>)
    requires !IsBlank(d)
    ensures r.Err? && r.error.IOException? ==> r.error.location == loc
  {
    var c := IndexOf(d, ':');
    if c == -1 then Err(IOException(loc, MissingColon))
    else
      var kindId := d[..c];
      var info := GetValueInfo(kindId);
      if info.kind == ValueKind.Unknown then Err(IOException(loc, CannotProcessValueType))
      else
        var t := TrimEnd(d);
        if t[|t| - 1] == '\\' then Ok(Hold(Pending(command, kindId, info, t[..|t| - 1])))
        else Decode(loc, command, info, t[|kindId| + 1..])
  }

  /** What follows "=" once it is skipped and the text is left-trimmed: "-"
      for a removal, a quoted string, or a type token, ":" and a payload
      that may go on over further lines. */
  function ParseValueText(loc: SourceLocation, command: ValueCmd, d: string): (r: Result<ValueAction>)
    ensures r.Err? && r.error.IOException? ==> r.error.location == loc
  {
    if IsBlank(d) then Err(IOException(loc, ExpectedValue))
    else if d[0] == '-' then Ok(Append(command.(remove := true)))
    else if d[0] == '"' then ParseQuoted(loc, command, d)
    else ParseTyped(loc, command, d)
  }

  /** A value line: CreateCommand, then an "=" anywhere in the rest, then
      exactly one UTF-16 code unit skipped before the value text. When the
      first character after the name is supplementary, that skip leaves its
      low surrogate at the front, which is neither "-" nor a quote and heads
      the type token; as no token starts with it, the line fails. */
  function ParseValue(loc: SourceLocation, data: string): (r: Result<ValueAction>)
    requires |data| > 0
    ensures r.Err? && r.error.IOException? ==> r.error.location == loc
  {
    match ParseValueName(loc, data)
    case Err(e) => Err(e)
    case Ok(named) =>
      var rest := named.1;
      if '=' !in rest then Err(IOException(loc, ExpectedEquals))
      else if IsSupplementary(rest[0]) then
        Err(IOException(loc, if IndexOf(rest[1..], ':') == -1 then MissingColon else CannotProcessValueType))
      else ParseValueText(loc, named.0, TrimStart(rest[1..]))
  }

  /** A continuation line after trimming both ends: a trailing backslash
      adds the text before it to the buffer; otherwise the buffer and the
      line complete the value, decoded after "token:". */
  function ParseContinuation(loc: SourceLocation, p: Pending, data: string): (r: Result<ValueAction>)
    requires |data| > 0
    ensures r.Err? && r.error.IOException? ==> r.error.location == loc
    ensures r.Ok? && r.value.Hold? ==> r.value.pending == p.(buffer := p.buffer + data[..|data| - 1])
  {
    if data[|data| - 1] == '\\' then Ok(Hold(p.(buffer := p.buffer + data[..|data| - 1])))
    else
      var text := p.buffer + data;
      if |text| < |p.kindId| + 1 then Err(ArgumentOutOfRangeException)
      else Decode(loc, p.command, p.info, text[|p.kindId| + 1..])
  }

  // ------------------------------------------------------------ a line

  /** What a value or continuation action does to the locals. */
  function Apply(st: ReaderState, a: ValueAction): (r: Result<ReaderState>)
    requires Valid(st)
    ensures r.Ok? ==> Valid(r.value) && r.value.location == st.location && r.value.open == st.open
    ensures r.Err? ==> r.error == NullReferenceException
  {
    match a
    case Hold(p) => Ok(st.(pending := Some(p)))
    case Append(c) =>
      if !st.open then Err(NullReferenceException)
      else Ok(st.(result := AddToLast(st.result, c), pending := Nothing))
  }

  function ApplyResult(st: ReaderState, r: Result<ValueAction>): Result<ReaderState>
    requires Valid(st)
  {
    match r
    case Err(e) => Err(e)
    case Ok(a) => Apply(st, a)
  }

  /** A header line, trimmed at both ends: the new subkey is appended
      and becomes current. */
  function HeaderStep(st: ReaderState, data: string): (r: Result<ReaderState>)
    requires Valid(st) && |data| > 0 && data[0] == '['
    ensures r.Ok? ==> Valid(r.value) && r.value.location == st.location
    ensures r.Err? ==> r.error.IOException? && r.error.location == st.location
  {
    match ParseHeader(st.location, data)
    case Err(e) => Err(e)
    case Ok(k) => Ok(st.(result := st.result + [k], open := true))
  }

  /** A line that is not blank, left-trimmed: a comment, a header, the
      continuation of a held value, a value line, or an error when no
      subkey is current. */
  function DispatchData(st: ReaderState, data: string): (r: Result<ReaderState>)
    requires Valid(st) && |data| > 0 && !IsWhiteSpace(data[0])
    ensures r.Ok? ==> Valid(r.value) && r.value.location == st.location
    ensures r.Err? && r.error.IOException? ==> r.error.location == st.location
  {
    if data[0] == ';' then Ok(st)
    else if data[0] == '[' then HeaderStep(st, TrimEnd(data))
    else DispatchValue(st, data)
  }

  /** A line that is neither a comment nor a header: it goes on a held
      value, or starts a value in the open subkey. */
  function DispatchValue(st: ReaderState, data: string): (r: Result<ReaderState>)
    requires Valid(st) && |data| > 0 && !IsWhiteSpace(data[0])
    ensures r.Ok? ==> Valid(r.value) && r.value.location == st.location
    ensures r.Err? && r.error.IOException? ==> r.error.location == st.location
  {
    if st.pending.Some? then ContinueValue(st, data)
    else if st.open then StartValue(st, data)
    else Err(IOException(st.location, ExpectedQuote))
  }

  /** A line while a value is held: its trimmed text goes on that value. */
  function ContinueValue(st: ReaderState, data: string): (r: Result<ReaderState>)
    requires Valid(st) && st.pending.Some? && |data| > 0 && !IsWhiteSpace(data[0])
    ensures r.Ok? ==> Valid(r.value) && r.value.location == st.location
    ensures r.Err? && r.error.IOException? ==> r.error.location == st.location
  {
    ApplyResult(st, ParseContinuation(st.location, st.pending.value, Trim(data)))
  }

  /** A line in an open subkey with nothing held: a new value. */
  function StartValue(st: ReaderState, data: string): (r: Result<ReaderState>)
    requires Valid(st) && |data| > 0
    ensures r.Ok? ==> Valid(r.value) && r.value.location == st.location
    ensures r.Err? && r.error.IOException? ==> r.error.location == st.location
  {
    ApplyResult(st, ParseValue(st.location, data))
  }

  /** One line, with the location already advanced to it. */
  function Dispatch(st: ReaderState, line: string): (r: Result<ReaderState>)
    requires Valid(st)
    ensures r.Ok? ==> Valid(r.value) && r.value.location == st.location
    ensures r.Err? && r.error.IOException? ==> r.error.location == st.location
  {
    var loc := st.location;
    if loc.lineNumber == 1 then
      if line == Signature then Ok(st) else Err(IOException(loc, ExpectedSignature))
    else if loc.lineNumber == 2 then
      if IsBlank(line) then Ok(st) else Err(IOException(loc, ExpectedBlankLine))
    else if IsBlank(line) then Ok(st.(open := false))
    else DispatchData(st, TrimStart(line))
  }

  /** The catch blocks of Read: an IOException passes through, any other
      exception becomes an IOException at the current line. */
  function Located<T>(loc: SourceLocation, r: Result<T>): (q: Result<T>)
    ensures q.Err? <==> r.Err?
    ensures q.Ok? ==> q == r
    ensures q.Err? ==> q.error.IOException? && (r.error.IOException? ==> q.error == r.error)
    ensures q.Err? && !r.error.IOException? ==> q.error == IOException(loc, Unexpected)
  {
    if r.Err? && !r.error.IOException? then Err(IOException(loc, Unexpected)) else r
  }

  /** One pass of Read's loop: the line counter goes up, then the line is
      handled; every failure is an IOException at that line. */
  function Step(st: ReaderState, line: string): (r: Result<ReaderState>)
    requires Valid(st)
    ensures r.Ok? ==> Valid(r.value) && r.value.location == st.location.IncrementLineNumber()
    ensures r.Err? ==> r.error.IOException? && r.error.location == st.location.IncrementLineNumber()
  {
    var loc := st.location.IncrementLineNumber();
    Located(loc, Dispatch(st.(location := loc), line))
  }

  /** The remaining passes of Read's loop, the first failure ending it. */
  function Steps(st: ReaderState, lines: seq<string>): (r: Result<ReaderState>)
    requires Valid(st)
    ensures r.Ok? ==> Valid(r.value)
    decreases |lines|, 1
  {
    if lines == [] then Ok(st) else StepFirst(st, lines)
  }

  /** The pass over the first of the remaining lines, then the rest. */
  function StepFirst(st: ReaderState, lines: seq<string>): (r: Result<ReaderState>)
    requires Valid(st) && lines != []
    ensures r.Ok? ==> Valid(r.value)
    decreases |lines|, 0
  {
    match Step(st, lines[0])
    case Err(e) => Err(e)
    case Ok(next) => Steps(next, lines[1..])
  }

  /** Steps over one more line, in terms of what Dispatch makes of it. */
  lemma StepsLine(st: ReaderState, lines: seq<string>, loc: SourceLocation, d: Result<ReaderState>)
    requires Valid(st) && lines != [] && loc == st.location.IncrementLineNumber()
    requires d == Dispatch(st.(location := loc), lines[0])
    ensures d.Ok? ==> Valid(d.value) && Steps(st, lines) == Steps(d.value, lines[1..])
    ensures d.Err? ==> Steps(st, lines) == Err(Located(loc, d).error)
  {
  }

  /** Read: the commands of all lines, or the first failure. A value still
      held at the end is not added to any subkey. */
  function Parse(source: string, lines: seq<string>): Result<seq<SubKeyCmd>>
  {
    match Steps(Start(source), lines)
    case Err(e) => Err(e)
    case Ok(st) => Ok(st.result)
  }

  // ------------------------------------------------- the imperative reader

  /** The objects of Read's commands so far. */
  function Footprint(result: seq<RegistrySubKeyCommand>): set<RegistryValueCommand>
    reads result
  {
    set i, j | 0 <= i < |result| && 0 <= j < |result[i].Commands| :: result[i].Commands[j]
  }

  /** Read's locals: the result list, currentSubKey, currentCommand,
      valueBuffer, currentKindId and currentValueInfo. */
  datatype Locals = Locals(result: seq<RegistrySubKeyCommand>, currentSubKey: RegistrySubKeyCommand?,
                           currentCommand: RegistryValueCommand?, valueBuffer: StringBuilder?,
                           kindId: string, info: RegValueInfo)

  /** The locals before the first line. */
  const NoLocals: Locals := Locals([], null, null, null, "", DefaultInfo)

  /** Read's locals as a ReaderState. */
  function State(loc: SourceLocation, l: Locals): ReaderState
    reads l.result, Footprint(l.result), l.currentCommand, l.valueBuffer
  {
    ReaderState(loc, SubKeyModels(l.result), l.currentSubKey != null,
      if l.currentCommand != null && l.valueBuffer != null
      then Some(Pending(l.currentCommand.Model(), l.kindId, l.info, l.valueBuffer.Content))
      else Nothing)
  }

  /** How Read's objects hang together: currentSubKey is the last command
      read, which no earlier entry aliases, and a held command belongs to
      no subkey yet. */
  predicate Coupled(l: Locals)
    reads l.result
  {
    && (l.currentSubKey != null ==> |l.result| > 0 && l.currentSubKey == l.result[|l.result| - 1])
    && (forall j :: 0 <= j < |l.result| - 1 ==> l.result[j] != l.result[|l.result| - 1])
    && (l.currentCommand != null ==> l.valueBuffer != null && l.currentCommand !in Footprint(l.result))
  }

  /** The locals l after a line whose outcome is r stand for d. */
  predicate Stands(r: Outcome, loc: SourceLocation, l: Locals, d: Result<ReaderState>)
    reads l.result, Footprint(l.result), l.currentCommand, l.valueBuffer
  {
    && (r.Pass? <==> d.Ok?)
    && (r.Fail? ==> r.error == d.error)
    && (r.Pass? ==> Coupled(l) && State(loc, l) == d.value)
  }

  /** Commands.Add(command) on one subkey command: its model gains the
      command's model at the end. */
  method AppendCommand(key: RegistrySubKeyCommand, command: RegistryValueCommand)
    modifies key
    ensures key.Commands == old(key.Commands) + [command]
    ensures key.Model() == old(key.Model()).(commands := old(key.Model()).commands + [command.Model()])
  {
    ghost var cs := key.Commands;
    ghost var models := ValueModels(cs);
    key.Commands := key.Commands + [command];
    assert ValueModels(cs) == models;
    assert ValueModels(key.Commands) == models + [command.Model()] by {
      assert (cs + [command])[..|cs|] == cs;
    }
  }

  /** currentSubKey.Commands.Add(command): only the last model changes. */
  method AddCommand(result: seq<RegistrySubKeyCommand>, key: RegistrySubKeyCommand, command: RegistryValueCommand)
    requires |result| > 0 && key == result[|result| - 1]
    requires forall j :: 0 <= j < |result| - 1 ==> result[j] != key
    modifies key
    ensures key.Commands == old(key.Commands) + [command]
    ensures SubKeyModels(result) == AddToLast(old(SubKeyModels(result)), command.Model())
  {
    ghost var init := result[..|result| - 1];
    ghost var before := SubKeyModels(init);
    ghost var last := key.Model();
    assert SubKeyModels(result) == before + [last];
    AppendCommand(key, command);
    assert SubKeyModels(init) == before;
    assert SubKeyModels(result) == before + [key.Model()];
  }

  /** The header branch of Read: a new subkey command for a header line
      whose ends are trimmed. */
  method ReadHeader(loc: SourceLocation, data: string) returns (r: Outcome, key: RegistrySubKeyCommand?)
    requires |data| > 0 && data[0] == '['
    ensures r.Pass? <==> ParseHeader(loc, data).Ok?
    ensures r.Fail? ==> r.error == ParseHeader(loc, data).error
    ensures r.Pass? ==> key != null && fresh(key) && key.Commands == [] && key.Model() == ParseHeader(loc, data).value
  {
    if data[|data| - 1] != ']' {
      return Fail(IOException(loc, MissingClosingBracket)), null;
    }
    var subkey := data[1..|data| - 1];
    if IsBlank(subkey) {
      return Fail(IOException(loc, MissingSubkeyName)), null;
    }
    key := new RegistrySubKeyCommand();
    key.Commands := [];
    if subkey[0] == '-' {
      subkey := subkey[1..];
      key.Remove := true;
    }
    var split := SplitIntoHiveAndSubKey(subkey, loc);
    if split.Err? {
      return Fail(split.error), null;
    }
    key.SubKey := split.value.1;
    key.Hive := split.value.0;
    r := Pass;
  }

  /** CreateCommand: a new value command for the name at the start of
      data, and the rest of data after it. */
  method CreateCommand(loc: SourceLocation, data: string) returns (r: Outcome, command: RegistryValueCommand?, rest: string)
    requires |data| > 0
    ensures r.Pass? <==> ParseValueName(loc, data).Ok?
    ensures r.Fail? ==> r.error == ParseValueName(loc, data).error
    ensures r.Pass? ==> command != null && fresh(command) && (command.Model(), rest) == ParseValueName(loc, data).value
  {
    if data[0] == '@' {
      command := new RegistryValueCommand();
      command.SetDefault();
      return Pass, command, data[1..];
    } else if data[0] == '"' {
      command := new RegistryValueCommand();
      var d := data[1..];
      var endKey := IndexOf(d, '"');
      if endKey == -1 {
        return Fail(IOException(loc, MissingClosingQuoteInKey)), null, "";
      }
      var named := command.SetName(Some(d[..endKey]));
      if named.Fail? {
        return named, null, "";
      }
      return Pass, command, d[endKey + 1..];
    } else {
      return Fail(IOException(loc, InvalidKeySpecification)), null, "";
    }
  }

  /** GetNativeValue, then SetValue when it succeeds. */
  method DecodeValue(loc: SourceLocation, command: RegistryValueCommand, info: RegValueInfo, payload: string)
      returns (r: Outcome)
    modifies command
    ensures var a := Decode(loc, old(command.Model()), info, payload);
      && (r.Pass? <==> a.Ok?)
      && (r.Fail? ==> r.error == a.error && command.Model() == old(command.Model()))
      && (r.Pass? ==> command.Model() == a.value.command)
  {
    var value := GetNativeValue(info, payload, loc);
    if value.Err? {
      return Fail(value.error);
    }
    command.SetValue(info, value.value);
    r := Pass;
  }

  /** The quoted-string branch of the value text. */
  method ReadQuoted(loc: SourceLocation, command: RegistryValueCommand, d: string) returns (r: Outcome)
    requires |d| > 0 && d[0] == '"'
    modifies command
    ensures var a := ParseQuoted(loc, old(command.Model()), d);
      && (r.Pass? <==> a.Ok?)
      && (r.Fail? ==> r.error == a.error)
      && (r.Pass? ==> a.value.Append? && command.Model() == a.value.command)
  {
    var pos := LastIndexOf(d, '"');
    if pos == 0 {
      return Fail(ArgumentOutOfRangeException);
    }
    r := DecodeValue(loc, command, RegValueInfo(ValueKind.String, ValueFormat.String), d[1..pos]);
  }

  /** The typed branch of the value text: the token, then the payload
      decoded at once or started in a new buffer. */
  method ReadTyped(loc: SourceLocation, command: RegistryValueCommand, d: string)
      returns (r: Outcome, buffer: StringBuilder?, kindId: string, info: RegValueInfo)
    requires !IsBlank(d)
    modifies command
    ensures var a := ParseTyped(loc, old(command.Model()), d);
      && (r.Pass? <==> a.Ok?)
      && (r.Fail? ==> r.error == a.error)
      && (r.Pass? && a.value.Append? ==> buffer == null && command.Model() == a.value.command)
      && (r.Pass? && a.value.Hold? ==>
            buffer != null && Pending(command.Model(), kindId, info, buffer.Content) == a.value.pending)
    ensures buffer != null ==> fresh(buffer)
  {
    var pos := IndexOf(d, ':');
    if pos == -1 {
      return Fail(IOException(loc, MissingColon)), null, "", DefaultInfo;
    }
    kindId := d[..pos];
    info := GetValueInfo(kindId);
    if info.kind == ValueKind.Unknown {
      return Fail(IOException(loc, CannotProcessValueType)), null, kindId, info;
    }
    var t := TrimEnd(d);
    if t[|t| - 1] == '\\' {
      buffer := new StringBuilder();
      buffer.Append(t[..|t| - 1]);
      return Pass, buffer, kindId, info;
    }
    r := DecodeValue(loc, command, info, t[|kindId| + 1..]);
    return r, null, kindId, DefaultInfo;
  }

  /** The value branch of Read after "=": marks a removal, decodes a
      quoted string or a one-line payload, or starts a buffer for a payload
      that goes on. */
  method ReadValueText(loc: SourceLocation, command: RegistryValueCommand, d: string)
      returns (r: Outcome, buffer: StringBuilder?, kindId: string, info: RegValueInfo)
    modifies command
    ensures var a := ParseValueText(loc, old(command.Model()), d);
      && (r.Pass? <==> a.Ok?)
      && (r.Fail? ==> r.error == a.error)
      && (r.Pass? && a.value.Append? ==> buffer == null && command.Model() == a.value.command)
      && (r.Pass? && a.value.Hold? ==>
            buffer != null && fresh(buffer) && Pending(command.Model(), kindId, info, buffer.Content) == a.value.pending)
    ensures buffer != null ==> fresh(buffer)
  {
    if IsBlank(d) {
      return Fail(IOException(loc, ExpectedValue)), null, "", DefaultInfo;
    }
    if d[0] == '-' {
      command.Remove := true;
      return Pass, null, "", DefaultInfo;
    }
    if d[0] == '"' {
      r := ReadQuoted(loc, command, d);
      return r, null, "", DefaultInfo;
    }
    r, buffer, kindId, info := ReadTyped(loc, command, d);
  }

  /** What reading a value line hands back stands for the action a: the
      outcome fails exactly when a does, with its error; a complete value
      is in command and no buffer is used; a held one is in command with
      its text so far in buffer. */
  predicate Delivered(a: Result<ValueAction>, r: Outcome, command: RegistryValueCommand?, buffer: StringBuilder?,
                      kindId: string, info: RegValueInfo)
    reads command, buffer
  {
    && (r.Pass? <==> a.Ok?)
    && (r.Fail? ==> r.error == a.error)
    && (r.Pass? ==> command != null)
    && (r.Pass? && a.value.Append? ==> buffer == null && command.Model() == a.value.command)
    && (r.Pass? && a.value.Hold? ==>
          buffer != null && Pending(command.Model(), kindId, info, buffer.Content) == a.value.pending)
  }

  /** The value branch of Read: CreateCommand, the "=" check, then the
      value text. */
  method ReadValue(loc: SourceLocation, data: string)
      returns (r: Outcome, command: RegistryValueCommand?, buffer: StringBuilder?, kindId: string, info: RegValueInfo)
    requires |data| > 0
    ensures Delivered(ParseValue(loc, data), r, command, buffer, kindId, info)
    ensures r.Pass? ==> fresh(command)
    ensures buffer != null ==> fresh(buffer)
  {
    var rest;
    r, command, rest := CreateCommand(loc, data);
    if r.Fail? {
      return r, null, null, "", DefaultInfo;
    }
    var pos := IndexOf(rest, '=');
    if pos == -1 {
      return Fail(IOException(loc, ExpectedEquals)), null, null, "", DefaultInfo;
    }
    if IsSupplementary(rest[0]) {
      // data.Slice(1) leaves the low surrogate, which starts the type token
      var colon := IndexOf(rest[1..], ':');
      if colon == -1 {
        return Fail(IOException(loc, MissingColon)), null, null, "", DefaultInfo;
      }
      return Fail(IOException(loc, CannotProcessValueType)), null, null, "", DefaultInfo;
    }
    var d := TrimStart(rest[1..]);
    r, buffer, kindId, info := ReadValueText(loc, command, d);
  }

  /** The continuation branch of Read, on a line trimmed at both ends:
      done is set when the value is complete and decoded into command. */
  method ReadContinuation(loc: SourceLocation, data: string, command: RegistryValueCommand, buffer: StringBuilder,
                          kindId: string, info: RegValueInfo) returns (r: Outcome, done: bool)
    requires |data| > 0
    modifies command, buffer
    ensures var a := ParseContinuation(loc, old(Pending(command.Model(), kindId, info, buffer.Content)), data);
      && (r.Pass? <==> a.Ok?)
      && (r.Fail? ==> r.error == a.error)
      && (r.Pass? && a.value.Append? ==> done && command.Model() == a.value.command)
      && (r.Pass? && a.value.Hold? ==> !done && Pending(command.Model(), kindId, info, buffer.Content) == a.value.pending)
  {
    if data[|data| - 1] == '\\' {
      r, done := HoldContinuation(loc, data, command, buffer, kindId, info);
    } else {
      r, done := CompleteContinuation(loc, data, command, buffer, kindId, info);
    }
  }

  /** A trailing backslash: the text before it goes on the buffer. */
  method HoldContinuation(loc: SourceLocation, data: string, command: RegistryValueCommand, buffer: StringBuilder,
                          kindId: string, info: RegValueInfo) returns (r: Outcome, done: bool)
    requires |data| > 0 && data[|data| - 1] == '\\'
    modifies buffer
    ensures r == Pass && !done
    ensures ParseContinuation(loc, old(Pending(command.Model(), kindId, info, buffer.Content)), data)
      == Ok(Hold(Pending(command.Model(), kindId, info, buffer.Content)))
  {
    ghost var p := Pending(command.Model(), kindId, info, buffer.Content);
    buffer.Append(data[..|data| - 1]);
    assert ParseContinuation(loc, p, data) == Ok(Hold(p.(buffer := p.buffer + data[..|data| - 1])));
    return Pass, false;
  }

  /** The last line of a continued value: the buffer and the line, after
      the token and its colon, are decoded into the command. */
  method CompleteContinuation(loc: SourceLocation, data: string, command: RegistryValueCommand, buffer: StringBuilder,
                              kindId: string, info: RegValueInfo) returns (r: Outcome, done: bool)
    requires |data| > 0 && data[|data| - 1] != '\\'
    modifies command, buffer
    ensures var a := ParseContinuation(loc, old(Pending(command.Model(), kindId, info, buffer.Content)), data);
      && (r.Pass? <==> a.Ok?)
      && (r.Fail? ==> r.error == a.error)
      && (r.Pass? && a.value.Append? ==> done && command.Model() == a.value.command)
      && (r.Pass? && a.value.Hold? ==> !done && Pending(command.Model(), kindId, info, buffer.Content) == a.value.pending)
  {
    ghost var p := Pending(command.Model(), kindId, info, buffer.Content);
    buffer.Append(data);
    var text := buffer.Content;
    assert command.Model() == p.command;
    if |text| < |kindId| + 1 {
      assert ParseContinuation(loc, p, data) == Err(ArgumentOutOfRangeException);
      return Fail(ArgumentOutOfRangeException), false;
    }
    assert ParseContinuation(loc, p, data) == Decode(loc, p.command, info, text[|kindId| + 1..]);
    r := DecodeValue(loc, command, info, text[|kindId| + 1..]);
    done := r.Pass?;
  }

  /** result.Add(key) and currentSubKey = key for the new, empty key that
      the header line data describes. */
  method PushSubKey(loc: SourceLocation, l: Locals, key: RegistrySubKeyCommand, ghost data: string, ghost st: ReaderState)
      returns (l': Locals)
    requires Coupled(l) && key.Commands == [] && key !in l.result && st == State(loc, l)
    requires |data| > 0 && data[0] == '[' && ParseHeader(loc, data) == Ok(key.Model())
    ensures l' == l.(result := l.result + [key], currentSubKey := key)
    ensures Stands(Pass, loc, l', HeaderStep(st, data))
  {
    assert HeaderStep(st, data) == Ok(st.(result := st.result + [key.Model()], open := true));
    l' := l.(result := l.result + [key], currentSubKey := key);
    assert l'.result[..|l.result|] == l.result;
    assert Footprint(l'.result) == Footprint(l.result) by {
      assert forall i :: 0 <= i < |l.result| ==> l'.result[i] == l.result[i];
    }
    assert State(loc, l') == HeaderStep(st, data).value;
  }

  /** currentSubKey.Commands.Add(command), currentCommand = null and
      currentValueInfo = default. */
  method AddValue(loc: SourceLocation, l: Locals, command: RegistryValueCommand) returns (l': Locals)
    requires Coupled(l) && l.currentSubKey != null
    modifies l.currentSubKey
    ensures l' == l.(currentCommand := null, info := DefaultInfo)
    ensures Coupled(l')
    ensures State(loc, l') == old(State(loc, l)).(result := AddToLast(old(State(loc, l)).result, command.Model()), pending := Nothing)
  {
    AddCommand(l.result, l.currentSubKey, command);
    l' := l.(currentCommand := null, info := DefaultInfo);
  }

  /** currentCommand, valueBuffer, currentKindId and currentValueInfo set
      for a value whose text goes on. */
  method HoldValue(loc: SourceLocation, l: Locals, command: RegistryValueCommand, buffer: StringBuilder,
                   kindId: string, info: RegValueInfo) returns (l': Locals)
    requires Coupled(l) && command !in Footprint(l.result)
    ensures l' == l.(currentCommand := command, valueBuffer := buffer, kindId := kindId, info := info)
    ensures Coupled(l')
    ensures State(loc, l') == State(loc, l).(pending := Some(Pending(command.Model(), kindId, info, buffer.Content)))
  {
    l' := l.(currentCommand := command, valueBuffer := buffer, kindId := kindId, info := info);
  }

  /** The end of the continuation branch: a completed value is added to
      currentSubKey (null there raises NullReferenceException) and the
      buffer is cleared; st and a stand for the locals before the line and
      what the line parses to. */
  method ApplyContinuation(loc: SourceLocation, l: Locals, ghost st: ReaderState, ghost a: Result<ValueAction>,
                           r0: Outcome, done: bool) returns (r: Outcome, l': Locals)
    requires Coupled(l) && l.currentCommand != null && Valid(st)
    requires st.location == loc && st.result == SubKeyModels(l.result) && st.open == (l.currentSubKey != null)
    requires (r0.Pass? <==> a.Ok?) && (r0.Fail? ==> r0.error == a.error)
    requires r0.Pass? && a.value.Append? ==> done && l.currentCommand.Model() == a.value.command
    requires r0.Pass? && a.value.Hold? ==>
      !done && Pending(l.currentCommand.Model(), l.kindId, l.info, l.valueBuffer.Content) == a.value.pending
    modifies l.result, l.valueBuffer
    ensures Stands(r, loc, l', ApplyResult(st, a))
    ensures r.Pass? ==> l'.result == l.result && l'.valueBuffer == l.valueBuffer
    ensures r.Pass? ==> l'.currentCommand == null || l'.currentCommand == l.currentCommand
  {
    if r0.Fail? {
      return r0, l;
    }
    if !done {
      return Pass, l;
    }
    if l.currentSubKey == null {
      return Fail(NullReferenceException), l;
    }
    r := Pass;
    l.valueBuffer.Clear();
    l' := AddValue(loc, l, l.currentCommand);
  }

  /** A line while a value is held: more text, or the end of the value,
      which is then added to currentSubKey. */
  method ContinuationLine(loc: SourceLocation, data: string, l: Locals) returns (r: Outcome, l': Locals)
    requires |data| > 0 && Coupled(l) && l.currentCommand != null
    modifies l.result, l.currentCommand, l.valueBuffer
    ensures Stands(r, loc, l', ApplyResult(old(State(loc, l)), ParseContinuation(loc, old(State(loc, l)).pending.value, data)))
    ensures r.Pass? ==> l'.result == l.result && l'.valueBuffer == l.valueBuffer
    ensures r.Pass? ==> l'.currentCommand == null || l'.currentCommand == l.currentCommand
  {
    ghost var st := State(loc, l);
    var r0, done := ReadContinuation(loc, data, l.currentCommand, l.valueBuffer, l.kindId, l.info);
    assert SubKeyModels(l.result) == st.result;
    r, l' := ApplyContinuation(loc, l, st, ParseContinuation(loc, st.pending.value, data), r0, done);
  }

  /** The end of the value branch: the parsed command is added to
      currentSubKey, or held with its buffer; a stands for what the line
      parses to. */
  method ApplyValue(loc: SourceLocation, l: Locals, ghost st: ReaderState, ghost a: Result<ValueAction>, r0: Outcome,
                    command: RegistryValueCommand?, buffer: StringBuilder?, kindId: string, info: RegValueInfo)
      returns (r: Outcome, l': Locals)
    requires Coupled(l) && l.currentSubKey != null && l.currentCommand == null && st == State(loc, l)
    requires Delivered(a, r0, command, buffer, kindId, info)
    requires r0.Pass? ==> command !in Footprint(l.result)
    modifies l.result
    ensures Stands(r, loc, l', ApplyResult(st, a))
    ensures r.Pass? ==> l'.result == l.result
    ensures r.Pass? ==> l'.currentCommand == null || l'.currentCommand == command
    ensures r.Pass? ==> l'.valueBuffer == if buffer == null then l.valueBuffer else buffer
  {
    if r0.Fail? {
      return r0, l;
    }
    r := Pass;
    if buffer == null {
      l' := AddValue(loc, l, command);
    } else {
      l' := HoldValue(loc, l, command, buffer, kindId, info);
    }
  }

  /** ReadValue, which allocates the new command and buffer and changes
      nothing that the locals l stand for. */
  method ReadValueFor(loc: SourceLocation, data: string, l: Locals)
      returns (r: Outcome, command: RegistryValueCommand?, buffer: StringBuilder?, kindId: string, info: RegValueInfo)
    requires |data| > 0 && Coupled(l)
    ensures Coupled(l) && State(loc, l) == old(State(loc, l))
    ensures Delivered(ParseValue(loc, data), r, command, buffer, kindId, info)
    ensures r.Pass? ==> fresh(command) && command !in Footprint(l.result)
    ensures buffer != null ==> fresh(buffer)
  {
    r, command, buffer, kindId, info := ReadValue(loc, data);
  }

  /** A value line under a subkey: the command is added, or held when its
      text goes on. */
  method ValueLine(loc: SourceLocation, data: string, l: Locals) returns (r: Outcome, l': Locals)
    requires |data| > 0 && Coupled(l) && l.currentSubKey != null && l.currentCommand == null
    modifies l.result
    ensures Stands(r, loc, l', ApplyResult(old(State(loc, l)), ParseValue(loc, data)))
    ensures r.Pass? ==> l'.result == l.result
    ensures r.Pass? ==> l'.currentCommand == null || fresh(l'.currentCommand)
    ensures r.Pass? ==> l'.valueBuffer == l.valueBuffer || fresh(l'.valueBuffer)
  {
    ghost var st := State(loc, l);
    var r0, command, buffer, kindId, info := ReadValueFor(loc, data, l);
    r, l' := ApplyValue(loc, l, st, ParseValue(loc, data), r0, command, buffer, kindId, info);
  }

  /** ReadHeader, which allocates the new command and changes nothing
      that the locals l stand for. */
  method ReadHeaderFor(loc: SourceLocation, data: string, l: Locals) returns (r: Outcome, key: RegistrySubKeyCommand?)
    requires |data| > 0 && data[0] == '[' && Coupled(l)
    ensures r.Fail? ==> HeaderStep(old(State(loc, l)), data) == Err(r.error)
    ensures r.Pass? ==> ParseHeader(loc, data).Ok? && key != null && fresh(key) && key.Commands == []
    ensures r.Pass? ==> key.Model() == ParseHeader(loc, data).value
    ensures State(loc, l) == old(State(loc, l))
  {
    r, key := ReadHeader(loc, data);
  }

  /** A header line: a new subkey command, appended and current. */
  method HeaderLine(loc: SourceLocation, data: string, l: Locals) returns (r: Outcome, l': Locals)
    requires |data| > 0 && data[0] == '[' && Coupled(l)
    ensures Stands(r, loc, l', HeaderStep(old(State(loc, l)), data))
    ensures r.Pass? ==> l'.result == l.result + [l'.currentSubKey] && fresh(l'.currentSubKey)
    ensures r.Pass? ==> l'.currentCommand == l.currentCommand && l'.valueBuffer == l.valueBuffer
  {
    ghost var st := State(loc, l);
    var key;
    r, key := ReadHeaderFor(loc, data, l);
    if r.Fail? {
      return r, l;
    }
    l' := PushSubKey(loc, l, key, data, st);
  }

  /** Read's loop body for a line that is not blank, left-trimmed. */
  method HandleData(loc: SourceLocation, data: string, l: Locals) returns (r: Outcome, l': Locals)
    requires |data| > 0 && !IsWhiteSpace(data[0]) && Coupled(l)
    modifies l.result, l.currentCommand, l.valueBuffer
    ensures Stands(r, loc, l', DispatchData(old(State(loc, l)), data))
    ensures r.Pass? ==> forall k :: k in l'.result ==> k in l.result || fresh(k)
    ensures r.Pass? ==> l'.currentCommand == null || l'.currentCommand == l.currentCommand || fresh(l'.currentCommand)
    ensures r.Pass? ==> l'.valueBuffer == l.valueBuffer || fresh(l'.valueBuffer)
  {
    if data[0] == ';' {
      return Pass, l;
    }
    if data[0] == '[' {
      r, l' := HeaderLine(loc, TrimEnd(data), l);
    } else {
      r, l' := HandleValueData(loc, data, l);
    }
  }

  /** HandleData for a line that is neither a comment nor a header. */
  method HandleValueData(loc: SourceLocation, data: string, l: Locals) returns (r: Outcome, l': Locals)
    requires |data| > 0 && !IsWhiteSpace(data[0]) && Coupled(l)
    modifies l.result, l.currentCommand, l.valueBuffer
    ensures Stands(r, loc, l', DispatchValue(old(State(loc, l)), data))
    ensures r.Pass? ==> forall k :: k in l'.result ==> k in l.result || fresh(k)
    ensures r.Pass? ==> l'.currentCommand == null || l'.currentCommand == l.currentCommand || fresh(l'.currentCommand)
    ensures r.Pass? ==> l'.valueBuffer == l.valueBuffer || fresh(l'.valueBuffer)
  {
    if l.currentCommand != null {
      r, l' := ContinuationLine(loc, Trim(data), l);
    } else if l.currentSubKey != null {
      r, l' := ValueLine(loc, data, l);
    } else {
      r, l' := Fail(IOException(loc, ExpectedQuote)), l;
    }
  }


  /** The body of Read's loop for one line, the line counter already
      advanced to loc. */
  method HandleLine(loc: SourceLocation, line: string, l: Locals) returns (r: Outcome, l': Locals)
    requires Coupled(l)
    modifies l.result, l.currentCommand, l.valueBuffer
    ensures Stands(r, loc, l', Dispatch(old(State(loc, l)), line))
    ensures r.Pass? ==> forall k :: k in l'.result ==> k in l.result || fresh(k)
    ensures r.Pass? ==> l'.currentCommand == null || l'.currentCommand == l.currentCommand || fresh(l'.currentCommand)
    ensures r.Pass? ==> l'.valueBuffer == l.valueBuffer || fresh(l'.valueBuffer)
  {
    if loc.lineNumber == 1 {
      if line != Signature {
        return Fail(IOException(loc, ExpectedSignature)), l;
      }
      return Pass, l;
    }
    if loc.lineNumber == 2 {
      if !IsBlank(line) {
        return Fail(IOException(loc, ExpectedBlankLine)), l;
      }
      return Pass, l;
    }
    if IsBlank(line) {
      return Pass, l.(currentSubKey := null);
    }
    r, l' := HandleData(loc, TrimStart(line), l);
  }

  /** One pass of Read's loop over a line, the first of the remaining
      lines: the line counter goes up and the line is handled; a failure is
      reported as Read's catch clause reports it. */
  method Advance(loc: SourceLocation, line: string, l: Locals, ghost lines: seq<string>)
    returns (r: Outcome, loc': SourceLocation, l': Locals)
    requires Coupled(l) && lines != [] && lines[0] == line
    modifies l.result, l.currentCommand, l.valueBuffer
    ensures loc' == loc.IncrementLineNumber()
    ensures r.Pass? ==> Coupled(l') && Steps(old(State(loc, l)), lines) == Steps(State(loc', l'), lines[1..])
    ensures r.Fail? ==> r.error.IOException? && Steps(old(State(loc, l)), lines) == Err(r.error)
    ensures r.Pass? ==> forall k :: k in l'.result ==> k in l.result || fresh(k)
    ensures r.Pass? ==> l'.currentCommand == null || l'.currentCommand == l.currentCommand || fresh(l'.currentCommand)
    ensures r.Pass? ==> l'.valueBuffer == l.valueBuffer || fresh(l'.valueBuffer)
  {
    ghost var st := State(loc, l);
    loc' := loc.IncrementLineNumber();
    var outcome;
    outcome, l' := HandleLine(loc', line, l);
    StepsLine(st, lines, loc', Dispatch(st.(location := loc'), line));
    if outcome.Fail? {
      r := Fail(if outcome.error.IOException? then outcome.error else IOException(loc', Unexpected));
    } else {
      r := Pass;
    }
  }

  /** One pass of Read's loop from the reader: ReadLine, and at the end of
      the input the loop stops with the state unchanged. */
  method NextLine(reader: TextReader, loc: SourceLocation, l: Locals)
    returns (stop: bool, r: Outcome, loc': SourceLocation, l': Locals)
    requires Coupled(l)
    modifies reader, l.result, l.currentCommand, l.valueBuffer
    ensures stop <==> old(reader.Remaining) == []
    ensures stop ==> reader.Remaining == [] && r.Pass? && loc' == loc && l' == l && State(loc', l') == old(State(loc, l))
    ensures !stop ==> reader.Remaining == old(reader.Remaining)[1..]
    ensures !stop && r.Pass? ==> Coupled(l') && Steps(old(State(loc, l)), old(reader.Remaining)) == Steps(State(loc', l'), reader.Remaining)
    ensures !stop && r.Fail? ==> r.error.IOException? && Steps(old(State(loc, l)), old(reader.Remaining)) == Err(r.error)
    ensures r.Pass? ==> forall k :: k in l'.result ==> k in l.result || fresh(k)
    ensures r.Pass? ==> l'.currentCommand == null || l'.currentCommand == l.currentCommand || fresh(l'.currentCommand)
    ensures r.Pass? ==> l'.valueBuffer == l.valueBuffer || fresh(l'.valueBuffer)
  {
    ghost var rest := reader.Remaining;
    var line := reader.ReadLine();
    if line.Nothing? {
      return true, Pass, loc, l;
    }
    stop := false;
    r, loc', l' := Advance(loc, line.value, l, rest);
  }

  /** RegFileReader over a TextReader. */
  class RegFileReader {
    var reader: TextReader
    /** The name errors report: "<stream>" for a reader. */
    const Source: string

    constructor(reader: TextReader)
      ensures this.reader == reader && Source == "<stream>"
    {
      this.reader := reader;
      Source := "<stream>";
    }

    /** Read: the subkey commands of the remaining lines, or the first
        failure as an IOException at its line. */
    method Read() returns (r: Result<seq<RegistrySubKeyCommand>>)
      modifies reader
      ensures var p := Parse(Source, old(reader.Remaining));
        && (r.Err? <==> p.Err?)
        && (r.Err? ==> r.error == p.error)
        && (r.Ok? ==> SubKeyModels(r.value) == p.value && reader.Remaining == [])
      ensures r.Ok? ==> forall k :: k in r.value ==> fresh(k)
    {
      ghost var lines := reader.Remaining;
      var l := NoLocals;
      var sourceLocation := SourceLocation(Source, 0);
      while true
        invariant Coupled(l)
        invariant forall k :: k in l.result ==> fresh(k)
        invariant l.currentCommand == null || fresh(l.currentCommand)
        invariant l.valueBuffer == null || fresh(l.valueBuffer)
        invariant Steps(Start(Source), lines) == Steps(State(sourceLocation, l), reader.Remaining)
        decreases |reader.Remaining|
      {
        assert forall j :: 0 <= j < |l.result| ==> fresh(l.result[j]) by {
          assert forall j :: 0 <= j < |l.result| ==> l.result[j] in l.result;
        }
        var stop, outcome, next;
        stop, outcome, sourceLocation, next := NextLine(reader, sourceLocation, l);
        if stop {
          break;
        }
        if outcome.Fail? {
          return Err(outcome.error);
        }
        l := next;
      }
      return Ok(l.result);
    }
  }
}
