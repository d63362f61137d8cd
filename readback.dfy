/** Reading back what RegFileWriter writes: RegFileReader.Read, run over the
    lines of the written text, gives the commands that were written. The
    proof follows the reader line by line: a header line opens a subkey, a
    value line adds its command (a hex value through its continuation
    lines), the empty line after a block closes it. */
module ReadingBack {
  import opened RegTypes
  import opened Strings
  import opened Numbers
  import opened RegFileExtensions
  import opened ValueCodec
  import opened RegistryCommands
  import opened RegFileReading
  import opened RegFileWriting
  import opened RoundTrip

  /** The location n lines further on. */
  function Advanced(loc: SourceLocation, n: nat): SourceLocation
  {
    SourceLocation(loc.source, loc.lineNumber + n)
  }

  /** The command CreateCommand makes for the name at the start of v's line. */
  function NameCmd(v: ValueCmd): ValueCmd
  {
    NewValue.(name := v.name, isDefault := v.isDefault)
  }

  // --------------------------------------------------- passes of the loop

  lemma {:induction false} StepsAppend(st: ReaderState, a: seq<string>, b: seq<string>, mid: ReaderState)
    requires Valid(st) && Steps(st, a) == Ok(mid)
    ensures Steps(st, a + b) == Steps(mid, b)
    decreases |a|
  {
    if a == [] {
      assert a + b == b;
    } else {
      var next := Step(st, a[0]).value;
      assert (a + b)[0] == a[0];
      assert (a + b)[1..] == a[1..] + b;
      StepsAppend(next, a[1..], b, mid);
    }
  }

  lemma StepsOne(st: ReaderState, l: string, next: ReaderState)
    requires Valid(st) && Step(st, l) == Ok(next)
    ensures Steps(st, [l]) == Ok(next)
  {
    assert [l][0] == l && [l][1..] == [];
    assert Steps(next, []) == Ok(next);
    assert StepFirst(st, [l]) == Steps(next, [l][1..]);
  }

  lemma StepsCons(st: ReaderState, lines: seq<string>, next: ReaderState)
    requires Valid(st) && lines != [] && Step(st, lines[0]) == Ok(next)
    ensures Steps(st, lines) == Steps(next, lines[1..])
  {
  }

  // ------------------------------------------------------ trimming facts

  lemma NotBlankAt(s: string, i: nat)
    requires i < |s| && !IsWhiteSpace(s[i])
    ensures !IsBlank(s)
  {
  }

  lemma TrimStartUnchanged(s: string)
    requires s != [] && !IsWhiteSpace(s[0])
    ensures TrimStart(s) == s
  {
  }

  lemma TrimEndUnchanged(s: string)
    requires s != [] && !IsWhiteSpace(s[|s| - 1])
    ensures TrimEnd(s) == s
  {
  }

  /** Two spaces of indentation are trimmed away. */
  lemma TrimIndent(x: string)
    requires x != [] && !IsWhiteSpace(x[0])
    ensures TrimStart("  " + x) == x
  {
    var s := "  " + x;
    assert s[1..][1..] == x;
    TrimStartUnchanged(x);
  }

  // --------------------------------------------------- the header line

  /** A written header reads back as the subkey without its values. */
  lemma ParseHeaderLine(loc: SourceLocation, k: SubKeyCmd)
    requires ReadableSubKey(k)
    ensures ParseHeader(loc, WrittenHeader(k)) == Ok(k.(commands := []))
  {
    var name := HiveToString(k.hive).value;
    assert name != [] && name[0] == 'H' by {
      assert name in HiveNames;
    }
    var path := name + "\\" + k.subKey;
    HeaderInner(k.remove, name, k.subKey);
    assert SplitIntoHiveAndSubKey(path, loc) == Ok((k.hive, k.subKey)) by {
      SplitIntoHiveAndSubKeyRoundTrip(k.hive, k.subKey, loc);
    }
  }

  /** What ParseHeader finds between the brackets of a header. */
  lemma HeaderInner(remove: bool, name: string, sub: string)
    requires name != [] && name[0] == 'H'
    ensures var line := Opening(remove) + name + "\\" + sub + "]"; var inner := line[1..|line| - 1];
      && line != [] && line[0] == '[' && line[|line| - 1] == ']' && !IsBlank(inner)
      && (inner[0] == '-' <==> remove)
      && (if remove then inner[1..] else inner) == name + "\\" + sub
  {
    var line := Opening(remove) + name + "\\" + sub + "]";
    var path := name + "\\" + sub;
    var inner := line[1..|line| - 1];
    assert inner == if remove then "-" + path else path;
    NotBlankAt(inner, if remove then 1 else 0);
    if remove {
      assert inner[1..] == path;
    }
  }

  /** A line after the first two that starts with neither white space nor
      a line break is dispatched as it is. */
  lemma StepData(st: ReaderState, line: string)
    requires Valid(st) && st.location.lineNumber >= 2 && line != [] && !IsWhiteSpace(line[0])
    ensures var loc := st.location.IncrementLineNumber();
      Step(st, line) == Located(loc, DispatchData(st.(location := loc), line))
  {
    NotBlankAt(line, 0);
    TrimStartUnchanged(line);
  }

  /** An indented line is dispatched without its indentation. */
  lemma StepIndentedData(st: ReaderState, x: string)
    requires Valid(st) && st.location.lineNumber >= 2 && x != [] && !IsWhiteSpace(x[0])
    ensures var loc := st.location.IncrementLineNumber();
      Step(st, "  " + x) == Located(loc, DispatchData(st.(location := loc), x))
  {
    var loc := st.location.IncrementLineNumber();
    DispatchIndented(st.(location := loc), x);
  }

  lemma DispatchIndented(st: ReaderState, x: string)
    requires Valid(st) && st.location.lineNumber >= 3 && x != [] && !IsWhiteSpace(x[0])
    ensures Dispatch(st, "  " + x) == DispatchData(st, x)
  {
    var line := "  " + x;
    assert !IsBlank(line) by {
      assert line[2] == x[0];
      NotBlankAt(line, 2);
    }
    assert TrimStart(line) == x by {
      TrimIndent(x);
    }
  }

  lemma StepHeader(st: ReaderState, k: SubKeyCmd)
    requires Valid(st) && st.location.lineNumber >= 2 && ReadableSubKey(k)
    ensures Step(st, WrittenHeader(k))
      == Ok(st.(location := st.location.IncrementLineNumber(), result := st.result + [k.(commands := [])], open := true))
  {
    var loc := st.location.IncrementLineNumber();
    var st' := st.(location := loc);
    var line := WrittenHeader(k);
    StepData(st, line);
    TrimEndUnchanged(line);
    assert DispatchData(st', line) == HeaderStep(st', line);
    ParseHeaderLine(loc, k);
    assert HeaderStep(st', line) == Ok(st'.(result := st.result + [k.(commands := [])], open := true));
  }

  /** The empty line after a block closes the subkey. */
  lemma StepBlank(st: ReaderState)
    requires Valid(st) && st.location.lineNumber >= 2
    ensures Step(st, "") == Ok(st.(location := st.location.IncrementLineNumber(), open := false))
  {
  }

  // ------------------------------------------------- the first value line

  lemma ParseValueNamePrefix(loc: SourceLocation, v: ValueCmd, rest: string)
    requires ReadableValue(v)
    ensures ParseValueName(loc, ValuePrefix(v) + rest) == Ok((NameCmd(v), "=" + rest))
  {
    var data := ValuePrefix(v) + rest;
    if v.isDefault {
      assert data[1..] == "=" + rest;
    } else {
      var d := data[1..];
      assert d == v.name + "\"=" + rest;
      assert d[..|v.name|] == v.name;
      IndexOfAt(d, '"', |v.name|);
      assert d[|v.name| + 1..] == "=" + rest;
    }
  }

  lemma ParseValuePrefix(loc: SourceLocation, v: ValueCmd, rest: string)
    requires ReadableValue(v) && rest != [] && !IsWhiteSpace(rest[0])
    ensures ParseValue(loc, ValuePrefix(v) + rest) == ParseValueText(loc, NameCmd(v), rest)
  {
    ParseValueNamePrefix(loc, v, rest);
    assert ("=" + rest)[1..] == rest;
    TrimStartUnchanged(rest);
  }

  /** A value line in an open subkey, with nothing held, is parsed from
      what follows the name and "=". */
  lemma StepValueLine(st: ReaderState, v: ValueCmd, rest: string)
    requires Valid(st) && st.open && st.pending.Nothing? && st.location.lineNumber >= 2
    requires ReadableValue(v) && rest != [] && !IsWhiteSpace(rest[0])
    ensures var loc := st.location.IncrementLineNumber();
      Step(st, ValuePrefix(v) + rest)
      == Located(loc, ApplyResult(st.(location := loc), ParseValueText(loc, NameCmd(v), rest)))
  {
    var loc := st.location.IncrementLineNumber();
    var st' := st.(location := loc);
    var line := ValuePrefix(v) + rest;
    StepData(st, line);
    assert DispatchData(st', line) == DispatchValue(st', line);
    assert DispatchValue(st', line) == StartValue(st', line);
    assert StartValue(st', line) == ApplyResult(st', ParseValue(loc, line));
    ParseValuePrefix(loc, v, rest);
  }

  /** What the reader needs of a type token: it is not blank at its start,
      holds no colon and names a known descriptor. */
  predicate TokenShaped(t: string)
  {
    t != [] && !IsWhiteSpace(t[0]) && ':' !in t && GetValueInfo(t).kind != ValueKind.Unknown
  }

  lemma TokenIsShaped(t: string)
    requires t in KnownTokens
    ensures TokenShaped(t)
  {
    TokenFacts(t);
  }

  /** A type token, ":" and a payload that does not end in a backslash. */
  lemma ParseTypedDone(loc: SourceLocation, command: ValueCmd, t: string, body: string)
    requires TokenShaped(t)
    requires body != [] ==> !IsWhiteSpace(body[|body| - 1]) && body[|body| - 1] != '\\'
    ensures !IsBlank(t + ":" + body)
    ensures ParseTyped(loc, command, t + ":" + body) == Decode(loc, command, GetValueInfo(t), body)
  {
    var d := t + ":" + body;
    assert IndexOf(d, ':') == |t| && d[..|t|] == t && d[|t| + 1..] == body by {
      IndexOfAt(d, ':', |t|);
    }
    assert !IsBlank(d) by {
      NotBlankAt(d, 0);
    }
    assert TrimEnd(d) == d && d[|d| - 1] != '\\' by {
      assert d[|d| - 1] == if body == [] then ':' else body[|body| - 1];
      TrimEndUnchanged(d);
    }
  }

  /** A type token, ":" and a payload ending in a backslash: it is held. */
  lemma ParseTypedHeld(loc: SourceLocation, command: ValueCmd, t: string, part: string)
    requires TokenShaped(t)
    ensures !IsBlank(t + ":" + part + "\\")
    ensures ParseTyped(loc, command, t + ":" + part + "\\")
      == Ok(Hold(Pending(command, t, GetValueInfo(t), t + ":" + part)))
  {
    var d := t + ":" + part + "\\";
    assert IndexOf(d, ':') == |t| && d[..|t|] == t by {
      IndexOfAt(d, ':', |t|);
    }
    assert !IsBlank(d) by {
      NotBlankAt(d, 0);
    }
    assert TrimEnd(d) == d && d[|d| - 1] == '\\' && d[..|d| - 1] == t + ":" + part by {
      TrimEndUnchanged(d);
    }
  }

  // -------------------------------------------------- continuation lines

  /** A line that starts with a hex digit goes on the held value. */
  lemma DispatchContinued(st: ReaderState, x: string)
    requires Valid(st) && st.pending.Some? && x != [] && IsHexDigit(x[0]) && Trim(x) == x
    ensures DispatchData(st, x) == ApplyResult(st, ParseContinuation(st.location, st.pending.value, x))
  {
    assert DispatchData(st, x) == DispatchValue(st, x);
    assert DispatchValue(st, x) == ContinueValue(st, x);
  }

  /** The continuation text, indented by two spaces, is what is dispatched. */
  lemma StepIndented(st: ReaderState, x: string)
    requires Valid(st) && st.pending.Some? && st.location.lineNumber >= 2
    requires x != [] && IsHexDigit(x[0]) && !IsWhiteSpace(x[|x| - 1])
    ensures var loc := st.location.IncrementLineNumber();
      Step(st, "  " + x) == Located(loc, ApplyResult(st.(location := loc), ParseContinuation(loc, st.pending.value, x)))
  {
    var loc := st.location.IncrementLineNumber();
    StepIndentedData(st, x);
    TrimUnchanged(x);
    DispatchContinued(st.(location := loc), x);
  }

  lemma StepContinued(st: ReaderState, q: string)
    requires Valid(st) && st.pending.Some? && st.location.lineNumber >= 2
    requires q != [] && IsHexDigit(q[0])
    ensures var p := st.pending.value;
      Step(st, "  " + q + "\\")
      == Ok(st.(location := st.location.IncrementLineNumber(), pending := Some(p.(buffer := p.buffer + q))))
  {
    var loc := st.location.IncrementLineNumber();
    var p := st.pending.value;
    var x := q + "\\";
    assert "  " + q + "\\" == "  " + x;
    StepIndented(st, x);
    assert x[..|x| - 1] == q;
    assert ParseContinuation(loc, p, x) == Ok(Hold(p.(buffer := p.buffer + q)));
  }

  lemma StepCompleted(st: ReaderState, q: string, value: Value)
    requires Valid(st) && st.open && st.pending.Some? && st.location.lineNumber >= 2
    requires q != [] && IsHexDigit(q[0]) && IsHexDigit(q[|q| - 1])
    requires |st.pending.value.buffer| >= |st.pending.value.kindId| + 1
    requires var p := st.pending.value;
      NativeValue(p.info, (p.buffer + q)[|p.kindId| + 1..], st.location.IncrementLineNumber()) == Ok(value)
    ensures var p := st.pending.value;
      Step(st, "  " + q)
      == Ok(ReaderState(st.location.IncrementLineNumber(),
                        AddToLast(st.result, p.command.(info := p.info, value := value)), true, Nothing))
  {
    var loc := st.location.IncrementLineNumber();
    var p := st.pending.value;
    StepIndented(st, q);
    var c := p.command.(info := p.info, value := value);
    assert ParseContinuation(loc, p, q) == Ok(Append(c));
  }

  lemma ConcatCons(qs: seq<string>)
    requires qs != []
    ensures Concat(qs) == qs[0] + Concat(qs[1..])
  {
    assert qs == [qs[0]] + qs[1..];
    ConcatAppend([qs[0]], qs[1..]);
    ConcatOne(qs[0]);
  }

  /** Indented lines that each end in a backslash. */
  function HeldLines(qs: seq<string>): (r: seq<string>)
    ensures |r| == |qs|
  {
    if qs == [] then [] else ["  " + qs[0] + "\\"] + HeldLines(qs[1..])
  }

  /** The continuation lines of a broken value: held lines, then the last. */
  lemma {:induction false} BrokenIndented(qs: seq<string>)
    requires |qs| >= 1
    ensures BrokenLines("  ", qs) == HeldLines(qs[..|qs| - 1]) + ["  " + qs[|qs| - 1]]
    decreases |qs|
  {
    if |qs| > 1 {
      BrokenIndented(qs[1..]);
      assert qs[1..][..|qs| - 2] == qs[..|qs| - 1][1..];
      assert HeldLines(qs[..|qs| - 1]) == ["  " + qs[0] + "\\"] + HeldLines(qs[..|qs| - 1][1..]);
    } else {
      assert qs[..0] == [];
    }
  }

  /** Held lines add their text to the buffer of the held value. */
  lemma {:induction false} HeldSteps(st: ReaderState, qs: seq<string>)
    requires Valid(st) && st.pending.Some? && st.location.lineNumber >= 2
    requires forall j :: 0 <= j < |qs| ==> qs[j] != [] && IsHexDigit(qs[j][0])
    ensures var p := st.pending.value;
      Steps(st, HeldLines(qs))
      == Ok(st.(location := Advanced(st.location, |qs|), pending := Some(p.(buffer := p.buffer + Concat(qs)))))
    decreases |qs|
  {
    var p := st.pending.value;
    if qs == [] {
      assert Advanced(st.location, 0) == st.location;
      assert p.(buffer := p.buffer + Concat(qs)) == p;
    } else {
      StepContinued(st, qs[0]);
      var p1 := p.(buffer := p.buffer + qs[0]);
      var st1 := st.(location := st.location.IncrementLineNumber(), pending := Some(p1));
      var lines := HeldLines(qs);
      assert lines[0] == "  " + qs[0] + "\\";
      StepsCons(st, lines, st1);
      assert lines[1..] == HeldLines(qs[1..]);
      HeldSteps(st1, qs[1..]);
      ConcatCons(qs);
      AppendAssoc(p.buffer, qs[0], Concat(qs[1..]));
      assert p1.(buffer := p1.buffer + Concat(qs[1..])) == p.(buffer := p.buffer + Concat(qs));
      assert Advanced(st1.location, |qs[1..]|) == Advanced(st.location, |qs|);
    }
  }

  // --------------------------------------------------- one value command

  /** The state of a subkey being read: open, nothing held. */
  predicate InBlock(st: ReaderState)
  {
    st.open && |st.result| > 0 && st.pending.Nothing? && st.location.lineNumber >= 2
  }

  /** The lines of a readable value add exactly that command to the subkey. */
  lemma ValueSteps(st: ReaderState, v: ValueCmd)
    requires InBlock(st) && ReadableValue(v)
    ensures Steps(st, ValueLines(v))
      == Ok(ReaderState(Advanced(st.location, |ValueLines(v)|), AddToLast(st.result, v), true, Nothing))
  {
    if OneLine(v) {
      OneLineValueSteps(st, v);
    } else {
      BrokenHexSteps(st, v);
    }
  }

  /** What a line leaves once its value text parses to the command itself. */
  lemma AppendedLine(st: ReaderState, v: ValueCmd, rest: string)
    requires InBlock(st) && ReadableValue(v) && rest != [] && !IsWhiteSpace(rest[0])
    requires ParseValueText(st.location.IncrementLineNumber(), NameCmd(v), rest) == Ok(Append(v))
    ensures Steps(st, [ValuePrefix(v) + rest])
      == Ok(ReaderState(Advanced(st.location, 1), AddToLast(st.result, v), true, Nothing))
  {
    var loc := st.location.IncrementLineNumber();
    var line := ValuePrefix(v) + rest;
    var next := ReaderState(Advanced(st.location, 1), AddToLast(st.result, v), true, Nothing);
    assert Step(st, line) == Ok(next) by {
      StepValueLine(st, v, rest);
      assert Apply(st.(location := loc), Append(v)) == Ok(next);
    }
    StepsOne(st, line, next);
  }

  /** A value written on one line: a removal, a quoted string, a dword, or
      a hex value short enough to need no break. */
  predicate OneLine(v: ValueCmd)
    requires ReadableValue(v)
  {
    || v.remove || v.info.format == ValueFormat.String || v.info.format == Integer
    || |HexParts(WrittenBytes(v.info, v.value))| == 1
  }

  /** The text after "=" on the line of a one-line value. */
  function LineText(v: ValueCmd): string
    requires ReadableValue(v) && OneLine(v)
  {
    if v.remove then "-"
    else if v.info.format == ValueFormat.String then "\"" + Escape(v.value.s) + "\""
    else if v.info.format == Integer then Token(v.info) + ":" + X8(v.value.i)
    else Token(v.info) + ":" + HexParts(WrittenBytes(v.info, v.value))[0]
  }

  lemma OneLineLines(v: ValueCmd)
    requires ReadableValue(v) && OneLine(v)
    ensures ValueLines(v) == [ValuePrefix(v) + LineText(v)]
  {
    var p := ValuePrefix(v);
    if v.remove {
    } else if v.info.format == ValueFormat.String {
      var e := Escape(v.value.s);
      assert p + "\"" + e + "\"" == p + ("\"" + e + "\"");
    } else if v.info.format == Integer {
      var t := Token(v.info);
      var x := X8(v.value.i);
      assert p + t + ":" + x == p + (t + ":" + x);
    } else {
      HexLineLines(v);
    }
  }

  lemma HexLineLines(v: ValueCmd)
    requires ReadableValue(v) && !v.remove && IsHexFormat(v.info)
    requires |HexParts(WrittenBytes(v.info, v.value))| == 1
    ensures ValueLines(v) == [ValuePrefix(v) + (Token(v.info) + ":" + HexParts(WrittenBytes(v.info, v.value))[0])]
  {
    HexEmission(v);
    OneBrokenLine(ValuePrefix(v), Token(v.info), HexParts(WrittenBytes(v.info, v.value)));
  }

  lemma OneBrokenLine(p: string, t: string, ps: seq<string>)
    requires |ps| == 1
    ensures BrokenLines(p + t + ":", ps) == [p + (t + ":" + ps[0])]
  {
    assert p + t + ":" + ps[0] == p + (t + ":" + ps[0]);
  }

  /** The text of a one-line value parses to the command itself. */
  lemma LineTextParses(loc: SourceLocation, v: ValueCmd)
    requires ReadableValue(v) && OneLine(v)
    ensures LineText(v) != [] && !IsWhiteSpace(LineText(v)[0])
    ensures ParseValueText(loc, NameCmd(v), LineText(v)) == Ok(Append(v))
  {
    if v.remove {
      NotBlankAt("-", 0);
      assert NameCmd(v).(remove := true) == v;
    } else if v.info.format == ValueFormat.String {
      StringParses(loc, v);
    } else if v.info.format == Integer {
      TokenFacts(Token(v.info));
      DWordParses(loc, v);
    } else {
      TokenFacts(Token(v.info));
      HexLineParses(loc, v);
    }
  }

  lemma StringParses(loc: SourceLocation, v: ValueCmd)
    requires ReadableValue(v) && !v.remove && v.info.format == ValueFormat.String
    ensures ParseValueText(loc, NameCmd(v), "\"" + Escape(v.value.s) + "\"") == Ok(Append(v))
  {
    var e := Escape(v.value.s);
    var d := "\"" + e + "\"";
    assert LastIndexOf(d, '"') == |d| - 1;
    assert d[1..|d| - 1] == e;
    ValueRoundTrip(v.info, v.value, loc);
    assert ParseQuoted(loc, NameCmd(v), d) == Ok(Append(v));
  }

  /** A type token, ":" and a payload that decodes to the value. */
  lemma TypedParses(loc: SourceLocation, v: ValueCmd, t: string, body: string)
    requires !v.remove && GetRegFileToken(v.info) == Ok(Some(t))
    requires v.info.format == Integer || v.info.format == HexValuesBE ==> v.info.kind == DWord
    requires body != [] ==> !IsWhiteSpace(body[|body| - 1]) && body[|body| - 1] != '\\'
    requires NativeValue(v.info, body, loc) == Ok(v.value)
    ensures ParseValueText(loc, NameCmd(v), t + ":" + body) == Ok(Append(v))
  {
    var d := t + ":" + body;
    assert ParseValueText(loc, NameCmd(v), d) == ParseTyped(loc, NameCmd(v), d) by {
      TokenFacts(Token(v.info));
      NotBlankAt(d, 0);
    }
    assert ParseTyped(loc, NameCmd(v), d) == Decode(loc, NameCmd(v), v.info, body) by {
      TokenIsShaped(Token(v.info));
      TokenRoundTrip(v.info);
      ParseTypedDone(loc, NameCmd(v), t, body);
    }
    DecodeAppend(loc, v, body);
  }

  /** A payload that decodes to the value completes the command. */
  lemma DecodeAppend(loc: SourceLocation, v: ValueCmd, body: string)
    requires !v.remove && NativeValue(v.info, body, loc) == Ok(v.value)
    ensures Decode(loc, NameCmd(v), v.info, body) == Ok(Append(v))
  {
  }

  lemma DWordParses(loc: SourceLocation, v: ValueCmd)
    requires ReadableValue(v) && !v.remove && v.info.format == Integer
    ensures ParseValueText(loc, NameCmd(v), Token(v.info) + ":" + X8(v.value.i)) == Ok(Append(v))
  {
    ValueRoundTrip(v.info, v.value, loc);
    TypedParses(loc, v, Token(v.info), X8(v.value.i));
  }

  lemma HexLineParses(loc: SourceLocation, v: ValueCmd)
    requires ReadableValue(v) && !v.remove && IsHexFormat(v.info)
    requires |HexParts(WrittenBytes(v.info, v.value))| == 1
    ensures ParseValueText(loc, NameCmd(v), Token(v.info) + ":" + HexParts(WrittenBytes(v.info, v.value))[0])
      == Ok(Append(v))
  {
    HexLineBody(loc, v);
    TypedParses(loc, v, Token(v.info), HexParts(WrittenBytes(v.info, v.value))[0]);
  }

  /** The groups of a hex value that fits on one line decode to the value
      and end in a hex digit. */
  lemma HexLineBody(loc: SourceLocation, v: ValueCmd)
    requires ReadableValue(v) && !v.remove && IsHexFormat(v.info)
    requires |HexParts(WrittenBytes(v.info, v.value))| == 1
    ensures var body := HexParts(WrittenBytes(v.info, v.value))[0];
      && NativeValue(v.info, body, loc) == Ok(v.value)
      && (body != [] ==> !IsWhiteSpace(body[|body| - 1]) && body[|body| - 1] != '\\')
  {
    var bytes := WrittenBytes(v.info, v.value);
    HexLineEnd(bytes);
    var body := HexParts(bytes)[0];
    ConcatOne(body);
    HexPayload(v, loc);
  }

  lemma HexLineEnd(bytes: seq<byte>)
    requires |HexParts(bytes)| == 1
    ensures var body := HexParts(bytes)[0];
      body != [] ==> !IsWhiteSpace(body[|body| - 1]) && body[|body| - 1] != '\\'
  {
    HexPartsShape(bytes);
  }

  lemma OneLineValueSteps(st: ReaderState, v: ValueCmd)
    requires InBlock(st) && ReadableValue(v) && OneLine(v)
    ensures Steps(st, ValueLines(v))
      == Ok(ReaderState(Advanced(st.location, |ValueLines(v)|), AddToLast(st.result, v), true, Nothing))
  {
    OneLineLines(v);
    LineTextParses(st.location.IncrementLineNumber(), v);
    AppendedLine(st, v, LineText(v));
  }

  /** The decoded payload of a hex value is the value written. */
  lemma HexPayload(v: ValueCmd, loc: SourceLocation)
    requires ReadableValue(v) && !v.remove && IsHexFormat(v.info)
    ensures NativeValue(v.info, Concat(HexParts(WrittenBytes(v.info, v.value))), loc) == Ok(v.value)
  {
    HexPartsFlat(WrittenBytes(v.info, v.value));
    ValueRoundTrip(v.info, v.value, loc);
  }

  /** The pending value after the first line of a broken hex value. */
  function FirstHeld(v: ValueCmd): Pending
    requires ReadableValue(v) && !v.remove && IsHexFormat(v.info)
  {
    var t := Token(v.info);
    Pending(NameCmd(v), t, v.info, t + ":" + HexParts(WrittenBytes(v.info, v.value))[0])
  }

  /** The lines of a broken hex value: the first, the held ones, the last. */
  lemma BrokenHexLines(v: ValueCmd)
    requires ReadableValue(v) && !v.remove && IsHexFormat(v.info)
    requires |HexParts(WrittenBytes(v.info, v.value))| > 1
    ensures var ps := HexParts(WrittenBytes(v.info, v.value)); var n := |ps|;
      ValueLines(v)
      == [ValuePrefix(v) + (Token(v.info) + ":" + ps[0] + "\\")] + HeldLines(ps[1..n - 1]) + ["  " + ps[n - 1]]
  {
    HexEmission(v);
    BrokenLinesSplit(ValuePrefix(v), Token(v.info), HexParts(WrittenBytes(v.info, v.value)));
  }

  lemma BrokenLinesSplit(pre: string, t: string, ps: seq<string>)
    requires |ps| > 1
    ensures var n := |ps|;
      BrokenLines(pre + t + ":", ps) == [pre + (t + ":" + ps[0] + "\\")] + HeldLines(ps[1..n - 1]) + ["  " + ps[n - 1]]
  {
    var n := |ps|;
    BrokenIndented(ps[1..]);
    assert ps[1..][..n - 2] == ps[1..n - 1];
    assert pre + t + ":" + ps[0] + "\\" == pre + (t + ":" + ps[0] + "\\");
  }

  /** The buffer of the held value and the last part are the payload. */
  lemma BufferConcat(t: string, ps: seq<string>)
    requires |ps| > 1
    ensures var n := |ps|; (t + ":" + ps[0]) + Concat(ps[1..n - 1]) + ps[n - 1] == t + ":" + Concat(ps)
  {
    var n := |ps|;
    var qs := ps[1..];
    var h := t + ":";
    var m := Concat(ps[1..n - 1]);
    assert qs[..|qs| - 1] == ps[1..n - 1];
    assert Concat(qs) == m + ps[n - 1];
    ConcatCons(ps);
    AppendAssoc(h, ps[0], m);
    AppendAssoc(h, ps[0] + m, ps[n - 1]);
    AppendAssoc(ps[0], m, ps[n - 1]);
  }

  /** The first line of a broken hex value holds it. */
  lemma BrokenFirstStep(st: ReaderState, v: ValueCmd)
    requires InBlock(st) && ReadableValue(v) && !v.remove && IsHexFormat(v.info)
    ensures var t := Token(v.info); var ps := HexParts(WrittenBytes(v.info, v.value));
      Step(st, ValuePrefix(v) + (t + ":" + ps[0] + "\\"))
      == Ok(st.(location := st.location.IncrementLineNumber(), pending := Some(FirstHeld(v))))
  {
    var loc := st.location.IncrementLineNumber();
    var t := Token(v.info);
    var ps := HexParts(WrittenBytes(v.info, v.value));
    var rest := t + ":" + ps[0] + "\\";
    assert ParseValueText(loc, NameCmd(v), rest) == Ok(Hold(FirstHeld(v))) by {
      TokenIsShaped(t);
      TokenRoundTrip(v.info);
      ParseTypedHeld(loc, NameCmd(v), t, ps[0]);
    }
    assert rest != [] && !IsWhiteSpace(rest[0]) by {
      TokenFacts(t);
    }
    StepValueLine(st, v, rest);
  }

  /** The last line of a broken hex value completes it. */
  lemma BrokenLastStep(st: ReaderState, v: ValueCmd)
    requires Valid(st) && st.open && st.location.lineNumber >= 2
    requires ReadableValue(v) && !v.remove && IsHexFormat(v.info)
    requires var ps := HexParts(WrittenBytes(v.info, v.value)); var n := |ps|;
      n > 1 && st.pending == Some(FirstHeld(v).(buffer := FirstHeld(v).buffer + Concat(ps[1..n - 1])))
    ensures var ps := HexParts(WrittenBytes(v.info, v.value));
      Step(st, "  " + ps[|ps| - 1])
      == Ok(ReaderState(st.location.IncrementLineNumber(), AddToLast(st.result, v), true, Nothing))
  {
    var bytes := WrittenBytes(v.info, v.value);
    var ps := HexParts(bytes);
    var n := |ps|;
    var t := Token(v.info);
    var p := st.pending.value;
    HexPartsShape(bytes);
    BufferConcat(t, ps);
    assert p.buffer + ps[n - 1] == t + ":" + Concat(ps);
    assert (t + ":" + Concat(ps))[|t| + 1..] == Concat(ps);
    HexPayload(v, st.location.IncrementLineNumber());
    StepCompleted(st, ps[n - 1], v.value);
    assert NameCmd(v).(info := v.info, value := v.value) == v;
  }

  lemma StepsTwo(st: ReaderState, a: seq<string>, b: seq<string>, st1: ReaderState, st2: ReaderState)
    requires Valid(st) && Valid(st1)
    requires Steps(st, a) == Ok(st1) && Steps(st1, b) == Ok(st2)
    ensures Steps(st, a + b) == Ok(st2)
  {
    StepsAppend(st, a, b, st1);
  }

  lemma StepsThree(st: ReaderState, a: seq<string>, b: seq<string>, c: seq<string>,
                   st1: ReaderState, st2: ReaderState, st3: ReaderState)
    requires Valid(st) && Valid(st1) && Valid(st2)
    requires Steps(st, a) == Ok(st1) && Steps(st1, b) == Ok(st2) && Steps(st2, c) == Ok(st3)
    ensures Steps(st, a + b + c) == Ok(st3)
  {
    StepsAppend(st, a, b, st1);
    StepsAppend(st, a + b, c, st2);
  }

  lemma BrokenHexSteps(st: ReaderState, v: ValueCmd)
    requires InBlock(st) && ReadableValue(v) && !v.remove && IsHexFormat(v.info)
    requires |HexParts(WrittenBytes(v.info, v.value))| > 1
    ensures Steps(st, ValueLines(v))
      == Ok(ReaderState(Advanced(st.location, |ValueLines(v)|), AddToLast(st.result, v), true, Nothing))
  {
    var ps := HexParts(WrittenBytes(v.info, v.value));
    var n := |ps|;
    var first := ValuePrefix(v) + (Token(v.info) + ":" + ps[0] + "\\");
    var mid := ps[1..n - 1];
    var last := "  " + ps[n - 1];
    BrokenHexLines(v);
    HexPartsShape(WrittenBytes(v.info, v.value));
    BrokenFirstStep(st, v);
    var p := FirstHeld(v);
    var st1 := st.(location := st.location.IncrementLineNumber(), pending := Some(p));
    StepsOne(st, first, st1);
    assert forall j :: 0 <= j < |mid| ==> mid[j] == ps[j + 1];
    HeldSteps(st1, mid);
    var st2 := st1.(location := Advanced(st1.location, |mid|), pending := Some(p.(buffer := p.buffer + Concat(mid))));
    BrokenLastStep(st2, v);
    var st3 := ReaderState(st2.location.IncrementLineNumber(), AddToLast(st.result, v), true, Nothing);
    StepsOne(st2, last, st3);
    StepsThree(st, [first], HeldLines(mid), [last], st1, st2, st3);
    assert st3.location == Advanced(st.location, n);
  }

  // ---------------------------------------------------- blocks and files

  lemma AdvancedAdd(loc: SourceLocation, a: nat, b: nat)
    ensures Advanced(Advanced(loc, a), b) == Advanced(loc, a + b)
  {
  }

  /** The value lines of a subkey add its commands, in order. */
  lemma {:induction false} ValuesSteps(loc: SourceLocation, prev: seq<SubKeyCmd>, k: SubKeyCmd, cs: seq<ValueCmd>)
    requires loc.lineNumber >= 2 && forall j :: 0 <= j < |cs| ==> ReadableValue(cs[j])
    ensures Steps(ReaderState(loc, prev + [k.(commands := [])], true, Nothing), ValuesLines(cs))
      == Ok(ReaderState(Advanced(loc, |ValuesLines(cs)|), prev + [k.(commands := cs)], true, Nothing))
    decreases |cs|
  {
    if cs == [] {
      assert Advanced(loc, 0) == loc;
    } else {
      var st := ReaderState(loc, prev + [k.(commands := [])], true, Nothing);
      var init := cs[..|cs| - 1];
      var c := cs[|cs| - 1];
      ValuesSplit(loc, cs);
      var a := ValuesLines(init);
      var b := ValueLines(c);
      var mid := ReaderState(Advanced(loc, |a|), prev + [k.(commands := init)], true, Nothing);
      var fin := ReaderState(Advanced(loc, |a + b|), prev + [k.(commands := cs)], true, Nothing);
      assert Steps(st, a) == Ok(mid) by {
        ValuesSteps(loc, prev, k, init);
      }
      assert Steps(mid, b) == Ok(fin) by {
        ValueStepsAt(Advanced(loc, |a|), prev, k, init, c);
      }
      StepsTwo(st, a, b, mid, fin);
    }
  }

  /** The lines, the commands and the location of one value more. */
  lemma ValuesSplit(loc: SourceLocation, cs: seq<ValueCmd>)
    requires cs != [] && forall j :: 0 <= j < |cs| ==> ReadableValue(cs[j])
    ensures var init := cs[..|cs| - 1]; var c := cs[|cs| - 1];
      && (forall j :: 0 <= j < |init| ==> ReadableValue(init[j])) && ReadableValue(c)
      && ValuesLines(cs) == ValuesLines(init) + ValueLines(c)
      && init + [c] == cs
      && Advanced(Advanced(loc, |ValuesLines(init)|), |ValueLines(c)|) == Advanced(loc, |ValuesLines(cs)|)
  {
    assert cs[..|cs| - 1] + [cs[|cs| - 1]] == cs;
  }

  /** One value command more in the last subkey. */
  lemma ValueStepsAt(loc: SourceLocation, prev: seq<SubKeyCmd>, k: SubKeyCmd, init: seq<ValueCmd>, c: ValueCmd)
    requires loc.lineNumber >= 2 && ReadableValue(c)
    ensures Steps(ReaderState(loc, prev + [k.(commands := init)], true, Nothing), ValueLines(c))
      == Ok(ReaderState(Advanced(loc, |ValueLines(c)|), prev + [k.(commands := init + [c])], true, Nothing))
  {
    ValueSteps(ReaderState(loc, prev + [k.(commands := init)], true, Nothing), c);
    AddToLastSnoc(prev, k, init, c);
  }

  lemma AddToLastSnoc(prev: seq<SubKeyCmd>, k: SubKeyCmd, init: seq<ValueCmd>, c: ValueCmd)
    ensures AddToLast(prev + [k.(commands := init)], c) == prev + [k.(commands := init + [c])]
  {
    var ks := prev + [k.(commands := init)];
    assert ks[..|ks| - 1] == prev;
  }

  /** A block adds its subkey with all its values, and leaves it closed. */
  lemma BlockSteps(loc: SourceLocation, prev: seq<SubKeyCmd>, k: SubKeyCmd)
    requires loc.lineNumber >= 2 && ReadableSubKey(k)
    ensures Steps(ReaderState(loc, prev, false, Nothing), BlockLines(k))
      == Ok(ReaderState(Advanced(loc, |BlockLines(k)|), prev + [k], false, Nothing))
  {
    var st := ReaderState(loc, prev, false, Nothing);
    var h := WrittenHeader(k);
    var vs := ValuesLines(k.commands);
    var loc1 := Advanced(loc, 1);
    var loc2 := Advanced(loc1, |vs|);
    var st1 := ReaderState(loc1, prev + [k.(commands := [])], true, Nothing);
    var st2 := ReaderState(loc2, prev + [k], true, Nothing);
    var st3 := ReaderState(Advanced(loc, |BlockLines(k)|), prev + [k], false, Nothing);
    assert BlockLines(k) == [h] + vs + [""];
    assert Steps(st, [h]) == Ok(st1) by {
      HeaderLineSteps(loc, prev, k);
    }
    assert Steps(st1, vs) == Ok(st2) by {
      ValuesSteps(loc1, prev, k, k.commands);
      assert k.(commands := k.commands) == k;
    }
    assert Steps(st2, [""]) == Ok(st3) by {
      BlankLineSteps(loc2, prev + [k]);
      assert Advanced(loc2, 1) == Advanced(loc, |BlockLines(k)|);
    }
    StepsThree(st, [h], vs, [""], st1, st2, st3);
  }

  /** The header line of a block opens the subkey it names. */
  lemma HeaderLineSteps(loc: SourceLocation, prev: seq<SubKeyCmd>, k: SubKeyCmd)
    requires loc.lineNumber >= 2 && ReadableSubKey(k)
    ensures Steps(ReaderState(loc, prev, false, Nothing), [WrittenHeader(k)])
      == Ok(ReaderState(Advanced(loc, 1), prev + [k.(commands := [])], true, Nothing))
  {
    var st := ReaderState(loc, prev, false, Nothing);
    var st1 := ReaderState(Advanced(loc, 1), prev + [k.(commands := [])], true, Nothing);
    assert Step(st, WrittenHeader(k)) == Ok(st1) by {
      StepHeader(st, k);
    }
    StepsOne(st, WrittenHeader(k), st1);
  }

  /** The blank line after a block closes it. */
  lemma BlankLineSteps(loc: SourceLocation, result: seq<SubKeyCmd>)
    requires loc.lineNumber >= 2 && |result| > 0
    ensures Steps(ReaderState(loc, result, true, Nothing), [""])
      == Ok(ReaderState(Advanced(loc, 1), result, false, Nothing))
  {
    var st := ReaderState(loc, result, true, Nothing);
    var st1 := ReaderState(Advanced(loc, 1), result, false, Nothing);
    assert Step(st, "") == Ok(st1) by {
      StepBlank(st);
    }
    StepsOne(st, "", st1);
  }

  lemma {:induction false} BlocksSteps(loc: SourceLocation, prev: seq<SubKeyCmd>, ks: seq<SubKeyCmd>)
    requires loc.lineNumber >= 2 && ReadableFile(ks)
    ensures Steps(ReaderState(loc, prev, false, Nothing), BlocksLines(ks))
      == Ok(ReaderState(Advanced(loc, |BlocksLines(ks)|), prev + ks, false, Nothing))
    decreases |ks|
  {
    if ks == [] {
      assert Advanced(loc, 0) == loc;
      assert prev + ks == prev;
    } else {
      var st := ReaderState(loc, prev, false, Nothing);
      var init := ks[..|ks| - 1];
      var k := ks[|ks| - 1];
      BlocksSplit(loc, prev, ks);
      var a := BlocksLines(init);
      var b := BlockLines(k);
      var mid := ReaderState(Advanced(loc, |a|), prev + init, false, Nothing);
      var fin := ReaderState(Advanced(loc, |a + b|), prev + ks, false, Nothing);
      assert Steps(st, a) == Ok(mid) by {
        BlocksSteps(loc, prev, init);
      }
      assert Steps(mid, b) == Ok(fin) by {
        BlockSteps(Advanced(loc, |a|), prev + init, k);
      }
      StepsTwo(st, a, b, mid, fin);
    }
  }

  /** The lines, the commands and the location of one block more. */
  lemma BlocksSplit(loc: SourceLocation, prev: seq<SubKeyCmd>, ks: seq<SubKeyCmd>)
    requires ReadableFile(ks) && ks != []
    ensures var init := ks[..|ks| - 1]; var k := ks[|ks| - 1];
      && ReadableFile(init) && ReadableSubKey(k)
      && BlocksLines(ks) == BlocksLines(init) + BlockLines(k)
      && prev + init + [k] == prev + ks
      && Advanced(Advanced(loc, |BlocksLines(init)|), |BlockLines(k)|) == Advanced(loc, |BlocksLines(ks)|)
  {
    var init := ks[..|ks| - 1];
    assert init + [ks[|ks| - 1]] == ks;
  }

  /** The signature and the empty line leave nothing read, at line 2. */
  lemma PreambleSteps(source: string)
    ensures Steps(Start(source), [Signature, ""]) == Ok(ReaderState(SourceLocation(source, 2), [], false, Nothing))
  {
    var st1 := ReaderState(SourceLocation(source, 1), [], false, Nothing);
    assert Step(Start(source), Signature) == Ok(st1);
    StepsCons(Start(source), [Signature, ""], st1);
    assert [Signature, ""][1..] == [""];
    StepsOne(st1, "", ReaderState(SourceLocation(source, 2), [], false, Nothing));
  }

  /** Reading the written lines gives the commands written. */
  lemma ParseFileLines(source: string, ks: seq<SubKeyCmd>)
    requires ReadableFile(ks)
    ensures Parse(source, FileLines(ks)) == Ok(ks)
  {
    PreambleSteps(source);
    var st := ReaderState(SourceLocation(source, 2), [], false, Nothing);
    StepsAppend(Start(source), [Signature, ""], BlocksLines(ks), st);
    BlocksSteps(SourceLocation(source, 2), [], ks);
    assert [] + ks == ks;
  }

  /** RegFileWriter then RegFileReader: the text written for readable
      commands reads back as the same commands. */
  lemma ReadWritten(source: string, ks: seq<SubKeyCmd>)
    requires ReadableFile(ks)
    ensures FileEmission(ks).outcome == Pass
    ensures Parse(source, ReadLines(FileEmission(ks).text)) == Ok(ks)
  {
    FileText(ks);
    FileLinesSingle(ks);
    ReadLinesJoinLines(FileLines(ks));
    ParseFileLines(source, ks);
  }

  /** RegFileReader then RegFileWriter: a file in the writer's own layout
      is written back character for character. */
  lemma WriteRead(source: string, text: string, ks: seq<SubKeyCmd>)
    requires ReadableFile(ks) && text == FileEmission(ks).text
    ensures var r := Parse(source, ReadLines(text)); r.Ok? && FileEmission(r.value) == Emission(text, Pass)
  {
    ReadWritten(source, ks);
  }
}
