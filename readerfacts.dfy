/** What RegFileReader.Read does with particular lines: the fixed first two
    lines, blank lines, comments, headers, value lines with no subkey, a
    value still held at the end, and where every failure is reported. */
module ReaderFacts {
  import opened RegTypes
  import opened Strings
  import opened RegFileExtensions
  import opened RegistryCommands
  import opened RegFileReading
  import opened ReadingBack
  import opened RoundTrip

  // ------------------------------------------------------ the preamble

  /** An empty input is an empty file: no lines, no commands. */
  lemma ParseNoLines(source: string)
    ensures Parse(source, []) == Ok([])
  {
  }

  /** The signature and one blank line make a file with no commands. */
  lemma ParsePreambleOnly(source: string, blank: string)
    requires IsBlank(blank)
    ensures Parse(source, [Signature, blank]) == Ok([])
  {
    var st1 := ReaderState(SourceLocation(source, 1), [], false, Nothing);
    assert Step(Start(source), Signature) == Ok(st1);
    StepsCons(Start(source), [Signature, blank], st1);
    assert [Signature, blank][1..] == [blank];
    var st2 := ReaderState(SourceLocation(source, 2), [], false, Nothing);
    assert Step(st1, blank) == Ok(st2);
    StepsOne(st1, blank, st2);
  }

  /** A first line other than the signature fails at line 1. */
  lemma ParseWrongSignature(source: string, lines: seq<string>)
    requires lines != [] && lines[0] != Signature
    ensures Parse(source, lines) == Err(IOException(SourceLocation(source, 1), ExpectedSignature))
  {
    var loc := SourceLocation(source, 1);
    StepsLine(Start(source), lines, loc, Dispatch(Start(source).(location := loc), lines[0]));
  }

  /** After the signature, a second line with text on it fails at line 2. */
  lemma ParseWrongSecondLine(source: string, lines: seq<string>)
    requires |lines| >= 2 && lines[0] == Signature && !IsBlank(lines[1])
    ensures Parse(source, lines) == Err(IOException(SourceLocation(source, 2), ExpectedBlankLine))
  {
    var st1 := ReaderState(SourceLocation(source, 1), [], false, Nothing);
    assert Step(Start(source), Signature) == Ok(st1);
    StepsCons(Start(source), lines, st1);
    var loc := SourceLocation(source, 2);
    StepsLine(st1, lines[1..], loc, Dispatch(st1.(location := loc), lines[1]));
  }

  // --------------------------------------------------- where errors are

  /** A failure is an IOException naming the source and one of the lines
      read, counting on from the state's own line. */
  lemma {:induction false} StepsErrorLine(st: ReaderState, lines: seq<string>)
    requires Valid(st)
    ensures var r := Steps(st, lines);
      r.Err? ==>
        && r.error.IOException? && r.error.location.source == st.location.source
        && st.location.lineNumber < r.error.location.lineNumber <= st.location.lineNumber + |lines|
    decreases |lines|
  {
    if lines != [] {
      match Step(st, lines[0])
      case Err(e) =>
      case Ok(next) =>
        StepsErrorLine(next, lines[1..]);
    }
  }

  /** Read fails only with an IOException whose location is a line of
      the input, numbered from 1. */
  lemma ParseErrorLine(source: string, lines: seq<string>)
    ensures var r := Parse(source, lines);
      r.Err? ==>
        && r.error.IOException? && r.error.location.source == source
        && 1 <= r.error.location.lineNumber <= |lines|
  {
    StepsErrorLine(Start(source), lines);
  }

  // ---------------------------------------------- one line from line 3 on

  /** A blank line ends the current subkey; a value still held is kept. */
  lemma StepBlankLine(st: ReaderState, line: string)
    requires Valid(st) && st.location.lineNumber >= 2 && IsBlank(line)
    ensures Step(st, line) == Ok(st.(location := st.location.IncrementLineNumber(), open := false))
  {
  }

  /** A comment changes nothing but the line number, even in the middle of
      a value that goes on over several lines. */
  lemma StepComment(st: ReaderState, line: string)
    requires Valid(st) && st.location.lineNumber >= 2 && !IsBlank(line) && TrimStart(line)[0] == ';'
    ensures Step(st, line) == Ok(st.(location := st.location.IncrementLineNumber()))
  {
    DispatchLater(st.(location := st.location.IncrementLineNumber()), line);
  }

  /** Outside a subkey, with no value held, a line that is neither blank,
      a comment nor a header is rejected at that line. */
  lemma StepOutsideSubKey(st: ReaderState, line: string)
    requires Valid(st) && st.location.lineNumber >= 2 && !st.open && st.pending.Nothing?
    requires !IsBlank(line) && TrimStart(line)[0] != ';' && TrimStart(line)[0] != '['
    ensures Step(st, line) == Err(IOException(st.location.IncrementLineNumber(), ExpectedQuote))
  {
    DispatchLater(st.(location := st.location.IncrementLineNumber()), line);
  }

  /** A header always adds a new, empty subkey command at the end and makes
      it current, even when an earlier header named the same key. */
  lemma StepHeaderAppends(st: ReaderState, line: string)
    requires Valid(st) && st.location.lineNumber >= 2 && !IsBlank(line) && TrimStart(line)[0] == '['
    ensures var r := Step(st, line);
      r.Ok? ==>
        && |r.value.result| == |st.result| + 1 && r.value.result[..|st.result|] == st.result
        && r.value.result[|st.result|].commands == [] && r.value.open && r.value.pending == st.pending
  {
    var loc := st.location.IncrementLineNumber();
    var h := StepHeaderLine(st, line);
    HeaderStepAppends(st.(location := loc), h);
  }

  /** The trimmed header text a header line is handed on as. */
  lemma StepHeaderLine(st: ReaderState, line: string) returns (h: string)
    requires Valid(st) && st.location.lineNumber >= 2 && !IsBlank(line) && TrimStart(line)[0] == '['
    ensures |h| > 0 && h[0] == '['
    ensures var loc := st.location.IncrementLineNumber();
      Step(st, line) == Located(loc, HeaderStep(st.(location := loc), h))
  {
    var loc := st.location.IncrementLineNumber();
    var st' := st.(location := loc);
    var d := TrimStart(line);
    NotBlankAt(d, 0);
    h := TrimEnd(d);
    DispatchLater(st', line);
  }

  /** From line 3 on, a line with text is dispatched without its leading
      white space. */
  lemma DispatchLater(st: ReaderState, line: string)
    requires Valid(st) && st.location.lineNumber >= 3 && !IsBlank(line)
    ensures Dispatch(st, line) == DispatchData(st, TrimStart(line))
  {
  }

  lemma HeaderStepAppends(st: ReaderState, h: string)
    requires Valid(st) && |h| > 0 && h[0] == '['
    ensures var r := HeaderStep(st, h);
      r.Ok? ==>
        && |r.value.result| == |st.result| + 1 && r.value.result[..|st.result|] == st.result
        && r.value.result[|st.result|].commands == [] && r.value.open && r.value.pending == st.pending
  {
    var r := HeaderStep(st, h);
    if r.Ok? {
      var k := ParseHeader(st.location, h).value;
      assert r.value == st.(result := st.result + [k], open := true);
      assert (st.result + [k])[..|st.result|] == st.result;
    }
  }

  /** CreateCommand: "@" is the default value, a quoted name needs its
      closing quote and must not be empty, anything else is rejected. */
  lemma ValueNameCases(loc: SourceLocation, data: string)
    requires |data| > 0
    ensures data[0] == '@' ==> ParseValueName(loc, data) == Ok((NewValue.(isDefault := true), data[1..]))
    ensures data[0] == '"' && '"' !in data[1..] ==>
      ParseValueName(loc, data) == Err(IOException(loc, MissingClosingQuoteInKey))
    ensures |data| >= 2 && data[0] == '"' && data[1] == '"' ==> ParseValueName(loc, data) == Err(ArgumentException)
    ensures data[0] != '@' && data[0] != '"' ==>
      ParseValueName(loc, data) == Err(IOException(loc, InvalidKeySpecification))
  {
  }

  /** After the name exactly one UTF-16 code unit is skipped, whatever it
      is, before the value text is left-trimmed: a character of the Basic
      Multilingual Plane is skipped whole; of a supplementary character the
      low surrogate stays and the line fails on its type token. */
  lemma ValueSkipsOneCharacter(loc: SourceLocation, name: string, c: char, t: string)
    requires name != [] && '"' !in name && '=' in [c] + t
    ensures !IsSupplementary(c) ==>
      ParseValue(loc, "\"" + name + "\"" + [c] + t) == ParseValueText(loc, NewValue.(name := name), TrimStart(t))
    ensures IsSupplementary(c) ==>
      ParseValue(loc, "\"" + name + "\"" + [c] + t)
      == Err(IOException(loc, if ':' in t then CannotProcessValueType else MissingColon))
  {
    var rest := [c] + t;
    QuotedName(loc, name, rest);
    assert "\"" + name + "\"" + [c] + t == "\"" + name + "\"" + rest;
    assert rest[1..] == t;
  }

  /** A quoted name is read up to its closing quote. */
  lemma QuotedName(loc: SourceLocation, name: string, rest: string)
    requires name != [] && '"' !in name
    ensures ParseValueName(loc, "\"" + name + "\"" + rest) == Ok((NewValue.(name := name), rest))
  {
    var data := "\"" + name + "\"" + rest;
    var d := data[1..];
    assert d == name + "\"" + rest;
    assert d[..|name|] == name;
    IndexOfAt(d, '"', |name|);
    assert d[|name| + 1..] == rest;
  }

  // ---------------------------------------------------- concrete files

  /** A removed subkey still collects the value lines under it. */
  lemma ParseRemovalKeepsValues(source: string)
    ensures Parse(source, [Signature, "", "[-HKEY_USERS\\S]", "\"a\"=-", ""])
      == Ok([SubKeyCmd(Hive.Users, "S", true, [ValueCmd("a", false, true, DefaultInfo, Null)])])
  {
    var v := ValueCmd("a", false, true, DefaultInfo, Null);
    var k := SubKeyCmd(Hive.Users, "S", true, [v]);
    assert IsSingleLine("a") && IsSingleLine("S") by {
      assert forall j :: 0 <= j < 1 ==> "a"[j] == 'a' && "S"[j] == 'S';
    }
    NotBlankAt("S", 0);
    assert ReadableFile([k]);
    assert ReadableValue(v);
    assert ValuePrefix(v) + "-" == "\"a\"=-";
    assert ValueLines(v) == ["\"a\"=-"];
    assert ValuesLines([v]) == ["\"a\"=-"] by {
      assert [v][..0] == [];
    }
    assert WrittenHeader(k) == "[-HKEY_USERS\\S]";
    assert BlocksLines([k]) == BlockLines(k) by {
      assert [k][..0] == [];
    }
    assert FileLines([k]) == [Signature, "", "[-HKEY_USERS\\S]", "\"a\"=-", ""];
    ParseFileLines(source, [k]);
  }

  /** The preamble and the header of an empty subkey of HKEY_USERS. */
  lemma UsersPreamble(source: string)
    ensures Steps(Start(source), [Signature, "", "[HKEY_USERS\\S]"])
      == Ok(ReaderState(SourceLocation(source, 3), [SubKeyCmd(Hive.Users, "S", false, [])], true, Nothing))
  {
    var k := SubKeyCmd(Hive.Users, "S", false, []);
    assert IsSingleLine("S") by {
      assert forall j :: 0 <= j < 1 ==> "S"[j] == 'S';
    }
    NotBlankAt("S", 0);
    assert ReadableSubKey(k);
    var header := WrittenHeader(k);
    assert header == "[HKEY_USERS\\S]";
    PreambleSteps(source);
    var st2 := ReaderState(SourceLocation(source, 2), [], false, Nothing);
    HeaderLineSteps(SourceLocation(source, 2), [], k);
    assert [] + [k.(commands := [])] == [k] && Advanced(SourceLocation(source, 2), 1) == SourceLocation(source, 3);
    StepsAppend(Start(source), [Signature, ""], [header], st2);
    assert [Signature, ""] + [header] == [Signature, "", header];
    assert Steps(Start(source), [Signature, "", header]) == Steps(st2, [header]);
  }

  /** A value line ending in a backslash is held, not added. */
  lemma HeldLine(st: ReaderState)
    requires InBlock(st)
    ensures var r := Step(st, "\"a\"=hex:01,\\");
      r.Ok? && r.value.result == st.result && r.value.pending.Some?
  {
    var loc := st.location.IncrementLineNumber();
    var v := ValueCmd("a", false, false, RegValueInfo(ValueKind.Binary, ValueFormat.HexValues), Bytes([1]));
    assert ReadableValue(v) by {
      assert IsSingleLine("a") by {
        assert forall j :: 0 <= j < 1 ==> "a"[j] == 'a';
      }
    }
    var rest := "hex" + ":" + "01," + "\\";
    assert ValuePrefix(v) + rest == "\"a\"=hex:01,\\";
    StepValueLine(st, v, rest);
    TokenIsShaped("hex");
    ParseTypedHeld(loc, NameCmd(v), "hex", "01,");
  }

  /** A value whose last line ends in a backslash at the end of the input
      is dropped: the subkey it was in stays empty. */
  lemma ParsePendingDropped(source: string)
    ensures Parse(source, [Signature, "", "[HKEY_USERS\\S]", "\"a\"=hex:01,\\"])
      == Ok([SubKeyCmd(Hive.Users, "S", false, [])])
  {
    var line := "\"a\"=hex:01,\\";
    var st3 := ReaderState(SourceLocation(source, 3), [SubKeyCmd(Hive.Users, "S", false, [])], true, Nothing);
    UsersPreamble(source);
    HeldLine(st3);
    var st4 := Step(st3, line).value;
    StepsOne(st3, line, st4);
    StepsAppend(Start(source), [Signature, "", "[HKEY_USERS\\S]"], [line], st3);
    assert [Signature, "", "[HKEY_USERS\\S]"] + [line] == [Signature, "", "[HKEY_USERS\\S]", line];
  }
}
