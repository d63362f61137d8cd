/** RegistryValueCommand and RegistrySubKeyCommand: the parsed form of a
    .reg file, and the text each command writes. A command is a class whose
    setters update its fields; its state as a value is its Model(), and the
    text it writes is a function of that model. */
module RegistryCommands {
  import opened RegTypes
  import opened Strings
  import opened RegFileExtensions

  /** The state of a RegistryValueCommand. */
  datatype ValueCmd = ValueCmd(name: string, isDefault: bool, remove: bool, info: RegValueInfo, value: Value)

  /** The state of a RegistrySubKeyCommand, with its value commands in order. */
  datatype SubKeyCmd = SubKeyCmd(hive: Hive, subKey: string, remove: bool, commands: seq<ValueCmd>)

  /** What a sequence of writes leaves in the writer, and whether it ended
      by raising an exception (the text then stops where the exception was
      raised). */
  datatype Emission = Emission(text: string, outcome: Outcome) {
    /** These writes, then the next ones unless these raised. */
    function Then(next: Emission): (r: Emission)
      ensures outcome.Fail? ==> r == this
      ensures outcome.Pass? ==> r.text == text + next.text && r.outcome == next.outcome
    {
      if outcome.Fail? then this else Emission(text + next.text, next.outcome)
    }
  }

  /** Then is associative, so a writer's blocks can be grouped at will. */
  lemma ThenAssoc(a: Emission, b: Emission, c: Emission)
    ensures a.Then(b).Then(c) == a.Then(b.Then(c))
  {
    if a.outcome.Pass? && b.outcome.Pass? {
      AppendAssoc(a.text, b.text, c.text);
    }
  }

  /** The start of a value line: "@=" for the default value, otherwise the
      name between quotes, written as it is, and "=". */
  function ValuePrefix(v: ValueCmd): string
  {
    if v.isDefault then "@=" else "\"" + v.name + "\"="
  }

  /** RegistryValueCommand.WriteTo: the prefix, then "-" for a removal or the
      encoded value, then one newline. An encoding failure leaves only the
      prefix written. */
  function ValueEmission(v: ValueCmd): (e: Emission)
    ensures e.outcome.Pass? <==> v.remove || RegFileValue(v.info, v.value).Ok?
  {
    if v.remove then Emission(ValuePrefix(v) + "-" + NewLine, Pass)
    else
      match RegFileValue(v.info, v.value)
      case Err(err) => Emission(ValuePrefix(v), Fail(err))
      case Ok(s) => Emission(ValuePrefix(v) + s + NewLine, Pass)
  }

  /** A removal is written without encoding its value, whatever the value is. */
  lemma ValueEmissionRemove(v: ValueCmd)
    requires v.remove
    ensures ValueEmission(v) == Emission(ValuePrefix(v) + "-\n", Pass)
    ensures ValueEmission(v) == ValueEmission(v.(info := DefaultInfo, value := Null))
  {
  }

  /** A value that is written ends its text with exactly one newline, and
      the text before it is the prefix and the encoded value. */
  lemma ValueEmissionLine(v: ValueCmd)
    requires !v.remove && RegFileValue(v.info, v.value).Ok?
    ensures var t := ValueEmission(v).text;
      |t| >= 1 && t[|t| - 1] == '\n' && t[..|t| - 1] == ValuePrefix(v) + RegFileValue(v.info, v.value).value
  {
    var t := ValueEmission(v).text;
    assert t == (ValuePrefix(v) + RegFileValue(v.info, v.value).value) + "\n";
  }

  lemma ValueEmissionFailed(v: ValueCmd)
    requires !v.remove && RegFileValue(v.info, v.value).Err?
    ensures ValueEmission(v) == Emission(ValuePrefix(v), Fail(RegFileValue(v.info, v.value).error))
  {
  }

  lemma ValueEmissionWritten(v: ValueCmd)
    requires !v.remove && RegFileValue(v.info, v.value).Ok?
    ensures ValueEmission(v) == Emission(ValuePrefix(v) + RegFileValue(v.info, v.value).value + NewLine, Pass)
  {
  }

  /** The value commands written one after the other, up to the first that
      raises. */
  function ValuesEmission(cs: seq<ValueCmd>): Emission
  {
    if cs == [] then Emission("", Pass)
    else ValuesEmission(cs[..|cs| - 1]).Then(ValueEmission(cs[|cs| - 1]))
  }

  /** The commands write nothing but their own lines, in order. */
  lemma {:induction false} ValuesEmissionAppend(a: seq<ValueCmd>, b: seq<ValueCmd>)
    ensures ValuesEmission(a + b) == ValuesEmission(a).Then(ValuesEmission(b))
    decreases |b|
  {
    if b == [] {
      assert a + b == a;
    } else {
      var n := |b|;
      assert (a + b)[..|a + b| - 1] == a + b[..n - 1];
      assert (a + b)[|a + b| - 1] == b[n - 1];
      ValuesEmissionAppend(a, b[..n - 1]);
      ThenAssoc(ValuesEmission(a), ValuesEmission(b[..n - 1]), ValueEmission(b[n - 1]));
    }
  }

  /** The opening of a header line: "[", and "-" for a removal. */
  function Opening(remove: bool): string
  {
    "[" + (if remove then "-" else "")
  }

  /** The header line of a subkey: "[", "-" for a removal, the hive name, a
      backslash, the subkey, "]". */
  function Header(name: string, k: SubKeyCmd): string
  {
    Opening(k.remove) + name + "\\" + k.subKey + "]"
  }

  /** RegistrySubKeyCommand.WriteTo: the header line, then every value
      command, even for a removal. A hive with no name raises after "[" (and
      the "-"). */
  function SubKeyEmission(k: SubKeyCmd): (e: Emission)
    ensures HiveToString(k.hive).Err? ==> e.outcome == Fail(ArgumentOutOfRangeException)
  {
    match HiveToString(k.hive)
    case Err(err) => Emission(Opening(k.remove), Fail(err))
    case Ok(name) => Emission(Header(name, k) + NewLine, Pass).Then(ValuesEmission(k.commands))
  }

  /** Once a command raises, the later ones write nothing. */
  lemma ValuesFailed(cs: seq<ValueCmd>, k: nat)
    requires k <= |cs| && ValuesEmission(cs[..k]).outcome.Fail?
    ensures ValuesEmission(cs) == ValuesEmission(cs[..k])
  {
    assert cs == cs[..k] + cs[k..];
    ValuesEmissionAppend(cs[..k], cs[k..]);
  }

  /** When the hive has a name, the subkey writes its header line and then
      exactly what its value commands write, in order. */
  lemma SubKeyEmissionParts(k: SubKeyCmd)
    requires HiveToString(k.hive).Ok?
    ensures SubKeyEmission(k).text == Header(HiveToString(k.hive).value, k) + NewLine + ValuesEmission(k.commands).text
    ensures SubKeyEmission(k).outcome == ValuesEmission(k.commands).outcome
  {
  }

  /** System.String[] holds references and so can be compared by model only
      through this helper: the models of a list of value commands. */
  function ValueModels(cs: seq<RegistryValueCommand>): (r: seq<ValueCmd>)
    reads cs
    ensures |r| == |cs|
  {
    if cs == [] then [] else ValueModels(cs[..|cs| - 1]) + [cs[|cs| - 1].Model()]
  }

  /** The j-th model is the model of the j-th command. */
  lemma {:induction false} ValueModelsIndex(cs: seq<RegistryValueCommand>, j: nat)
    requires j < |cs|
    ensures ValueModels(cs)[j] == cs[j].Model()
    decreases |cs|
  {
    if j < |cs| - 1 {
      ValueModelsIndex(cs[..|cs| - 1], j);
    }
  }

  class RegistryValueCommand {
    var Name: string
    var Value: Value
    var Remove: bool
    var IsDefault: bool
    var valueInfo: RegValueInfo

    function Model(): ValueCmd
      reads this
    {
      ValueCmd(Name, IsDefault, Remove, valueInfo, Value)
    }

    /** A new command: not the default value, not a removal, no value, the
        zero descriptor. The null Name of .NET is the empty name here. */
    constructor()
      ensures Model() == ValueCmd("", false, false, DefaultInfo, Null)
    {
      Name := "";
      Value := Null;
      Remove := false;
      IsDefault := false;
      valueInfo := DefaultInfo;
    }

    /** SetDefault: the default value, addressed by the empty name. */
    method SetDefault()
      modifies this
      ensures Model() == old(Model()).(isDefault := true, name := "")
      ensures IsDefault <==> Name == ""
    {
      IsDefault := true;
      Name := "";
    }

    /** SetName: null and the empty name are rejected and change nothing. */
    method SetName(name: Option<string>) returns (r: Outcome)
      modifies this
      ensures name.Nothing? ==> r == Fail(ArgumentNullException) && Model() == old(Model())
      ensures name == Some("") ==> r == Fail(ArgumentException) && Model() == old(Model())
      ensures name.Some? && name.value != "" ==>
        r == Pass && Model() == old(Model()).(isDefault := false, name := name.value)
      ensures r.Pass? ==> (IsDefault <==> Name == "")
    {
      if name.Nothing? {
        return Fail(ArgumentNullException);
      }
      if |name.value| == 0 {
        return Fail(ArgumentException);
      }
      IsDefault := false;
      Name := name.value;
      return Pass;
    }

    /** SetValue: the value and its descriptor; the kind and format the
        command reports are the descriptor's. */
    method SetValue(info: RegValueInfo, value: Value)
      modifies this
      ensures Model() == old(Model()).(info := info, value := value)
      ensures valueInfo.kind == info.kind && valueInfo.format == info.format
    {
      Value := value;
      valueInfo := info;
    }

    /** WriteTo: exactly the text ValueEmission gives for this command. */
    method WriteTo(writer: TextWriter) returns (r: Outcome)
      modifies writer
      ensures writer.Written == old(writer.Written) + ValueEmission(old(Model())).text
      ensures r == ValueEmission(old(Model())).outcome
    {
      ghost var m := Model();
      ghost var start := writer.Written;
      if IsDefault {
        writer.Write("@=");
      } else {
        writer.Write("\"");
        writer.Write(Name);
        writer.Write("\"=");
        assert writer.Written == start + ValuePrefix(m) by {
          AppendAssoc(start, "\"", Name);
          AppendAssoc(start, "\"" + Name, "\"=");
        }
      }
      ghost var afterPrefix := writer.Written;
      if Remove {
        writer.Write("-");
        writer.WriteLine("");
        assert writer.Written == start + (ValuePrefix(m) + "-" + NewLine) by {
          AppendAssoc(start, ValuePrefix(m), "-");
          AppendAssoc(start, ValuePrefix(m) + "-", NewLine);
        }
        ValueEmissionRemove(m);
        return Pass;
      }
      var s := GetRegFileValue(valueInfo, Value);
      if s.Err? {
        ValueEmissionFailed(m);
        return Fail(s.error);
      }
      writer.Write(s.value);
      writer.WriteLine("");
      assert writer.Written == start + (ValuePrefix(m) + s.value + NewLine) by {
        AppendAssoc(start, ValuePrefix(m), s.value);
        AppendAssoc(start, ValuePrefix(m) + s.value, NewLine);
      }
      ValueEmissionWritten(m);
      return Pass;
    }
  }

  class RegistrySubKeyCommand {
    var Hive: Hive
    var SubKey: string
    var Remove: bool
    var Commands: seq<RegistryValueCommand>

    function Model(): SubKeyCmd
      reads this, Commands
    {
      SubKeyCmd(Hive, SubKey, Remove, ValueModels(Commands))
    }

    /** new RegistrySubKeyCommand(): Hive holds the enum's zero value, which
        names no hive, so writing a fresh command fails in HiveToString. */
    constructor()
      ensures Model() == SubKeyCmd(Undefined(0), "", false, [])
      ensures SubKeyEmission(Model()).outcome == Fail(ArgumentOutOfRangeException)
    {
      Hive := Undefined(0);
      SubKey := "";
      Remove := false;
      Commands := [];
    }

    /** WriteTo: exactly the text SubKeyEmission gives for this command. */
    method WriteTo(writer: TextWriter) returns (r: Outcome)
      modifies writer
      ensures writer.Written == old(writer.Written) + SubKeyEmission(old(Model())).text
      ensures r == SubKeyEmission(old(Model())).outcome
    {
      ghost var m := Model();
      ghost var start := writer.Written;
      var cs := Commands;
      var name := WriteHeader(writer, Hive, SubKey, Remove, m, cs);
      if name.Err? {
        return Fail(name.error);
      }
      r := WriteCommands(cs, writer);
      SubKeyWritten(m, start, name.value, writer.Written);
    }
  }

  /** The header line of RegistrySubKeyCommand.WriteTo: "[" (and "-"), then,
      when the hive has a name, the name, the path, "]" and the line end.
      Writing it leaves the value commands as they were. */
  method WriteHeader(writer: TextWriter, hive: Hive, subKey: string, remove: bool, ghost k: SubKeyCmd,
                     ghost cs: seq<RegistryValueCommand>) returns (name: Result<string>)
    requires k.hive == hive && k.subKey == subKey && k.remove == remove
    modifies writer
    ensures name == HiveToString(hive)
    ensures name.Err? ==> writer.Written == old(writer.Written) + Opening(remove)
    ensures name.Ok? ==> writer.Written == old(writer.Written) + (Header(name.value, k) + NewLine)
    ensures ValueModels(cs) == old(ValueModels(cs))
  {
    ghost var start := writer.Written;
    WriteOpening(writer, remove);
    name := HiveToString(hive);
    if name.Ok? {
      WriteHeaderRest(writer, start, name.value, k, subKey);
    }
  }

  method WriteOpening(writer: TextWriter, remove: bool)
    modifies writer
    ensures writer.Written == old(writer.Written) + Opening(remove)
  {
    writer.Write("[");
    if remove {
      writer.Write("-");
    }
    assert writer.Written == old(writer.Written) + Opening(remove) by {
      AppendAssoc(old(writer.Written), "[", "-");
    }
  }

  /** The rest of the header line once the hive has a name. */
  method WriteHeaderRest(writer: TextWriter, ghost start: string, name: string, ghost k: SubKeyCmd, subKey: string)
    requires subKey == k.subKey
    requires writer.Written == start + Opening(k.remove)
    modifies writer
    ensures writer.Written == start + (Header(name, k) + NewLine)
  {
    ghost var open := Opening(k.remove);
    writer.Write(name);
    writer.Write("\\");
    writer.Write(subKey);
    writer.Write("]");
    writer.WriteLine("");
    assert writer.Written == start + (Header(name, k) + NewLine) by {
      AppendAssoc(start, open, name);
      AppendAssoc(start, open + name, "\\");
      AppendAssoc(start, open + name + "\\", subKey);
      AppendAssoc(start, open + name + "\\" + subKey, "]");
      AppendAssoc(start, open + name + "\\" + subKey + "]", NewLine);
    }
  }

  /** One pass of the foreach of RegistrySubKeyCommand.WriteTo; writing one
      value command leaves the models of all of them as they were. */
  method WriteCommandAt(cs: seq<RegistryValueCommand>, i: nat, writer: TextWriter) returns (r: Outcome)
    requires i < |cs|
    modifies writer
    ensures ValueModels(cs) == old(ValueModels(cs))
    ensures writer.Written == old(writer.Written) + ValueEmission(old(ValueModels(cs))[i]).text
    ensures r == ValueEmission(old(ValueModels(cs))[i]).outcome
  {
    ValueModelsIndex(cs, i);
    r := cs[i].WriteTo(writer);
  }

  /** The foreach of RegistrySubKeyCommand.WriteTo: each value command in
      turn, stopping at the first that fails. */
  method WriteCommands(cs: seq<RegistryValueCommand>, writer: TextWriter) returns (r: Outcome)
    modifies writer
    ensures writer.Written == old(writer.Written) + ValuesEmission(ValueModels(cs)).text
    ensures r == ValuesEmission(ValueModels(cs)).outcome
  {
    ghost var start := writer.Written;
    ghost var cmds := ValueModels(cs);
    r := Pass;
    var i := 0;
    while i < |cs| && r.Pass?
      invariant 0 <= i <= |cs|
      invariant ValueModels(cs) == cmds
      invariant writer.Written == start + ValuesEmission(cmds[..i]).text
      invariant ValuesEmission(cmds[..i]).outcome == r
    {
      ghost var before := ValuesEmission(cmds[..i]).text;
      r := WriteCommandAt(cs, i, writer);
      assert writer.Written == start + (before + ValueEmission(cmds[i]).text) by {
        AppendAssoc(start, before, ValueEmission(cmds[i]).text);
      }
      ValuesStep(cmds, i);
      i := i + 1;
    }
    if r.Fail? {
      ValuesFailed(cmds, i);
    } else {
      assert cmds[..i] == cmds;
    }
  }

  /** The models of a sequence of subkey commands, in order. This and the
      two lemmas after it follow ValueModels and its lemmas: the reads
      clause differs (it reaches into each subkey's value commands), and a
      shared version would need a projection function with its own reads. */
  function SubKeyModels(ks: seq<RegistrySubKeyCommand>): (r: seq<SubKeyCmd>)
    reads ks, set i, j | 0 <= i < |ks| && 0 <= j < |ks[i].Commands| :: ks[i].Commands[j]
    ensures |r| == |ks|
    decreases |ks|
  {
    if ks == [] then [] else SubKeyModels(ks[..|ks| - 1]) + [ks[|ks| - 1].Model()]
  }

  /** The j-th model is the model of the j-th subkey command. */
  lemma {:induction false} SubKeyModelsIndex(ks: seq<RegistrySubKeyCommand>, j: nat)
    requires j < |ks|
    ensures SubKeyModels(ks)[j] == ks[j].Model()
    decreases |ks|
  {
    if j < |ks| - 1 {
      SubKeyModelsIndex(ks[..|ks| - 1], j);
    }
  }

  /** Models fixed element by element fix the whole sequence of models. */
  lemma SubKeyModelsOf(ks: seq<RegistrySubKeyCommand>, models: seq<SubKeyCmd>)
    requires |models| == |ks| && forall j :: 0 <= j < |ks| ==> ks[j].Model() == models[j]
    ensures SubKeyModels(ks) == models
  {
    forall j | 0 <= j < |ks| ensures SubKeyModels(ks)[j] == models[j] {
      SubKeyModelsIndex(ks, j);
    }
  }

  /** ValuesEmission one command further. */
  lemma ValuesStep(cs: seq<ValueCmd>, i: nat)
    requires i < |cs|
    ensures ValuesEmission(cs[..i + 1]) == ValuesEmission(cs[..i]).Then(ValueEmission(cs[i]))
  {
    assert cs[..i + 1][..i] == cs[..i];
  }

  /** The writer's text once the header and the value lines are written. */
  lemma SubKeyWritten(k: SubKeyCmd, start: string, name: string, written: string)
    requires HiveToString(k.hive) == Ok(name)
    requires written == start + (Header(name, k) + NewLine) + ValuesEmission(k.commands).text
    ensures written == start + SubKeyEmission(k).text
    ensures SubKeyEmission(k).outcome == ValuesEmission(k.commands).outcome
  {
    SubKeyEmissionParts(k);
    AppendAssoc(start, Header(name, k) + NewLine, ValuesEmission(k.commands).text);
  }
}
