/** The round trip between RegFileWriter and RegFileReader: the text the
    writer produces for well-formed commands is a sequence of lines, and
    reading those lines back gives the same commands. */
module RoundTrip {
  import opened RegTypes
  import opened Strings
  import opened Numbers
  import opened RegFileExtensions
  import opened ValueCodec
  import opened RegistryCommands
  import opened RegFileReading
  import opened RegFileWriting

  // ------------------------------------------------ readable commands

  /** A value the reader gives back with the same descriptor: it can be
      encoded, a dword is written only for a DWord, a quoted string only for
      a String and on one line. */
  predicate Readable(info: RegValueInfo, value: Value)
  {
    && Encodable(info, value)
    && (info.format == Integer ==> info.kind == DWord)
    && (info.format == ValueFormat.String ==> info.kind == ValueKind.String && IsSingleLine(value.s))
  }

  /** A value command that reads back as itself: the default value has the
      empty name and a named one a non-empty name without quotes or line
      breaks; a removal holds no value. */
  predicate ReadableValue(v: ValueCmd)
  {
    && (v.isDefault <==> v.name == "")
    && '"' !in v.name && IsSingleLine(v.name)
    && (v.remove ==> v.info == DefaultInfo && v.value == Null)
    && (!v.remove ==> Readable(v.info, v.value))
  }

  /** A subkey command that reads back as itself: a named hive, a subkey
      path that is not blank and has no line break, readable values. */
  predicate ReadableSubKey(k: SubKeyCmd)
  {
    && !k.hive.Undefined? && !IsBlank(k.subKey) && IsSingleLine(k.subKey)
    && forall j :: 0 <= j < |k.commands| ==> ReadableValue(k.commands[j])
  }

  predicate ReadableFile(ks: seq<SubKeyCmd>)
  {
    forall i :: 0 <= i < |ks| ==> ReadableSubKey(ks[i])
  }

  // ------------------------------------------------ the written lines

  /** Parts joined by continuation breaks, as lines: every line but the last
      ends in a backslash, every line after the first is indented by two
      spaces; lead starts the first line. */
  function BrokenLines(lead: string, ps: seq<string>): (r: seq<string>)
    requires |ps| >= 1
    ensures |r| == |ps|
    decreases |ps|
  {
    if |ps| == 1 then [lead + ps[0]] else [lead + ps[0] + "\\"] + BrokenLines("  ", ps[1..])
  }

  /** The lines of one value command. */
  function ValueLines(v: ValueCmd): (r: seq<string>)
    requires ReadableValue(v)
    ensures |r| >= 1
  {
    if v.remove then [ValuePrefix(v) + "-"]
    else if v.info.format == ValueFormat.String then [ValuePrefix(v) + "\"" + Escape(v.value.s) + "\""]
    else if v.info.format == Integer then [ValuePrefix(v) + Token(v.info) + ":" + X8(v.value.i)]
    else BrokenLines(ValuePrefix(v) + Token(v.info) + ":", HexParts(WrittenBytes(v.info, v.value)))
  }

  function ValuesLines(cs: seq<ValueCmd>): seq<string>
    requires forall j :: 0 <= j < |cs| ==> ReadableValue(cs[j])
  {
    if cs == [] then [] else ValuesLines(cs[..|cs| - 1]) + ValueLines(cs[|cs| - 1])
  }

  function WrittenHeader(k: SubKeyCmd): string
    requires !k.hive.Undefined?
  {
    Header(HiveToString(k.hive).value, k)
  }

  /** A subkey's block: the header, the value lines, an empty line. */
  function BlockLines(k: SubKeyCmd): seq<string>
    requires ReadableSubKey(k)
  {
    [WrittenHeader(k)] + ValuesLines(k.commands) + [""]
  }

  function BlocksLines(ks: seq<SubKeyCmd>): seq<string>
    requires ReadableFile(ks)
  {
    if ks == [] then [] else BlocksLines(ks[..|ks| - 1]) + BlockLines(ks[|ks| - 1])
  }

  /** The lines of a whole file: the signature, an empty line, the blocks. */
  function FileLines(ks: seq<SubKeyCmd>): seq<string>
    requires ReadableFile(ks)
  {
    [Signature, ""] + BlocksLines(ks)
  }

  // ------------------------------------- the text is the lines joined

  lemma {:induction false} BrokenLinesText(lead: string, ps: seq<string>)
    requires |ps| >= 1
    ensures lead + BreakJoin(ps) + NewLine == JoinLines(BrokenLines(lead, ps))
    decreases |ps|
  {
    if |ps| == 1 {
      assert JoinLines(BrokenLines(lead, ps)) == lead + ps[0] + NewLine + JoinLines([]);
    } else {
      var rest := BreakJoin(ps[1..]);
      BrokenLinesText("  ", ps[1..]);
      var first := lead + ps[0] + "\\";
      assert BrokenLines(lead, ps) == [first] + BrokenLines("  ", ps[1..]);
      assert JoinLines(BrokenLines(lead, ps)) == first + NewLine + JoinLines(BrokenLines("  ", ps[1..]));
      assert lead + BreakJoin(ps) + NewLine == first + NewLine + ("  " + rest + NewLine);
    }
  }

  lemma JoinLinesOne(l: string)
    ensures JoinLines([l]) == l + NewLine
  {
    assert JoinLines([l]) == l + NewLine + JoinLines([]);
  }

  /** A readable value command writes exactly its lines. */
  lemma ValueText(v: ValueCmd)
    requires ReadableValue(v)
    ensures ValueEmission(v) == Emission(JoinLines(ValueLines(v)), Pass)
  {
    if v.remove {
      JoinLinesOne(ValuePrefix(v) + "-");
    } else if v.info.format == ValueFormat.String || v.info.format == Integer {
      ValueTextOneLine(v);
    } else {
      ValueTextHex(v);
    }
  }

  lemma ValueTextOneLine(v: ValueCmd)
    requires ReadableValue(v) && !v.remove && (v.info.format == ValueFormat.String || v.info.format == Integer)
    ensures ValueEmission(v) == Emission(JoinLines(ValueLines(v)), Pass)
  {
    RegFileValueShape(v.info, v.value);
    ValueEmissionWritten(v);
    var s := RegFileValue(v.info, v.value).value;
    var p := ValuePrefix(v);
    if v.info.format == ValueFormat.String {
      var e := Escape(v.value.s);
      assert s == "\"" + e + "\"";
      assert p + "\"" + e + "\"" == p + s;
    } else {
      var t := Token(v.info);
      var x := X8(v.value.i);
      assert s == t + ":" + x;
      assert p + t + ":" + x == p + s;
    }
    assert ValueLines(v) == [p + s];
    JoinLinesOne(ValuePrefix(v) + s);
  }

  lemma ValueTextHex(v: ValueCmd)
    requires ReadableValue(v) && !v.remove && IsHexFormat(v.info)
    ensures ValueEmission(v) == Emission(JoinLines(ValueLines(v)), Pass)
  {
    var bytes := WrittenBytes(v.info, v.value);
    HexEmission(v);
    HexGroupsParts(bytes);
    HexLinesText(ValuePrefix(v), Token(v.info), HexGroups(0, bytes), HexParts(bytes));
  }

  lemma HexEmission(v: ValueCmd)
    requires ReadableValue(v) && !v.remove && IsHexFormat(v.info)
    ensures ValueEmission(v)
      == Emission(ValuePrefix(v) + (Token(v.info) + ":" + HexGroups(0, WrittenBytes(v.info, v.value))) + NewLine, Pass)
    ensures ValueLines(v) == BrokenLines(ValuePrefix(v) + Token(v.info) + ":", HexParts(WrittenBytes(v.info, v.value)))
  {
    RegFileValueShape(v.info, v.value);
    ValueEmissionWritten(v);
  }

  lemma HexLinesText(p: string, t: string, g: string, ps: seq<string>)
    requires |ps| >= 1 && g == BreakJoin(ps)
    ensures p + (t + ":" + g) + NewLine == JoinLines(BrokenLines(p + t + ":", ps))
  {
    var lead := p + t + ":";
    assert p + (t + ":" + g) == lead + g;
    assert lead + g + NewLine == JoinLines(BrokenLines(lead, ps)) by {
      BrokenLinesText(lead, ps);
    }
  }

  lemma {:induction false} ValuesText(cs: seq<ValueCmd>)
    requires forall j :: 0 <= j < |cs| ==> ReadableValue(cs[j])
    ensures ValuesEmission(cs) == Emission(JoinLines(ValuesLines(cs)), Pass)
    decreases |cs|
  {
    if cs != [] {
      var init := cs[..|cs| - 1];
      ValuesText(init);
      ValueText(cs[|cs| - 1]);
      JoinLinesAppend(ValuesLines(init), ValueLines(cs[|cs| - 1]));
    }
  }

  lemma BlockText(k: SubKeyCmd)
    requires ReadableSubKey(k)
    ensures BlockEmission(k) == Emission(JoinLines(BlockLines(k)), Pass)
  {
    var h := WrittenHeader(k);
    var vs := ValuesLines(k.commands);
    ValuesText(k.commands);
    SubKeyEmissionParts(k);
    JoinLinesAppend([h], vs);
    JoinLinesAppend([h] + vs, [""]);
    assert JoinLines([h]) == h + NewLine + JoinLines([]);
    assert JoinLines([""]) == "" + NewLine + JoinLines([]);
    BlockEmissionWritten(k);
  }

  lemma {:induction false} BlocksText(ks: seq<SubKeyCmd>)
    requires ReadableFile(ks)
    ensures BlocksEmission(ks) == Emission(JoinLines(BlocksLines(ks)), Pass)
    decreases |ks|
  {
    if ks == [] {
      assert Blocks(ks) == [];
    } else {
      var init, k := ReadableSplit(ks);
      BlocksText(init);
      BlockText(k);
      BlocksJoin(init, k);
    }
  }

  /** The step of BlocksText: the last block's text follows the others'. */
  lemma BlocksJoin(init: seq<SubKeyCmd>, k: SubKeyCmd)
    requires ReadableFile(init + [k]) && ReadableFile(init) && ReadableSubKey(k)
    requires BlocksEmission(init) == Emission(JoinLines(BlocksLines(init)), Pass)
    requires BlockEmission(k) == Emission(JoinLines(BlockLines(k)), Pass)
    ensures BlocksEmission(init + [k]) == Emission(JoinLines(BlocksLines(init + [k])), Pass)
  {
    BlocksEmissionSnoc(init, k);
    BlocksLinesSnoc(init, k);
    JoinLinesAppend(BlocksLines(init), BlockLines(k));
    PassThen(BlocksEmission(init), BlockEmission(k), JoinLines(BlocksLines(init)), JoinLines(BlockLines(k)));
  }

  lemma BlocksEmissionSnoc(init: seq<SubKeyCmd>, k: SubKeyCmd)
    ensures BlocksEmission(init + [k]) == BlocksEmission(init).Then(BlockEmission(k))
  {
    var ks := init + [k];
    BlocksStep(ks, |init|);
    assert ks[..|init| + 1] == ks && ks[..|init|] == init && ks[|init|] == k;
  }

  lemma BlocksLinesSnoc(init: seq<SubKeyCmd>, k: SubKeyCmd)
    requires ReadableFile(init + [k]) && ReadableFile(init) && ReadableSubKey(k)
    ensures BlocksLines(init + [k]) == BlocksLines(init) + BlockLines(k)
  {
    var ks := init + [k];
    assert ks[..|ks| - 1] == init && ks[|ks| - 1] == k;
  }

  lemma PassThen(e: Emission, f: Emission, a: string, b: string)
    requires e == Emission(a, Pass) && f == Emission(b, Pass)
    ensures e.Then(f) == Emission(a + b, Pass)
  {
  }

  /** The commands before the last of a readable file, and the last. */
  lemma ReadableSplit(ks: seq<SubKeyCmd>) returns (init: seq<SubKeyCmd>, k: SubKeyCmd)
    requires ReadableFile(ks) && ks != []
    ensures ks == init + [k] && init == ks[..|ks| - 1] && k == ks[|ks| - 1]
    ensures ReadableFile(init) && ReadableSubKey(k)
  {
    init, k := ks[..|ks| - 1], ks[|ks| - 1];
    assert forall i :: 0 <= i < |init| ==> init[i] == ks[i];
  }

  /** The writer's text for readable commands is their lines, joined. */
  lemma FileText(ks: seq<SubKeyCmd>)
    requires ReadableFile(ks)
    ensures FileEmission(ks) == Emission(JoinLines(FileLines(ks)), Pass)
  {
    var b := BlocksLines(ks);
    assert BlocksEmission(ks) == Emission(JoinLines(b), Pass) by {
      BlocksText(ks);
    }
    assert JoinLines(FileLines(ks)) == Preamble + JoinLines(b) by {
      PreambleText(b);
    }
    FileEmissionStart(ks);
  }

  /** The signature line and the empty line, joined, are the preamble. */
  lemma PreambleText(b: seq<string>)
    ensures JoinLines([Signature, ""] + b) == Preamble + JoinLines(b)
  {
    var l := [Signature, ""] + b;
    assert l[0] == Signature && l[1..] == [""] + b;
    assert ([""] + b)[0] == "" && ([""] + b)[1..] == b;
    assert JoinLines(l) == Signature + NewLine + ("" + NewLine + JoinLines(b));
  }

  // ------------------------------------------ the lines are single lines

  lemma {:induction false} EscapeSingleLine(str: string)
    requires IsSingleLine(str)
    ensures IsSingleLine(Escape(str))
  {
    if str != [] {
      EscapeSingleLine(str[1..]);
    }
  }

  lemma HexTextSingleLine(s: string)
    requires IsHexText(s)
    ensures IsSingleLine(s)
  {
    assert forall k :: 0 <= k < |s| ==> s[k] != '\r' && s[k] != '\n';
  }

  lemma SingleAppend(a: string, b: string)
    requires IsSingleLine(a) && IsSingleLine(b)
    ensures IsSingleLine(a + b)
  {
    assert forall k :: 0 <= k < |a + b| ==> (a + b)[k] == if k < |a| then a[k] else b[k - |a|];
  }

  /** The facts about the type tokens that reading them back needs. */
  lemma TokenFacts(t: string)
    requires t in KnownTokens
    ensures t != [] && (t[0] == 'd' || t[0] == 'h') && ':' !in t && IsSingleLine(t)
  {
  }

  lemma {:induction false} BrokenLinesSingle(lead: string, ps: seq<string>)
    requires |ps| >= 1 && IsSingleLine(lead)
    requires forall j :: 0 <= j < |ps| ==> IsSingleLine(ps[j])
    ensures AllSingle(BrokenLines(lead, ps))
    decreases |ps|
  {
    SingleAppend(lead, ps[0]);
    if |ps| > 1 {
      BrokenLinesSingle("  ", ps[1..]);
      SingleAppend(lead + ps[0], "\\");
      AllSingleAppend([lead + ps[0] + "\\"], BrokenLines("  ", ps[1..]));
    }
  }

  lemma PrefixSingle(v: ValueCmd)
    requires ReadableValue(v)
    ensures IsSingleLine(ValuePrefix(v))
  {
    if !v.isDefault {
      SingleAppend("\"", v.name);
      SingleAppend("\"" + v.name, "\"=");
    }
  }

  lemma ValueLinesSingle(v: ValueCmd)
    requires ReadableValue(v)
    ensures AllSingle(ValueLines(v))
  {
    var p := ValuePrefix(v);
    PrefixSingle(v);
    if v.remove {
      SingleAppend(p, "-");
    } else if v.info.format == ValueFormat.String {
      var e := Escape(v.value.s);
      EscapeSingleLine(v.value.s);
      SingleAppend(p, "\"");
      SingleAppend(p + "\"", e);
      SingleAppend(p + "\"" + e, "\"");
      assert ValueLines(v) == [p + "\"" + e + "\""];
    } else if v.info.format == Integer {
      var t := Token(v.info);
      var x := X8(v.value.i);
      TokenFacts(t);
      SingleAppend(p, t);
      SingleAppend(p + t, ":");
      SingleAppend(p + t + ":", x);
      assert ValueLines(v) == [p + t + ":" + x];
    } else {
      var bytes := WrittenBytes(v.info, v.value);
      var ps := HexParts(bytes);
      var t := Token(v.info);
      HexEmission(v);
      HexPartsShape(bytes);
      forall j | 0 <= j < |ps| ensures IsSingleLine(ps[j]) {
        HexTextSingleLine(ps[j]);
      }
      TokenFacts(t);
      SingleAppend(p, t);
      SingleAppend(p + t, ":");
      BrokenLinesSingle(p + t + ":", ps);
    }
  }

  predicate AllSingle(lines: seq<string>)
  {
    forall j :: 0 <= j < |lines| ==> IsSingleLine(lines[j])
  }

  lemma AllSingleAppend(a: seq<string>, b: seq<string>)
    requires AllSingle(a) && AllSingle(b)
    ensures AllSingle(a + b)
  {
    assert forall j :: |a| <= j < |a + b| ==> (a + b)[j] == b[j - |a|];
  }

  lemma {:induction false} ValuesLinesSingle(cs: seq<ValueCmd>)
    requires forall j :: 0 <= j < |cs| ==> ReadableValue(cs[j])
    ensures AllSingle(ValuesLines(cs))
    decreases |cs|
  {
    if cs != [] {
      ValuesLinesSingle(cs[..|cs| - 1]);
      ValueLinesSingle(cs[|cs| - 1]);
      AllSingleAppend(ValuesLines(cs[..|cs| - 1]), ValueLines(cs[|cs| - 1]));
    }
  }

  lemma HeaderSingle(k: SubKeyCmd)
    requires ReadableSubKey(k)
    ensures IsSingleLine(WrittenHeader(k))
  {
    var name := HiveToString(k.hive).value;
    assert IsSingleLine(name) by {
      assert name in HiveNames;
    }
    SingleAppend(Opening(k.remove), name);
    SingleAppend(Opening(k.remove) + name, "\\");
    SingleAppend(Opening(k.remove) + name + "\\", k.subKey);
    SingleAppend(Opening(k.remove) + name + "\\" + k.subKey, "]");
  }

  lemma BlockLinesSingle(k: SubKeyCmd)
    requires ReadableSubKey(k)
    ensures AllSingle(BlockLines(k))
  {
    ValuesLinesSingle(k.commands);
    HeaderSingle(k);
    AllSingleAppend([WrittenHeader(k)], ValuesLines(k.commands));
    AllSingleAppend([WrittenHeader(k)] + ValuesLines(k.commands), [""]);
  }

  lemma {:induction false} BlocksLinesSingle(ks: seq<SubKeyCmd>)
    requires ReadableFile(ks)
    ensures AllSingle(BlocksLines(ks))
    decreases |ks|
  {
    if ks != [] {
      BlocksLinesSingle(ks[..|ks| - 1]);
      BlockLinesSingle(ks[|ks| - 1]);
      AllSingleAppend(BlocksLines(ks[..|ks| - 1]), BlockLines(ks[|ks| - 1]));
    }
  }

  lemma FileLinesSingle(ks: seq<SubKeyCmd>)
    requires ReadableFile(ks)
    ensures AllSingle(FileLines(ks))
  {
    BlocksLinesSingle(ks);
    SignatureSingle();
    AllSingleAppend([Signature, ""], BlocksLines(ks));
  }

  lemma SignatureSingle()
    ensures AllSingle([Signature, ""])
  {
    assert IsSingleLine(Signature);
  }
}
