/** The round trip of one value through the payload text: what
    GetRegFileValue writes after the type token, with the continuation breaks
    joined, GetNativeValue reads back as the same descriptor's value. */
module ValueCodec {
  import opened RegTypes
  import opened Strings
  import opened Numbers
  import opened Utf16
  import opened RegFileExtensions

  /** The values GetRegFileValue can write so that GetNativeValue returns
      them unchanged: the value has the type the descriptor's branch casts
      to, a single string does not end in U+0000 (decoding strips every
      trailing U+0000) and no element of a string array holds U+0000
      (decoding splits there). */
  predicate Encodable(info: RegValueInfo, value: Value)
  {
    match info.format
    case String => value.Text?
    case Integer => value.DWordValue?
    case HexValues => (info.kind == Binary || info.kind == ValueKind.None) && value.Bytes?
    case HexValuesLE =>
      (info.kind == QWord && value.QWordValue?) || (info.kind == DWord && value.DWordValue?)
    case HexValuesBE => info.kind == DWord && value.DWordValue?
    case Utf16LEHexValues =>
      || ((info.kind == ValueKind.String || info.kind == ExpandString)
          && value.Text? && (value.s == [] || value.s[|value.s| - 1] != '\0'))
      || (info.kind == MultiString && value.Texts?
          && forall j :: 0 <= j < |value.ss| ==> '\0' !in value.ss[j])
    case Unknown => false
  }

  predicate IsHexFormat(info: RegValueInfo)
  {
    info.format in {HexValues, HexValuesLE, HexValuesBE, Utf16LEHexValues}
  }

  /** The bytes whose groups follow the token of a hex(…) value. */
  function WrittenBytes(info: RegValueInfo, value: Value): seq<byte>
    requires Encodable(info, value) && IsHexFormat(info)
  {
    match info.format
    case HexValues => value.b
    case HexValuesLE => if info.kind == QWord then Reversed(Int64Bytes(value.q)) else Int32Bytes(value.i)
    case HexValuesBE => Int32Bytes(value.i)
    case Utf16LEHexValues =>
      if info.kind == MultiString then MultiStringBytes(info, value.ss) else GetBytes(value.s) + NulUnit
  }

  /** The token a descriptor with one is written with. */
  function Token(info: RegValueInfo): (t: string)
    requires GetRegFileToken(info).Ok? && GetRegFileToken(info).value.Some?
    ensures GetRegFileToken(info) == Ok(Some(t))
    ensures t in KnownTokens && t != "hex(3)"
  {
    GetRegFileToken(info).value.value
  }

  /** The payload text the reader hands to GetNativeValue. */
  function Payload(info: RegValueInfo, value: Value): string
    requires Encodable(info, value)
  {
    if info.format == ValueFormat.String then Escape(value.s)
    else if info.format == Integer then X8(value.i)
    else HexFlat(WrittenBytes(info, value))
  }

  /** What GetRegFileValue writes for a writable value: the quoted escaped
      string, "dword:" and eight digits, or the token, a colon and the
      groups of the written bytes. */
  lemma RegFileValueShape(info: RegValueInfo, value: Value)
    requires Encodable(info, value)
    ensures info.format == ValueFormat.String ==> RegFileValue(info, value) == Ok("\"" + Escape(value.s) + "\"")
    ensures info.format == Integer ==> RegFileValue(info, value) == Ok(Token(info) + ":" + X8(value.i))
    ensures IsHexFormat(info) ==> RegFileValue(info, value) == Ok(Token(info) + ":" + HexGroups(0, WrittenBytes(info, value)))
  {
    if info.format == ValueFormat.String {
      assert RegFileValue(info, value) == Ok("\"" + Escape(value.s) + "\"");
    } else if info.format == Integer {
      assert RegFileValue(info, value) == Ok("dword:" + X8(value.i));
    } else if info.format == Utf16LEHexValues {
      Utf16ValueShape(info, value);
    } else if IsHexFormat(info) {
      BinaryValueShape(info, value);
    }
  }

  lemma Utf16ValueShape(info: RegValueInfo, value: Value)
    requires Encodable(info, value) && info.format == Utf16LEHexValues
    ensures RegFileValue(info, value) == Ok(Token(info) + ":" + HexGroups(0, WrittenBytes(info, value)))
  {
    if info.kind == MultiString {
      assert RegFileValue(info, value) == Ok("hex(7):" + HexGroups(0, MultiStringBytes(info, value.ss)));
    } else if info.kind == ValueKind.String {
      assert RegFileValue(info, value) == Ok("hex(1):" + HexString(info, Some(GetBytes(value.s))));
    } else {
      assert RegFileValue(info, value) == Ok("hex(2):" + HexString(info, Some(GetBytes(value.s))));
    }
  }

  lemma BinaryValueShape(info: RegValueInfo, value: Value)
    requires Encodable(info, value) && IsHexFormat(info) && info.format != Utf16LEHexValues
    ensures RegFileValue(info, value) == Ok(Token(info) + ":" + HexGroups(0, WrittenBytes(info, value)))
  {
    if info.format == HexValues && info.kind == Binary {
      assert RegFileValue(info, value) == Ok("hex:" + HexString(info, Some(value.b)));
    } else if info.format == HexValues {
      assert RegFileValue(info, value) == Ok("hex(0):" + HexString(info, Some(value.b)));
    } else if info.format == HexValuesLE && info.kind == QWord {
      assert RegFileValue(info, value) == Ok("hex(b):" + HexString(info, Some(Reversed(Int64Bytes(value.q)))));
    } else if info.format == HexValuesLE {
      assert RegFileValue(info, value) == Ok("hex(4):" + HexString(info, Some(Int32Bytes(value.i))));
    } else {
      assert RegFileValue(info, value) == Ok("hex(5):" + HexString(info, Some(Int32Bytes(value.i))));
    }
  }

  lemma BytesAssoc(a: seq<byte>, b: seq<byte>, c: seq<byte>)
    ensures (a + b) + c == a + (b + c)
  {
  }

  /** A multi-string's element bytes, first element first. */
  lemma {:induction false} ElementsBytesCons(info: RegValueInfo, s: string, rest: seq<string>)
    ensures ElementsBytes(info, [s] + rest) == Terminated(info, GetBytes(s)) + ElementsBytes(info, rest)
    decreases |rest|
  {
    if rest == [] {
      assert [s] + rest == [s];
      assert [s][..0] == [];
    } else {
      var n := |rest|;
      var all := [s] + rest;
      var init := [s] + rest[..n - 1];
      var first := Terminated(info, GetBytes(s));
      var mid := ElementsBytes(info, rest[..n - 1]);
      var last := Terminated(info, GetBytes(rest[n - 1]));
      assert ElementsBytes(info, all) == ElementsBytes(info, init) + last by {
        assert all[..|all| - 1] == init;
        assert all[|all| - 1] == rest[n - 1];
      }
      assert ElementsBytes(info, init) == first + mid by {
        ElementsBytesCons(info, s, rest[..n - 1]);
      }
      assert ElementsBytes(info, rest) == mid + last;
      BytesAssoc(first, mid, last);
    }
  }

  /** Each element's UTF-16 bytes. */
  function EncodedElements(ss: seq<string>): (r: seq<seq<byte>>)
    ensures |r| == |ss|
  {
    seq(|ss|, j requires 0 <= j < |ss| => GetBytes(ss[j]))
  }

  /** A run without NUL code units, then one: the run is the first part. */
  lemma SplitAtNulRun(b: seq<byte>, e: seq<byte>)
    requires |b| % 2 == 0 && !HasNulUnit(b)
    ensures SplitAtNul(b + NulUnit + e) == [b] + SplitAtNul(e)
  {
    var a := b + NulUnit + e;
    var j := |b|;
    assert a[..j] == b;
    assert a[j] == 0 && a[j + 1] == 0;
    FirstNulPairAt(a, j);
    assert a[j + 2..] == e;
  }

  /** Splitting the element bytes at aligned NUL code units separates the
      elements again when none of them holds U+0000. */
  lemma {:induction false} SplitElements(ss: seq<string>)
    requires forall j :: 0 <= j < |ss| ==> '\0' !in ss[j]
    ensures SplitAtNul(ElementsBytes(RegValueInfo(MultiString, Utf16LEHexValues), ss)) == EncodedElements(ss)
    decreases |ss|
  {
    var info := RegValueInfo(MultiString, Utf16LEHexValues);
    if ss != [] {
      var s := ss[0];
      var rest := ss[1..];
      var b := GetBytes(s);
      var e := ElementsBytes(info, rest);
      assert '\0' !in s;
      assert forall j :: 0 <= j < |rest| ==> rest[j] == ss[j + 1];
      assert ElementsBytes(info, ss) == b + NulUnit + e by {
        assert ss == [s] + rest;
        ElementsBytesCons(info, s, rest);
      }
      assert !HasNulUnit(b) by { GetBytesNulUnit(s); }
      SplitAtNulRun(b, e);
      SplitElements(rest);
      EncodedElementsCons(ss);
    }
  }

  lemma EncodedElementsCons(ss: seq<string>)
    requires ss != []
    ensures EncodedElements(ss) == [GetBytes(ss[0])] + EncodedElements(ss[1..])
  {
    var r := EncodedElements(ss);
    var t := [GetBytes(ss[0])] + EncodedElements(ss[1..]);
    assert |r| == |t|;
    forall j | 0 <= j < |r| ensures r[j] == t[j] {
      if j > 0 { assert ss[1..][j - 1] == ss[j]; }
    }
  }

  lemma GetStringsEncoded(ss: seq<string>)
    ensures GetStrings(EncodedElements(ss)) == ss
  {
    forall j | 0 <= j < |ss| ensures GetStrings(EncodedElements(ss))[j] == ss[j] {
      GetStringGetBytes(ss[j]);
    }
  }

  lemma EvenSum(a: nat, b: nat)
    requires a % 2 == 0 && b % 2 == 0
    ensures (a + b) % 2 == 0
  {
  }

  lemma TerminatedEven(info: RegValueInfo, b: seq<byte>)
    requires |b| % 2 == 0
    ensures |Terminated(info, b)| % 2 == 0
  {
    if info.format == Utf16LEHexValues {
      assert |Terminated(info, b)| == |b| + 2;
      EvenSum(|b|, 2);
    }
  }

  lemma {:induction false} ElementsBytesEven(info: RegValueInfo, ss: seq<string>)
    ensures |ElementsBytes(info, ss)| % 2 == 0
    decreases |ss|
  {
    if ss != [] {
      var init := ss[..|ss| - 1];
      var g := GetBytes(ss[|ss| - 1]);
      var t := Terminated(info, g);
      ElementsBytesEven(info, init);
      assert ElementsBytes(info, ss) == ElementsBytes(info, init) + t;
      TerminatedEven(info, g);
      EvenSum(|ElementsBytes(info, init)|, |t|);
    }
  }

  /** The multi-string branch of GetNativeValue on well-terminated bytes. */
  lemma Utf16MultiValue(e: seq<byte>, loc: SourceLocation)
    requires |e| % 2 == 0
    ensures var info := RegValueInfo(MultiString, Utf16LEHexValues);
      Utf16Value(info, e + NulUnit, loc) == Ok(Texts(GetStrings(SplitAtNul(e))))
  {
    var info := RegValueInfo(MultiString, Utf16LEHexValues);
    var bytes := e + NulUnit;
    EvenSum(|e|, 2);
    AppendNulUnit(e);
    assert Utf16Value(info, bytes, loc) == Ok(Texts(GetStrings(SplitAtNul(bytes[..|bytes| - 2]))));
  }

  lemma AppendNulUnit(e: seq<byte>)
    ensures var b := e + NulUnit; |b| == |e| + 2 && b[|e|] == 0 && b[|e| + 1] == 0 && b[..|e|] == e
  {
  }

  /** Decoding a multi-string's bytes gives back its elements. */
  lemma MultiStringRoundTrip(ss: seq<string>, loc: SourceLocation)
    requires forall j :: 0 <= j < |ss| ==> '\0' !in ss[j]
    ensures var info := RegValueInfo(MultiString, Utf16LEHexValues);
      Utf16Value(info, MultiStringBytes(info, ss), loc) == Ok(Texts(ss))
  {
    var info := RegValueInfo(MultiString, Utf16LEHexValues);
    var e := ElementsBytes(info, ss);
    ElementsBytesEven(info, ss);
    Utf16MultiValue(e, loc);
    SplitElements(ss);
    GetStringsEncoded(ss);
  }

  lemma TrimEndNulOne(s: string)
    requires s == [] || s[|s| - 1] != '\0'
    ensures TrimEndNul(s + "\0") == s
  {
    assert (s + "\0")[..|s|] == s;
  }

  /** Decoding a single string's bytes gives back the string. */
  lemma SingleStringRoundTrip(info: RegValueInfo, s: string, loc: SourceLocation)
    requires info.kind != MultiString
    requires s == [] || s[|s| - 1] != '\0'
    ensures Utf16Value(info, GetBytes(s) + NulUnit, loc) == Ok(Text(s))
  {
    GetBytesAppend(s, "\0");
    assert GetBytes("\0") == NulUnit;
    GetStringGetBytes(s + "\0");
    TrimEndNulOne(s);
  }

  /** The hex(…) branches: the bytes read back give the value. */
  lemma HexValueRoundTrip(info: RegValueInfo, value: Value, loc: SourceLocation)
    requires Encodable(info, value) && IsHexFormat(info)
    ensures var bytes := WrittenBytes(info, value);
      (if info.format == Utf16LEHexValues then Utf16Value(info, bytes, loc) else BinaryValue(info, bytes, loc)) == Ok(value)
  {
    if info.format == Utf16LEHexValues {
      Utf16ValueRoundTrip(info, value, loc);
    } else {
      BinaryValueRoundTrip(info, value, loc);
    }
  }

  lemma Utf16ValueRoundTrip(info: RegValueInfo, value: Value, loc: SourceLocation)
    requires Encodable(info, value) && IsHexFormat(info) && info.format == Utf16LEHexValues
    ensures Utf16Value(info, WrittenBytes(info, value), loc) == Ok(value)
  {
    if info.kind == MultiString {
      MultiStringRoundTrip(value.ss, loc);
    } else {
      SingleStringRoundTrip(info, value.s, loc);
    }
  }

  lemma BinaryValueRoundTrip(info: RegValueInfo, value: Value, loc: SourceLocation)
    requires Encodable(info, value) && IsHexFormat(info) && info.format != Utf16LEHexValues
    ensures BinaryValue(info, WrittenBytes(info, value), loc) == Ok(value)
  {
    if info.kind == QWord {
      ReversedReversed(Int64Bytes(value.q));
      Int64BytesRoundTrip(value.q);
    } else if info.kind == DWord {
      Int32BytesRoundTrip(value.i);
    }
  }

  /** GetNativeValue undoes GetRegFileValue for every writable value. */
  lemma ValueRoundTrip(info: RegValueInfo, value: Value, loc: SourceLocation)
    requires Encodable(info, value)
    ensures NativeValue(info, Payload(info, value), loc) == Ok(value)
  {
    if info.format == ValueFormat.String {
      UnescapeEscape(value.s);
    } else if info.format == Integer {
      X8RoundTrip(value.i);
    } else {
      var bytes := WrittenBytes(info, value);
      HexBytesHexFlat(bytes);
      HexValueRoundTrip(info, value, loc);
    }
  }
}
