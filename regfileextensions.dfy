/** RegFileExtensions: the hive names, backslash escaping, the type-token
    table, the hex text writer and the decoder from payload text to native
    values, shared by the reader and the writer. */
module RegFileExtensions {
  import opened RegTypes
  import opened Strings
  import opened Numbers
  import opened Utf16

  // ---------------------------------------------------------------- hives

  const HiveNames: set<string> :=
    {"HKEY_CLASSES_ROOT", "HKEY_CURRENT_USER", "HKEY_LOCAL_MACHINE",
     "HKEY_USERS", "HKEY_PERFORMANCE_DATA", "HKEY_CURRENT_CONFIG"}

  /** The canonical name of a hive; any value outside the six named ones
      raises ArgumentOutOfRangeException. */
  function HiveToString(hive: Hive): (r: Result<string>)
    ensures r.Err? <==> hive.Undefined?
    ensures r.Err? ==> r.error == ArgumentOutOfRangeException
    ensures r.Ok? ==> r.value in HiveNames && '\\' !in r.value
  {
    match hive
    case ClassesRoot => Ok("HKEY_CLASSES_ROOT")
    case CurrentUser => Ok("HKEY_CURRENT_USER")
    case LocalMachine => Ok("HKEY_LOCAL_MACHINE")
    case Users => Ok("HKEY_USERS")
    case PerformanceData => Ok("HKEY_PERFORMANCE_DATA")
    case CurrentConfig => Ok("HKEY_CURRENT_CONFIG")
    case Undefined(_) => Err(ArgumentOutOfRangeException)
  }

  /** The hive a name denotes: only the six exact upper-case names have one. */
  function StringToHive(str: string): (h: Option<Hive>)
    ensures h.Some? <==> str in HiveNames
    ensures h.Some? ==> HiveToString(h.value) == Ok(str)
  {
    match str
    case "HKEY_CLASSES_ROOT" => Some(ClassesRoot)
    case "HKEY_CURRENT_USER" => Some(CurrentUser)
    case "HKEY_LOCAL_MACHINE" => Some(LocalMachine)
    case "HKEY_USERS" => Some(Users)
    case "HKEY_PERFORMANCE_DATA" => Some(PerformanceData)
    case "HKEY_CURRENT_CONFIG" => Some(CurrentConfig)
    case _ => Nothing
  }

  lemma HiveNameRoundTrip(hive: Hive)
    requires !hive.Undefined?
    ensures StringToHive(HiveToString(hive).value) == Some(hive)
  {
  }

  /** Splits "HIVE\sub\key" at its first backslash. */
  function SplitIntoHiveAndSubKey(span: string, loc: SourceLocation): (r: Result<(Hive, string)>)
    ensures r.Err? ==> r.error.IOException? && r.error.location == loc
    ensures '\\' !in span ==> r == Err(IOException(loc, InvalidKeySpecification))
    ensures r.Ok? ==> (HiveToString(r.value.0).Ok?
                       && span == HiveToString(r.value.0).value + "\\" + r.value.1
                       && !IsBlank(r.value.1))
  {
    var pos := IndexOf(span, '\\');
    if pos == -1 then Err(IOException(loc, InvalidKeySpecification))
    else
      var hive := StringToHive(span[..pos]);
      if hive.Nothing? then Err(IOException(loc, InvalidHive))
      else
        var subKey := span[pos + 1..];
        if IsBlank(subKey) then Err(IOException(loc, InvalidSubKey))
        else
          assert span == span[..pos] + "\\" + subKey;
          Ok((hive.value, subKey))
  }

  /** A header written from a named hive and a non-blank subkey splits back
      into the same pair, whatever backslashes the subkey holds. */
  lemma SplitIntoHiveAndSubKeyRoundTrip(hive: Hive, subKey: string, loc: SourceLocation)
    requires !hive.Undefined? && !IsBlank(subKey)
    ensures SplitIntoHiveAndSubKey(HiveToString(hive).value + "\\" + subKey, loc) == Ok((hive, subKey))
  {
    var name := HiveToString(hive).value;
    var span := name + "\\" + subKey;
    var pos := |name|;
    assert span[..pos] == name;
    IndexOfAt(span, '\\', pos);
    assert span[pos + 1..] == subKey;
    HiveNameRoundTrip(hive);
    SplitIntoHiveAndSubKeyAt(span, pos, hive, subKey, loc);
  }

  lemma SplitIntoHiveAndSubKeyAt(span: string, pos: nat, hive: Hive, subKey: string, loc: SourceLocation)
    requires pos < |span| && IndexOf(span, '\\') == pos && StringToHive(span[..pos]) == Some(hive)
    requires span[pos + 1..] == subKey && !IsBlank(subKey)
    ensures SplitIntoHiveAndSubKey(span, loc) == Ok((hive, subKey))
  {
  }

  /** The prefix before the first backslash that names no hive. */
  lemma SplitIntoHiveAndSubKeyInvalidHive(span: string, loc: SourceLocation)
    requires '\\' in span && span[..IndexOf(span, '\\')] !in HiveNames
    ensures SplitIntoHiveAndSubKey(span, loc) == Err(IOException(loc, InvalidHive))
  {
  }

  // ------------------------------------------------------------- escaping

  /** string.Replace(@"\", @"\\"): every backslash doubled. */
  function Escape(str: string): (r: string)
    ensures '\\' !in str ==> r == str
    ensures |r| >= |str|
    ensures |str| == 1 ==> r == if str[0] == '\\' then "\\\\" else str
  {
    if str == [] then ""
    else (if str[0] == '\\' then "\\\\" else [str[0]]) + Escape(str[1..])
  }

  /** A known hive followed by a blank remainder is an invalid subkey. */
  lemma SplitIntoHiveAndSubKeyInvalidSubKey(span: string, loc: SourceLocation)
    requires '\\' in span && span[..IndexOf(span, '\\')] in HiveNames && IsBlank(span[IndexOf(span, '\\') + 1..])
    ensures SplitIntoHiveAndSubKey(span, loc) == Err(IOException(loc, InvalidSubKey))
  {
  }

  /** Escape works character by character: on a concatenation it is the
      concatenation of the escaped parts, so every backslash is doubled
      wherever it stands and nothing else changes. */
  lemma {:induction false} EscapeAppend(a: string, b: string)
    ensures Escape(a + b) == Escape(a) + Escape(b)
    decreases |a|
  {
    if a == [] {
      assert a + b == b;
    } else {
      assert (a + b)[0] == a[0] && (a + b)[1..] == a[1..] + b;
      EscapeAppend(a[1..], b);
    }
  }

  /** Escaping text one character at a time: each backslash becomes two,
      every other character is kept, in order. */
  lemma {:induction false} EscapeChars(str: string)
    ensures |Escape(str)| == |str| + multiset(str)['\\']
    ensures str != [] ==>
      var last := str[|str| - 1];
      Escape(str) == Escape(str[..|str| - 1]) + (if last == '\\' then "\\\\" else [last])
    decreases |str|
  {
    if str != [] {
      var init, last := str[..|str| - 1], str[|str| - 1];
      assert str == init + [last];
      EscapeAppend(init, [last]);
      EscapeChars(init);
      assert multiset(str) == multiset(init) + multiset([last]);
    }
  }

  /** string.Replace(@"\\", @"\"): non-overlapping doubled backslashes,
      left to right, become one; every other character is kept. */
  function Unescape(str: string): (r: string)
    ensures '\\' !in str ==> r == str
    ensures |r| <= |str|
  {
    if |str| >= 2 && str[0] == '\\' && str[1] == '\\' then "\\" + Unescape(str[2..])
    else if str == [] then ""
    else [str[0]] + Unescape(str[1..])
  }

  lemma {:induction false} UnescapeEscape(str: string)
    ensures Unescape(Escape(str)) == str
  {
    if str != [] {
      UnescapeEscape(str[1..]);
      if str[0] == '\\' {
        assert ("\\\\" + Escape(str[1..]))[2..] == Escape(str[1..]);
      } else {
        assert ([str[0]] + Escape(str[1..]))[1..] == Escape(str[1..]);
      }
    }
  }

  /** Unescape keeps a backslash that is not followed by a second one, so
      \" and \t survive as two characters. */
  lemma UnescapeKeepsSingleBackslash(c: char, rest: string)
    requires c != '\\'
    ensures Unescape(['\\', c] + rest) == ['\\', c] + Unescape(rest)
  {
    var t := [c] + rest;
    assert Unescape(t) == [c] + Unescape(rest) by {
      assert t[0] == c && t[1..] == rest;
    }
    var s := ['\\', c] + rest;
    assert s[1..] == t;
    assert Unescape(s) == [s[0]] + Unescape(s[1..]) by {
      assert s[0] == '\\' && s[1] == c;
    }
  }

  // ------------------------------------------------------ the token table

  const KnownTokens: set<string> :=
    {"dword", "hex", "hex(0)", "hex(1)", "hex(2)", "hex(3)", "hex(4)", "hex(5)", "hex(7)", "hex(b)"}

  /** The descriptor a type token stands for; hex(8), hex(a) and every
      unlisted token are Unknown. */
  function GetValueInfo(token: string): (r: RegValueInfo)
    ensures r.kind == ValueKind.Unknown <==> token !in KnownTokens
    ensures r.kind == ValueKind.Unknown <==> r.format == ValueFormat.Unknown
    ensures token in KnownTokens && token != "hex(3)" ==> GetRegFileToken(r) == Ok(Some(token))
    ensures token == "hex(3)" ==> GetRegFileToken(r) == Ok(Some("hex"))
  {
    match token
    case "dword" => RegValueInfo(DWord, Integer)
    case "hex" => RegValueInfo(Binary, HexValues)
    case "hex(3)" => RegValueInfo(Binary, HexValues)
    case "hex(0)" => RegValueInfo(ValueKind.None, HexValues)
    case "hex(1)" => RegValueInfo(ValueKind.String, Utf16LEHexValues)
    case "hex(2)" => RegValueInfo(ExpandString, Utf16LEHexValues)
    case "hex(4)" => RegValueInfo(DWord, HexValuesLE)
    case "hex(5)" => RegValueInfo(DWord, HexValuesBE)
    case "hex(7)" => RegValueInfo(MultiString, Utf16LEHexValues)
    case "hex(b)" => RegValueInfo(QWord, HexValuesLE)
    case _ => DefaultInfo
  }

  /** The token a descriptor is written with: null (Nothing) for a quoted
      string, ArgumentOutOfRangeException for a combination with no token. */
  function GetRegFileToken(info: RegValueInfo): (r: Result<Option<string>>)
    ensures r.Err? ==> r.error == ArgumentOutOfRangeException
    ensures r == Ok(Nothing) <==> info.format == ValueFormat.String
  {
    match info.format
    case Integer => Ok(Some("dword"))
    case String => Ok(Nothing)
    case HexValues =>
      if info.kind == Binary then Ok(Some("hex"))
      else if info.kind == ValueKind.None then Ok(Some("hex(0)"))
      else Err(ArgumentOutOfRangeException)
    case HexValuesLE =>
      if info.kind == QWord then Ok(Some("hex(b)"))
      else if info.kind == DWord then Ok(Some("hex(4)"))
      else Err(ArgumentOutOfRangeException)
    case HexValuesBE => Ok(Some("hex(5)"))
    case Utf16LEHexValues =>
      if info.kind == ValueKind.String then Ok(Some("hex(1)"))
      else if info.kind == ExpandString then Ok(Some("hex(2)"))
      else if info.kind == MultiString then Ok(Some("hex(7)"))
      else Err(ArgumentOutOfRangeException)
    case Unknown => Err(ArgumentOutOfRangeException)
  }

  /** The descriptors the table produces. */
  predicate IsTableInfo(info: RegValueInfo)
  {
    exists t :: t in KnownTokens && GetValueInfo(t) == info
  }

  /** Reading a written token gives back the descriptor, except that hex(5)
      is read back as a DWord whatever kind was written. */
  lemma {:induction false} TokenRoundTrip(info: RegValueInfo)
    requires GetRegFileToken(info).Ok? && GetRegFileToken(info).value.Some?
    requires info.format == Integer || info.format == HexValuesBE ==> info.kind == DWord
    ensures GetValueInfo(GetRegFileToken(info).value.value) == info
  {
  }

  // ------------------------------------------------------- hex text layout

  /** The comma before every byte group but the first. */
  function Comma(i: nat): string { if i > 0 then "," else "" }

  /** The continuation break before the group at running index i. */
  function Break(i: nat): string { if i % 32 == 31 then ContinuationBreak else "" }

  /** A backslash ends the line and the next line is indented by two spaces. */
  const ContinuationBreak: string := "\\" + NewLine + "  "

  /** The text AddHexString writes for the byte at running index i. */
  function Group(i: nat, b: byte): string { Comma(i) + Break(i) + X2(b) }

  /** The group texts for bytes whose running indices start at start. */
  function Groups(start: nat, bytes: seq<byte>): (r: seq<string>)
    ensures |r| == |bytes|
  {
    seq(|bytes|, k requires 0 <= k < |bytes| => Group(start + k, bytes[k]))
  }

  /** The group texts one after the other. */
  function HexGroups(start: nat, bytes: seq<byte>): string
  {
    Concat(Groups(start, bytes))
  }

  lemma GroupsAppend(start: nat, a: seq<byte>, b: seq<byte>)
    ensures Groups(start, a + b) == Groups(start, a) + Groups(start + |a|, b)
  {
  }

  lemma HexGroupsAppend(start: nat, a: seq<byte>, b: seq<byte>)
    ensures HexGroups(start, a + b) == HexGroups(start, a) + HexGroups(start + |a|, b)
  {
    GroupsAppend(start, a, b);
    ConcatAppend(Groups(start, a), Groups(start + |a|, b));
  }

  /** One more byte adds one more group. */
  lemma HexGroupsStep(start: nat, bytes: seq<byte>, i: nat)
    requires i < |bytes|
    ensures HexGroups(start, bytes[..i + 1]) == HexGroups(start, bytes[..i]) + Group(start + i, bytes[i])
  {
    assert Groups(start, bytes[..i + 1]) == Groups(start, bytes[..i]) + [Group(start + i, bytes[i])];
    ConcatAppend(Groups(start, bytes[..i]), [Group(start + i, bytes[i])]);
    ConcatOne(Group(start + i, bytes[i]));
  }

  /** The bytes a value's hex text holds: the UTF-16 formats add one NUL
      code unit after each string. */
  function Terminated(info: RegValueInfo, bytes: seq<byte>): seq<byte>
  {
    if info.format == Utf16LEHexValues then bytes + [0, 0] else bytes
  }

  /** GetHexString: null bytes give empty text. */
  function HexString(info: RegValueInfo, bytes: Option<seq<byte>>): string
  {
    if bytes.Nothing? then "" else HexGroups(0, Terminated(info, bytes.value))
  }

  /** The bytes of every element, each terminated as Terminated says. */
  function ElementsBytes(info: RegValueInfo, strings: seq<string>): seq<byte>
  {
    if strings == [] then []
    else ElementsBytes(info, strings[..|strings| - 1]) + Terminated(info, GetBytes(strings[|strings| - 1]))
  }

  /** The bytes GetHexMultiString writes: the elements, then one more NUL code unit. */
  function MultiStringBytes(info: RegValueInfo, strings: seq<string>): seq<byte>
  {
    ElementsBytes(info, strings) + [0, 0]
  }

  lemma MultiStringBytesEmpty(info: RegValueInfo)
    ensures MultiStringBytes(info, []) == [0, 0]
  {
  }

  lemma MultiStringBytesOneEmpty()
    ensures MultiStringBytes(RegValueInfo(MultiString, Utf16LEHexValues), [""]) == [0, 0, 0, 0]
  {
    assert [""][..0] == [];
  }

  // ---------------------------------------------------- the boxed values

  /** (int)value. */
  function AsInt32(value: Value): (r: Result<int32>)
    ensures r.Ok? <==> value.DWordValue?
  {
    match value
    case DWordValue(i) => Ok(i)
    case Null => Err(NullReferenceException)
    case _ => Err(InvalidCastException)
  }

  /** (long)value. */
  function AsInt64(value: Value): (r: Result<int64>)
    ensures r.Ok? <==> value.QWordValue?
  {
    match value
    case QWordValue(q) => Ok(q)
    case Null => Err(NullReferenceException)
    case _ => Err(InvalidCastException)
  }

  /** (byte[])value: null casts to a null array. */
  function AsBytes(value: Value): (r: Result<Option<seq<byte>>>)
    ensures r.Ok? <==> value.Bytes? || value.Null?
  {
    match value
    case Bytes(b) => Ok(Some(b))
    case Null => Ok(Nothing)
    case _ => Err(InvalidCastException)
  }

  /** Encoding.Unicode.GetBytes((string)value): a null string is rejected. */
  function AsString(value: Value): (r: Result<string>)
    ensures r.Ok? <==> value.Text?
  {
    match value
    case Text(s) => Ok(s)
    case Null => Err(ArgumentNullException)
    case _ => Err(InvalidCastException)
  }

  /** (string[])value, dereferenced. */
  function AsStrings(value: Value): (r: Result<seq<string>>)
    ensures r.Ok? <==> value.Texts?
  {
    match value
    case Texts(ss) => Ok(ss)
    case Null => Err(NullReferenceException)
    case _ => Err(InvalidCastException)
  }

  /** value.ToString(). */
  function ObjectToString(value: Value): (r: Result<string>)
    ensures r.Ok? <==> !value.Null?
  {
    match value
    case Null => Err(NullReferenceException)
    case DWordValue(i) => Ok(DecimalString(i as int))
    case QWordValue(q) => Ok(DecimalString(q as int))
    case Text(s) => Ok(s)
    case Bytes(_) => Ok("System.Byte[]")
    case Texts(_) => Ok("System.String[]")
  }

  function Reversed(s: seq<byte>): (r: seq<byte>)
    ensures |r| == |s|
    ensures forall k :: 0 <= k < |s| ==> r[k] == s[|s| - 1 - k]
  {
    if s == [] then [] else [s[|s| - 1]] + Reversed(s[..|s| - 1])
  }

  lemma ReversedReversed(s: seq<byte>)
    ensures Reversed(Reversed(s)) == s
  {
  }

  // ------------------------------------------------------------- encoding

  /** GetRegFileValue: the token, a colon and the payload text, or the quoted
      escaped string for the String format. */
  function RegFileValue(info: RegValueInfo, value: Value): (r: Result<string>)
    ensures r.Ok? && info.format != ValueFormat.String ==>
      var t := GetRegFileToken(info);
      t.Ok? && t.value.Some? && |t.value.value| + 1 <= |r.value| && r.value[..|t.value.value| + 1] == t.value.value + ":"
    ensures r.Ok? && info.format == ValueFormat.String ==>
      |r.value| >= 2 && r.value[0] == '"' && r.value[|r.value| - 1] == '"'
  {
    match info.format
    case Integer =>
      var i :- AsInt32(value);
      Ok("dword:" + X8(i))
    case String =>
      var s :- ObjectToString(value);
      Ok("\"" + Escape(s) + "\"")
    case HexValues =>
      if info.kind == Binary then
        var b :- AsBytes(value);
        Ok("hex:" + HexString(info, b))
      else if info.kind == ValueKind.None then
        var b :- AsBytes(value);
        Ok("hex(0):" + HexString(info, b))
      else Err(ArgumentOutOfRangeException)
    case HexValuesLE =>
      if info.kind == QWord then
        var q :- AsInt64(value);
        Ok("hex(b):" + HexString(info, Some(Reversed(Int64Bytes(q)))))
      else if info.kind == DWord then
        var i :- AsInt32(value);
        Ok("hex(4):" + HexString(info, Some(Int32Bytes(i))))
      else Err(ArgumentOutOfRangeException)
    case HexValuesBE =>
      var i :- AsInt32(value);
      Ok("hex(5):" + HexString(info, Some(Int32Bytes(i))))
    case Utf16LEHexValues =>
      if info.kind == ValueKind.String then
        var s :- AsString(value);
        Ok("hex(1):" + HexString(info, Some(GetBytes(s))))
      else if info.kind == ExpandString then
        var s :- AsString(value);
        Ok("hex(2):" + HexString(info, Some(GetBytes(s))))
      else if info.kind == MultiString then
        var ss :- AsStrings(value);
        Ok("hex(7):" + HexGroups(0, MultiStringBytes(info, ss)))
      else Err(ArgumentOutOfRangeException)
    case Unknown => Err(ArgumentOutOfRangeException)
  }

  // ------------------------------------------------------------- decoding

  /** char.ToUpper on the characters that can reach the lookup table. */
  function ToUpper(c: char): char
  {
    if 'a' <= c <= 'z' then (c as int - 32) as char else c
  }

  /** ToByte's lookup table, indexed by (upper-cased character - '0'). */
  const HexTable: seq<nat> :=
    [0x00, 0x01, 0x02, 0x03, 0x04, 0x05, 0x06, 0x07, 0x08, 0x09,
     0x00, 0x00, 0x00, 0x00, 0x00, 0x00, 0x00,
     0x0A, 0x0B, 0x0C, 0x0D, 0x0E, 0x0F]

  /** The table entry for one character, or IndexOutOfRangeException. */
  function TableValue(c: char): (r: Result<nat>)
    ensures r.Ok? ==> r.value < 16
    ensures r.Err? ==> r.error == IndexOutOfRangeException
    ensures IsHexDigit(c) ==> r == Ok(HexValue(c))
  {
    var k := ToUpper(c) as int - '0' as int;
    if 0 <= k < |HexTable| then Ok(HexTable[k]) else Err(IndexOutOfRangeException)
  }

  /** ToByte: the first two characters through the table; a shorter entry
      or a character outside the table raises IndexOutOfRangeException. */
  function ToByte(s: string): (r: Result<byte>)
    ensures r.Err? ==> r.error == IndexOutOfRangeException
    ensures |s| >= 2 && IsHexDigit(s[0]) && IsHexDigit(s[1]) ==> r == Ok((16 * HexValue(s[0]) + HexValue(s[1])) as byte)
  {
    if |s| < 1 then Err(IndexOutOfRangeException)
    else
      var hi :- TableValue(s[0]);
      if |s| < 2 then Err(IndexOutOfRangeException)
      else
        var lo :- TableValue(s[1]);
        Ok((16 * hi + lo) as byte)
  }

  lemma ToByteX2(b: byte)
    ensures ToByte(X2(b)) == Ok(b)
  {
  }

  /** The entries of a comma split, trimmed, with empty ones dropped, each
      through ToByte. */
  function HexEntries(parts: seq<string>): (r: Result<seq<byte>>)
    ensures r.Err? ==> r.error == IndexOutOfRangeException
  {
    if parts == [] then Ok([])
    else
      var prev :- HexEntries(parts[..|parts| - 1]);
      var t := Trim(parts[|parts| - 1]);
      if t == [] then Ok(prev)
      else
        var b :- ToByte(t);
        Ok(prev + [b])
  }

  /** str.Split(',', TrimEntries | RemoveEmptyEntries).Select(ToByte). */
  function HexBytes(str: string): (r: Result<seq<byte>>)
    ensures r.Err? ==> r.error == IndexOutOfRangeException
  {
    HexEntries(Strings.Split(str, ','))
  }

  /** The bytes as the reader sees them once the continuation breaks are
      joined: upper-case pairs separated by commas. */
  function HexFlat(bytes: seq<byte>): string
  {
    if bytes == [] then ""
    else HexFlat(bytes[..|bytes| - 1]) + Comma(|bytes| - 1) + X2(bytes[|bytes| - 1])
  }

  function X2s(bytes: seq<byte>): (r: seq<string>)
    ensures |r| == |bytes|
  {
    seq(|bytes|, k requires 0 <= k < |bytes| => X2(bytes[k]))
  }

  lemma HexFlatLast(bytes: seq<byte>)
    requires bytes != []
    ensures HexFlat(bytes) == HexFlat(bytes[..|bytes| - 1]) + Comma(|bytes| - 1) + X2(bytes[|bytes| - 1])
  {
  }

  lemma {:induction false} SplitHexFlat(bytes: seq<byte>)
    requires bytes != []
    ensures Strings.Split(HexFlat(bytes), ',') == X2s(bytes)
    decreases |bytes|
  {
    var n := |bytes|;
    var x := X2(bytes[n - 1]);
    assert ',' !in x;
    HexFlatLast(bytes);
    if n == 1 {
      assert HexFlat(bytes[..0]) == "";
      assert HexFlat(bytes) == x;
      assert IndexOf(x, ',') == -1;
      assert X2s(bytes) == [x];
    } else {
      var init := bytes[..n - 1];
      calc {
        Strings.Split(HexFlat(bytes), ',');
        Strings.Split(HexFlat(init) + [','] + x, ',');
        { SplitSnoc(HexFlat(init), ',', x); }
        Strings.Split(HexFlat(init), ',') + [x];
        { SplitHexFlat(init); }
        X2s(init) + [x];
        X2s(bytes);
      }
    }
  }

  lemma HexEntriesLast(parts: seq<string>)
    requires parts != []
    ensures HexEntries(parts) ==
      match HexEntries(parts[..|parts| - 1])
      case Err(e) => Err(e)
      case Ok(prev) =>
        var t := Trim(parts[|parts| - 1]);
        if t == [] then Ok(prev)
        else match ToByte(t)
          case Err(e) => Err(e)
          case Ok(b) => Ok(prev + [b])
  {
  }

  lemma {:induction false} HexEntriesX2s(bytes: seq<byte>)
    ensures HexEntries(X2s(bytes)) == Ok(bytes)
    decreases |bytes|
  {
    if bytes != [] {
      var n := |bytes|;
      HexEntriesX2s(bytes[..n - 1]);
      HexEntriesX2sLast(bytes);
      assert bytes[..n - 1] + [bytes[n - 1]] == bytes;
    }
  }

  /** One more written pair reads back as one more byte. */
  lemma HexEntriesX2sLast(bytes: seq<byte>)
    requires bytes != []
    ensures HexEntries(X2s(bytes)) ==
      match HexEntries(X2s(bytes[..|bytes| - 1]))
      case Err(e) => Err(e)
      case Ok(prev) => Ok(prev + [bytes[|bytes| - 1]])
  {
    var n := |bytes|;
    var parts := X2s(bytes);
    var x := X2(bytes[n - 1]);
    assert parts[..n - 1] == X2s(bytes[..n - 1]);
    assert parts[n - 1] == x;
    TrimUnchanged(x);
    ToByteX2(bytes[n - 1]);
    HexEntriesLast(parts);
  }

  /** Reading the joined hex text gives back the written bytes. */
  lemma HexBytesHexFlat(bytes: seq<byte>)
    ensures HexBytes(HexFlat(bytes)) == Ok(bytes)
  {
    if bytes == [] {
      assert Strings.Split("", ',') == [""];
    } else {
      SplitHexFlat(bytes);
      HexEntriesX2s(bytes);
    }
  }

  // ------------------------------------------------ continuation parts

  /** The characters of joined hex text: digits and commas. */
  predicate IsHexText(s: string)
  {
    forall k :: 0 <= k < |s| ==> IsHexDigit(s[k]) || s[k] == ','
  }

  lemma IsHexTextAppend(a: string, b: string)
    requires IsHexText(a) && IsHexText(b)
    ensures IsHexText(a + b)
  {
    forall k | 0 <= k < |a + b| ensures IsHexDigit((a + b)[k]) || (a + b)[k] == ',' {
      if k < |a| { assert (a + b)[k] == a[k]; } else { assert (a + b)[k] == b[k - |a|]; }
    }
  }

  /** Parts joined by continuation breaks. */
  function BreakJoin(ps: seq<string>): string
    requires |ps| >= 1
  {
    if |ps| == 1 then ps[0] else ps[0] + ContinuationBreak + BreakJoin(ps[1..])
  }

  /** The text between the continuation breaks of HexGroups(0, bytes): the
      comma of the group after a break stays before the break. */
  function HexParts(bytes: seq<byte>): (ps: seq<string>)
    ensures |ps| >= 1
  {
    if |bytes| == 0 then [""]
    else
      var n := |bytes|;
      NextParts(HexParts(bytes[..n - 1]), n - 1, bytes[n - 1])
  }

  /** The parts after the group of byte b at running index i: at a break
      the last part takes the comma and a new part starts with the digits. */
  function NextParts(ps: seq<string>, i: nat, b: byte): (r: seq<string>)
    requires |ps| >= 1
    ensures |r| >= 1
  {
    var k := |ps|;
    if i % 32 == 31 then ps[..k - 1] + [ps[k - 1] + ","] + [X2(b)]
    else ps[..k - 1] + [ps[k - 1] + Comma(i) + X2(b)]
  }

  /** HexParts one byte longer. */
  lemma HexPartsLast(bytes: seq<byte>)
    requires |bytes| > 0
    ensures HexParts(bytes) == NextParts(HexParts(bytes[..|bytes| - 1]), |bytes| - 1, bytes[|bytes| - 1])
  {
  }

  /** Parts whose text is hex text, whose later parts start with a digit. */
  predicate PartsShaped(ps: seq<string>)
  {
    && |ps| >= 1
    && (forall j :: 0 <= j < |ps| ==> IsHexText(ps[j]))
    && (forall j :: 1 <= j < |ps| ==> ps[j] != [] && IsHexDigit(ps[j][0]))
  }

  /** The shape survives extending the last part by hex text. */
  lemma ShapedExtendLast(ps: seq<string>, y: string)
    requires PartsShaped(ps) && IsHexText(y)
    ensures PartsShaped(ps[..|ps| - 1] + [ps[|ps| - 1] + y])
  {
    var k := |ps|;
    var qs := ps[..k - 1] + [ps[k - 1] + y];
    IsHexTextAppend(ps[k - 1], y);
    forall j | 0 <= j < k ensures qs[j] == if j < k - 1 then ps[j] else ps[k - 1] + y {
    }
    assert k - 1 >= 1 ==> qs[k - 1][0] == ps[k - 1][0];
  }

  /** The shape survives a new digit-led part. */
  lemma ShapedSnoc(ps: seq<string>, z: string)
    requires PartsShaped(ps) && IsHexText(z) && z != [] && IsHexDigit(z[0])
    ensures PartsShaped(ps + [z])
  {
    var qs := ps + [z];
    forall j | 0 <= j < |qs| ensures qs[j] == if j < |ps| then ps[j] else z {
    }
  }

  /** Every part is hex text; the parts after a break start with a digit,
      and the last part ends with one unless there are no bytes. */
  lemma {:induction false} HexPartsShape(bytes: seq<byte>)
    ensures PartsShaped(HexParts(bytes))
    ensures bytes == [] ==> HexParts(bytes) == [""]
    ensures bytes != [] ==> var last := HexParts(bytes)[|HexParts(bytes)| - 1]; last != [] && IsHexDigit(last[|last| - 1])
    decreases |bytes|
  {
    if |bytes| > 0 {
      var n := |bytes|;
      var ps := HexParts(bytes[..n - 1]);
      var k := |ps|;
      var x := X2(bytes[n - 1]);
      HexPartsShape(bytes[..n - 1]);
      HexPartsLast(bytes);
      assert IsHexText(x);
      if (n - 1) % 32 == 31 {
        assert IsHexText(",");
        ShapedExtendLast(ps, ",");
        ShapedSnoc(ps[..k - 1] + [ps[k - 1] + ","], x);
      } else {
        assert IsHexText(Comma(n - 1));
        IsHexTextAppend(Comma(n - 1), x);
        AppendAssoc(ps[k - 1], Comma(n - 1), x);
        ShapedExtendLast(ps, Comma(n - 1) + x);
      }
    }
  }

  lemma {:induction false} BreakJoinSnoc(ps: seq<string>, z: string)
    requires |ps| >= 1
    ensures BreakJoin(ps + [z]) == BreakJoin(ps) + ContinuationBreak + z
    decreases |ps|
  {
    if |ps| > 1 {
      assert (ps + [z])[1..] == ps[1..] + [z];
      BreakJoinSnoc(ps[1..], z);
    }
  }

  lemma {:induction false} BreakJoinExtendLast(ps: seq<string>, y: string)
    requires |ps| >= 1
    ensures BreakJoin(ps[..|ps| - 1] + [ps[|ps| - 1] + y]) == BreakJoin(ps) + y
    decreases |ps|
  {
    var qs := ps[..|ps| - 1] + [ps[|ps| - 1] + y];
    if |ps| > 1 {
      var rest := ps[1..];
      assert qs[1..] == rest[..|rest| - 1] + [rest[|rest| - 1] + y];
      BreakJoinExtendLast(rest, y);
    }
  }

  lemma ConcatExtendLast(ps: seq<string>, y: string)
    requires |ps| >= 1
    ensures Concat(ps[..|ps| - 1] + [ps[|ps| - 1] + y]) == Concat(ps) + y
  {
    var k := |ps|;
    var init, last := ps[..k - 1], ps[k - 1];
    var qs := init + [last + y];
    assert qs[..|qs| - 1] == init && qs[|qs| - 1] == last + y;
    assert Concat(qs) == Concat(init) + (last + y);
    assert Concat(ps) == Concat(init) + last;
    AppendAssoc(Concat(init), last, y);
  }

  /** The group at a break index: the comma, the break, the digits. */
  lemma GroupAtBreak(i: nat, b: byte)
    requires i % 32 == 31
    ensures Group(i, b) == "," + ContinuationBreak + X2(b)
  {
  }

  lemma GroupNoBreak(i: nat, b: byte)
    requires i % 32 != 31
    ensures Group(i, b) == Comma(i) + X2(b)
  {
  }

  /** Joining after a new part that follows a comma. */
  lemma JoinAtBreak(ps: seq<string>, x: string)
    requires |ps| >= 1
    ensures BreakJoin(ps[..|ps| - 1] + [ps[|ps| - 1] + ","] + [x]) == BreakJoin(ps) + ("," + ContinuationBreak + x)
  {
    var qs := ps[..|ps| - 1] + [ps[|ps| - 1] + ","];
    var j := BreakJoin(ps);
    assert BreakJoin(qs) == j + "," by { BreakJoinExtendLast(ps, ","); }
    assert BreakJoin(qs + [x]) == BreakJoin(qs) + ContinuationBreak + x by { BreakJoinSnoc(qs, x); }
    assert (j + ",") + ContinuationBreak + x == j + ("," + ContinuationBreak + x) by {
      AppendAssoc(j + ",", ContinuationBreak, x);
      AppendAssoc(j, ",", ContinuationBreak + x);
      AppendAssoc(",", ContinuationBreak, x);
    }
  }

  /** Joining after the last part grows by a comma and digits. */
  lemma JoinNoBreak(ps: seq<string>, c: string, x: string)
    requires |ps| >= 1
    ensures BreakJoin(ps[..|ps| - 1] + [ps[|ps| - 1] + c + x]) == BreakJoin(ps) + (c + x)
  {
    AppendAssoc(ps[|ps| - 1], c, x);
    BreakJoinExtendLast(ps, c + x);
  }

  /** The written hex text is its parts joined by continuation breaks. */
  lemma {:induction false} HexGroupsParts(bytes: seq<byte>)
    ensures HexGroups(0, bytes) == BreakJoin(HexParts(bytes))
    decreases |bytes|
  {
    if |bytes| == 0 {
      assert Groups(0, bytes) == [];
    } else {
      HexGroupsParts(bytes[..|bytes| - 1]);
      HexGroupsLast(bytes);
      BreakJoinLast(bytes);
    }
  }

  /** One more byte appends its group to the joined parts. */
  lemma BreakJoinLast(bytes: seq<byte>)
    requires |bytes| > 0
    ensures BreakJoin(HexParts(bytes)) == BreakJoin(HexParts(bytes[..|bytes| - 1])) + Group(|bytes| - 1, bytes[|bytes| - 1])
  {
    var i := |bytes| - 1;
    HexPartsLast(bytes);
    JoinNextParts(HexParts(bytes[..i]), i, bytes[i]);
  }

  lemma HexGroupsLast(bytes: seq<byte>)
    requires |bytes| > 0
    ensures HexGroups(0, bytes) == HexGroups(0, bytes[..|bytes| - 1]) + Group(|bytes| - 1, bytes[|bytes| - 1])
  {
    var i := |bytes| - 1;
    HexGroupsStep(0, bytes, i);
    assert bytes[..i + 1] == bytes;
  }

  /** Joining the next parts appends the group. */
  lemma JoinNextParts(ps: seq<string>, i: nat, b: byte)
    requires |ps| >= 1
    ensures BreakJoin(NextParts(ps, i, b)) == BreakJoin(ps) + Group(i, b)
  {
    if i % 32 == 31 {
      GroupAtBreak(i, b);
      JoinAtBreak(ps, X2(b));
    } else {
      GroupNoBreak(i, b);
      JoinNoBreak(ps, Comma(i), X2(b));
    }
  }

  /** Without the breaks, the parts are the joined hex text. */
  lemma {:induction false} HexPartsFlat(bytes: seq<byte>)
    ensures Concat(HexParts(bytes)) == HexFlat(bytes)
    decreases |bytes|
  {
    if |bytes| == 0 {
      ConcatOne("");
    } else {
      var n := |bytes|;
      var init := bytes[..n - 1];
      var ps := HexParts(init);
      var k := |ps|;
      var x := X2(bytes[n - 1]);
      HexPartsFlat(init);
      HexFlatLast(bytes);
      HexPartsLast(bytes);
      if (n - 1) % 32 == 31 {
        var qs := ps[..k - 1] + [ps[k - 1] + ","];
        ConcatExtendLast(ps, ",");
        ConcatAppend(qs, [x]);
        ConcatOne(x);
        assert Comma(n - 1) == ",";
      } else {
        ConcatExtendLast(ps, Comma(n - 1) + x);
        AppendAssoc(ps[k - 1], Comma(n - 1), x);
        AppendAssoc(HexFlat(init), Comma(n - 1), x);
      }
    }
  }

  /** string.TrimEnd('\0'). */
  function TrimEndNul(s: string): (r: string)
    ensures '\0' !in s ==> r == s
  {
    if s != [] && s[|s| - 1] == '\0' then TrimEndNul(s[..|s| - 1]) else s
  }

  /** The first aligned pair of zero bytes, or -1. */
  function FirstNulPair(a: seq<byte>): (r: int)
    ensures r == -1 <==> !HasNulUnit(a)
    ensures r != -1 ==> 0 <= r && r % 2 == 0 && r + 1 < |a| && a[r] == 0 && a[r + 1] == 0 && !HasNulUnit(a[..r])
  {
    if |a| < 2 then -1
    else if a[0] == 0 && a[1] == 0 then 0
    else
      var k := FirstNulPair(a[2..]);
      if k == -1 then -1
      else
        assert a[..k + 2] == a[..2] + a[2..][..k];
        HasNulUnitAppend(a[..2], a[2..][..k]);
        assert a[..2][2..] == [];
        k + 2
  }

  /** Split: the runs between aligned NUL code units, keeping empty runs; a
      last run without a terminator counts only when it is not empty. */
  function SplitAtNul(a: seq<byte>): seq<seq<byte>>
    decreases |a|
  {
    if a == [] then []
    else
      var k := FirstNulPair(a);
      if k == -1 then [a] else [a[..k]] + SplitAtNul(a[k + 2..])
  }

  function GetStrings(parts: seq<seq<byte>>): (r: seq<string>)
    ensures |r| == |parts|
  {
    seq(|parts|, k requires 0 <= k < |parts| => GetString(parts[k]))
  }

  /** GetNativeValue: payload text to a native value. */
  function NativeValue(info: RegValueInfo, str: string, loc: SourceLocation): (r: Result<Value>)
    ensures r.Err? ==> r.error.IOException? ==> r.error.location == loc
    ensures r.Err? && !r.error.IOException? ==> r.error == IndexOutOfRangeException
  {
    if info.format == ValueFormat.String then Ok(Text(Unescape(str)))
    else if info.format == Integer then
      match TryParseHexInt32(str)
      case Nothing => Err(IOException(loc, ExpectedInteger))
      case Some(v) => Ok(DWordValue(v))
    else if info.format == Utf16LEHexValues then
      var bytes :- HexBytes(str);
      Utf16Value(info, bytes, loc)
    else if info.format == HexValues || info.format == HexValuesLE || info.format == HexValuesBE then
      var bytes :- HexBytes(str);
      BinaryValue(info, bytes, loc)
    else Err(IOException(loc, CannotProcessValueType))
  }

  /** The UTF-16 branch of GetNativeValue, on the parsed bytes. */
  function Utf16Value(info: RegValueInfo, bytes: seq<byte>, loc: SourceLocation): (r: Result<Value>)
    ensures r.Err? ==> r.error.IOException? && r.error.location == loc
  {
    var n := |bytes|;
    if info.kind == MultiString then
      if n < 2 || bytes[n - 1] != 0 || bytes[n - 2] != 0 then Err(IOException(loc, ExpectedTwoNulBytes))
      else if n % 2 != 0 then Err(IOException(loc, ExpectedEvenHexPairs))
      else Ok(Texts(GetStrings(SplitAtNul(bytes[..n - 2]))))
    else if n < 1 || bytes[n - 1] != 0 then Err(IOException(loc, ExpectedNulByte))
    else Ok(Text(TrimEndNul(GetString(bytes))))
  }

  /** The hex(…) branch of GetNativeValue, on the parsed bytes. */
  function BinaryValue(info: RegValueInfo, bytes: seq<byte>, loc: SourceLocation): (r: Result<Value>)
    ensures r.Err? ==> r.error.IOException? && r.error.location == loc
  {
    if info.kind == ValueKind.None || info.kind == Binary then Ok(Bytes(bytes))
    else if info.kind == DWord then
      if |bytes| < 4 then Err(IOException(loc, ExpectedHexPairs(4)))
      else Ok(DWordValue(ToInt32(bytes)))
    else if info.kind == QWord then
      if |bytes| < 8 then Err(IOException(loc, ExpectedHexPairs(8)))
      else Ok(QWordValue(ToInt64(Reversed(bytes))))
    else Err(IOException(loc, CannotProcessValueType))
  }

  /** The checks on UTF-16 payloads: a multi-string needs its last two
      bytes zero, then an even count; a single string only a zero last
      byte. */
  lemma Utf16ValueRejects(info: RegValueInfo, bytes: seq<byte>, loc: SourceLocation)
    ensures var n := |bytes|; var r := Utf16Value(info, bytes, loc);
      info.kind == MultiString ==>
        && (r == Err(IOException(loc, ExpectedTwoNulBytes)) <==> n < 2 || bytes[n - 1] != 0 || bytes[n - 2] != 0)
        && (r == Err(IOException(loc, ExpectedEvenHexPairs)) <==> n >= 2 && bytes[n - 1] == 0 && bytes[n - 2] == 0 && n % 2 != 0)
    ensures var n := |bytes|; var r := Utf16Value(info, bytes, loc);
      info.kind != MultiString ==> (r == Err(IOException(loc, ExpectedNulByte)) <==> n < 1 || bytes[n - 1] != 0)
    ensures var r := Utf16Value(info, bytes, loc);
      r.Err? ==> r.error.reason in {ExpectedTwoNulBytes, ExpectedEvenHexPairs, ExpectedNulByte}
  {
  }

  /** The byte counts of the integer encodings: a dword needs at least four
      bytes and a qword eight; binary data takes any count. */
  lemma BinaryValueRejects(info: RegValueInfo, bytes: seq<byte>, loc: SourceLocation)
    ensures info.kind == DWord ==>
      (BinaryValue(info, bytes, loc) == Err(IOException(loc, ExpectedHexPairs(4))) <==> |bytes| < 4)
    ensures info.kind == QWord ==>
      (BinaryValue(info, bytes, loc) == Err(IOException(loc, ExpectedHexPairs(8))) <==> |bytes| < 8)
    ensures info.kind == Binary || info.kind == ValueKind.None ==> BinaryValue(info, bytes, loc) == Ok(Bytes(bytes))
  {
  }

  // -------------------------------------------- the imperative writers

  const NulUnit: seq<byte> := [0, 0]

  /** The three appends of one loop iteration write one group. */
  lemma GroupAppended(before: string, afterComma: string, afterBreak: string, after: string, t: nat, b: byte)
    requires afterComma == before + Comma(t)
    requires t % 32 == 31 ==> afterBreak == afterComma + "\\" + NewLine + "  "
    requires t % 32 != 31 ==> afterBreak == afterComma
    requires after == afterBreak + X2(b)
    ensures after == before + Group(t, b)
  {
  }

  /** AddNullTermination: two "00" groups, continuing the running index. */
  method AddNullTermination(total: nat, sb: StringBuilder) returns (newTotal: nat)
    modifies sb
    ensures sb.Content == old(sb.Content) + HexGroups(total, NulUnit)
    ensures newTotal == total + 2
  {
    var t := total;
    for i := 0 to 2
      invariant t == total + i
      invariant sb.Content == old(sb.Content) + HexGroups(total, NulUnit[..i])
    {
      ghost var before := sb.Content;
      if t > 0 || i > 0 {
        sb.Append(",");
      }
      ghost var afterComma := sb.Content;
      if t % 32 == 31 {
        sb.AppendLine("\\");
        sb.Append("  ");
      }
      ghost var afterBreak := sb.Content;
      sb.Append("00");
      GroupAppended(before, afterComma, afterBreak, sb.Content, t, 0);
      HexGroupsStep(total, NulUnit, i);
      AppendAssoc(old(sb.Content), HexGroups(total, NulUnit[..i]), Group(t, 0));
      t := t + 1;
    }
    assert NulUnit[..2] == NulUnit;
    newTotal := t;
  }

  /** AddHexString: one group per byte, continuing the running index, then
      the NUL code unit for the UTF-16 formats. */
  method AddHexString(total: nat, info: RegValueInfo, sb: StringBuilder, bytes: seq<byte>) returns (newTotal: nat)
    modifies sb
    ensures sb.Content == old(sb.Content) + HexGroups(total, Terminated(info, bytes))
    ensures newTotal == total + |Terminated(info, bytes)|
  {
    var t := total;
    for i := 0 to |bytes|
      invariant t == total + i
      invariant sb.Content == old(sb.Content) + HexGroups(total, bytes[..i])
    {
      ghost var before := sb.Content;
      if t > 0 {
        sb.Append(",");
      }
      ghost var afterComma := sb.Content;
      if t % 32 == 31 {
        sb.AppendLine("\\");
        sb.Append("  ");
      }
      ghost var afterBreak := sb.Content;
      sb.Append(X2(bytes[i]));
      GroupAppended(before, afterComma, afterBreak, sb.Content, t, bytes[i]);
      HexGroupsStep(total, bytes, i);
      AppendAssoc(old(sb.Content), HexGroups(total, bytes[..i]), Group(t, bytes[i]));
      t := t + 1;
    }
    assert bytes[..|bytes|] == bytes;
    ghost var written := sb.Content;
    assert written == old(sb.Content) + HexGroups(total, bytes);
    if info.format == Utf16LEHexValues {
      t := AddNullTermination(t, sb);
      HexGroupsAppend(total, bytes, NulUnit);
      AppendAssoc(old(sb.Content), HexGroups(total, bytes), HexGroups(total + |bytes|, NulUnit));
      assert Terminated(info, bytes) == bytes + NulUnit;
    } else {
      assert Terminated(info, bytes) == bytes;
    }
    newTotal := t;
  }

  /** GetHexString: the groups of one byte array, or nothing for null. */
  method GetHexString(info: RegValueInfo, bytes: Option<seq<byte>>) returns (s: string)
    ensures s == HexString(info, bytes)
  {
    var sb := new StringBuilder();
    if bytes.Some? {
      var total := AddHexString(0, info, sb, bytes.value);
    }
    s := sb.Content;
  }

  /** GetHexMultiString: every element with its terminator, one running
      index across all of them, then the final NUL code unit. */
  method GetHexMultiString(info: RegValueInfo, strings: seq<string>) returns (s: string)
    ensures s == HexGroups(0, MultiStringBytes(info, strings))
  {
    var sb := new StringBuilder();
    var total := 0;
    for i := 0 to |strings|
      invariant total == |ElementsBytes(info, strings[..i])|
      invariant sb.Content == ElementsHex(info, strings[..i])
    {
      total := AddHexString(total, info, sb, GetBytes(strings[i]));
      ElementsStep(info, strings, i);
    }
    assert strings[..|strings|] == strings;
    total := AddNullTermination(total, sb);
    MultiStringHex(info, strings);
    s := sb.Content;
  }

  /** The text the element loop of GetHexMultiString writes. */
  function ElementsHex(info: RegValueInfo, strings: seq<string>): string
  {
    if |strings| == 0 then ""
    else
      var init := strings[..|strings| - 1];
      ElementsHex(info, init) + HexGroups(|ElementsBytes(info, init)|, Terminated(info, GetBytes(strings[|strings| - 1])))
  }

  lemma ElementsStep(info: RegValueInfo, strings: seq<string>, i: nat)
    requires i < |strings|
    ensures ElementsBytes(info, strings[..i + 1]) == ElementsBytes(info, strings[..i]) + Terminated(info, GetBytes(strings[i]))
    ensures ElementsHex(info, strings[..i + 1]) == ElementsHex(info, strings[..i]) + HexGroups(|ElementsBytes(info, strings[..i])|, Terminated(info, GetBytes(strings[i])))
  {
    assert strings[..i + 1][..i] == strings[..i];
  }

  lemma {:induction false} ElementsHexGroups(info: RegValueInfo, strings: seq<string>)
    ensures ElementsHex(info, strings) == HexGroups(0, ElementsBytes(info, strings))
    decreases |strings|
  {
    if |strings| > 0 {
      var init := strings[..|strings| - 1];
      ElementsHexGroups(info, init);
      HexGroupsAppend(0, ElementsBytes(info, init), Terminated(info, GetBytes(strings[|strings| - 1])));
    }
  }

  lemma MultiStringHex(info: RegValueInfo, strings: seq<string>)
    ensures ElementsHex(info, strings) + HexGroups(|ElementsBytes(info, strings)|, NulUnit) == HexGroups(0, MultiStringBytes(info, strings))
  {
    ElementsHexGroups(info, strings);
    HexGroupsAppend(0, ElementsBytes(info, strings), NulUnit);
  }

  /** Array.Reverse on a byte array. */
  method Reverse(a: array<byte>)
    modifies a
    ensures a[..] == Reversed(old(a[..]))
  {
    var lo := 0;
    while lo < a.Length - 1 - lo
      invariant 0 <= lo && 2 * lo <= a.Length
      invariant forall k :: 0 <= k < lo ==> a[k] == old(a[a.Length - 1 - k]) && a[a.Length - 1 - k] == old(a[k])
      invariant forall k :: lo <= k < a.Length - lo ==> a[k] == old(a[k])
    {
      var hi := a.Length - 1 - lo;
      a[lo], a[hi] := a[hi], a[lo];
      lo := lo + 1;
    }
  }

  /** GetRegFileValue, switch by switch. */
  method GetRegFileValue(info: RegValueInfo, value: Value) returns (r: Result<string>)
    ensures r == RegFileValue(info, value)
  {
    match info.format
    case Integer =>
      var i := AsInt32(value);
      if i.Err? { return Err(i.error); }
      return Ok("dword:" + X8(i.value));
    case String =>
      var str := ObjectToString(value);
      if str.Err? { return Err(str.error); }
      return Ok("\"" + Escape(str.value) + "\"");
    case HexValues =>
      if info.kind == Binary || info.kind == ValueKind.None {
        var b := AsBytes(value);
        if b.Err? { return Err(b.error); }
        var hex := GetHexString(info, b.value);
        return Ok((if info.kind == Binary then "hex:" else "hex(0):") + hex);
      }
      return Err(ArgumentOutOfRangeException);
    case HexValuesLE =>
      if info.kind == QWord {
        var q := AsInt64(value);
        if q.Err? { return Err(q.error); }
        var le := Int64Bytes(q.value);
        var bytes := new byte[8](k requires 0 <= k < 8 => le[k]);
        assert bytes[..] == le;
        Reverse(bytes);
        var hex := GetHexString(info, Some(bytes[..]));
        return Ok("hex(b):" + hex);
      } else if info.kind == DWord {
        var i := AsInt32(value);
        if i.Err? { return Err(i.error); }
        var hex := GetHexString(info, Some(Int32Bytes(i.value)));
        return Ok("hex(4):" + hex);
      }
      return Err(ArgumentOutOfRangeException);
    case HexValuesBE =>
      var i := AsInt32(value);
      if i.Err? { return Err(i.error); }
      var hex := GetHexString(info, Some(Int32Bytes(i.value)));
      return Ok("hex(5):" + hex);
    case Utf16LEHexValues =>
      if info.kind == ValueKind.String || info.kind == ExpandString {
        var str := AsString(value);
        if str.Err? { return Err(str.error); }
        var hex := GetHexString(info, Some(GetBytes(str.value)));
        return Ok((if info.kind == ValueKind.String then "hex(1):" else "hex(2):") + hex);
      } else if info.kind == MultiString {
        var ss := AsStrings(value);
        if ss.Err? { return Err(ss.error); }
        var hex := GetHexMultiString(info, ss.value);
        return Ok("hex(7):" + hex);
      }
      return Err(ArgumentOutOfRangeException);
    case Unknown =>
      return Err(ArgumentOutOfRangeException);
  }

  // ------------------------------------------ the imperative decoders

  /** An aligned zero pair is a NUL code unit. */
  lemma {:induction false} PairIsNulUnit(a: seq<byte>, j: nat)
    requires j % 2 == 0 && j + 1 < |a| && a[j] == 0 && a[j + 1] == 0
    ensures HasNulUnit(a)
  {
    if j > 0 {
      PairIsNulUnit(a[2..], j - 2);
    }
  }

  /** FirstNulPair finds the first aligned zero pair. */
  lemma FirstNulPairAt(a: seq<byte>, j: nat)
    requires j % 2 == 0 && j + 1 < |a| && a[j] == 0 && a[j + 1] == 0 && !HasNulUnit(a[..j])
    ensures FirstNulPair(a) == j
  {
    PairIsNulUnit(a, j);
    var r := FirstNulPair(a);
    if r < j {
      assert a[..j][r] == 0 && a[..j][r + 1] == 0;
      PairIsNulUnit(a[..j], r);
    } else if r > j {
      assert a[..r][j] == 0 && a[..r][j + 1] == 0;
      PairIsNulUnit(a[..r], j);
    }
  }

  /** A zero pair at i closes the run that started at segStart. */
  lemma SplitAtNulPair(a: seq<byte>, segStart: nat, i: nat, n: nat)
    requires i == segStart + 2 * n && i + 1 < |a|
    requires a[i] == 0 && a[i + 1] == 0 && !HasNulUnit(a[segStart..i])
    ensures SplitAtNul(a[segStart..]) == [a[segStart..i]] + SplitAtNul(a[i + 2..])
  {
    var tail := a[segStart..];
    assert tail[..i - segStart] == a[segStart..i];
    FirstNulPairAt(tail, i - segStart);
    assert tail[i - segStart + 2..] == a[i + 2..];
  }

  /** A non-zero pair at i extends the run that started at segStart. */
  lemma NoNulUnitExtend(a: seq<byte>, segStart: nat, i: nat, n: nat)
    requires i == segStart + 2 * n && i + 1 < |a|
    requires !(a[i] == 0 && a[i + 1] == 0) && !HasNulUnit(a[segStart..i])
    ensures !HasNulUnit(a[segStart..i + 2])
  {
    assert a[segStart..i + 2] == a[segStart..i] + a[i..i + 2];
    HasNulUnitAppend(a[segStart..i], a[i..i + 2]);
    assert a[i..i + 2][2..] == [];
  }

  /** The last run has no terminator: it counts only when it is not empty. */
  lemma SplitAtNulRest(a: seq<byte>, segStart: nat)
    requires segStart <= |a| && !HasNulUnit(a[segStart..])
    ensures SplitAtNul(a[segStart..]) == if segStart < |a| then [a[segStart..]] else []
  {
  }

  /** The runs Split's loop still adds, from a run starting at segStart with
      the scan at i. */
  function SplitFrom(a: seq<byte>, segStart: nat, i: nat): seq<seq<byte>>
    requires segStart <= i <= |a|
    decreases |a| - i
  {
    if i + 1 >= |a| then (if segStart < |a| then [a[segStart..]] else [])
    else if a[i] == 0 && a[i + 1] == 0 then [a[segStart..i]] + SplitFrom(a, i + 2, i + 2)
    else SplitFrom(a, segStart, i + 2)
  }

  /** On an even-length array the loop's runs are those of SplitAtNul. */
  lemma {:induction false} SplitFromAtNul(a: seq<byte>, segStart: nat, i: nat, n: nat, left: nat)
    requires i == segStart + 2 * n && |a| == i + 2 * left
    requires !HasNulUnit(a[segStart..i])
    ensures SplitFrom(a, segStart, i) == SplitAtNul(a[segStart..])
    decreases left, 1
  {
    if left == 0 {
      assert a[segStart..] == a[segStart..i];
      SplitAtNulRest(a, segStart);
    } else if a[i] == 0 && a[i + 1] == 0 {
      SplitFromAtNulPair(a, segStart, i, n, left);
    } else {
      SplitFromAtNulOther(a, segStart, i, n, left);
    }
  }

  lemma NoNulUnitEmpty(a: seq<byte>, k: nat)
    requires k <= |a|
    ensures !HasNulUnit(a[k..k])
  {
  }

  /** A zero pair at i closes the run, given the runs after it. */
  lemma SplitFromClose(a: seq<byte>, segStart: nat, i: nat, n: nat, left: nat)
    requires i == segStart + 2 * n && |a| == i + 2 * left && left > 0
    requires !HasNulUnit(a[segStart..i]) && a[i] == 0 && a[i + 1] == 0
    requires SplitFrom(a, i + 2, i + 2) == SplitAtNul(a[i + 2..])
    ensures SplitFrom(a, segStart, i) == SplitAtNul(a[segStart..])
  {
    SplitAtNulPair(a, segStart, i, n);
  }

  /** SplitFromAtNul where the scan meets a zero pair. */
  lemma {:induction false} SplitFromAtNulPair(a: seq<byte>, segStart: nat, i: nat, n: nat, left: nat)
    requires i == segStart + 2 * n && |a| == i + 2 * left && left > 0
    requires !HasNulUnit(a[segStart..i]) && a[i] == 0 && a[i + 1] == 0
    ensures SplitFrom(a, segStart, i) == SplitAtNul(a[segStart..])
    decreases left, 0
  {
    var j := i + 2;
    NoNulUnitEmpty(a, j);
    SplitFromAtNul(a, j, j, 0, left - 1);
    SplitFromClose(a, segStart, i, n, left);
  }

  /** SplitFromAtNul where the scan passes a pair that is not zero. */
  lemma {:induction false} SplitFromAtNulOther(a: seq<byte>, segStart: nat, i: nat, n: nat, left: nat)
    requires i == segStart + 2 * n && |a| == i + 2 * left && left > 0
    requires !HasNulUnit(a[segStart..i]) && !(a[i] == 0 && a[i + 1] == 0)
    ensures SplitFrom(a, segStart, i) == SplitAtNul(a[segStart..])
    decreases left, 0
  {
    var j, m := i + 2, n + 1;
    NoNulUnitExtend(a, segStart, i, n);
    SplitFromAtNul(a, segStart, j, m, left - 1);
  }

  /** One pair of the loop in Split: a NUL pair ends the current run. */
  lemma SplitFromStep(a: seq<byte>, done: seq<seq<byte>>, segStart: nat, i: nat)
    requires segStart <= i && i + 1 < |a|
    ensures a[i] == 0 && a[i + 1] == 0 ==>
      done + SplitFrom(a, segStart, i) == (done + [a[segStart..i]]) + SplitFrom(a, i + 2, i + 2)
    ensures !(a[i] == 0 && a[i + 1] == 0) ==> SplitFrom(a, segStart, i) == SplitFrom(a, segStart, i + 2)
  {
  }

  /** The run still open when the scan ends is the last one. */
  lemma SplitFromDone(a: seq<byte>, done: seq<seq<byte>>, segStart: nat)
    requires segStart <= |a| && done + SplitFrom(a, segStart, |a|) == SplitFrom(a, 0, 0)
    ensures (if segStart < |a| then done + [a[segStart..]] else done) == SplitFrom(a, 0, 0)
  {
    assert SplitFrom(a, segStart, |a|) == if segStart < |a| then [a[segStart..]] else [];
  }

  /** The whole scan of an even-length array is SplitAtNul. */
  lemma SplitFromWhole(a: seq<byte>, units: nat)
    requires |a| == 2 * units
    ensures SplitFrom(a, 0, 0) == SplitAtNul(a)
  {
    assert a[0..] == a && a[0..0] == [];
    SplitFromAtNul(a, 0, 0, 0, units);
  }

  /** Split: the runs between aligned NUL code units; an odd-length array
      makes the pair read past its end. */
  method Split(arr: array<byte>) returns (r: Result<seq<seq<byte>>>)
    ensures arr.Length % 2 == 0 ==> r == Ok(SplitAtNul(arr[..]))
    ensures arr.Length % 2 == 1 ==> r == Err(IndexOutOfRangeException)
  {
    ghost var a := arr[..];
    var result: seq<seq<byte>> := [];
    var segStart := 0;
    var i := 0;
    ghost var units := 0;
    while i < arr.Length
      invariant 0 <= segStart <= i <= arr.Length && i == 2 * units
      invariant result + SplitFrom(a, segStart, i) == SplitFrom(a, 0, 0)
      decreases arr.Length - i
    {
      if i + 1 >= arr.Length {
        return Err(IndexOutOfRangeException);
      }
      SplitFromStep(a, result, segStart, i);
      if arr[i] == 0 && arr[i + 1] == 0 {
        result := result + [arr[segStart..i]];
        segStart := i + 2;
      }
      i, units := i + 2, units + 1;
    }
    SplitFromDone(a, result, segStart);
    if segStart < arr.Length {
      assert arr[segStart..arr.Length] == a[segStart..];
      result := result + [arr[segStart..arr.Length]];
    }
    SplitFromWhole(a, units);
    return Ok(result);
  }



  /** GetStrings one part longer. */
  lemma GetStringsSnoc(parts: seq<seq<byte>>, k: nat)
    requires k < |parts|
    ensures GetStrings(parts[..k + 1]) == GetStrings(parts[..k]) + [GetString(parts[k])]
  {
  }

  /** GetNativeValue, branch by branch. */
  method GetNativeValue(info: RegValueInfo, str: string, loc: SourceLocation) returns (r: Result<Value>)
    ensures r == NativeValue(info, str, loc)
  {
    if info.format == ValueFormat.String {
      return Ok(Text(Unescape(str)));
    } else if info.format == Integer {
      var parsed := TryParseHexInt32(str);
      if parsed.Nothing? {
        return Err(IOException(loc, ExpectedInteger));
      }
      return Ok(DWordValue(parsed.value));
    } else if info.format == Utf16LEHexValues {
      var parsed := HexBytes(str);
      if parsed.Err? { return Err(parsed.error); }
      r := GetUtf16Value(info, parsed.value, loc);
    } else if info.format == HexValues || info.format == HexValuesLE || info.format == HexValuesBE {
      var parsed := HexBytes(str);
      if parsed.Err? { return Err(parsed.error); }
      r := GetBinaryValue(info, parsed.value, loc);
    } else {
      r := Err(IOException(loc, CannotProcessValueType));
    }
  }

  /** The UTF-16 branch of GetNativeValue. */
  method GetUtf16Value(info: RegValueInfo, bytes: seq<byte>, loc: SourceLocation) returns (r: Result<Value>)
    ensures r == Utf16Value(info, bytes, loc)
  {
    var n := |bytes|;
    if info.kind == MultiString {
      if n < 2 || bytes[n - 1] != 0 || bytes[n - 2] != 0 {
        return Err(IOException(loc, ExpectedTwoNulBytes));
      }
      if n % 2 != 0 {
        return Err(IOException(loc, ExpectedEvenHexPairs));
      }
      var segment := new byte[n - 2](k requires 0 <= k < n - 2 => bytes[k]);
      assert segment[..] == bytes[..n - 2];
      var split := Split(segment);
      var parts := split.value;
      var result: seq<string> := [];
      for k := 0 to |parts|
        invariant result == GetStrings(parts[..k])
      {
        result := result + [GetString(parts[k])];
        GetStringsSnoc(parts, k);
      }
      assert parts[..|parts|] == parts;
      return Ok(Texts(result));
    }
    if n < 1 || bytes[n - 1] != 0 {
      return Err(IOException(loc, ExpectedNulByte));
    }
    return Ok(Text(TrimEndNul(GetString(bytes))));
  }

  /** The hex(…) branch of GetNativeValue; a qword is reversed in place. */
  method GetBinaryValue(info: RegValueInfo, bytes: seq<byte>, loc: SourceLocation) returns (r: Result<Value>)
    ensures r == BinaryValue(info, bytes, loc)
  {
    if info.kind == ValueKind.None || info.kind == Binary {
      return Ok(Bytes(bytes));
    } else if info.kind == DWord {
      if |bytes| < 4 {
        return Err(IOException(loc, ExpectedHexPairs(4)));
      }
      return Ok(DWordValue(ToInt32(bytes)));
    } else if info.kind == QWord {
      if |bytes| < 8 {
        return Err(IOException(loc, ExpectedHexPairs(8)));
      }
      var arr := new byte[|bytes|](k requires 0 <= k < |bytes| => bytes[k]);
      assert arr[..] == bytes;
      Reverse(arr);
      return Ok(QWordValue(ToInt64(arr[..])));
    }
    return Err(IOException(loc, CannotProcessValueType));
  }
}
