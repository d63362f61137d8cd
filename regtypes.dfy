/** Shared types of the .reg codec: the registry enums, the value descriptor
    (kind, format), the source location used in diagnostics, the boxed native
    value, and the exceptions the code raises, as data. */
module RegTypes {

  newtype byte = x: int | 0 <= x < 0x100
  newtype int32 = x: int | -0x8000_0000 <= x < 0x8000_0000
  newtype int64 = x: int | -0x8000_0000_0000_0000 <= x < 0x8000_0000_0000_0000

  /** A nullable reference. */
  datatype Option<T> = Nothing | Some(value: T)

  /** Microsoft.Win32.RegistryHive: the six named roots, plus any other value
      the enum type can hold (which HiveToString rejects). */
  datatype Hive =
    | ClassesRoot | CurrentUser | LocalMachine | Users | PerformanceData | CurrentConfig
    | Undefined(code: int)

  /** Microsoft.Win32.RegistryValueKind (Unknown is the enum's zero value). */
  datatype ValueKind = Unknown | String | ExpandString | Binary | DWord | MultiString | QWord | None

  /** RegistryValueFormat (Unknown is the enum's zero value). */
  datatype ValueFormat = Unknown | Integer | String | HexValues | HexValuesLE | HexValuesBE | Utf16LEHexValues

  /** RegValueInfo: how a value is typed and how it is spelled in the file. */
  datatype RegValueInfo = RegValueInfo(kind: ValueKind, format: ValueFormat)

  /** default(RegValueInfo): both enums at their zero value. */
  const DefaultInfo := RegValueInfo(ValueKind.Unknown, ValueFormat.Unknown)

  /** SourceLocation: a source name and a line counter. */
  datatype SourceLocation = SourceLocation(source: string, lineNumber: int) {
    function IncrementLineNumber(): (r: SourceLocation)
      ensures r.source == source && r.lineNumber == lineNumber + 1
    {
      SourceLocation(source, lineNumber + 1)
    }
  }

  /** The boxed `object` a value command carries: null, System.Int32,
      System.Int64, System.String, System.Byte[] or System.String[]. */
  datatype Value =
    | Null
    | DWordValue(i: int32)
    | QWordValue(q: int64)
    | Text(s: string)
    | Bytes(b: seq<byte>)
    | Texts(ss: seq<string>)

  /** Why a parse failed: one constructor per diagnostic the parser raises;
      Unexpected stands for any other exception caught and rewrapped by Read. */
  datatype Reason =
    | ExpectedSignature
    | ExpectedBlankLine
    | MissingSubkeyName
    | MissingClosingBracket
    | InvalidKeySpecification
    | InvalidHive
    | InvalidSubKey
    | ExpectedEquals
    | ExpectedValue
    | MissingClosingQuoteInKey
    | MissingColon
    | CannotProcessValueType
    | ExpectedQuote
    | ExpectedInteger
    | ExpectedTwoNulBytes
    | ExpectedEvenHexPairs
    | ExpectedNulByte
    | ExpectedHexPairs(count: nat)
    | Unexpected

  /** The exceptions the modelled code can raise. */
  datatype Exception =
    | IOException(location: SourceLocation, reason: Reason)
    | ArgumentException
    | ArgumentNullException
    | ArgumentOutOfRangeException
    | IndexOutOfRangeException
    | NullReferenceException
    | InvalidCastException

  /** A computation that returns a value or raises an exception. */
  datatype Result<+T> = Ok(value: T) | Err(error: Exception) {
    predicate IsFailure() { Err? }
    function PropagateFailure<U>(): Result<U>
      requires Err?
    {
      Err(error)
    }
    function Extract(): T
      requires Ok?
    {
      value
    }
  }

  /** A computation that returns nothing or raises an exception. */
  datatype Outcome = Pass | Fail(error: Exception)
}
