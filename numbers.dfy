/** The .NET numeric conversions the codec relies on: the "X2"/"X8" format
    strings, int.TryParse with NumberStyles.HexNumber, BitConverter on a
    little-endian host, and Int32/Int64.ToString(). */
module Numbers {
  import opened RegTypes

  const TwoTo32: int := 0x1_0000_0000
  const TwoTo64: int := 0x1_0000_0000_0000_0000

  function HexDigit(d: nat): (c: char)
    requires d < 16
    ensures IsHexDigit(c) && HexValue(c) == d
    ensures '0' <= c <= '9' || 'A' <= c <= 'F'
  {
    if d < 10 then (d + '0' as int) as char else (d - 10 + 'A' as int) as char
  }

  predicate IsHexDigit(c: char)
  {
    '0' <= c <= '9' || 'A' <= c <= 'F' || 'a' <= c <= 'f'
  }

  function HexValue(c: char): (d: nat)
    requires IsHexDigit(c)
    ensures d < 16
  {
    if c <= '9' then c as int - '0' as int
    else if c <= 'F' then c as int - 'A' as int + 10
    else c as int - 'a' as int + 10
  }

  function Pow16(n: nat): (r: nat)
    ensures r >= 1
  {
    if n == 0 then 1 else 16 * Pow16(n - 1)
  }

  /** The n low hexadecimal digits of u, most significant first, upper case. */
  function HexDigits(u: nat, n: nat): (s: string)
    ensures |s| == n
    ensures forall i :: 0 <= i < n ==> '0' <= s[i] <= '9' || 'A' <= s[i] <= 'F'
  {
    if n == 0 then "" else HexDigits(u / 16, n - 1) + [HexDigit(u % 16)]
  }

  /** The number a string of hexadecimal digits denotes. */
  function HexNumber(s: string): nat
    requires forall i :: 0 <= i < |s| ==> IsHexDigit(s[i])
  {
    if s == [] then 0 else 16 * HexNumber(s[..|s| - 1]) + HexValue(s[|s| - 1])
  }

  lemma {:induction false} HexNumberDigits(u: nat, n: nat)
    requires u < Pow16(n)
    ensures HexNumber(HexDigits(u, n)) == u
  {
    if n > 0 {
      var s := HexDigits(u, n);
      var p := Pow16(n - 1);
      assert u / 16 < p;
      assert s[..n - 1] == HexDigits(u / 16, n - 1) && s[n - 1] == HexDigit(u % 16);
      HexNumberDigits(u / 16, n - 1);
      assert HexNumber(s) == 16 * (u / 16) + u % 16;
    }
  }

  /** The 32-bit two's-complement pattern of i, as an unsigned number. */
  function Unsigned32(i: int32): (u: nat)
    ensures u < TwoTo32
  {
    if i < 0 then i as int + TwoTo32 else i as int
  }

  function Signed32(u: nat): int32
    requires u < TwoTo32
  {
    if u < 0x8000_0000 then u as int32 else (u - TwoTo32) as int32
  }

  function Unsigned64(i: int64): (u: nat)
    ensures u < TwoTo64
  {
    if i < 0 then i as int + TwoTo64 else i as int
  }

  function Signed64(u: nat): int64
    requires u < TwoTo64
  {
    if u < 0x8000_0000_0000_0000 then u as int64 else (u - TwoTo64) as int64
  }

  /** byte.ToString("X2"). */
  function X2(b: byte): (s: string)
    ensures |s| == 2 && IsHexDigit(s[0]) && IsHexDigit(s[1])
    ensures 16 * HexValue(s[0]) + HexValue(s[1]) == b as int
  {
    [HexDigit(b as nat / 16), HexDigit(b as nat % 16)]
  }

  /** int.ToString("X8"): the two's-complement pattern in 8 upper-case digits. */
  function X8(i: int32): (s: string)
    ensures |s| == 8
    ensures forall k :: 0 <= k < 8 ==> '0' <= s[k] <= '9' || 'A' <= s[k] <= 'F'
  {
    HexDigits(Unsigned32(i), 8)
  }

  /** The white space int.TryParse skips around the digits. */
  predicate IsNumberWhite(c: char)
  {
    c == ' ' || '\t' <= c <= '\r'
  }

  function TrimNumberWhite(s: string): (r: string)
    ensures (forall k :: 0 <= k < |s| ==> !IsNumberWhite(s[k])) ==> r == s
  {
    if s != [] && IsNumberWhite(s[0]) then TrimNumberWhite(s[1..])
    else if s != [] && IsNumberWhite(s[|s| - 1]) then TrimNumberWhite(s[..|s| - 1])
    else s
  }

  /** int.TryParse(s, NumberStyles.HexNumber, ...): optional white space, at
      least one hexadecimal digit of either case whose value fits 32 bits
      (leading zeros are allowed), optional white space; the digits are the
      two's-complement pattern of the result. */
  function TryParseHexInt32(s: string): (r: Option<int32>)
    ensures r.Some? ==> exists i :: 0 <= i < |s| && IsHexDigit(s[i])
  {
    var t := TrimNumberWhite(s);
    if t != [] && (forall k :: 0 <= k < |t| ==> IsHexDigit(t[k])) && HexNumber(t) < TwoTo32 then
      TrimmedIsInfix(s);
      assert IsHexDigit(t[0]);
      Some(Signed32(HexNumber(t)))
    else Nothing
  }

  lemma {:induction false} TrimmedIsInfix(s: string)
    ensures var t := TrimNumberWhite(s); t != [] ==> exists i :: 0 <= i < |s| && s[i] == t[0]
    decreases |s|
  {
    var t := TrimNumberWhite(s);
    if s != [] && IsNumberWhite(s[0]) {
      TrimmedIsInfix(s[1..]);
      if t != [] {
        var i :| 0 <= i < |s[1..]| && s[1..][i] == t[0];
        assert s[i + 1] == t[0];
      }
    } else if s != [] && IsNumberWhite(s[|s| - 1]) {
      TrimmedIsInfix(s[..|s| - 1]);
      if t != [] {
        var i :| 0 <= i < |s[..|s| - 1]| && s[..|s| - 1][i] == t[0];
        assert s[i] == t[0];
      }
    } else if t != [] {
      assert s[0] == t[0];
    }
  }

  /** Reading back what "X8" wrote gives the same integer. */
  lemma X8RoundTrip(i: int32)
    ensures TryParseHexInt32(X8(i)) == Some(i)
  {
    var s := X8(i);
    assert TrimNumberWhite(s) == s by {
      forall k | 0 <= k < |s| ensures !IsNumberWhite(s[k]) { }
    }
    assert Pow16(8) == TwoTo32;
    HexNumberDigits(Unsigned32(i), 8);
  }

  function Pow256(n: nat): (r: nat)
    ensures r >= 1
  {
    if n == 0 then 1 else 256 * Pow256(n - 1)
  }

  /** The n low bytes of u, least significant first. */
  function LittleEndian(u: nat, n: nat): (b: seq<byte>)
    ensures |b| == n
  {
    if n == 0 then [] else [(u % 256) as byte] + LittleEndian(u / 256, n - 1)
  }

  /** The unsigned number n little-endian bytes denote. */
  function LittleEndianValue(b: seq<byte>): (u: nat)
    ensures u < Pow256(|b|)
  {
    if b == [] then 0 else b[0] as nat + 256 * LittleEndianValue(b[1..])
  }

  lemma {:induction false} LittleEndianRoundTrip(u: nat, n: nat)
    requires u < Pow256(n)
    ensures LittleEndianValue(LittleEndian(u, n)) == u
  {
    if n > 0 {
      var b := LittleEndian(u, n);
      assert b[1..] == LittleEndian(u / 256, n - 1);
      LittleEndianRoundTrip(u / 256, n - 1);
    }
  }

  /** BitConverter.GetBytes(int). */
  function Int32Bytes(i: int32): (b: seq<byte>)
    ensures |b| == 4
  {
    LittleEndian(Unsigned32(i), 4)
  }

  /** BitConverter.ToInt32(bytes): the first four bytes, little-endian. */
  function ToInt32(b: seq<byte>): int32
    requires |b| >= 4
  {
    Signed32(LittleEndianValue(b[..4]))
  }

  /** BitConverter.GetBytes(long). */
  function Int64Bytes(i: int64): (b: seq<byte>)
    ensures |b| == 8
  {
    LittleEndian(Unsigned64(i), 8)
  }

  /** BitConverter.ToInt64(bytes): the first eight bytes, little-endian. */
  function ToInt64(b: seq<byte>): int64
    requires |b| >= 8
  {
    assert Pow256(8) == TwoTo64;
    Signed64(LittleEndianValue(b[..8]))
  }

  lemma Int32BytesRoundTrip(i: int32)
    ensures ToInt32(Int32Bytes(i)) == i
  {
    assert Pow256(4) == TwoTo32;
    var b := Int32Bytes(i);
    assert b[..4] == b;
    LittleEndianRoundTrip(Unsigned32(i), 4);
  }

  lemma Int64BytesRoundTrip(i: int64)
    ensures ToInt64(Int64Bytes(i)) == i
  {
    assert Pow256(8) == TwoTo64;
    var b := Int64Bytes(i);
    assert b[..8] == b;
    LittleEndianRoundTrip(Unsigned64(i), 8);
  }

  /** The decimal digits of n, most significant first. */
  function DecimalDigits(n: nat): (s: string)
    ensures |s| >= 1
    ensures forall i :: 0 <= i < |s| ==> '0' <= s[i] <= '9'
  {
    if n < 10 then [(n + '0' as int) as char]
    else DecimalDigits(n / 10) + [(n % 10 + '0' as int) as char]
  }

  /** Int32.ToString() and Int64.ToString() under an invariant culture. */
  function DecimalString(i: int): (s: string)
    ensures s != [] && (s[0] == '-' <==> i < 0)
  {
    if i < 0 then "-" + DecimalDigits(-i) else DecimalDigits(i)
  }
}
