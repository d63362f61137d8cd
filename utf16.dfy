/** Encoding.Unicode: UTF-16 in little-endian byte order (Unicode Standard,
    section 3.10). A character at or above U+10000 is written as a surrogate
    pair; decoding replaces an unpaired surrogate, and an odd trailing byte,
    with U+FFFD. */
module Utf16 {
  import opened RegTypes

  const Replacement: char := '\U{FFFD}'

  predicate IsHighSurrogate(u: nat) { 0xD800 <= u < 0xDC00 }
  predicate IsLowSurrogate(u: nat) { 0xDC00 <= u < 0xE000 }

  /** The UTF-16 code units of one character. */
  function CharUnits(c: char): (u: seq<nat>)
    ensures 1 <= |u| <= 2
    ensures forall k :: 0 <= k < |u| ==> 0 < u[k] < 0x10000 || (c == '\0' && u == [0])
  {
    var v := c as int;
    if v < 0x10000 then [v]
    else [0xD800 + (v - 0x10000) / 0x400, 0xDC00 + (v - 0x10000) % 0x400]
  }

  /** One code unit as two bytes, low byte first. */
  function UnitBytes(u: nat): (b: seq<byte>)
    requires u < 0x10000
    ensures |b| == 2
  {
    [(u % 256) as byte, (u / 256) as byte]
  }

  function CharBytes(c: char): (b: seq<byte>)
    ensures |b| == 2 * |CharUnits(c)|
  {
    var u := CharUnits(c);
    if |u| == 1 then UnitBytes(u[0]) else UnitBytes(u[0]) + UnitBytes(u[1])
  }

  /** Encoding.Unicode.GetBytes(s). */
  function GetBytes(s: string): (b: seq<byte>)
    ensures |b| % 2 == 0
    ensures |b| >= 2 * |s|
  {
    if s == [] then [] else CharBytes(s[0]) + GetBytes(s[1..])
  }

  /** The code units of a byte sequence, two bytes each; an odd last byte is
      not part of any unit. */
  function Units(b: seq<byte>): (u: seq<nat>)
    ensures |u| == |b| / 2
    ensures forall k :: 0 <= k < |u| ==> u[k] < 0x10000
  {
    if |b| < 2 then [] else [b[0] as nat + 256 * b[1] as nat] + Units(b[2..])
  }

  function DecodeUnits(u: seq<nat>): string
    requires forall k :: 0 <= k < |u| ==> u[k] < 0x10000
  {
    if u == [] then ""
    else if IsHighSurrogate(u[0]) && |u| >= 2 && IsLowSurrogate(u[1]) then
      [(0x10000 + (u[0] - 0xD800) * 0x400 + (u[1] - 0xDC00)) as char] + DecodeUnits(u[2..])
    else if IsHighSurrogate(u[0]) || IsLowSurrogate(u[0]) then
      [Replacement] + DecodeUnits(u[1..])
    else
      [u[0] as char] + DecodeUnits(u[1..])
  }

  /** Encoding.Unicode.GetString(b). */
  function GetString(b: seq<byte>): string
  {
    DecodeUnits(Units(b)) + (if |b| % 2 == 1 then [Replacement] else [])
  }

  lemma {:induction false} GetBytesAppend(s: string, t: string)
    ensures GetBytes(s + t) == GetBytes(s) + GetBytes(t)
  {
    if s == [] {
      assert s + t == t;
    } else {
      assert (s + t)[0] == s[0];
      assert (s + t)[1..] == s[1..] + t;
      GetBytesAppend(s[1..], t);
    }
  }

  lemma {:induction false} UnitsAppend(a: seq<byte>, b: seq<byte>)
    requires |a| % 2 == 0
    ensures Units(a + b) == Units(a) + Units(b)
    decreases |a|
  {
    if a == [] {
      assert a + b == b;
    } else {
      assert (a + b)[2..] == a[2..] + b;
      UnitsAppend(a[2..], b);
    }
  }

  lemma UnitBytesUnits(u: nat)
    requires u < 0x10000
    ensures Units(UnitBytes(u)) == [u]
  {
    var b := UnitBytes(u);
    assert b[2..] == [];
  }

  lemma CharBytesUnits(c: char)
    ensures Units(CharBytes(c)) == CharUnits(c)
  {
    var u := CharUnits(c);
    UnitBytesUnits(u[0]);
    if |u| == 2 {
      UnitBytesUnits(u[1]);
      UnitsAppend(UnitBytes(u[0]), UnitBytes(u[1]));
    }
  }

  lemma DecodeCharUnits(c: char, rest: seq<nat>)
    requires forall k :: 0 <= k < |rest| ==> rest[k] < 0x10000
    ensures DecodeUnits(CharUnits(c) + rest) == [c] + DecodeUnits(rest)
  {
    if c as int < 0x10000 {
      DecodeBmpUnit(c, rest);
    } else {
      DecodeSurrogatePair(c, rest);
    }
  }

  lemma DecodeBmpUnit(c: char, rest: seq<nat>)
    requires forall k :: 0 <= k < |rest| ==> rest[k] < 0x10000
    requires c as int < 0x10000
    ensures DecodeUnits(CharUnits(c) + rest) == [c] + DecodeUnits(rest)
  {
    var v := c as int;
    var u := [v] + rest;
    assert CharUnits(c) == [v];
    assert u[0] == v && u[1..] == rest;
    assert !IsHighSurrogate(v) && !IsLowSurrogate(v);
    assert DecodeUnits(u) == [u[0] as char] + DecodeUnits(u[1..]);
  }

  lemma DecodeSurrogatePair(c: char, rest: seq<nat>)
    requires forall k :: 0 <= k < |rest| ==> rest[k] < 0x10000
    requires c as int >= 0x10000
    ensures DecodeUnits(CharUnits(c) + rest) == [c] + DecodeUnits(rest)
  {
    var q, r := CharUnitsPair(c);
    DecodePair(0xD800 + q, 0xDC00 + r, rest, c);
  }

  /** A character at or above U+10000 is a high surrogate carrying its top
      ten offset bits followed by a low surrogate carrying the bottom ten. */
  lemma CharUnitsPair(c: char) returns (q: nat, r: nat)
    requires c as int >= 0x10000
    ensures q < 0x400 && r < 0x400 && 0x10000 + q * 0x400 + r == c as int
    ensures CharUnits(c) == [0xD800 + q, 0xDC00 + r]
  {
    var w := c as int - 0x10000;
    q, r := w / 0x400, w % 0x400;
  }

  /** A high surrogate followed by a low one decodes to one character. */
  lemma DecodePair(hi: nat, lo: nat, rest: seq<nat>, c: char)
    requires forall k :: 0 <= k < |rest| ==> rest[k] < 0x10000
    requires IsHighSurrogate(hi) && IsLowSurrogate(lo)
    requires 0x10000 + (hi - 0xD800) * 0x400 + (lo - 0xDC00) == c as int
    ensures DecodeUnits([hi, lo] + rest) == [c] + DecodeUnits(rest)
  {
    var u := [hi, lo] + rest;
    assert u[0] == hi && u[1] == lo && u[2..] == rest;
  }

  /** Encoding.Unicode.GetString undoes Encoding.Unicode.GetBytes. */
  lemma {:induction false} GetStringGetBytes(s: string)
    ensures GetString(GetBytes(s)) == s
  {
    UnitsGetBytes(s);
  }

  lemma {:induction false} UnitsGetBytes(s: string)
    ensures DecodeUnits(Units(GetBytes(s))) == s
  {
    if s != [] {
      UnitsAppend(CharBytes(s[0]), GetBytes(s[1..]));
      CharBytesUnits(s[0]);
      UnitsGetBytes(s[1..]);
      DecodeCharUnits(s[0], Units(GetBytes(s[1..])));
    }
  }

  /** A NUL code unit: an aligned pair of zero bytes. */
  predicate HasNulUnit(b: seq<byte>)
    decreases |b|
  {
    |b| >= 2 && ((b[0] == 0 && b[1] == 0) || HasNulUnit(b[2..]))
  }

  /** HasNulUnit is the NUL code unit among the units. */
  lemma {:induction false} HasNulUnitUnits(b: seq<byte>)
    ensures HasNulUnit(b) <==> 0 in Units(b)
    decreases |b|
  {
    if |b| >= 2 {
      HasNulUnitUnits(b[2..]);
      assert Units(b) == [b[0] as nat + 256 * b[1] as nat] + Units(b[2..]);
    }
  }

  /** Only U+0000 encodes to a NUL code unit. */
  lemma {:induction false} GetBytesNulUnit(s: string)
    ensures HasNulUnit(GetBytes(s)) <==> '\0' in s
  {
    HasNulUnitUnits(GetBytes(s));
    GetBytesNulUnits(s);
  }

  lemma {:induction false} GetBytesNulUnits(s: string)
    ensures 0 in Units(GetBytes(s)) <==> '\0' in s
  {
    if s != [] {
      UnitsAppend(CharBytes(s[0]), GetBytes(s[1..]));
      CharBytesUnits(s[0]);
      assert Units(GetBytes(s)) == CharUnits(s[0]) + Units(GetBytes(s[1..]));
      assert 0 in CharUnits(s[0]) <==> s[0] == '\0';
      assert '\0' in s <==> s[0] == '\0' || '\0' in s[1..];
      GetBytesNulUnits(s[1..]);
    }
  }

  /** Aligned pairs of a concatenation: those of each part. */
  lemma {:induction false} HasNulUnitAppend(a: seq<byte>, b: seq<byte>)
    requires |a| % 2 == 0
    ensures HasNulUnit(a + b) <==> HasNulUnit(a) || HasNulUnit(b)
    decreases |a|
  {
    if a == [] {
      assert a + b == b;
    } else {
      assert (a + b)[2..] == a[2..] + b;
      HasNulUnitAppend(a[2..], b);
    }
  }
}
