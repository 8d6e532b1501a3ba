/** The base64 encoding of section 4 of RFC 4648 as the STANDARD engine reads and writes it: padding is required and the
    unused bits before it must be zero. */
module Base64 {
  import opened Types

  /** A symbol's value, or 64 for padding. */
  type Digit = v: int | 0 <= v <= 64

  const PAD: Digit := 64

  function Symbol(v: Digit): char {
    if v < 26 then 'A' + v as char
    else if v < 52 then 'a' + (v - 26) as char
    else if v < 62 then '0' + (v - 52) as char
    else if v == 62 then '+'
    else if v == 63 then '/'
    else '='
  }

  function Value(c: char): Option<Digit> {
    if 'A' <= c <= 'Z' then Some((c - 'A') as int)
    else if 'a' <= c <= 'z' then Some((c - 'a') as int + 26)
    else if '0' <= c <= '9' then Some((c - '0') as int + 52)
    else if c == '+' then Some(62)
    else if c == '/' then Some(63)
    else if c == '=' then Some(PAD)
    else None
  }

  lemma SymbolValue(v: Digit)
    ensures Value(Symbol(v)) == Some(v)
  {
  }

  lemma ValueSymbol(c: char)
    ensures Value(c).Some? ==> Symbol(Value(c).value) == c
  {
  }

  function Text(v: seq<Digit>): (s: string)
    ensures |s| == |v| && forall i :: 0 <= i < |v| ==> s[i] == Symbol(v[i])
  {
    seq(|v|, i requires 0 <= i < |v| => Symbol(v[i]))
  }

  function Values(s: string): (r: Option<seq<Digit>>)
    ensures r.Some? <==> forall i :: 0 <= i < |s| ==> Value(s[i]).Some?
    ensures r.Some? ==> |r.value| == |s| && forall i :: 0 <= i < |s| ==> r.value[i] == Value(s[i]).value
  {
    if forall i :: 0 <= i < |s| ==> Value(s[i]).Some?
    then Some(seq(|s|, i requires 0 <= i < |s| && Value(s[i]).Some? => Value(s[i]).value))
    else None
  }

  // ---- groups of three bytes and four digits ----

  /** The bytes that the digits a, b, c, d spell out, from left to right. */
  function First(a: int, b: int): (x: byte)
    requires 0 <= a < 64 && 0 <= b < 64
  {
    a * 4 + b / 16
  }

  function Second(b: int, c: int): (y: byte)
    requires 0 <= b < 64 && 0 <= c < 64
  {
    b % 16 * 16 + c / 4
  }

  function Third(c: int, d: int): (z: byte)
    requires 0 <= c < 64 && 0 <= d < 64
  {
    c % 4 * 64 + d
  }

  /** The middle digits straddle two bytes. */
  function Across(x: int, y: int): (b: Digit)
    requires 0 <= x < 256 && 0 <= y < 256
    ensures b < PAD
  {
    x % 4 * 16 + y / 16
  }

  function Across2(y: int, z: int): (c: Digit)
    requires 0 <= y < 256 && 0 <= z < 256
    ensures c < PAD
  {
    y % 16 * 4 + z / 64
  }

  lemma FirstByte(x: int, y: int)
    requires 0 <= x < 256 && 0 <= y < 256
    ensures First(x / 4, Across(x, y)) == x
  {
    assert (x % 4 * 16 + y / 16) / 16 == x % 4;
  }

  lemma SecondByte(x: int, y: int, z: int)
    requires 0 <= x < 256 && 0 <= y < 256 && 0 <= z < 256
    ensures Second(Across(x, y), Across2(y, z)) == y
  {
    assert (x % 4 * 16 + y / 16) % 16 == y / 16;
    assert (y % 16 * 4 + z / 64) / 4 == y % 16;
  }

  lemma ThirdByte(y: int, z: int)
    requires 0 <= y < 256 && 0 <= z < 256
    ensures Third(Across2(y, z), z % 64) == z
  {
    assert (y % 16 * 4 + z / 64) % 4 == z / 64;
  }

  lemma FirstDigit(a: int, b: int)
    requires 0 <= a < 64 && 0 <= b < 64
    ensures First(a, b) / 4 == a && First(a, b) % 4 == b / 16
  {
  }

  lemma SecondDigit(a: int, b: int, c: int)
    requires 0 <= a < 64 && 0 <= b < 64 && 0 <= c < 64
    ensures Across(First(a, b), Second(b, c)) == b
  {
    FirstDigit(a, b);
    assert (b % 16 * 16 + c / 4) / 16 == b % 16;
  }

  lemma ThirdDigit(b: int, c: int, d: int)
    requires 0 <= b < 64 && 0 <= c < 64 && 0 <= d < 64
    ensures Across2(Second(b, c), Third(c, d)) == c
  {
    assert (b % 16 * 16 + c / 4) % 16 == c / 4;
    assert (c % 4 * 64 + d) / 64 == c % 4;
  }

  lemma FourthDigit(c: int, d: int)
    requires 0 <= c < 64 && 0 <= d < 64
    ensures Third(c, d) % 64 == d
  {
  }

  function Group(x: byte, y: byte, z: byte): (v: seq<Digit>)
    ensures |v| == 4
  {
    [x / 4, Across(x, y), Across2(y, z), z % 64]
  }

  function Digits(b: bytes): (v: seq<Digit>)
    ensures |v| == 4 * ((|b| + 2) / 3)
  {
    if b == [] then []
    else if |b| == 1 then [b[0] / 4, Across(b[0], 0), PAD, PAD]
    else if |b| == 2 then [b[0] / 4, Across(b[0], b[1]), Across2(b[1], 0), PAD]
    else Group(b[0], b[1], b[2]) + Digits(b[3..])
  }

  predicate Full(v: seq<Digit>) {
    |v| == 4 && v[0] < PAD && v[1] < PAD && v[2] < PAD && v[3] < PAD
  }

  function Ungroup(v: seq<Digit>): (b: bytes)
    requires Full(v)
    ensures |b| == 3
  {
    [First(v[0], v[1]), Second(v[1], v[2]), Third(v[2], v[3])]
  }

  /** The last four digits, of which one or two may be padding; the bits before the padding are unused. */
  function UngroupLast(v: seq<Digit>): Option<bytes>
    requires |v| == 4
  {
    if Full(v) then Some(Ungroup(v))
    else if v[0] == PAD || v[1] == PAD || v[3] != PAD then None
    else if v[2] == PAD then if Second(v[1], 0) == 0 then Some([First(v[0], v[1])]) else None
    else if Third(v[2], 0) == 0 then Some([First(v[0], v[1]), Second(v[1], v[2])]) else None
  }

  function FromDigits(v: seq<Digit>): Option<bytes> {
    if v == [] then Some([])
    else if |v| < 4 then None
    else if |v| == 4 then UngroupLast(v)
    else
      var rest := FromDigits(v[4..]);
      if Full(v[..4]) && rest.Some? then Some(Ungroup(v[..4]) + rest.value) else None
  }

  function Encode(b: bytes): (s: string)
    ensures |s| == 4 * ((|b| + 2) / 3)
  {
    Text(Digits(b))
  }

  function Decode(s: string): Option<bytes> {
    var v := Values(s);
    if v.None? then None else FromDigits(v.value)
  }

  /** The symbols are the standard alphabet's: the capital letters, the small letters and the digits, each in order,
      then plus and slash. */
  lemma StandardAlphabet(v: Digit)
    ensures Symbol(0) == 'A' && Symbol(26) == 'a' && Symbol(52) == '0' && Symbol(62) == '+' && Symbol(63) == '/'
    ensures v < 61 && v != 25 && v != 51 ==> Symbol(v + 1) == Symbol(v) + 1 as char
  {
  }

  /** A number of four base-64 digits, and one of three bytes. */
  function FourDigits(a: int, b: int, c: int, d: int): int {
    ((a * 64 + b) * 64 + c) * 64 + d
  }

  function ThreeBytes(x: int, y: int, z: int): int {
    (x * 256 + y) * 256 + z
  }

  /** The digits of a group are its 24 bits, six at a time, from the most significant on. */
  lemma GroupBits(x: byte, y: byte, z: byte)
    ensures var v := Group(x, y, z); FourDigits(v[0], v[1], v[2], v[3]) == ThreeBytes(x, y, z)
  {
    assert x == x / 4 * 4 + x % 4 && y == y / 16 * 16 + y % 16 && z == z / 64 * 64 + z % 64;
  }

  // ---- round trips ----

  lemma GroupRoundTrip(x: byte, y: byte, z: byte)
    ensures Full(Group(x, y, z)) && Ungroup(Group(x, y, z)) == [x, y, z]
  {
    FirstByte(x, y);
    SecondByte(x, y, z);
    ThirdByte(y, z);
  }

  lemma UngroupRoundTrip(v: seq<Digit>)
    requires Full(v)
    ensures var b := Ungroup(v); Group(b[0], b[1], b[2]) == v
  {
    FirstDigit(v[0], v[1]);
    SecondDigit(v[0], v[1], v[2]);
    ThirdDigit(v[1], v[2], v[3]);
    FourthDigit(v[2], v[3]);
  }

  lemma FullRoundTrip(v: seq<Digit>)
    requires Full(v)
    ensures Digits(Ungroup(v)) == v
  {
    UngroupRoundTrip(v);
    var b := Ungroup(v);
    assert b[3..] == [];
    assert Digits(b) == Group(b[0], b[1], b[2]) + [];
  }

  lemma OneByteDigits(a: Digit, b: Digit)
    requires a < PAD && b < PAD && Second(b, 0) == 0
    ensures Digits([First(a, b)]) == [a, b, PAD, PAD]
  {
    FirstDigit(a, b);
    SecondDigit(a, b, 0);
  }

  lemma TwoBytesDigits(a: Digit, b: Digit, c: Digit)
    requires a < PAD && b < PAD && c < PAD && Third(c, 0) == 0
    ensures Digits([First(a, b), Second(b, c)]) == [a, b, c, PAD]
  {
    FirstDigit(a, b);
    SecondDigit(a, b, c);
    ThirdDigit(b, c, 0);
  }

  lemma LastRoundTrip(v: seq<Digit>)
    requires |v| == 4 && UngroupLast(v).Some?
    ensures Digits(UngroupLast(v).value) == v
  {
    if Full(v) {
      FullRoundTrip(v);
    } else if v[2] == PAD {
      OneByteDigits(v[0], v[1]);
    } else {
      TwoBytesDigits(v[0], v[1], v[2]);
    }
  }

  lemma OneByteRoundTrip(x: byte)
    ensures UngroupLast(Digits([x])) == Some([x])
  {
    FirstByte(x, 0);
    SecondByte(x, 0, 0);
    assert Across2(0, 0) == 0;
  }

  lemma TwoBytesRoundTrip(x: byte, y: byte)
    ensures UngroupLast(Digits([x, y])) == Some([x, y])
  {
    var a, b, c: Digit := x / 4, Across(x, y), Across2(y, 0);
    assert First(a, b) == x by { FirstByte(x, y); }
    assert Second(b, c) == y by { SecondByte(x, y, 0); }
    assert Third(c, 0) == 0 by { ThirdByte(y, 0); }
    assert Digits([x, y]) == [a, b, c, PAD];
  }

  lemma GroupStep(group: seq<Digit>, rest: seq<Digit>)
    requires Full(group) && FromDigits(rest).Some?
    ensures FromDigits(group + rest) == Some(Ungroup(group) + FromDigits(rest).value)
  {
    if rest == [] {
      assert group + rest == group && Ungroup(group) + [] == Ungroup(group);
    } else {
      assert (group + rest)[..4] == group && (group + rest)[4..] == rest;
    }
  }

  lemma {:induction false} DigitsRoundTrip(b: bytes)
    ensures FromDigits(Digits(b)) == Some(b)
  {
    if |b| == 1 {
      OneByteRoundTrip(b[0]);
      assert b == [b[0]];
    } else if |b| == 2 {
      TwoBytesRoundTrip(b[0], b[1]);
      assert b == [b[0], b[1]];
    } else if b != [] {
      GroupRoundTrip(b[0], b[1], b[2]);
      DigitsRoundTrip(b[3..]);
      GroupStep(Group(b[0], b[1], b[2]), Digits(b[3..]));
      assert b == [b[0], b[1], b[2]] + b[3..];
    }
  }

  lemma {:induction false} FromDigitsRoundTrip(v: seq<Digit>)
    requires FromDigits(v).Some?
    ensures Digits(FromDigits(v).value) == v
  {
    if |v| == 4 {
      LastRoundTrip(v);
    } else if v != [] {
      var b, rest := Ungroup(v[..4]), FromDigits(v[4..]).value;
      UngroupRoundTrip(v[..4]);
      FromDigitsRoundTrip(v[4..]);
      assert (b + rest)[3..] == rest;
      assert v == v[..4] + v[4..];
    }
  }

  /** Decoding undoes encoding. */
  lemma DecodeEncode(b: bytes)
    ensures Decode(Encode(b)) == Some(b)
  {
    var v := Digits(b);
    forall i | 0 <= i < |v| ensures Value(Text(v)[i]) == Some(v[i]) { SymbolValue(v[i]); }
    assert Values(Text(v)).value == v;
    DigitsRoundTrip(b);
  }

  /** Every accepted text is the one encoding of its bytes. */
  lemma EncodeDecode(s: string)
    requires Decode(s).Some?
    ensures Encode(Decode(s).value) == s
  {
    var v := Values(s).value;
    FromDigitsRoundTrip(v);
    forall i | 0 <= i < |s| ensures Text(v)[i] == s[i] { ValueSymbol(s[i]); }
  }

  lemma {:induction false} DigitsPadding(b: bytes)
    ensures b != [] ==> Digits(b)[0] < PAD
    ensures |b| % 3 != 0 ==> Digits(b)[|Digits(b)| - 1] == PAD
  {
    if |b| > 2 {
      DigitsPadding(b[3..]);
      GroupPadding(Group(b[0], b[1], b[2]), Digits(b[3..]));
    } else if b != [] {
      LastDigits(b);
    }
  }

  lemma LastDigits(b: bytes)
    requires |b| == 1 || |b| == 2
    ensures |Digits(b)| == 4 && Digits(b)[0] < PAD && Digits(b)[3] == PAD
  {
  }

  lemma GroupPadding(group: seq<Digit>, rest: seq<Digit>)
    requires |group| == 4
    ensures (group + rest)[0] == group[0]
    ensures rest != [] ==> (group + rest)[|group + rest| - 1] == rest[|rest| - 1]
  {
  }

  /** A text consists of symbols and padding, starts with a symbol, and ends in padding when the bytes are no whole
      groups. */
  lemma EncodeSymbols(b: bytes)
    ensures forall i :: 0 <= i < |Encode(b)| ==> Value(Encode(b)[i]).Some?
    ensures b != [] ==> Value(Encode(b)[0]).value < PAD
    ensures |b| % 3 != 0 ==> Encode(b)[|Encode(b)| - 1] == '='
  {
    var v := Digits(b);
    DigitsPadding(b);
    forall i | 0 <= i < |v| ensures Value(Encode(b)[i]) == Some(v[i]) { SymbolValue(v[i]); }
  }
}
