/**
 The encoding whose bytes are counted: UTF-8 as RFC 3629, section 3, defines it, of the code points
 that a string of UTF-16 code units stands for.
 */
module Utf8Encoding {
  import opened Utf8Budget
  import opened Wrappers

  type Byte = b: nat | b < 0x100 witness 0

  /** Unicode scalar values: code points that are not surrogates. */
  predicate IsScalar(c: nat)
  {
    c < 0xD800 || 0xE000 <= c < 0x11_0000
  }

  // ---------------------------------------------------------------- code points of a string

  /** A pair stands for one code point, a surrogate without its partner for the replacement character. */
  function CodePointAt(t: Text, i: nat): (c: nat)
    requires i < |t|
    ensures IsScalar(c)
  {
    if i + 1 < |t| && 0xD800 <= t[i] <= 0xDBFF && 0xDC00 <= t[i + 1] <= 0xDFFF then
      var high: int, low: int := t[i], t[i + 1];
      0x1_0000 + (high - 0xD800) * 0x400 + (low - 0xDC00)
    else if 0xD800 <= t[i] <= 0xDFFF then 0xFFFD
    else t[i]
  }

  function CodePoints(t: Text): (cs: seq<nat>)
    ensures forall i :: 0 <= i < |cs| ==> IsScalar(cs[i])
  {
    if t == [] then [] else [CodePointAt(t, 0)] + CodePoints(t[if CodePointAt(t, 0) < 0x1_0000 then 1 else 2..])
  }

  // ---------------------------------------------------------------- encoding

  function Trailing(bits: nat): Byte
  {
    0x80 + bits % 0x40
  }

  function EncodeOne(c: nat): (bytes: seq<Byte>)
    requires IsScalar(c)
    ensures bytes != []
  {
    if c < 0x80 then [c]
    else if c < 0x800 then [0xC0 + c / 0x40, Trailing(c)]
    else if c < 0x1_0000 then [0xE0 + c / 0x1000, Trailing(c / 0x40), Trailing(c)]
    else [0xF0 + c / 0x4_0000, Trailing(c / 0x1000), Trailing(c / 0x40), Trailing(c)]
  }

  function Encode(cs: seq<nat>): seq<Byte>
    requires forall i :: 0 <= i < |cs| ==> IsScalar(cs[i])
  {
    if cs == [] then [] else EncodeOne(cs[0]) + Encode(cs[1..])
  }

  // ---------------------------------------------------------------- decoding

  function Tail(b: Byte): nat
  {
    b % 0x40
  }

  predicate AreTails(bytes: seq<Byte>)
  {
    forall i :: 0 <= i < |bytes| ==> 0x80 <= bytes[i] < 0xC0
  }

  /** The first code point and its number of bytes; overlong forms, surrogates and stray bytes are refused. */
  function DecodeOne(bytes: seq<Byte>): (r: Option<(nat, nat)>)
    ensures r.Some? ==> 0 < r.value.1 <= |bytes|
  {
    if bytes == [] then None
    else if bytes[0] < 0x80 then Some((bytes[0], 1))
    else if 0xC2 <= bytes[0] < 0xE0 && |bytes| >= 2 && AreTails(bytes[1..2]) then
      Some(((bytes[0] - 0xC0) * 0x40 + Tail(bytes[1]), 2))
    else if 0xE0 <= bytes[0] < 0xF0 && |bytes| >= 3 && AreTails(bytes[1..3]) then
      var c := (bytes[0] - 0xE0) * 0x1000 + Tail(bytes[1]) * 0x40 + Tail(bytes[2]);
      if c >= 0x800 && IsScalar(c) then Some((c, 3)) else None
    else if 0xF0 <= bytes[0] < 0xF5 && |bytes| >= 4 && AreTails(bytes[1..4]) then
      var c := (bytes[0] - 0xF0) * 0x4_0000 + Tail(bytes[1]) * 0x1000 + Tail(bytes[2]) * 0x40 + Tail(bytes[3]);
      if c >= 0x1_0000 && IsScalar(c) then Some((c, 4)) else None
    else None
  }

  function Decode(bytes: seq<Byte>): Option<seq<nat>>
  {
    if bytes == [] then Some([])
    else
      match DecodeOne(bytes)
      case None => None
      case Some((c, n)) =>
        match Decode(bytes[n..])
        case None => None
        case Some(rest) => Some([c] + rest)
  }

  // ---------------------------------------------------------------- round trip

  lemma DecodeTwo(c: nat, rest: seq<Byte>)
    requires 0x80 <= c < 0x800
    ensures DecodeOne(EncodeOne(c) + rest) == Some((c, 2))
  {
    var bytes := EncodeOne(c) + rest;
    assert bytes[1..2] == [Trailing(c)];
    assert c == c / 0x40 * 0x40 + c % 0x40;
  }

  lemma DecodeThree(c: nat, rest: seq<Byte>)
    requires 0x800 <= c < 0x1_0000 && IsScalar(c)
    ensures DecodeOne(EncodeOne(c) + rest) == Some((c, 3))
  {
    var bytes := EncodeOne(c) + rest;
    assert bytes[1..3] == [Trailing(c / 0x40), Trailing(c)];
    assert c == c / 0x1000 * 0x1000 + c / 0x40 % 0x40 * 0x40 + c % 0x40;
  }

  lemma SixBits(c: nat)
    ensures c == c / 0x40 * 0x40 + c % 0x40
  {
  }

  lemma FourGroups(c: nat)
    ensures c == c / 0x4_0000 * 0x4_0000 + c / 0x1000 % 0x40 * 0x1000 + c / 0x40 % 0x40 * 0x40 + c % 0x40
  {
    SixBits(c);
    SixBits(c / 0x40);
    SixBits(c / 0x1000);
    assert c / 0x40 / 0x40 == c / 0x1000;
    assert c / 0x1000 / 0x40 == c / 0x4_0000;
  }

  lemma TrailingTail(bits: nat)
    ensures Tail(Trailing(bits)) == bits % 0x40 && 0x80 <= Trailing(bits) < 0xC0
  {
  }

  lemma DecodeFour(c: nat, rest: seq<Byte>)
    requires 0x1_0000 <= c < 0x11_0000
    ensures DecodeOne(EncodeOne(c) + rest) == Some((c, 4))
  {
    var bytes := EncodeOne(c) + rest;
    assert bytes[1..4] == [Trailing(c / 0x1000), Trailing(c / 0x40), Trailing(c)];
    TrailingTail(c / 0x1000);
    TrailingTail(c / 0x40);
    TrailingTail(c);
    FourGroups(c);
    assert 0xF0 <= bytes[0] < 0xF5;
  }

  lemma DecodeUndoesOne(c: nat, rest: seq<Byte>)
    requires IsScalar(c)
    ensures DecodeOne(EncodeOne(c) + rest) == Some((c, |EncodeOne(c)|))
  {
    if c < 0x80 {
    } else if c < 0x800 {
      DecodeTwo(c, rest);
    } else if c < 0x1_0000 {
      DecodeThree(c, rest);
    } else {
      DecodeFour(c, rest);
    }
  }

  /** Every sequence of scalar values can be read back from its bytes. */
  lemma {:induction false} DecodeUndoesEncode(cs: seq<nat>)
    requires forall i :: 0 <= i < |cs| ==> IsScalar(cs[i])
    ensures Decode(Encode(cs)) == Some(cs)
  {
    if cs != [] {
      var first, rest := EncodeOne(cs[0]), Encode(cs[1..]);
      DecodeUndoesOne(cs[0], rest);
      DecodeUndoesEncode(cs[1..]);
      assert (first + rest)[|first|..] == rest;
      assert [cs[0]] + cs[1..] == cs;
    }
  }

  // ---------------------------------------------------------------- the bytes that are counted

  lemma CharIsCodePoint(t: Text)
    requires t != []
    ensures CharBytes(t, 0) == |EncodeOne(CodePointAt(t, 0))|
    ensures Next(t, 0) == if CodePointAt(t, 0) < 0x1_0000 then 1 else 2
  {
  }

  /** The length that the budgets are compared with is the number of bytes of the UTF-8 encoding. */
  lemma {:induction false} ByteLengthIsEncoded(t: Text)
    ensures ByteLength(t) == |Encode(CodePoints(t))|
    decreases |t|
  {
    if t != [] {
      CharIsCodePoint(t);
      ByteLengthIsEncoded(t[Next(t, 0)..]);
      assert CodePoints(t)[1..] == CodePoints(t[Next(t, 0)..]);
    }
  }

  /** Text without lone surrogates can be read back, so no shorter count would do. */
  lemma TextIsRecovered(t: Text)
    ensures Decode(Encode(CodePoints(t))) == Some(CodePoints(t))
  {
    DecodeUndoesEncode(CodePoints(t));
  }
}
