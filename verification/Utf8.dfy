/** Text as UTF-8 bytes and back, as `Buffer.from` and `toString` convert it: an unpaired surrogate and every maximal
    part of an ill-formed sequence become U+FFFD. */
module Utf8 {
  import opened Text16

  type Byte = b: int | 0 <= b < 256
  type Bytes = seq<Byte>

  const REPLACEMENT := 0xFFFD

  /** A Unicode scalar value: no surrogate. */
  type Scalar = c: int | 0 <= c < 0xD800 || 0xE000 <= c < 0x11_0000

  function Utf8Of(c: Scalar): Bytes {
    if c < 0x80 then [c]
    else if c < 0x800 then [0xC0 + c / 64, 0x80 + c % 64]
    else if c < 0x1_0000 then [0xE0 + c / 4096, 0x80 + c / 64 % 64, 0x80 + c % 64]
    else [0xF0 + c / 0x4_0000, 0x80 + c / 4096 % 64, 0x80 + c / 64 % 64, 0x80 + c % 64]
  }

  function UnitsOf(c: Scalar): Text {
    if c < 0x1_0000 then [c] else [0xD800 + (c - 0x1_0000) / 0x400, 0xDC00 + (c - 0x1_0000) % 0x400]
  }

  function Combine(high: Unit, low: Unit): Scalar
    requires High(high) && Low(low)
  {
    0x1_0000 + (high - 0xD800) * 0x400 + (low - 0xDC00)
  }

  /** The first scalar of a text and the units it takes. */
  datatype Lead = Lead(scalar: Scalar, length: nat)

  function FirstScalar(s: Text): Lead
    requires s != []
  {
    if High(s[0]) && |s| >= 2 && Low(s[1]) then Lead(Combine(s[0], s[1]), 2)
    else if High(s[0]) || Low(s[0]) then Lead(REPLACEMENT, 1)
    else Lead(s[0], 1)
  }

  function Encode(s: Text): Bytes {
    if s == [] then []
    else var lead := FirstScalar(s); Utf8Of(lead.scalar) + Encode(s[lead.length..])
  }

  // ---------- decoding ----------

  /** The start of some bytes: a well-formed sequence, or a part to be replaced. */
  datatype Start = Good(scalar: Scalar, length: nat) | Bad(length: nat)

  predicate Within(b: Bytes, i: nat, low: int, high: int) {
    i < |b| && low <= b[i] <= high
  }

  predicate Continues(b: Bytes, i: nat) {
    Within(b, i, 0x80, 0xBF)
  }

  function StartOf2(b: Bytes): Start
    requires b != [] && 0xC2 <= b[0] <= 0xDF
  {
    if !Continues(b, 1) then Bad(1) else Good((b[0] as int - 0xC0) * 64 + (b[1] as int - 0x80), 2)
  }

  function StartOf3(b: Bytes): Start
    requires b != [] && 0xE0 <= b[0] <= 0xEF
  {
    if !Within(b, 1, if b[0] == 0xE0 then 0xA0 else 0x80, if b[0] == 0xED then 0x9F else 0xBF) then Bad(1)
    else if !Continues(b, 2) then Bad(2)
    else Good((b[0] as int - 0xE0) * 4096 + (b[1] as int - 0x80) * 64 + (b[2] as int - 0x80), 3)
  }

  function StartOf4(b: Bytes): Start
    requires b != [] && 0xF0 <= b[0] <= 0xF4
  {
    if !Within(b, 1, if b[0] == 0xF0 then 0x90 else 0x80, if b[0] == 0xF4 then 0x8F else 0xBF) then Bad(1)
    else if !Continues(b, 2) then Bad(2)
    else if !Continues(b, 3) then Bad(3)
    else Good((b[0] as int - 0xF0) * 0x4_0000 + (b[1] as int - 0x80) * 4096 + (b[2] as int - 0x80) * 64 + (b[3] as int - 0x80), 4)
  }

  function StartOf(b: Bytes): (r: Start)
    requires b != []
    ensures 1 <= r.length <= |b|
  {
    if b[0] < 0x80 then Good(b[0], 1)
    else if 0xC2 <= b[0] <= 0xDF then StartOf2(b)
    else if 0xE0 <= b[0] <= 0xEF then StartOf3(b)
    else if 0xF0 <= b[0] <= 0xF4 then StartOf4(b)
    else Bad(1)
  }

  function Decode(b: Bytes): Text {
    if b == [] then []
    else
      var start := StartOf(b);
      (if start.Good? then UnitsOf(start.scalar) else [REPLACEMENT]) + Decode(b[start.length..])
  }

  /** A sequence of well-formed encodings. */
  predicate WellFormed(b: Bytes) {
    b == [] || (StartOf(b).Good? && WellFormed(b[StartOf(b).length..]))
  }

  // ---------- one scalar ----------

  lemma Digits2(c: int, a: int, b: int)
    requires c == a * 64 + b && 0 <= b < 64
    ensures c / 64 == a && c % 64 == b
  {
  }

  /** Base-64 digits of a number. */
  lemma Digits(c: int)
    ensures c / 4096 == c / 64 / 64 && c / 0x4_0000 == c / 64 / 64 / 64
    ensures c == c / 64 * 64 + c % 64 && c / 64 == c / 64 / 64 * 64 + c / 64 % 64
    ensures c / 64 / 64 == c / 64 / 64 / 64 * 64 + c / 64 / 64 % 64
  {
  }

  /** An encoded scalar is read back, whatever follows it. */
  lemma ScalarReads(c: Scalar, rest: Bytes)
    ensures StartOf(Utf8Of(c) + rest) == Good(c, |Utf8Of(c)|)
  {
    var b := Utf8Of(c) + rest;
    if c < 0x80 {
      assert b[0] == c;
    } else if c < 0x800 {
      Digits(c);
      assert b[0] == 0xC0 + c / 64 && b[1] == 0x80 + c % 64;
    } else if c < 0x1_0000 {
      ScalarReads3(c, rest);
    } else {
      ScalarReads4(c, rest);
    }
  }

  lemma ScalarReads3(c: Scalar, rest: Bytes)
    requires 0x800 <= c < 0x1_0000
    ensures StartOf(Utf8Of(c) + rest) == Good(c, 3)
  {
    Digits(c);
    var b := Utf8Of(c) + rest;
    var x, y := c / 64, c / 64 / 64;
    var u, v := x % 64, c % 64;
    assert b[0] == 0xE0 + y && b[1] == 0x80 + u && b[2] == 0x80 + v;
    assert c == y * 4096 + u * 64 + v;
    assert StartOf(b) == StartOf3(b);
  }

  lemma ScalarReads4(c: Scalar, rest: Bytes)
    requires 0x1_0000 <= c
    ensures StartOf(Utf8Of(c) + rest) == Good(c, 4)
  {
    Digits(c);
    var b := Utf8Of(c) + rest;
    var x, y, z := c / 64, c / 64 / 64, c / 64 / 64 / 64;
    var t, u, v := y % 64, x % 64, c % 64;
    assert b[0] == 0xF0 + z && b[1] == 0x80 + t && b[2] == 0x80 + u && b[3] == 0x80 + v;
    assert c == z * 0x4_0000 + t * 4096 + u * 64 + v;
    assert StartOf(b) == StartOf4(b);
  }

  /** Well-formed bytes are the encoding of what they are read as. */
  lemma ScalarWrites(b: Bytes)
    requires b != [] && StartOf(b).Good?
    ensures Utf8Of(StartOf(b).scalar) == b[..StartOf(b).length]
  {
    if StartOf(b).length == 2 {
      Digits2(StartOf(b).scalar, b[0] as int - 0xC0, b[1] as int - 0x80);
    } else if StartOf(b).length == 3 {
      ScalarWrites3(b);
    } else if StartOf(b).length == 4 {
      ScalarWrites4(b);
    }
  }

  lemma ScalarWrites3(b: Bytes)
    requires b != [] && 0xE0 <= b[0] <= 0xEF && StartOf3(b).Good?
    ensures Utf8Of(StartOf3(b).scalar) == b[..3]
  {
    var c: int := StartOf3(b).scalar;
    var x: int := (b[0] as int - 0xE0) * 64 + (b[1] as int - 0x80);
    Digits2(c, x, b[2] as int - 0x80);
    Digits2(x, b[0] as int - 0xE0, b[1] as int - 0x80);
    Digits(c);
  }

  lemma ScalarWrites4(b: Bytes)
    requires b != [] && 0xF0 <= b[0] <= 0xF4 && StartOf4(b).Good?
    ensures Utf8Of(StartOf4(b).scalar) == b[..4]
  {
    var c: int := StartOf4(b).scalar;
    var y: int := (b[0] as int - 0xF0) * 64 + (b[1] as int - 0x80);
    var x: int := y * 64 + (b[2] as int - 0x80);
    Digits2(c, x, b[3] as int - 0x80);
    Digits2(x, y, b[2] as int - 0x80);
    Digits2(y, b[0] as int - 0xF0, b[1] as int - 0x80);
    Digits(c);
  }

  lemma PairSplits(high: Unit, low: Unit)
    requires High(high) && Low(low)
    ensures UnitsOf(Combine(high, low)) == [high, low]
  {
    var a, l := high as int - 0xD800, low as int - 0xDC00;
    var c := a * 0x400 + l;
    assert c / 0x400 == a && c % 0x400 == l;
  }

  /** A scalar's units are read back as that scalar, and they are paired. */
  lemma UnitsRead(c: Scalar, rest: Text)
    ensures FirstScalar(UnitsOf(c) + rest) == Lead(c, |UnitsOf(c)|)
    ensures WellPaired(UnitsOf(c) + rest) <==> WellPaired(rest)
  {
    var s := UnitsOf(c) + rest;
    assert s[|UnitsOf(c)|..] == rest;
    if c < 0x1_0000 { assert s[0] == c; } else { assert High(s[0]) && Low(s[1]); }
  }

  /** Paired text starts with the units of its first scalar. */
  lemma PairedStarts(s: Text)
    requires s != [] && WellPaired(s)
    ensures var lead := FirstScalar(s); lead.length <= |s| && UnitsOf(lead.scalar) == s[..lead.length] && WellPaired(s[lead.length..])
  {
    if High(s[0]) { PairSplits(s[0], s[1]); }
    hide Combine;
  }

  // ---------- whole texts ----------

  lemma DecodeScalar(c: Scalar, rest: Bytes)
    ensures Decode(Utf8Of(c) + rest) == UnitsOf(c) + Decode(rest)
  {
    ScalarReads(c, rest);
    assert |Utf8Of(c)| >= 1;
    hide StartOf, UnitsOf, Utf8Of;
    assert (Utf8Of(c) + rest)[|Utf8Of(c)|..] == rest;
  }

  lemma {:induction false} DecodeEncode(s: Text)
    requires WellPaired(s)
    ensures Decode(Encode(s)) == s
  {
    if s != [] {
      var lead := FirstScalar(s);
      PairedStarts(s);
      var rest := s[lead.length..];
      DecodeEncode(rest);
      hide FirstScalar, UnitsOf, Utf8Of, WellPaired, StartOf;
      assert Encode(s) == Utf8Of(lead.scalar) + Encode(rest);
      DecodeScalar(lead.scalar, Encode(rest));
      Glue(s, lead.length);
    }
  }

  lemma Glue<T>(b: seq<T>, n: nat)
    requires n <= |b|
    ensures b[..n] + b[n..] == b
  {
  }

  lemma EncodeUnits(c: Scalar, rest: Text)
    ensures Encode(UnitsOf(c) + rest) == Utf8Of(c) + Encode(rest)
  {
    UnitsRead(c, rest);
    assert |UnitsOf(c)| >= 1;
    hide FirstScalar, UnitsOf, Utf8Of, WellPaired;
    assert (UnitsOf(c) + rest)[|UnitsOf(c)|..] == rest;
  }

  lemma {:induction false} EncodeDecode(b: Bytes)
    requires WellFormed(b)
    ensures Encode(Decode(b)) == b
  {
    if b != [] {
      var start := StartOf(b);
      var rest := b[start.length..];
      EncodeDecode(rest);
      ScalarWrites(b);
      hide StartOf, UnitsOf, Utf8Of;
      assert Decode(b) == UnitsOf(start.scalar) + Decode(rest);
      EncodeUnits(start.scalar, Decode(rest));
      Glue(b, start.length);
    }
  }

  /** Whatever the text, its bytes are well formed. */
  lemma {:induction false} EncodeWellFormed(s: Text)
    ensures WellFormed(Encode(s))
  {
    if s != [] {
      var lead := FirstScalar(s);
      var rest := s[lead.length..];
      EncodeWellFormed(rest);
      ScalarReads(lead.scalar, Encode(rest));
      hide StartOf, Utf8Of, FirstScalar;
      assert Encode(s)[|Utf8Of(lead.scalar)|..] == Encode(rest);
    }
  }

  /** Whatever the bytes, the text is paired. */
  lemma {:induction false} DecodeWellPaired(b: Bytes)
    ensures WellPaired(Decode(b))
  {
    if b != [] {
      var start := StartOf(b);
      DecodeWellPaired(b[start.length..]);
      UnitsRead(if start.Good? then start.scalar else REPLACEMENT, Decode(b[start.length..]));
    }
  }

  /** Text survives its bytes exactly when no surrogate is unpaired. */
  lemma TextSurvivesExactly(s: Text)
    ensures Decode(Encode(s)) == s <==> WellPaired(s)
  {
    DecodeWellPaired(Encode(s));
    if WellPaired(s) { DecodeEncode(s); }
  }

  /** Bytes survive their text exactly when they are well formed. */
  lemma BytesSurviveExactly(b: Bytes)
    ensures Encode(Decode(b)) == b <==> WellFormed(b)
  {
    EncodeWellFormed(Decode(b));
    if WellFormed(b) { EncodeDecode(b); }
  }
}
