/** Strings and numbers of JSON text: escaping, unescaping and the number
    literal the parser matches. Texts are UTF-16 code units. */
module JsonLexis {
  import opened Text16

  datatype Option<+T> = None | Some(value: T)

  const QUOTE: Unit := 0x22
  const BACKSLASH: Unit := 0x5c
  const MINUS: Unit := 0x2d
  const DOT: Unit := 0x2e

  // ---------- JSON.stringify and JSON.parse of a string ----------

  type Nibble = d: int | 0 <= d < 16

  function HexDigit(d: Nibble): Unit {
    if d < 10 then 48 + d else 87 + d
  }

  function HexValue(c: Unit): Option<Nibble> {
    if 48 <= c <= 57 then Some(c - 48)
    else if 65 <= c <= 70 then Some(c - 55)
    else if 97 <= c <= 102 then Some(c - 87)
    else None
  }

  /** One code unit inside a JSON.stringify string. Lone surrogates never reach it. */
  function EscapeUnit(c: Unit): Text {
    if c == QUOTE || c == BACKSLASH then [BACKSLASH, c]
    else if c == 8 then [BACKSLASH, 98]
    else if c == 9 then [BACKSLASH, 116]
    else if c == 10 then [BACKSLASH, 110]
    else if c == 12 then [BACKSLASH, 102]
    else if c == 13 then [BACKSLASH, 114]
    else if c < 0x20 then [BACKSLASH, 117, 48, 48, HexDigit(c / 16), HexDigit(c % 16)]
    else [c]
  }

  function Escape(s: Text): Text {
    if s == [] then [] else EscapeUnit(s[0]) + Escape(s[1..])
  }

  function Quoted(s: Text): Text {
    [QUOTE] + Escape(s) + [QUOTE]
  }

  /** The unit a two-character escape stands for. */
  function ShortEscape(c: Unit): Option<Unit> {
    if c == QUOTE || c == BACKSLASH || c == 0x2f then Some(c)
    else if c == 98 then Some(8)
    else if c == 102 then Some(12)
    else if c == 110 then Some(10)
    else if c == 114 then Some(13)
    else if c == 116 then Some(9)
    else None
  }

  function Hex4(t: Text): Option<Unit>
    requires |t| >= 4
  {
    var a, b, c, d := HexValue(t[0]), HexValue(t[1]), HexValue(t[2]), HexValue(t[3]);
    if a.None? || b.None? || c.None? || d.None? then None
    else Some(a.value * 4096 + b.value * 256 + c.value * 16 + d.value)
  }

  /** `JSON.parse` of a string literal, on what stands between its quotes. */
  function Unescape(t: Text): Option<Text> {
    if t == [] then Some([])
    else if t[0] == BACKSLASH then
      if |t| < 2 then None
      else if t[1] == 117 then
        if |t| < 6 || Hex4(t[2..]).None? then None
        else match Unescape(t[6..])
             case None => None
             case Some(rest) => Some([Hex4(t[2..]).value] + rest)
      else if ShortEscape(t[1]).None? then None
      else match Unescape(t[2..])
           case None => None
           case Some(rest) => Some([ShortEscape(t[1]).value] + rest)
    else if t[0] < 0x20 || t[0] == QUOTE then None
    else match Unescape(t[1..])
         case None => None
         case Some(rest) => Some([t[0]] + rest)
  }

  lemma HexRoundTrip(d: Nibble)
    ensures HexValue(HexDigit(d)) == Some(d)
  {
  }

  lemma UnescapeShort(e: Unit, rest: Text)
    requires Unescape(rest).Some? && e != 117 && ShortEscape(e).Some?
    ensures Unescape([BACKSLASH, e] + rest) == Some([ShortEscape(e).value] + Unescape(rest).value)
  {
    assert ([BACKSLASH, e] + rest)[2..] == rest;
  }

  lemma UnescapeHex(h: Text, c: Unit, rest: Text)
    requires Unescape(rest).Some? && |h| == 4 && Hex4(h) == Some(c)
    ensures Unescape([BACKSLASH, 117] + h + rest) == Some([c] + Unescape(rest).value)
  {
    var t := [BACKSLASH, 117] + h + rest;
    assert t[6..] == rest && t[2..] == h + rest;
    assert t[0] == BACKSLASH && t[1] == 117;
    assert Hex4(t[2..]) == Hex4(h);
  }

  lemma UnescapePlain(c: Unit, rest: Text)
    requires Unescape(rest).Some? && c >= 0x20 && c != QUOTE && c != BACKSLASH
    ensures Unescape([c] + rest) == Some([c] + Unescape(rest).value)
  {
    assert ([c] + rest)[1..] == rest;
  }

  lemma UnescapeUnit(c: Unit, rest: Text)
    requires Unescape(rest).Some?
    ensures Unescape(EscapeUnit(c) + rest) == Some([c] + Unescape(rest).value)
  {
    var e := EscapeUnit(c);
    hide Unescape;
    if |e| == 2 {
      UnescapeShort(e[1], rest);
    } else if |e| == 1 {
      UnescapePlain(c, rest);
    } else {
      HexRoundTrip(c / 16);
      HexRoundTrip(c % 16);
      var h := [48, 48, HexDigit(c / 16), HexDigit(c % 16)];
      assert Hex4(h) == Some(c);
      UnescapeHex(h, c, rest);
      assert e == [BACKSLASH, 117] + h;
    }
  }

  /** Unescaping undoes escaping for every string. */
  lemma {:induction false} UnescapeEscape(s: Text)
    ensures Unescape(Escape(s)) == Some(s)
  {
    if s != [] {
      UnescapeEscape(s[1..]);
      UnescapeUnit(s[0], Escape(s[1..]));
      assert s == [s[0]] + s[1..];
    }
  }

  // ---------- finding the end of a string ----------

  datatype Scanned = Unterminated | Found(content: Text, rest: Text)

  /** The loop of `parseJsonString` after the opening quote: an escape takes two units. */
  function Scan(t: Text): (r: Scanned)
    ensures r.Found? ==> |r.rest| < |t|
  {
    if t == [] then Unterminated
    else if t[0] == QUOTE then Found([], t[1..])
    else if t[0] == BACKSLASH then
      if |t| < 2 then Unterminated
      else match Scan(t[2..])
           case Unterminated => Unterminated
           case Found(content, rest) => Found([t[0], t[1]] + content, rest)
    else match Scan(t[1..])
         case Unterminated => Unterminated
         case Found(content, rest) => Found([t[0]] + content, rest)
  }

  lemma ScanPlain(c: Unit, t: Text)
    requires Scan(t).Found? && c != QUOTE && c != BACKSLASH
    ensures Scan([c] + t) == Found([c] + Scan(t).content, Scan(t).rest)
  {
    assert ([c] + t)[1..] == t;
  }

  lemma ScanPair(c: Unit, t: Text)
    requires Scan(t).Found?
    ensures Scan([BACKSLASH, c] + t) == Found([BACKSLASH, c] + Scan(t).content, Scan(t).rest)
  {
    assert ([BACKSLASH, c] + t)[2..] == t;
  }

  lemma {:induction false} ScanRun(run: Text, t: Text)
    requires Scan(t).Found? && forall i :: 0 <= i < |run| ==> run[i] != QUOTE && run[i] != BACKSLASH
    ensures Scan(run + t) == Found(run + Scan(t).content, Scan(t).rest)
  {
    hide Scan;
    if run == [] {
      assert run + t == t && run + Scan(t).content == Scan(t).content;
    } else {
      ScanRun(run[1..], t);
      ScanPlain(run[0], run[1..] + t);
      assert run == [run[0]] + run[1..];
      assert run + t == [run[0]] + (run[1..] + t);
      assert run + Scan(t).content == [run[0]] + (run[1..] + Scan(t).content);
    }
  }

  lemma ScanUnit(c: Unit, t: Text)
    requires Scan(t).Found?
    ensures Scan(EscapeUnit(c) + t) == Found(EscapeUnit(c) + Scan(t).content, Scan(t).rest)
  {
    var e := EscapeUnit(c);
    hide Scan;
    if |e| == 1 {
      ScanPlain(c, t);
    } else {
      var run := e[2..];
      ScanRun(run, t);
      ScanPair(e[1], run + t);
      assert e == [BACKSLASH, e[1]] + run;
      assert e + t == [BACKSLASH, e[1]] + (run + t);
      assert e + Scan(t).content == [BACKSLASH, e[1]] + (run + Scan(t).content);
    }
  }

  /** An escaped string is delimited by exactly its own closing quote. */
  lemma {:induction false} ScanEscape(s: Text, rest: Text)
    ensures Scan(Escape(s) + [QUOTE] + rest) == Found(Escape(s), rest)
  {
    if s == [] {
      assert Escape(s) + [QUOTE] + rest == [QUOTE] + rest;
      assert ([QUOTE] + rest)[1..] == rest;
    } else {
      hide Scan, EscapeUnit;
      var tail := Escape(s[1..]) + [QUOTE] + rest;
      ScanEscape(s[1..], rest);
      ScanUnit(s[0], tail);
      Regroup4(EscapeUnit(s[0]), Escape(s[1..]), [QUOTE], rest);
    }
  }

  // ---------- number literals ----------

  predicate Digit(c: Unit) { 48 <= c <= 57 }

  function DigitRun(t: Text): (n: nat)
    ensures n <= |t|
  {
    if t != [] && Digit(t[0]) then 1 + DigitRun(t[1..]) else 0
  }

  /** The integer part: one zero, or digits that do not start with zero; 0 when there is none. */
  function IntegerLength(t: Text): (n: nat)
    ensures n <= |t|
  {
    if t == [] || !Digit(t[0]) then 0 else if t[0] == 48 then 1 else DigitRun(t)
  }

  /** An optional point with digits. */
  function FractionLength(t: Text): (n: nat)
    ensures n <= |t|
  {
    if t != [] && t[0] == DOT && DigitRun(t[1..]) > 0 then 1 + DigitRun(t[1..]) else 0
  }

  predicate Sign(t: Text) { t != [] && (t[0] == 0x2b || t[0] == MINUS) }

  /** An optional exponent. */
  function ExponentLength(t: Text): (n: nat)
    ensures n <= |t|
  {
    if t == [] || (t[0] != 101 && t[0] != 69) then 0
    else
      var skip := if Sign(t[1..]) then 2 else 1;
      if DigitRun(t[skip..]) > 0 then skip + DigitRun(t[skip..]) else 0
  }

  function FractionExponentLength(t: Text): (n: nat)
    ensures n <= |t|
  {
    var f := FractionLength(t);
    f + ExponentLength(t[f..])
  }

  function UnsignedLength(t: Text): (n: nat)
    ensures n <= |t|
  {
    var i := IntegerLength(t);
    if i == 0 then 0 else i + FractionExponentLength(t[i..])
  }

  /** The length of the number literal a text starts with; 0 when there is none. */
  function NumberLength(t: Text): (n: nat)
    ensures n <= |t|
  {
    if t != [] && t[0] == MINUS then
      var n := UnsignedLength(t[1..]);
      if n == 0 then 0 else 1 + n
    else UnsignedLength(t)
  }

  predicate IsNumberText(t: Text) {
    t != [] && NumberLength(t) == |t|
  }

  /** What can follow a value in canonical text: nothing, a comma or a closer. */
  predicate Ends(rest: Text) {
    rest == [] || rest[0] == 0x2c || rest[0] == 0x5d || rest[0] == 0x7d
  }

  lemma {:induction false} DigitRunEnds(t: Text, rest: Text)
    requires Ends(rest)
    ensures DigitRun(t + rest) == DigitRun(t)
  {
    if t == [] {
      assert t + rest == rest;
    } else {
      DigitRunEnds(t[1..], rest);
      assert (t + rest)[1..] == t[1..] + rest;
    }
  }

  lemma IntegerEnds(t: Text, rest: Text)
    requires Ends(rest)
    ensures IntegerLength(t + rest) == IntegerLength(t)
  {
    if t == [] { assert t + rest == rest; } else { DigitRunEnds(t, rest); }
  }

  lemma FractionEnds(t: Text, rest: Text)
    requires Ends(rest)
    ensures FractionLength(t + rest) == FractionLength(t)
  {
    if t == [] {
      assert t + rest == rest;
    } else {
      DigitRunEnds(t[1..], rest);
      assert (t + rest)[1..] == t[1..] + rest;
    }
  }

  lemma ExponentEnds(t: Text, rest: Text)
    requires Ends(rest)
    ensures ExponentLength(t + rest) == ExponentLength(t)
  {
    if t == [] {
      assert t + rest == rest;
    } else {
      var u := t + rest;
      assert u[1..] == t[1..] + rest;
      DigitRunEnds(t[1..], rest);
      if |t| == 1 {
        assert t[1..] == [] && u[1..] == rest;
      } else {
        assert Sign(u[1..]) == Sign(t[1..]);
        assert u[2..] == t[2..] + rest;
        DigitRunEnds(t[2..], rest);
      }
    }
  }

  lemma FractionExponentEnds(t: Text, rest: Text)
    requires Ends(rest)
    ensures FractionExponentLength(t + rest) == FractionExponentLength(t)
  {
    hide FractionLength, ExponentLength;
    var f := FractionLength(t);
    FractionEnds(t, rest);
    ExponentEnds(t[f..], rest);
    assert (t + rest)[f..] == t[f..] + rest;
  }

  lemma UnsignedEnds(t: Text, rest: Text)
    requires Ends(rest)
    ensures UnsignedLength(t + rest) == UnsignedLength(t)
  {
    hide IntegerLength, FractionExponentLength;
    var i := IntegerLength(t);
    IntegerEnds(t, rest);
    FractionExponentEnds(t[i..], rest);
    assert (t + rest)[i..] == t[i..] + rest;
  }

  /** A number literal does not swallow what follows it. */
  lemma NumberEnds(t: Text, rest: Text)
    requires Ends(rest)
    ensures NumberLength(t + rest) == NumberLength(t)
  {
    hide UnsignedLength;
    UnsignedEnds(t, rest);
    if t == [] {
      assert t + rest == rest;
    } else {
      UnsignedEnds(t[1..], rest);
      assert (t + rest)[1..] == t[1..] + rest;
    }
  }

  lemma NumberStarts(t: Text)
    requires NumberLength(t) > 0
    ensures t[0] == MINUS || Digit(t[0])
  {
  }
}
