/** The loops of the canonical JSON code: the cursor parser and the printer, each
    proved to compute the functions of `CanonicalJson`. */
module CanonicalJsonCode {
  import opened Text16
  import opened Sorting
  import opened JsonLexis
  import opened CanonicalJson

  method SkipWhitespace(text: Text, start: nat) returns (index: nat)
    requires start <= |text|
    ensures start <= index <= |text| && text[index..] == SkipSpace(text[start..])
    ensures index < |text| ==> !IsSpace(text[index])
  {
    index := start;
    while index < |text|
      invariant start <= index <= |text|
      invariant SkipSpace(text[index..]) == SkipSpace(text[start..])
    {
      if IsSpace(text[index]) {
        assert text[index..][1..] == text[index + 1..];
        index := index + 1;
        continue;
      }
      break;
    }
  }

  datatype StringAt = NoString | StringAt(value: Text, next: nat)

  /** A scan that already passed over `content`. */
  function After(content: Text, s: Scanned): Scanned {
    match s
    case Unterminated => Unterminated
    case Found(more, rest) => Found(content + more, rest)
  }

  lemma ScanStep(t: Text)
    requires t != [] && t[0] != QUOTE
    ensures t[0] != BACKSLASH ==> Scan(t) == After([t[0]], Scan(t[1..]))
    ensures t[0] == BACKSLASH && |t| >= 2 ==> Scan(t) == After([t[0], t[1]], Scan(t[2..]))
    ensures t[0] == BACKSLASH && |t| == 1 ==> Scan(t) == Unterminated
  {
  }

  lemma ScanStops(t: Text)
    ensures t == [] ==> Scan(t) == Unterminated
    ensures t != [] && t[0] == QUOTE ==> Scan(t) == Found([], t[1..])
  {
  }

  datatype RawAt = NoRaw | RawAt(content: Text, next: nat)

  /** The scanning loop of `parseJsonString`. */
  method ScanRaw(text: Text, start: nat) returns (r: RawAt)
    requires start <= |text|
    ensures r.NoRaw? ==> Scan(text[start..]) == Unterminated
    ensures r.RawAt? ==> r.next <= |text| && Scan(text[start..]) == Found(r.content, text[r.next..])
  {
    hide Scan;
    var index := start;
    var raw: Text := [];
    ghost var scan := Scan(text[start..]);
    AfterNothing(scan);
    while index < |text|
      invariant start <= index <= |text|
      invariant scan == After(raw, Scan(text[index..]))
    {
      ghost var rest := text[index..];
      var unit := text[index];
      if unit == QUOTE {
        ScanStops(rest);
        assert rest[1..] == text[index + 1..];
        assert raw + [] == raw;
        return RawAt(raw, index + 1);
      }
      ScanStep(rest);
      if unit == BACKSLASH {
        if index + 1 == |text| {
          return NoRaw;
        }
        assert rest[2..] == text[index + 2..];
        AfterMore(raw, [unit, text[index + 1]], Scan(text[index + 2..]));
        raw := raw + [unit, text[index + 1]];
        index := index + 2;
        continue;
      }
      assert rest[1..] == text[index + 1..];
      AfterMore(raw, [unit], Scan(text[index + 1..]));
      raw := raw + [unit];
      index := index + 1;
    }
    ScanStops(text[index..]);
    return NoRaw;
  }

  lemma AfterNothing(s: Scanned)
    ensures After([], s) == s
  {
    if s.Found? { assert [] + s.content == s.content; }
  }

  method ParseJsonString(text: Text, start: nat) returns (r: StringAt)
    requires start <= |text|
    ensures r.NoString? ==> ParseString(text[start..]) == FailText
    ensures r.StringAt? ==> r.next <= |text| && ParseString(text[start..]) == ParsedText(r.value, text[r.next..])
  {
    hide Scan, Unescape, WellPaired;
    if start == |text| || text[start] != QUOTE {
      return NoString;
    }
    assert text[start..][1..] == text[start + 1..];
    var raw := ScanRaw(text, start + 1);
    if raw.NoRaw? {
      return NoString;
    }
    var value := Unescape(raw.content);
    if value.None? || !WellPaired(value.value) {
      return NoString;
    }
    return StringAt(value.value, raw.next);
  }

  lemma AfterMore(a: Text, b: Text, s: Scanned)
    ensures After(a, After(b, s)) == After(a + b, s)
  {
    if s.Found? { assert a + (b + s.content) == a + b + s.content; }
  }

  datatype ValueAt<+N> = NoValue | ValueAt(value: Json<N>, next: nat)

  /** The result of the cursor code, seen as the result of the parsing function. */
  ghost predicate Agrees<N>(r: ValueAt<N>, p: Parsed<N>, text: Text) {
    match r
    case NoValue => p == Fail
    case ValueAt(value, next) => next <= |text| && p == Parsed(value, text[next..])
  }

  method ParseJsonValue<N>(text: Text, start: nat, num: Codec<N>) returns (r: ValueAt<N>)
    requires start <= |text|
    ensures Agrees(r, ParseValue(text[start..], num), text)
    ensures r.ValueAt? ==> start < r.next
    decreases |text| - start, 0
  {
    hide ParseMembers, ParseItems, ParseString, ParseNumber, SkipSpace;
    var index := SkipWhitespace(text, start);
    if index == |text| {
      return NoValue;
    }
    SpaceSkipped(text[index..], num);
    ghost var u := text[index..];
    assert u[1..] == text[index + 1..];
    var head := text[index];
    if head == OPEN_BRACE {
      var cursor := SkipWhitespace(text, index + 1);
      if cursor < |text| && text[cursor] == CLOSE_BRACE {
        assert text[cursor..][1..] == text[cursor + 1..];
        return ValueAt(Obj([]), cursor + 1);
      }
      r := ParseObjectBody(text, cursor, num);
      return;
    }
    if head == OPEN_BRACKET {
      var cursor := SkipWhitespace(text, index + 1);
      if cursor < |text| && text[cursor] == CLOSE_BRACKET {
        assert text[cursor..][1..] == text[cursor + 1..];
        return ValueAt(Arr([]), cursor + 1);
      }
      r := ParseArrayBody(text, cursor, num);
      return;
    }
    r := ParseScalar(text, index, num);
  }

  /** Leading space does not change the value. */
  lemma SpaceSkipped<N>(u: Text, num: Codec<N>)
    requires u != [] && !IsSpace(u[0])
    ensures forall t :: SkipSpace(t) == u ==> ParseValue(t, num) == ParseValue(u, num)
  {
    hide ParseMembers, ParseItems, ParseString, ParseNumber;
    assert SkipSpace(u) == u;
  }

  method ParseScalar<N>(text: Text, index: nat, num: Codec<N>) returns (r: ValueAt<N>)
    requires index < |text| && !IsSpace(text[index]) && text[index] != OPEN_BRACE && text[index] != OPEN_BRACKET
    ensures Agrees(r, ParseValue(text[index..], num), text)
    ensures r.ValueAt? ==> index < r.next
  {
    hide ParseString, NumberLength, ParseMembers, ParseItems;
    var u := text[index..];
    if text[index] == QUOTE {
      var s := ParseJsonString(text, index);
      if s.NoString? {
        return NoValue;
      }
      return ValueAt(Str(s.value), s.next);
    }
    if TRUE <= u {
      assert u[4..] == text[index + 4..];
      return ValueAt(Bool(true), index + 4);
    }
    if FALSE <= u {
      assert u[5..] == text[index + 5..];
      return ValueAt(Bool(false), index + 5);
    }
    if NULL <= u {
      assert u[4..] == text[index + 4..];
      return ValueAt(Null, index + 4);
    }
    var n := NumberLength(u);
    if n == 0 {
      return NoValue;
    }
    var numeric := num.number(u[..n]);
    if numeric.None? {
      return NoValue;
    }
    assert u[n..] == text[index + n..];
    return ValueAt(Num(numeric.value), index + n);
  }

  method ParseObjectBody<N>(text: Text, start: nat, num: Codec<N>) returns (r: ValueAt<N>)
    requires start <= |text|
    ensures Agrees(r, ParseMembers(text[start..], [], {}, num), text)
    ensures r.ValueAt? ==> start < r.next
    decreases |text| - start, 1
  {
    hide ParseValue, ParseString, SkipSpace, Store;
    var fields: seq<Field<N>> := [];
    var seenKeys: set<Text> := {};
    var cursor := start;
    ghost var all := ParseMembers(text[start..], fields, seenKeys, num);
    while cursor < |text|
      invariant start <= cursor <= |text|
      invariant all == ParseMembers(text[cursor..], fields, seenKeys, num)
      decreases |text| - cursor
    {
      var at := SkipWhitespace(text, cursor);
      var parsedKey := ParseJsonString(text, at);
      if parsedKey.NoString? || parsedKey.value in seenKeys {
        return NoValue;
      }
      KeyAdvances(text, at, parsedKey);
      var key := parsedKey.value;
      var colon := SkipWhitespace(text, parsedKey.next);
      if colon == |text| || text[colon] != COLON {
        return NoValue;
      }
      assert text[colon..][1..] == text[colon + 1..];
      var parsedValue := ParseJsonValue(text, colon + 1, num);
      if parsedValue.NoValue? {
        return NoValue;
      }
      var w := SkipWhitespace(text, parsedValue.next);
      if w == |text| {
        return NoValue;
      }
      assert text[w..][1..] == text[w + 1..];
      fields := Store(fields, key, parsedValue.value);
      seenKeys := seenKeys + {key};
      if text[w] == COMMA {
        cursor := w + 1;
        continue;
      }
      if text[w] == CLOSE_BRACE {
        return ValueAt(Obj(fields), w + 1);
      }
      return NoValue;
    }
    NothingLeft(fields, seenKeys, num);
    return NoValue;
  }

  lemma KeyAdvances(text: Text, start: nat, r: StringAt)
    requires start <= |text| && r.StringAt? && r.next <= |text|
    requires ParseString(text[start..]) == ParsedText(r.value, text[r.next..])
    ensures start < r.next
  {
  }

  lemma NothingLeft<N>(fields: seq<Field<N>>, keys: set<Text>, num: Codec<N>)
    ensures ParseMembers([], fields, keys, num) == Fail
    ensures forall items :: ParseItems([], items, num) == Fail
  {
  }

  method ParseArrayBody<N>(text: Text, start: nat, num: Codec<N>) returns (r: ValueAt<N>)
    requires start <= |text|
    ensures Agrees(r, ParseItems(text[start..], [], num), text)
    ensures r.ValueAt? ==> start < r.next
    decreases |text| - start, 1
  {
    hide ParseValue, SkipSpace;
    var items: seq<Json<N>> := [];
    var cursor := start;
    ghost var all := ParseItems(text[start..], items, num);
    while cursor < |text|
      invariant start <= cursor <= |text|
      invariant all == ParseItems(text[cursor..], items, num)
      decreases |text| - cursor
    {
      var parsed := ParseJsonValue(text, cursor, num);
      if parsed.NoValue? {
        return NoValue;
      }
      items := items + [parsed.value];
      var w := SkipWhitespace(text, parsed.next);
      if w == |text| {
        return NoValue;
      }
      assert text[w..][1..] == text[w + 1..];
      if text[w] == COMMA {
        cursor := w + 1;
        continue;
      }
      if text[w] == CLOSE_BRACKET {
        return ValueAt(Arr(items), w + 1);
      }
      return NoValue;
    }
    NothingLeft<N>([], {}, num);
    return NoValue;
  }

  method ParseCanonicalJsonText<N>(text: Text, num: Codec<N>) returns (r: Option<Json<N>>)
    ensures r == ParseText(text, num)
  {
    if text == [] || text[0] == 0xfeff {
      return None;
    }
    assert text[0..] == text;
    var parsed := ParseJsonValue(text, 0, num);
    if parsed.NoValue? {
      return None;
    }
    var trailing := SkipWhitespace(text, parsed.next);
    if trailing != |text| {
      return None;
    }
    return Some(parsed.value);
  }

  lemma {:induction false} MemberTextsSnoc<N>(fields: seq<Field<N>>, f: Field<N>, num: Codec<N>)
    ensures MemberTexts(fields + [f], num) == MemberTexts(fields, num) + [MemberText(f, num)]
  {
    if fields == [] {
      assert fields + [f] == [f] && [f][1..] == [];
    } else {
      MemberTextsSnoc(fields[1..], f, num);
      assert (fields + [f])[1..] == fields[1..] + [f];
    }
  }

  lemma Smaller<N>(fields: seq<Field<N>>, f: Field<N>)
    requires f in fields
    ensures f.value < Obj(fields)
  {
    var k :| 0 <= k < |fields| && fields[k] == f;
    assert fields[k] < Obj(fields);
  }

  lemma PrintableSorted<N(!new)>(fields: seq<Field<N>>, sorted: seq<Field<N>>, num: Codec<N>, allowUnsafe: bool)
    requires sorted == Sort(fields, FieldAtMost)
    ensures Printable(Obj(fields), num, allowUnsafe) <==>
            forall i :: 0 <= i < |sorted| ==> FieldPrintable(sorted[i], num, allowUnsafe)
  {
    forall f ensures f in sorted <==> f in fields { SortMembers(fields, FieldAtMost, f); }
    PrintableFields(fields, num, allowUnsafe);
    hide FieldPrintable;
    if Printable(Obj(fields), num, allowUnsafe) {
      forall i | 0 <= i < |sorted| ensures FieldPrintable(sorted[i], num, allowUnsafe) { assert sorted[i] in fields; }
    } else {
      var f :| f in fields && !FieldPrintable(f, num, allowUnsafe);
      var i :| 0 <= i < |sorted| && sorted[i] == f;
      assert !FieldPrintable(sorted[i], num, allowUnsafe);
    }
  }

  lemma PrintableFields<N>(fields: seq<Field<N>>, num: Codec<N>, allowUnsafe: bool)
    ensures Printable(Obj(fields), num, allowUnsafe) <==> forall f :: f in fields ==> FieldPrintable(f, num, allowUnsafe)
  {
    if forall f :: f in fields ==> FieldPrintable(f, num, allowUnsafe) {
      forall i | 0 <= i < |fields| ensures WellPaired(fields[i].key) && Printable(fields[i].value, num, allowUnsafe) {
        assert fields[i] in fields;
      }
    }
  }

  /** `walk`: the canonical text, or nothing exactly for an unprintable value. Keys
      are visited in `utf16Compare` order. */
  method Walk<N(!new)>(v: Json<N>, num: Codec<N>, allowUnsafe: bool) returns (r: Option<Text>)
    ensures r == if Printable(v, num, allowUnsafe) then Some(Print(v, num)) else None
    decreases v, 2
  {
    match v {
      case Null => return Some(NULL);
      case Bool(b) => return Some(if b then TRUE else FALSE);
      case Num(n) =>
        if !allowUnsafe && num.unsafe(n) {
          return None;
        }
        return Some(if num.negativeZero(n) then ZERO else num.plain(n));
      case Str(s) =>
        if !WellPaired(s) {
          return None;
        }
        return Some(Quoted(s));
      case Arr(items) =>
        r := WalkItems(items, num, allowUnsafe, v);
      case Obj(fields) =>
        r := WalkFields(fields, num, allowUnsafe, v);
    }
  }

  lemma PrintArray<N(!new)>(items: seq<Json<N>>, parts: seq<Text>, num: Codec<N>)
    requires |parts| == |items| && forall i :: 0 <= i < |items| ==> parts[i] == Print(items[i], num)
    ensures Print(Arr(items), num) == [OPEN_BRACKET] + Join(parts) + [CLOSE_BRACKET]
  {
    assert parts == PrintItems(items, num);
  }

  lemma PrintableArray<N>(items: seq<Json<N>>, num: Codec<N>, allowUnsafe: bool)
    ensures Printable(Arr(items), num, allowUnsafe) <==>
            forall i :: 0 <= i < |items| ==> Printable(items[i], num, allowUnsafe)
  {
  }

  method WalkItems<N(!new)>(items: seq<Json<N>>, num: Codec<N>, allowUnsafe: bool, ghost whole: Json<N>) returns (r: Option<Text>)
    requires whole == Arr(items)
    ensures r == if Printable(whole, num, allowUnsafe) then Some(Print(whole, num)) else None
    decreases whole, 0
  {
    hide Print, Printable, Join;
    PrintableArray(items, num, allowUnsafe);
    var parts: seq<Text> := [];
    var index := 0;
    while index < |items|
      invariant 0 <= index <= |items| && |parts| == index
      invariant forall i :: 0 <= i < index ==> parts[i] == Print(items[i], num)
      invariant forall i :: 0 <= i < index ==> Printable(items[i], num, allowUnsafe)
    {
      assert items[index] < whole;
      var item := Walk(items[index], num, allowUnsafe);
      if item.None? {
        return None;
      }
      parts := parts + [item.value];
      index := index + 1;
    }
    PrintArray(items, parts, num);
    return Some([OPEN_BRACKET] + Join(parts) + [CLOSE_BRACKET]);
  }

  lemma PrintObject<N(!new)>(fields: seq<Field<N>>, num: Codec<N>)
    ensures Print(Obj(fields), num) ==
            [OPEN_BRACE] + Join(MemberTexts(Sort(fields, FieldAtMost), num)) + [CLOSE_BRACE]
  {
    ObjectForms(fields, num);
  }

  ghost predicate FieldPrintable<N>(f: Field<N>, num: Codec<N>, allowUnsafe: bool) {
    WellPaired(f.key) && Printable(f.value, num, allowUnsafe)
  }

  method WalkFields<N(!new)>(fields: seq<Field<N>>, num: Codec<N>, allowUnsafe: bool, ghost whole: Json<N>) returns (r: Option<Text>)
    requires whole == Obj(fields)
    ensures r == if Printable(whole, num, allowUnsafe) then Some(Print(whole, num)) else None
    decreases whole, 1
  {
    hide Print, Printable, Sort, Join, MemberTexts;
    var sorted := Sort(fields, FieldAtMost);
    PrintableSorted(fields, sorted, num, allowUnsafe);
    PrintObject(fields, num);
    forall f | f in sorted ensures f.value < whole {
      SortMembers(fields, FieldAtMost, f);
      Smaller(fields, f);
    }
    var parts := WalkMembers(sorted, num, allowUnsafe, whole);
    if parts.None? {
      return None;
    }
    return Some([OPEN_BRACE] + Join(parts.value) + [CLOSE_BRACE]);
  }

  method WalkMembers<N(!new)>(sorted: seq<Field<N>>, num: Codec<N>, allowUnsafe: bool, ghost whole: Json<N>)
      returns (r: Option<seq<Text>>)
    requires forall f :: f in sorted ==> f.value < whole
    ensures r.Some? <==> forall i :: 0 <= i < |sorted| ==> FieldPrintable(sorted[i], num, allowUnsafe)
    ensures r.Some? ==> r.value == MemberTexts(sorted, num)
    decreases whole, 0
  {
    hide Print, Printable, MemberTexts;
    var parts: seq<Text> := [];
    var index := 0;
    assert sorted[..0] == [];
    NoMembers(num);
    while index < |sorted|
      invariant 0 <= index <= |sorted|
      invariant parts == MemberTexts(sorted[..index], num)
      invariant forall i :: 0 <= i < index ==> FieldPrintable(sorted[i], num, allowUnsafe)
    {
      var f := sorted[index];
      assert f in sorted;
      if !WellPaired(f.key) {
        assert !FieldPrintable(sorted[index], num, allowUnsafe);
        return None;
      }
      var value := Walk(f.value, num, allowUnsafe);
      if value.None? {
        assert !FieldPrintable(sorted[index], num, allowUnsafe);
        return None;
      }
      MemberTextsSnoc(sorted[..index], f, num);
      assert sorted[..index + 1] == sorted[..index] + [f];
      parts := parts + [Quoted(f.key) + [COLON] + value.value];
      index := index + 1;
    }
    assert sorted[..index] == sorted;
    return Some(parts);
  }

  lemma NoMembers<N>(num: Codec<N>)
    ensures MemberTexts<N>([], num) == []
  {
  }

  method CanonicalizeJsonText<N(!new)>(text: Text, num: Codec<N>, allowUnsafe: bool) returns (r: Option<Text>)
    ensures r == CanonicalizeText(text, num, allowUnsafe)
  {
    var value := ParseCanonicalJsonText(text, num);
    if value.None? {
      return None;
    }
    r := Walk(value.value, num, allowUnsafe);
  }

  // ---------- integers meet what is asked of the number conversions ----------

  function DecimalText(n: nat): Text {
    if n < 10 then [48 + n] else DecimalText(n / 10) + [48 + n % 10]
  }

  function DecimalValue(t: Text): int {
    if t == [] then 0 else DecimalValue(t[..|t| - 1]) * 10 + (t[|t| - 1] as int - 48)
  }

  const MAX_SAFE: int := 0x1f_ffff_ffff_ffff

  function IntegerText(n: int): Text {
    if n < 0 then [MINUS] + DecimalText(-n) else DecimalText(n)
  }

  /** Literals with a fraction or an exponent are not integers. */
  function IntegerNumber(t: Text): Option<int> {
    if t != [] && t[0] == MINUS then
      (if |t| > 1 && IntegerLength(t[1..]) == |t| - 1 then Some(-DecimalValue(t[1..])) else None)
    else if t != [] && IntegerLength(t) == |t| then Some(DecimalValue(t))
    else None
  }

  lemma {:induction false} DecimalTextFacts(n: nat)
    ensures |DecimalText(n)| > 0 && DecimalValue(DecimalText(n)) == n
    ensures DigitRun(DecimalText(n)) == |DecimalText(n)|
    ensures DecimalText(n)[0] == 48 ==> n == 0
  {
    if n < 10 {
      assert [48 + n][..0] == [] && [48 + n][1..] == [];
    } else {
      var init := DecimalText(n / 10);
      DecimalTextFacts(n / 10);
      var t := DecimalText(n);
      assert t[..|t| - 1] == init;
      DigitRunSnoc(init, 48 + n % 10);
    }
  }

  lemma {:induction false} DigitRunSnoc(t: Text, c: Unit)
    requires DigitRun(t) == |t| && Digit(c)
    ensures DigitRun(t + [c]) == |t| + 1
  {
    if t == [] {
      assert t + [c] == [c] && [c][1..] == [];
    } else {
      DigitRunSnoc(t[1..], c);
      assert (t + [c])[1..] == t[1..] + [c];
    }
  }

  lemma DecimalIsNumber(n: nat)
    ensures IntegerLength(DecimalText(n)) == |DecimalText(n)| && UnsignedLength(DecimalText(n)) == |DecimalText(n)|
    ensures DecimalText(n)[0] != MINUS
  {
    var t := DecimalText(n);
    DecimalTextFacts(n);
    if n == 0 { assert t == [48]; }
    assert t[|t|..] == [];
  }

  lemma IntegerRoundTrips(n: int)
    ensures IsNumberText(IntegerText(n)) && IntegerNumber(IntegerText(n)) == Some(n)
  {
    var m := if n < 0 then -n else n;
    DecimalTextFacts(m);
    DecimalIsNumber(m);
    hide DecimalText, DecimalValue, IntegerLength, UnsignedLength;
    assert ([MINUS] + DecimalText(m))[1..] == DecimalText(m);
  }

  /** The integers with both zeros, as the language has them: printing drops the sign and "-0" reads as negative zero. */
  datatype Signed = Whole(n: int) | NegativeZero

  const MINUS_ZERO: Text := [MINUS, 48]

  function SignedText(x: Signed): Text {
    match x case Whole(n) => IntegerText(n) case NegativeZero => ZERO
  }

  function SignedNumber(t: Text): Option<Signed> {
    if t == MINUS_ZERO then Some(NegativeZero)
    else match IntegerNumber(t) case Some(n) => Some(Whole(n)) case None => None
  }

  predicate UnsafeInteger(x: Signed) { x.Whole? && (x.n < -MAX_SAFE || x.n > MAX_SAFE) }

  predicate IsNegativeZero(x: Signed) { x.NegativeZero? }

  function SignedCodec(): Codec<Signed> {
    Codec(SignedText, SignedNumber, UnsafeInteger, IsNegativeZero)
  }

  lemma NeverMinusZero(n: int)
    ensures IntegerText(n) != MINUS_ZERO
  {
    DecimalTextFacts(if n < 0 then -n else n);
    DecimalIsNumber(if n < 0 then -n else n);
    if n < 0 { assert IntegerText(n)[1..] == DecimalText(-n); }
  }

  lemma SignedRoundTrips(x: Signed)
    ensures NumberRoundTrips(x, SignedCodec())
  {
    if x.Whole? {
      IntegerRoundTrips(x.n);
      NeverMinusZero(x.n);
    }
    hide IntegerText, IntegerNumber, IsNumberText;
  }

  lemma ZeroReads()
    ensures SignedNumber(ZERO) == Some(Whole(0)) && SignedText(Whole(0)) == ZERO
  {
    assert ZERO == IntegerText(0);
    IntegerRoundTrips(0);
    hide IntegerNumber, IsNumberText;
  }

  /** The integers with both zeros satisfy every assumption of the round trip results. */
  lemma SignedIntegersAreACodec()
    ensures ValidCodec(SignedCodec())
  {
    ZeroReads();
    forall x ensures NumberRoundTrips(x, SignedCodec()) { SignedRoundTrips(x); }
    hide SignedNumber, SignedText, NumberRoundTrips;
  }

  // ---------- the inputs the round trip loses ----------

  /** [-0] comes back as [0]. */
  lemma NegativeZeroLosesItsSign()
    ensures var v := Arr([Num(NegativeZero)]);
            && Printable(v, SignedCodec(), false) && ParseText(Print(v, SignedCodec()), SignedCodec()) == Some(Arr([Num(Whole(0))]))
            && !Faithful(v, SignedCodec())
  {
    var num := SignedCodec();
    var v := Arr([Num(NegativeZero)]);
    SignedIntegersAreACodec();
    ZeroReads();
    ParsePrint(v, num, false);
    assert ReadNumber(NegativeZero, num) == Whole(0);
    assert Read(v, num) == Arr([Num(Whole(0))]);
    assert v.items[0] == Num(NegativeZero);
    assert !Faithful(v.items[0], num);
  }

  lemma {:induction false} PlainIsPaired(s: Text)
    requires forall i :: 0 <= i < |s| ==> s[i] < 0xd800
    ensures WellPaired(s)
  {
    if s != [] { PlainIsPaired(s[1..]); }
  }

  lemma ReadsEmpty<N(!new)>(f: Field<N>, num: Codec<N>)
    requires f.key == PROTO
    ensures Read(Obj([f]), num) == Obj([]) && !Faithful(Obj([f]), num)
  {
    var g := Field(f.key, Read(f.value, num));
    assert ReadFields([f], num) == [g];
    assert [g][1..] == [] && Sort([g], FieldAtMost) == [g];
    assert DropProto([g]) == [];
    assert [f][0] == f;
  }

  lemma PrintsAlone<N(!new)>(f: Field<N>, num: Codec<N>)
    requires WellPaired(f.key) && f.value == Null
    ensures Printable(Obj([f]), num, false) && Proper(Obj([f]))
  {
  }

  /** An object whose one property is `__proto__` comes back empty. */
  lemma ProtoIsLost()
    ensures var v := Obj([Field(PROTO, Null)]);
            && Printable(v, SignedCodec(), false) && ParseText(Print(v, SignedCodec()), SignedCodec()) == Some(Obj([]))
            && !Faithful(v, SignedCodec())
  {
    var num := SignedCodec();
    var f: Field<Signed> := Field(PROTO, Null);
    SignedIntegersAreACodec();
    PlainIsPaired(PROTO);
    hide WellPaired, ParseText, Print, ValidCodec, Printable, Faithful, Read, Proper;
    PrintsAlone(f, num);
    ParsePrint(Obj([f]), num, false);
    ReadsEmpty(f, num);
  }
}
