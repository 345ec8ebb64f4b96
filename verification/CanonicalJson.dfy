/** Canonical JSON (section 3.2 of RFC 8785): the recursive printer, the cursor
    parser, and what they do to each other. An object is the list of its own
    properties; numbers are any type with the conversions of the language. */
module CanonicalJson {
  import opened Text16
  import opened Sorting
  import opened JsonLexis

  datatype Json<+N> =
    | Null
    | Bool(b: bool)
    | Num(n: N)
    | Str(s: Text)
    | Arr(items: seq<Json<N>>)
    | Obj(fields: seq<Field<N>>)

  datatype Field<+N> = Field(key: Text, value: Json<N>)

  /** Number conversions: `plain` is JSON.stringify, `number` is Number() with
      non-finite results absent. */
  datatype Codec<!N> = Codec(
    plain: N -> Text,
    number: Text -> Option<N>,
    unsafe: N -> bool,
    negativeZero: N -> bool)

  const COMMA: Unit := 0x2c
  const COLON: Unit := 0x3a
  const OPEN_BRACKET: Unit := 0x5b
  const CLOSE_BRACKET: Unit := 0x5d
  const OPEN_BRACE: Unit := 0x7b
  const CLOSE_BRACE: Unit := 0x7d
  const NULL: Text := [110, 117, 108, 108]
  const TRUE: Text := [116, 114, 117, 101]
  const FALSE: Text := [102, 97, 108, 115, 101]
  const ZERO: Text := [48]

  /** "__proto__": assigning it to a plain object stores no property. */
  const PROTO: Text := [95, 95, 112, 114, 111, 116, 111, 95, 95]

  // ---------- the printer ----------

  function NumberText<N>(n: N, num: Codec<N>): Text {
    if num.negativeZero(n) then ZERO else num.plain(n)
  }

  datatype Piece = Piece(key: Text, text: Text)

  predicate PieceAtMost(a: Piece, b: Piece) { AtMost(a.key, b.key) }

  function Join(parts: seq<Text>): Text {
    if parts == [] then []
    else if |parts| == 1 then parts[0]
    else parts[0] + [COMMA] + Join(parts[1..])
  }

  function Texts(pieces: seq<Piece>): seq<Text> {
    seq(|pieces|, i requires 0 <= i < |pieces| => pieces[i].text)
  }

  /** The canonical text of a value; `walk` returns it when the value is printable. */
  function Print<N>(v: Json<N>, num: Codec<N>): Text
    decreases v
  {
    match v
    case Null => NULL
    case Bool(b) => if b then TRUE else FALSE
    case Num(n) => NumberText(n, num)
    case Str(s) => Quoted(s)
    case Arr(items) => [OPEN_BRACKET] + Join(PrintItems(items, num)) + [CLOSE_BRACKET]
    case Obj(fields) => [OPEN_BRACE] + Join(Texts(Sort(Pieces(fields, num), PieceAtMost))) + [CLOSE_BRACE]
  }

  function PrintItems<N>(items: seq<Json<N>>, num: Codec<N>): (r: seq<Text>)
    ensures |r| == |items|
    ensures forall i :: 0 <= i < |items| ==> r[i] == Print(items[i], num)
    decreases items
  {
    if items == [] then [] else [Print(items[0], num)] + PrintItems(items[1..], num)
  }

  function Pieces<N>(fields: seq<Field<N>>, num: Codec<N>): (r: seq<Piece>)
    ensures |r| == |fields|
    ensures forall i :: 0 <= i < |fields| ==>
              r[i] == Piece(fields[i].key, Quoted(fields[i].key) + [COLON] + Print(fields[i].value, num))
    decreases fields
  {
    if fields == [] then []
    else
      var f := fields[0];
      [Piece(f.key, Quoted(f.key) + [COLON] + Print(f.value, num))] + Pieces(fields[1..], num)
  }

  /** What `walk` refuses: unpaired surrogates and, under the contract options, unsafe integers. */
  predicate Printable<N>(v: Json<N>, num: Codec<N>, allowUnsafe: bool)
    decreases v
  {
    match v
    case Null => true
    case Bool(_) => true
    case Num(n) => allowUnsafe || !num.unsafe(n)
    case Str(s) => WellPaired(s)
    case Arr(items) => forall i :: 0 <= i < |items| ==> Printable(items[i], num, allowUnsafe)
    case Obj(fields) =>
      forall i :: 0 <= i < |fields| ==> WellPaired(fields[i].key) && Printable(fields[i].value, num, allowUnsafe)
  }

  ghost predicate DistinctKeys<N>(fields: seq<Field<N>>) {
    forall i, j :: 0 <= i < j < |fields| ==> fields[i].key != fields[j].key
  }

  /** An object has one property per key. */
  ghost predicate Proper<N>(v: Json<N>)
    decreases v
  {
    match v
    case Arr(items) => forall i :: 0 <= i < |items| ==> Proper(items[i])
    case Obj(fields) => DistinctKeys(fields) && forall i :: 0 <= i < |fields| ==> Proper(fields[i].value)
    case _ => true
  }

  // ---------- the parser, on the text that is left ----------

  datatype Parsed<+N> = Fail | Parsed(value: Json<N>, rest: Text)

  datatype ParsedText = FailText | ParsedText(value: Text, rest: Text)

  predicate IsSpace(c: Unit) { c == 0x20 || c == 0x0a || c == 0x0d || c == 0x09 }

  function SkipSpace(t: Text): (r: Text)
    ensures |r| <= |t|
  {
    if t != [] && IsSpace(t[0]) then SkipSpace(t[1..]) else t
  }

  function ParseString(t: Text): (r: ParsedText)
    ensures r.ParsedText? ==> |r.rest| < |t|
  {
    if t == [] || t[0] != QUOTE then FailText
    else match Scan(t[1..])
         case Unterminated => FailText
         case Found(content, rest) =>
           match Unescape(content)
           case None => FailText
           case Some(value) => if WellPaired(value) then ParsedText(value, rest) else FailText
  }

  /** Assigning a property of a plain object. */
  function Store<N>(fields: seq<Field<N>>, key: Text, value: Json<N>): seq<Field<N>> {
    if key == PROTO then fields else fields + [Field(key, value)]
  }

  function ParseNumber<N>(t: Text, num: Codec<N>): (r: Parsed<N>)
    ensures r.Parsed? ==> |r.rest| < |t|
  {
    var n := NumberLength(t);
    if n == 0 then Fail
    else match num.number(t[..n])
         case None => Fail
         case Some(value) => Parsed(Num(value), t[n..])
  }

  function ParseValue<N>(t: Text, num: Codec<N>): (r: Parsed<N>)
    ensures r.Parsed? ==> |r.rest| < |t|
    decreases |t|, 0
  {
    var u := SkipSpace(t);
    if u == [] then Fail
    else if u[0] == OPEN_BRACE then
      var w := SkipSpace(u[1..]);
      if w != [] && w[0] == CLOSE_BRACE then Parsed(Obj([]), w[1..])
      else ParseMembers(w, [], {}, num)
    else if u[0] == OPEN_BRACKET then
      var w := SkipSpace(u[1..]);
      if w != [] && w[0] == CLOSE_BRACKET then Parsed(Arr([]), w[1..])
      else ParseItems(w, [], num)
    else if u[0] == QUOTE then
      match ParseString(u)
      case FailText => Fail
      case ParsedText(s, rest) => Parsed(Str(s), rest)
    else if TRUE <= u then Parsed(Bool(true), u[4..])
    else if FALSE <= u then Parsed(Bool(false), u[5..])
    else if NULL <= u then Parsed(Null, u[4..])
    else ParseNumber(u, num)
  }

  /** One turn of the member loop, and the turns after it. */
  function ParseMembers<N>(t: Text, fields: seq<Field<N>>, keys: set<Text>, num: Codec<N>): (r: Parsed<N>)
    ensures r.Parsed? ==> |r.rest| < |t|
    decreases |t|, 1
  {
    match ParseString(SkipSpace(t))
    case FailText => Fail
    case ParsedText(key, afterKey) =>
      if key in keys then Fail
      else
        var u := SkipSpace(afterKey);
        if u == [] || u[0] != COLON then Fail
        else match ParseValue(u[1..], num)
             case Fail => Fail
             case Parsed(value, afterValue) =>
               var w := SkipSpace(afterValue);
               var stored := Store(fields, key, value);
               if w == [] then Fail
               else if w[0] == COMMA then ParseMembers(w[1..], stored, keys + {key}, num)
               else if w[0] == CLOSE_BRACE then Parsed(Obj(stored), w[1..])
               else Fail
  }

  function ParseItems<N>(t: Text, items: seq<Json<N>>, num: Codec<N>): (r: Parsed<N>)
    ensures r.Parsed? ==> |r.rest| < |t|
    decreases |t|, 1
  {
    match ParseValue(t, num)
    case Fail => Fail
    case Parsed(value, afterValue) =>
      var w := SkipSpace(afterValue);
      if w == [] then Fail
      else if w[0] == COMMA then ParseItems(w[1..], items + [value], num)
      else if w[0] == CLOSE_BRACKET then Parsed(Arr(items + [value]), w[1..])
      else Fail
  }

  function ParseText<N>(t: Text, num: Codec<N>): Option<Json<N>> {
    if t == [] || t[0] == 0xfeff then None
    else match ParseValue(t, num)
         case Fail => None
         case Parsed(value, rest) => if SkipSpace(rest) == [] then Some(value) else None
  }

  /** `canonicalizeJsonText` */
  function CanonicalizeText<N>(t: Text, num: Codec<N>, allowUnsafe: bool): Option<Text> {
    match ParseText(t, num)
    case None => None
    case Some(v) => if Printable(v, num, allowUnsafe) then Some(Print(v, num)) else None
  }

  // ---------- what the parser makes of a printed value ----------

  predicate FieldAtMost<N>(a: Field<N>, b: Field<N>) { AtMost(a.key, b.key) }

  function DropProto<N>(fields: seq<Field<N>>): seq<Field<N>> {
    if fields == [] then []
    else if fields[0].key == PROTO then DropProto(fields[1..])
    else [fields[0]] + DropProto(fields[1..])
  }

  /** The value with every object in key order. */
  function Normalize<N(!new)>(v: Json<N>): Json<N>
    decreases v
  {
    match v
    case Arr(items) => Arr(NormalizeItems(items))
    case Obj(fields) => Obj(Sort(NormalizeFields(fields), FieldAtMost))
    case _ => v
  }

  function NormalizeItems<N(!new)>(items: seq<Json<N>>): (r: seq<Json<N>>)
    ensures |r| == |items| && forall i :: 0 <= i < |items| ==> r[i] == Normalize(items[i])
    decreases items
  {
    if items == [] then [] else [Normalize(items[0])] + NormalizeItems(items[1..])
  }

  function NormalizeFields<N(!new)>(fields: seq<Field<N>>): (r: seq<Field<N>>)
    ensures |r| == |fields|
    ensures forall i :: 0 <= i < |fields| ==> r[i] == Field(fields[i].key, Normalize(fields[i].value))
    decreases fields
  {
    if fields == [] then []
    else [Field(fields[0].key, Normalize(fields[0].value))] + NormalizeFields(fields[1..])
  }

  function ReadNumber<N>(n: N, num: Codec<N>): N {
    match num.number(NumberText(n, num)) case Some(m) => m case None => n
  }

  /** The value read back: key order, no `__proto__`, no negative zero. */
  function Read<N(!new)>(v: Json<N>, num: Codec<N>): Json<N>
    decreases v
  {
    match v
    case Num(n) => Num(ReadNumber(n, num))
    case Arr(items) => Arr(ReadItems(items, num))
    case Obj(fields) => Obj(DropProto(Sort(ReadFields(fields, num), FieldAtMost)))
    case _ => v
  }

  function ReadItems<N(!new)>(items: seq<Json<N>>, num: Codec<N>): (r: seq<Json<N>>)
    ensures |r| == |items| && forall i :: 0 <= i < |items| ==> r[i] == Read(items[i], num)
    decreases items
  {
    if items == [] then [] else [Read(items[0], num)] + ReadItems(items[1..], num)
  }

  function ReadFields<N(!new)>(fields: seq<Field<N>>, num: Codec<N>): (r: seq<Field<N>>)
    ensures |r| == |fields|
    ensures forall i :: 0 <= i < |fields| ==> r[i] == Field(fields[i].key, Read(fields[i].value, num))
    decreases fields
  {
    if fields == [] then []
    else [Field(fields[0].key, Read(fields[0].value, num))] + ReadFields(fields[1..], num)
  }

  // ---------- the number conversions the language promises ----------

  /** Printing then reading a number other than negative zero gives it back, its
      text is one number literal, and "0" reads as zero. */
  ghost predicate NumberRoundTrips<N>(n: N, num: Codec<N>) {
    !num.negativeZero(n) ==> IsNumberText(num.plain(n)) && num.number(num.plain(n)) == Some(n)
  }

  ghost predicate ValidCodec<N(!new)>(num: Codec<N>) {
    && (forall n :: NumberRoundTrips(n, num))
    && num.number(ZERO).Some? && !num.negativeZero(num.number(ZERO).value)
    && num.plain(num.number(ZERO).value) == ZERO && !num.unsafe(num.number(ZERO).value)
    && (forall n :: num.negativeZero(n) ==> !num.unsafe(n))
  }

  lemma NumberTextReads<N(!new)>(n: N, num: Codec<N>)
    requires ValidCodec(num)
    ensures IsNumberText(NumberText(n, num)) && num.number(NumberText(n, num)) == Some(ReadNumber(n, num))
    ensures NumberText(ReadNumber(n, num), num) == NumberText(n, num)
    ensures num.unsafe(ReadNumber(n, num)) == num.unsafe(n)
    ensures ReadNumber(n, num) == n <==> !num.negativeZero(n)
  {
    assert NumberRoundTrips(n, num);
    ZeroIsNumber();
  }

  lemma ZeroIsNumber()
    ensures IsNumberText(ZERO)
  {
    assert ZERO[1..] == [];
  }

  // ---------- printing then parsing ----------

  lemma ParseQuoted(s: Text, rest: Text)
    requires WellPaired(s)
    ensures ParseString(Quoted(s) + rest) == ParsedText(s, rest)
  {
    ScanEscape(s, rest);
    UnescapeEscape(s);
    hide Scan, Unescape, Escape, WellPaired;
    var t := Quoted(s) + rest;
    assert t[1..] == Escape(s) + [QUOTE] + rest;
  }

  /** Whatever may follow, parsing the printed value gives `Read` of it and stops there. */
  ghost predicate Readable<N(!new)>(v: Json<N>, num: Codec<N>) {
    forall rest :: Ends(rest) ==> ParseValue(Print(v, num) + rest, num) == Parsed(Read(v, num), rest)
  }

  lemma ReadableLiteral<N(!new)>(v: Json<N>, num: Codec<N>)
    requires v.Null? || v.Bool?
    ensures Readable(v, num)
  {
    hide ParseMembers, ParseItems, ParseString, ParseNumber;
    forall rest | Ends(rest) ensures ParseValue(Print(v, num) + rest, num) == Parsed(Read(v, num), rest) {
      var word := Print(v, num);
      var t := word + rest;
      assert t[..|word|] == word && t[|word|..] == rest && t[0] == word[0];
    }
  }

  lemma ParsesAsNumber<N(!new)>(t: Text, num: Codec<N>)
    requires t != [] && (t[0] == MINUS || Digit(t[0]))
    ensures ParseValue(t, num) == ParseNumber(t, num)
  {
    hide ParseNumber, ParseString;
    assert SkipSpace(t) == t;
    NotAWord(t);
  }

  lemma ReadableNumber<N(!new)>(n: N, num: Codec<N>)
    requires ValidCodec(num)
    ensures Readable(Num(n), num)
  {
    var word := NumberText(n, num);
    NumberTextReads(n, num);
    NumberStarts(word);
    hide ParseValue, NumberLength, ReadNumber, ValidCodec, NumberText;
    forall rest | Ends(rest) ensures ParseValue(Print(Num(n), num) + rest, num) == Parsed(Read(Num(n), num), rest) {
      var t := word + rest;
      NumberEnds(word, rest);
      assert t[0] == word[0] && t[..|word|] == word && t[|word|..] == rest;
      ParsesAsNumber(t, num);
    }
  }

  lemma NotAWord(t: Text)
    requires t != [] && (t[0] == MINUS || Digit(t[0]))
    ensures !(TRUE <= t) && !(FALSE <= t) && !(NULL <= t)
  {
  }

  lemma ReadableString<N(!new)>(s: Text, num: Codec<N>)
    requires WellPaired(s)
    ensures Readable(Str(s), num)
  {
    forall rest | Ends(rest) ensures ParseValue(Print(Str(s), num) + rest, num) == Parsed(Read(Str(s), num), rest) {
      ParseQuoted(s, rest);
    }
  }

  lemma LastItem<N(!new)>(v: Json<N>, acc: seq<Json<N>>, num: Codec<N>, rest: Text)
    requires Readable(v, num)
    ensures ParseItems(Print(v, num) + ([CLOSE_BRACKET] + rest), acc, num) == Parsed(Arr(acc + [Read(v, num)]), rest)
  {
    hide ParseValue, Print, Read;
    assert Ends([CLOSE_BRACKET] + rest) && ([CLOSE_BRACKET] + rest)[1..] == rest;
  }

  lemma NextItem<N(!new)>(v: Json<N>, acc: seq<Json<N>>, num: Codec<N>, more: Text)
    requires Readable(v, num)
    ensures ParseItems(Print(v, num) + ([COMMA] + more), acc, num) == ParseItems(more, acc + [Read(v, num)], num)
  {
    hide ParseValue, Print, Read;
    assert Ends([COMMA] + more) && ([COMMA] + more)[1..] == more;
  }

  lemma JoinCons(head: Text, tail: seq<Text>)
    ensures Join([head] + tail) == if tail == [] then head else head + [COMMA] + Join(tail)
  {
    assert ([head] + tail)[1..] == tail;
  }

  lemma {:induction false} ItemsReadable<N(!new)>(items: seq<Json<N>>, acc: seq<Json<N>>, num: Codec<N>, rest: Text)
    requires items != [] && forall i :: 0 <= i < |items| ==> Readable(items[i], num)
    ensures ParseItems(Join(PrintItems(items, num)) + [CLOSE_BRACKET] + rest, acc, num) ==
            Parsed(Arr(acc + ReadItems(items, num)), rest)
  {
    hide ParseItems, ParseValue, Readable, Join, Print, Read;
    var head, tail := Print(items[0], num), items[1..];
    var texts := PrintItems(tail, num);
    JoinCons(head, texts);
    if tail == [] {
      LastItem(items[0], acc, num, rest);
      Regroup3(head, [CLOSE_BRACKET], rest);
      assert ReadItems(items, num) == [Read(items[0], num)];
    } else {
      var more := Join(texts) + [CLOSE_BRACKET] + rest;
      Regroup5(head, [COMMA], Join(texts), [CLOSE_BRACKET], rest);
      NextItem(items[0], acc, num, more);
      ItemsReadable(tail, acc + [Read(items[0], num)], num, rest);
      Regroup3(acc, [Read(items[0], num)], ReadItems(tail, num));
    }
  }

  lemma PrintStarts<N(!new)>(v: Json<N>, num: Codec<N>)
    requires ValidCodec(num)
    ensures Print(v, num) != [] && !IsSpace(Print(v, num)[0]) && Print(v, num)[0] != 0xfeff
    ensures Print(v, num)[0] != CLOSE_BRACKET
  {
    if v.Num? {
      NumberTextReads(v.n, num);
      NumberStarts(NumberText(v.n, num));
    }
  }

  lemma OpensArray<N(!new)>(inner: Text, num: Codec<N>)
    requires inner != [] && !IsSpace(inner[0])
    ensures ParseValue([OPEN_BRACKET] + inner, num) ==
            if inner[0] == CLOSE_BRACKET then Parsed(Arr([]), inner[1..]) else ParseItems(inner, [], num)
  {
    assert ([OPEN_BRACKET] + inner)[1..] == inner;
  }

  lemma JoinStarts(texts: seq<Text>)
    requires texts != [] && texts[0] != []
    ensures Join(texts) != [] && Join(texts)[0] == texts[0][0]
  {
  }

  lemma ReadableArray<N(!new)>(items: seq<Json<N>>, num: Codec<N>)
    requires ValidCodec(num) && forall i :: 0 <= i < |items| ==> Readable(items[i], num)
    ensures Readable(Arr(items), num)
  {
    var v := Arr(items);
    var texts := PrintItems(items, num);
    if items != [] {
      PrintStarts(items[0], num);
      JoinStarts(texts);
    }
    hide ParseValue, ParseItems, Join, ValidCodec;
    forall rest | Ends(rest) ensures ParseValue(Print(v, num) + rest, num) == Parsed(Read(v, num), rest) {
      var inner := Join(texts) + [CLOSE_BRACKET] + rest;
      assert Print(v, num) + rest == [OPEN_BRACKET] + inner;
      if items == [] {
        NoneJoined();
        assert inner[0] == CLOSE_BRACKET && inner[1..] == rest;
        OpensArray(inner, num);
      } else {
        OpensArray(inner, num);
        ItemsReadable(items, [], num, rest);
        assert [] + ReadItems(items, num) == ReadItems(items, num);
      }
    }
  }

  lemma NoneJoined()
    ensures Join([]) == []
  {
  }

  function MemberText<N>(f: Field<N>, num: Codec<N>): Text {
    Quoted(f.key) + [COLON] + Print(f.value, num)
  }

  lemma MemberReads<N(!new)>(f: Field<N>, num: Codec<N>, after: Text)
    requires WellPaired(f.key) && Readable(f.value, num) && Ends(after)
    ensures var t := MemberText(f, num) + after;
            SkipSpace(t) == t && ParseString(t).ParsedText? && ParseString(t).value == f.key &&
            var u := SkipSpace(ParseString(t).rest);
            u != [] && u[0] == COLON && ParseValue(u[1..], num) == Parsed(Read(f.value, num), after)
  {
    hide ParseValue, Print, Read, WellPaired, ParseString;
    var value := Print(f.value, num) + after;
    var t := MemberText(f, num) + after;
    assert t == Quoted(f.key) + ([COLON] + value);
    ParseQuoted(f.key, [COLON] + value);
    assert t[0] == QUOTE;
    hide Escape;
    var u := [COLON] + value;
    assert u[1..] == value;
    assert SkipSpace(t) == t && SkipSpace(u) == u;
  }

  lemma LastMember<N(!new)>(f: Field<N>, acc: seq<Field<N>>, keys: set<Text>, num: Codec<N>, rest: Text)
    requires WellPaired(f.key) && Readable(f.value, num) && f.key !in keys
    ensures ParseMembers(MemberText(f, num) + ([CLOSE_BRACE] + rest), acc, keys, num) ==
            Parsed(Obj(Store(acc, f.key, Read(f.value, num))), rest)
  {
    hide ParseValue, Read, WellPaired, ParseString, MemberText, Readable;
    var after := [CLOSE_BRACE] + rest;
    MemberReads(f, num, after);
    assert after[1..] == rest;
  }

  lemma NextMember<N(!new)>(f: Field<N>, acc: seq<Field<N>>, keys: set<Text>, num: Codec<N>, more: Text)
    requires WellPaired(f.key) && Readable(f.value, num) && f.key !in keys
    ensures ParseMembers(MemberText(f, num) + ([COMMA] + more), acc, keys, num) ==
            ParseMembers(more, Store(acc, f.key, Read(f.value, num)), keys + {f.key}, num)
  {
    hide ParseValue, Read, WellPaired, ParseString, MemberText, Readable;
    var after := [COMMA] + more;
    MemberReads(f, num, after);
    assert after[1..] == more;
  }

  lemma DropProtoCons<N>(f: Field<N>, acc: seq<Field<N>>, tail: seq<Field<N>>)
    ensures Store(acc, f.key, f.value) + DropProto(tail) == acc + DropProto([f] + tail)
  {
    assert ([f] + tail)[1..] == tail;
  }

  function MemberTexts<N>(fields: seq<Field<N>>, num: Codec<N>): seq<Text> {
    if fields == [] then [] else [MemberText(fields[0], num)] + MemberTexts(fields[1..], num)
  }

  ghost predicate FieldReadable<N(!new)>(f: Field<N>, num: Codec<N>) {
    WellPaired(f.key) && Readable(f.value, num)
  }

  lemma {:induction false} MembersReadable<N(!new)>(fields: seq<Field<N>>, acc: seq<Field<N>>, keys: set<Text>, num: Codec<N>, rest: Text)
    requires fields != [] && DistinctKeys(fields)
    requires forall i :: 0 <= i < |fields| ==> fields[i].key !in keys && FieldReadable(fields[i], num)
    ensures ParseMembers(Join(MemberTexts(fields, num)) + [CLOSE_BRACE] + rest, acc, keys, num) ==
            Parsed(Obj(acc + DropProto(ReadFields(fields, num))), rest)
  {
    hide ParseMembers, ParseValue, Join, Readable, MemberText, Read, Store, DropProto;
    var f, tail := fields[0], fields[1..];
    var head, texts := MemberText(f, num), MemberTexts(tail, num);
    var read := Field(f.key, Read(f.value, num));
    JoinCons(head, texts);
    if tail == [] {
      LastMember(f, acc, keys, num, rest);
      assert head + [CLOSE_BRACE] + rest == head + ([CLOSE_BRACE] + rest);
      DropProtoCons(read, acc, []);
      NoneDropped<N>();
      assert ReadFields(fields, num) == [read] + [];
      assert Store(acc, f.key, read.value) + [] == Store(acc, f.key, read.value);
    } else {
      var more := Join(texts) + [CLOSE_BRACE] + rest;
      assert head + [COMMA] + Join(texts) + [CLOSE_BRACE] + rest == head + ([COMMA] + more);
      NextMember(f, acc, keys, num, more);
      MembersReadable(tail, Store(acc, f.key, read.value), keys + {f.key}, num, rest);
      DropProtoCons(read, acc, ReadFields(tail, num));
    }
  }

  lemma NoneDropped<N>()
    ensures DropProto<N>([]) == []
  {
  }

  // ---------- sorting commutes with printing and reading ----------

  lemma {:induction false} PiecesInsert<N(!new)>(f: Field<N>, fields: seq<Field<N>>, num: Codec<N>)
    ensures Insert(Piece(f.key, MemberText(f, num)), Pieces(fields, num), PieceAtMost) ==
            Pieces(Insert(f, fields, FieldAtMost), num)
  {
    if fields != [] {
      hide Print;
      var pieces := Pieces(fields, num);
      assert pieces[1..] == Pieces(fields[1..], num);
      if FieldAtMost(f, fields[0]) {
        assert ([f] + fields)[1..] == fields;
      } else {
        PiecesInsert(f, fields[1..], num);
        assert ([fields[0]] + Insert(f, fields[1..], FieldAtMost))[1..] == Insert(f, fields[1..], FieldAtMost);
      }
    } else {
      assert [f][1..] == [];
    }
  }

  lemma {:induction false} PiecesSort<N(!new)>(fields: seq<Field<N>>, num: Codec<N>)
    ensures Sort(Pieces(fields, num), PieceAtMost) == Pieces(Sort(fields, FieldAtMost), num)
  {
    if fields != [] {
      hide Print, Insert;
      PiecesSort(fields[1..], num);
      PiecesInsert(fields[0], Sort(fields[1..], FieldAtMost), num);
      assert Pieces(fields, num)[1..] == Pieces(fields[1..], num);
    }
  }

  lemma {:induction false} ReadInsert<N(!new)>(f: Field<N>, fields: seq<Field<N>>, num: Codec<N>)
    ensures Insert(Field(f.key, Read(f.value, num)), ReadFields(fields, num), FieldAtMost) ==
            ReadFields(Insert(f, fields, FieldAtMost), num)
  {
    if fields != [] {
      hide Read;
      var read := ReadFields(fields, num);
      assert read[1..] == ReadFields(fields[1..], num);
      if FieldAtMost(f, fields[0]) {
        assert ([f] + fields)[1..] == fields;
      } else {
        ReadInsert(f, fields[1..], num);
        assert ([fields[0]] + Insert(f, fields[1..], FieldAtMost))[1..] == Insert(f, fields[1..], FieldAtMost);
      }
    } else {
      assert [f][1..] == [];
    }
  }

  lemma {:induction false} ReadSort<N(!new)>(fields: seq<Field<N>>, num: Codec<N>)
    ensures Sort(ReadFields(fields, num), FieldAtMost) == ReadFields(Sort(fields, FieldAtMost), num)
  {
    if fields != [] {
      hide Read, Insert;
      ReadSort(fields[1..], num);
      ReadInsert(fields[0], Sort(fields[1..], FieldAtMost), num);
      assert ReadFields(fields, num)[1..] == ReadFields(fields[1..], num);
    }
  }

  lemma {:induction false} TextsArePieces<N(!new)>(fields: seq<Field<N>>, num: Codec<N>)
    ensures Texts(Pieces(fields, num)) == MemberTexts(fields, num)
  {
    if fields != [] {
      hide Print;
      TextsArePieces(fields[1..], num);
      assert Pieces(fields, num)[1..] == Pieces(fields[1..], num);
      assert Texts(Pieces(fields, num))[1..] == Texts(Pieces(fields[1..], num));
    }
  }

  lemma FieldOrder<N(!new)>()
    ensures TotalPreorder(FieldAtMost<N>)
  {
    AtMostIsOrder();
  }

  /** Sorting keeps the properties of an object, each once. */
  lemma SortedFields<N(!new)>(fields: seq<Field<N>>)
    requires DistinctKeys(fields)
    ensures var sorted := Sort(fields, FieldAtMost);
            DistinctKeys(sorted) && |sorted| == |fields| && forall f :: f in sorted <==> f in fields
  {
    var sorted := Sort(fields, FieldAtMost);
    SortSorts(fields, FieldAtMost);
    PermutationDistinct(fields, sorted);
    forall f ensures f in sorted <==> f in fields { SortMembers(fields, FieldAtMost, f); }
    forall i, j | 0 <= i < j < |sorted| ensures sorted[i].key != sorted[j].key {
      assert sorted[i] in fields && sorted[j] in fields && sorted[i] != sorted[j];
    }
  }

  lemma OpensObject<N(!new)>(inner: Text, num: Codec<N>)
    requires inner != [] && !IsSpace(inner[0])
    ensures ParseValue([OPEN_BRACE] + inner, num) ==
            if inner[0] == CLOSE_BRACE then Parsed(Obj([]), inner[1..]) else ParseMembers(inner, [], {}, num)
  {
    assert ([OPEN_BRACE] + inner)[1..] == inner;
  }

  lemma ObjectForms<N(!new)>(fields: seq<Field<N>>, num: Codec<N>)
    ensures var sorted := Sort(fields, FieldAtMost);
            && Print(Obj(fields), num) == [OPEN_BRACE] + Join(MemberTexts(sorted, num)) + [CLOSE_BRACE]
            && Read(Obj(fields), num) == Obj(DropProto(ReadFields(sorted, num)))
  {
    PiecesSort(fields, num);
    TextsArePieces(Sort(fields, FieldAtMost), num);
    ReadSort(fields, num);
    hide Sort, Join, DropProto;
  }

  lemma ReadableObject<N(!new)>(fields: seq<Field<N>>, num: Codec<N>)
    requires DistinctKeys(fields) && forall i :: 0 <= i < |fields| ==> FieldReadable(fields[i], num)
    ensures Readable(Obj(fields), num)
  {
    hide ParseValue, Join, FieldReadable, MemberTexts, Sort, DropProto, Print, Read, DistinctKeys;
    var v, sorted := Obj(fields), Sort(fields, FieldAtMost);
    SortedFields(fields);
    ObjectForms(fields, num);
    forall i | 0 <= i < |sorted| ensures FieldReadable(sorted[i], num) {
      assert sorted[i] in fields;
    }
    var texts := MemberTexts(sorted, num);
    forall rest | Ends(rest) ensures ParseValue(Print(v, num) + rest, num) == Parsed(Read(v, num), rest) {
      assert Print(v, num) + rest == [OPEN_BRACE] + (Join(texts) + [CLOSE_BRACE] + rest);
      ObjectRest(fields, sorted, texts, num, rest);
    }
  }

  lemma ObjectRest<N(!new)>(fields: seq<Field<N>>, sorted: seq<Field<N>>, texts: seq<Text>, num: Codec<N>, rest: Text)
    requires sorted == Sort(fields, FieldAtMost) && |sorted| == |fields| && texts == MemberTexts(sorted, num)
    requires DistinctKeys(sorted) && forall i :: 0 <= i < |sorted| ==> FieldReadable(sorted[i], num)
    ensures ParseValue([OPEN_BRACE] + (Join(texts) + [CLOSE_BRACE] + rest), num) ==
            Parsed(Obj(DropProto(ReadFields(sorted, num))), rest)
  {
    hide ParseValue, ParseMembers, Sort, DropProto;
    var inner := Join(texts) + [CLOSE_BRACE] + rest;
    if sorted == [] {
      assert inner[0] == CLOSE_BRACE && inner[1..] == rest;
      OpensObject(inner, num);
      NoneDropped<N>();
    } else {
      JoinStarts(texts);
      assert inner[0] == QUOTE;
      OpensObject(inner, num);
      MembersReadable(sorted, [], {}, num, rest);
      assert [] + DropProto(ReadFields(sorted, num)) == DropProto(ReadFields(sorted, num));
    }
  }

  // ---------- round trip ----------

  /** Every printed value parses back, with the rest of the text untouched. */
  lemma {:induction false} PrintedIsReadable<N(!new)>(v: Json<N>, num: Codec<N>)
    requires ValidCodec(num) && Proper(v) && Printable(v, num, true)
    ensures Readable(v, num)
    decreases v
  {
    match v
    case Null => ReadableLiteral(v, num);
    case Bool(_) => ReadableLiteral(v, num);
    case Num(n) => ReadableNumber(n, num);
    case Str(s) => ReadableString(s, num);
    case Arr(items) =>
      forall i | 0 <= i < |items| ensures Readable(items[i], num) { PrintedIsReadable(items[i], num); }
      ReadableArray(items, num);
    case Obj(fields) =>
      forall i | 0 <= i < |fields| ensures FieldReadable(fields[i], num) { PrintedIsReadable(fields[i].value, num); }
      ReadableObject(fields, num);
  }

  lemma {:induction false} PrintableRelax<N(!new)>(v: Json<N>, num: Codec<N>, allowUnsafe: bool)
    requires Printable(v, num, allowUnsafe)
    ensures Printable(v, num, true)
    decreases v
  {
    match v
    case Arr(items) =>
      forall i | 0 <= i < |items| ensures Printable(items[i], num, true) { PrintableRelax(items[i], num, allowUnsafe); }
    case Obj(fields) =>
      forall i | 0 <= i < |fields| ensures Printable(fields[i].value, num, true) {
        PrintableRelax(fields[i].value, num, allowUnsafe);
      }
    case _ =>
  }

  /** What the parser makes of canonical text, for every value the printer accepts. */
  lemma ParsePrint<N(!new)>(v: Json<N>, num: Codec<N>, allowUnsafe: bool)
    requires ValidCodec(num) && Proper(v) && Printable(v, num, allowUnsafe)
    ensures ParseText(Print(v, num), num) == Some(Read(v, num))
  {
    PrintableRelax(v, num, allowUnsafe);
    PrintedIsReadable(v, num);
    PrintStarts(v, num);
    assert Ends([]) && Print(v, num) + [] == Print(v, num);
    hide ParseValue, Print, Read;
  }

  /** No `__proto__` property and no negative zero anywhere. */
  ghost predicate Faithful<N(!new)>(v: Json<N>, num: Codec<N>)
    decreases v
  {
    match v
    case Num(n) => !num.negativeZero(n)
    case Arr(items) => forall i :: 0 <= i < |items| ==> Faithful(items[i], num)
    case Obj(fields) => forall i :: 0 <= i < |fields| ==> fields[i].key != PROTO && Faithful(fields[i].value, num)
    case _ => true
  }

  lemma {:induction false} DropProtoNone<N>(fields: seq<Field<N>>)
    ensures DropProto(fields) == fields <==> forall i :: 0 <= i < |fields| ==> fields[i].key != PROTO
    ensures |DropProto(fields)| <= |fields|
  {
    if fields != [] {
      DropProtoNone(fields[1..]);
      assert fields == [fields[0]] + fields[1..];
    }
  }

  lemma {:induction false} FaithfulReads<N(!new)>(v: Json<N>, num: Codec<N>)
    requires ValidCodec(num) && Faithful(v, num)
    ensures Read(v, num) == Normalize(v)
    decreases v
  {
    match v
    case Num(n) => NumberTextReads(n, num);
    case Arr(items) =>
      forall i | 0 <= i < |items| ensures Read(items[i], num) == Normalize(items[i]) { FaithfulReads(items[i], num); }
      assert ReadItems(items, num) == NormalizeItems(items);
    case Obj(fields) =>
      forall i | 0 <= i < |fields| ensures Read(fields[i].value, num) == Normalize(fields[i].value) {
        FaithfulReads(fields[i].value, num);
      }
      assert ReadFields(fields, num) == NormalizeFields(fields);
      var sorted := Sort(ReadFields(fields, num), FieldAtMost);
      forall i | 0 <= i < |sorted| ensures sorted[i].key != PROTO {
        SortMembers(ReadFields(fields, num), FieldAtMost, sorted[i]);
        assert sorted[i] in ReadFields(fields, num);
      }
      DropProtoNone(sorted);
    case _ =>
  }

  lemma {:induction false} DropProtoLength<N>(fields: seq<Field<N>>)
    requires |DropProto(fields)| == |fields|
    ensures DropProto(fields) == fields
  {
    if fields != [] {
      DropProtoNone(fields[1..]);
      DropProtoLength(fields[1..]);
    }
  }

  lemma SameSorted<N(!new)>(a: seq<Field<N>>, b: seq<Field<N>>, i: nat)
    requires |a| == |b| && i < |a| && forall k :: 0 <= k < |a| ==> a[k].key == b[k].key
    requires DistinctKeys(b) && Sort(a, FieldAtMost) == Sort(b, FieldAtMost)
    ensures a[i] == b[i]
  {
    SortMembers(a, FieldAtMost, a[i]);
    SortMembers(b, FieldAtMost, a[i]);
    var j :| 0 <= j < |b| && b[j] == a[i];
  }

  lemma {:induction false} ReadsFaithful<N(!new)>(v: Json<N>, num: Codec<N>)
    requires ValidCodec(num) && Proper(v) && Read(v, num) == Normalize(v)
    ensures Faithful(v, num)
    decreases v
  {
    match v
    case Num(n) => NumberTextReads(n, num);
    case Arr(items) =>
      forall i | 0 <= i < |items| ensures Faithful(items[i], num) {
        assert ReadItems(items, num)[i] == NormalizeItems(items)[i];
        ReadsFaithful(items[i], num);
      }
    case Obj(fields) =>
      forall i | 0 <= i < |fields| ensures fields[i].key != PROTO && Faithful(fields[i].value, num) {
        FieldReadsSame(fields, num, i);
        ReadsFaithful(fields[i].value, num);
      }
    case _ =>
  }

  lemma FieldReadsSame<N(!new)>(fields: seq<Field<N>>, num: Codec<N>, i: nat)
    requires DistinctKeys(fields) && i < |fields| && Read(Obj(fields), num) == Normalize(Obj(fields))
    ensures fields[i].key != PROTO && Read(fields[i].value, num) == Normalize(fields[i].value)
  {
    var read, normal := ReadFields(fields, num), NormalizeFields(fields);
    var sorted := Sort(read, FieldAtMost);
    SortSorts(read, FieldAtMost);
    SortSorts(normal, FieldAtMost);
    DropProtoLength(sorted);
    DropProtoNone(sorted);
    SameSorted(read, normal, i);
    SortMembers(read, FieldAtMost, read[i]);
  }

  /** The round trip gives the value back, up to key order, exactly for values
      without a `__proto__` property and without negative zero. */
  lemma RoundTripExactly<N(!new)>(v: Json<N>, num: Codec<N>, allowUnsafe: bool)
    requires ValidCodec(num) && Proper(v) && Printable(v, num, allowUnsafe)
    ensures ParseText(Print(v, num), num) == Some(Normalize(v)) <==> Faithful(v, num)
  {
    ParsePrint(v, num, allowUnsafe);
    if Faithful(v, num) { FaithfulReads(v, num); }
    if Read(v, num) == Normalize(v) { ReadsFaithful(v, num); }
  }

  // ---------- printing what was read ----------

  ghost predicate NoProto<N(!new)>(v: Json<N>)
    decreases v
  {
    match v
    case Arr(items) => forall i :: 0 <= i < |items| ==> NoProto(items[i])
    case Obj(fields) => forall i :: 0 <= i < |fields| ==> fields[i].key != PROTO && NoProto(fields[i].value)
    case _ => true
  }

  lemma {:induction false} SameMemberTexts<N(!new)>(a: seq<Field<N>>, b: seq<Field<N>>, num: Codec<N>)
    requires |a| == |b|
    requires forall i :: 0 <= i < |a| ==> a[i].key == b[i].key && Print(a[i].value, num) == Print(b[i].value, num)
    ensures MemberTexts(a, num) == MemberTexts(b, num)
  {
    if a != [] {
      hide Print;
      SameMemberTexts(a[1..], b[1..], num);
    }
  }

  /** Reading back and printing again changes nothing. */
  lemma {:induction false} PrintRead<N(!new)>(v: Json<N>, num: Codec<N>)
    requires ValidCodec(num) && NoProto(v)
    ensures Print(Read(v, num), num) == Print(v, num)
    decreases v
  {
    match v
    case Num(n) => NumberTextReads(n, num);
    case Arr(items) =>
      forall i | 0 <= i < |items| ensures Print(Read(items[i], num), num) == Print(items[i], num) {
        PrintRead(items[i], num);
      }
      assert PrintItems(ReadItems(items, num), num) == PrintItems(items, num);
    case Obj(fields) =>
      forall i | 0 <= i < |fields| ensures Print(Read(fields[i].value, num), num) == Print(fields[i].value, num) {
        PrintRead(fields[i].value, num);
      }
      PrintReadObject(fields, num);
    case _ =>
  }

  lemma PrintReadObject<N(!new)>(fields: seq<Field<N>>, num: Codec<N>)
    requires forall i :: 0 <= i < |fields| ==>
               fields[i].key != PROTO && Print(Read(fields[i].value, num), num) == Print(fields[i].value, num)
    ensures Print(Read(Obj(fields), num), num) == Print(Obj(fields), num)
  {
    var sorted := Sort(fields, FieldAtMost);
    var read := ReadFields(sorted, num);
    forall i | 0 <= i < |sorted|
      ensures sorted[i].key != PROTO && Print(Read(sorted[i].value, num), num) == Print(sorted[i].value, num)
    {
      SortMembers(fields, FieldAtMost, sorted[i]);
      assert sorted[i] in fields;
    }
    hide Print, Sort, MemberTexts, Join;
    ObjectForms(fields, num);
    DropProtoNone(read);
    assert Read(Obj(fields), num) == Obj(read);
    ObjectForms(read, num);
    FieldOrder<N>();
    SortSorts(fields, FieldAtMost);
    SortFixed(sorted, FieldAtMost);
    ReadSort(sorted, num);
    SameMemberTexts(read, sorted, num);
  }

  lemma {:induction false} PrintableRead<N(!new)>(v: Json<N>, num: Codec<N>, allowUnsafe: bool)
    requires ValidCodec(num) && Printable(v, num, allowUnsafe)
    ensures Printable(Read(v, num), num, allowUnsafe)
    decreases v
  {
    match v
    case Num(n) => NumberTextReads(n, num);
    case Arr(items) =>
      forall i | 0 <= i < |items| ensures Printable(Read(items[i], num), num, allowUnsafe) {
        PrintableRead(items[i], num, allowUnsafe);
      }
    case Obj(fields) =>
      var read := ReadFields(fields, num);
      forall i | 0 <= i < |fields| ensures Printable(read[i].value, num, allowUnsafe) {
        PrintableRead(fields[i].value, num, allowUnsafe);
      }
      var kept := DropProto(Sort(read, FieldAtMost));
      forall i | 0 <= i < |kept| ensures WellPaired(kept[i].key) && Printable(kept[i].value, num, allowUnsafe) {
        DropProtoMembers(Sort(read, FieldAtMost), kept[i]);
        SortMembers(read, FieldAtMost, kept[i]);
        assert kept[i] in read;
      }
    case _ =>
  }

  lemma {:induction false} DropProtoMembers<N>(fields: seq<Field<N>>, f: Field<N>)
    ensures f in DropProto(fields) <==> f in fields && f.key != PROTO
  {
    if fields != [] {
      DropProtoMembers(fields[1..], f);
      assert fields == [fields[0]] + fields[1..];
    }
  }

  // ---------- what the parser returns ----------

  /** An object with one property per key, none of them `__proto__`, in every corner. */
  ghost predicate Clean<N(!new)>(v: Json<N>) {
    Proper(v) && NoProto(v)
  }

  ghost predicate CleanFields<N(!new)>(fields: seq<Field<N>>, keys: set<Text>) {
    && DistinctKeys(fields)
    && forall i :: 0 <= i < |fields| ==> fields[i].key in keys && fields[i].key != PROTO && Clean(fields[i].value)
  }

  lemma StoreClean<N(!new)>(fields: seq<Field<N>>, keys: set<Text>, key: Text, value: Json<N>)
    requires CleanFields(fields, keys) && key !in keys && Clean(value)
    ensures CleanFields(Store(fields, key, value), keys + {key})
  {
  }

  lemma {:induction false} ParsedIsClean<N(!new)>(t: Text, num: Codec<N>)
    ensures ParseValue(t, num).Parsed? ==> Clean(ParseValue(t, num).value)
    decreases |t|, 0
  {
    var u := SkipSpace(t);
    if u != [] && u[0] == OPEN_BRACE {
      MembersAreClean<N>(SkipSpace(u[1..]), [], {}, num);
    } else if u != [] && u[0] == OPEN_BRACKET {
      ItemsAreClean<N>(SkipSpace(u[1..]), [], num);
    }
  }

  lemma {:induction false} MembersAreClean<N(!new)>(t: Text, fields: seq<Field<N>>, keys: set<Text>, num: Codec<N>)
    requires CleanFields(fields, keys)
    ensures ParseMembers(t, fields, keys, num).Parsed? ==> Clean(ParseMembers(t, fields, keys, num).value)
    decreases |t|, 1
  {
    var k := ParseString(SkipSpace(t));
    if k.ParsedText? && k.value !in keys {
      var u := SkipSpace(k.rest);
      if u != [] && u[0] == COLON {
        var v := ParseValue(u[1..], num);
        ParsedIsClean(u[1..], num);
        if v.Parsed? {
          StoreClean(fields, keys, k.value, v.value);
          var w := SkipSpace(v.rest);
          if w != [] && w[0] == COMMA {
            MembersAreClean(w[1..], Store(fields, k.value, v.value), keys + {k.value}, num);
          }
        }
      }
    }
  }

  lemma {:induction false} ItemsAreClean<N(!new)>(t: Text, items: seq<Json<N>>, num: Codec<N>)
    requires forall i :: 0 <= i < |items| ==> Clean(items[i])
    ensures ParseItems(t, items, num).Parsed? ==> Clean(ParseItems(t, items, num).value)
    decreases |t|, 1
  {
    var v := ParseValue(t, num);
    ParsedIsClean(t, num);
    if v.Parsed? {
      var w := SkipSpace(v.rest);
      if w != [] && w[0] == COMMA {
        ItemsAreClean(w[1..], items + [v.value], num);
      }
    }
  }

  /** Canonicalization is idempotent on every text it accepts. */
  lemma CanonicalizeIdempotent<N(!new)>(t: Text, num: Codec<N>, allowUnsafe: bool)
    requires ValidCodec(num) && CanonicalizeText(t, num, allowUnsafe).Some?
    ensures var c := CanonicalizeText(t, num, allowUnsafe).value;
            CanonicalizeText(c, num, allowUnsafe) == Some(c)
  {
    hide ParseValue, Print, Printable, Read;
    var v := ParseText(t, num).value;
    ParsedIsClean(t, num);
    ParsePrint(v, num, allowUnsafe);
    PrintableRead(v, num, allowUnsafe);
    PrintRead(v, num);
  }
}
