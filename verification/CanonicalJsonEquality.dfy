/** Which values share a canonical text: the printer tells every two values apart, `__proto__` properties included,
    up to the order of properties and the sign of zero. */
module CanonicalJsonEquality {
  import opened Text16
  import opened Sorting
  import opened JsonLexis
  import opened CanonicalJson

  /** The same value, object properties taken in any order. */
  ghost predicate SameValue<N>(v: Json<N>, w: Json<N>)
    decreases v
  {
    match v
    case Arr(items) =>
      w.Arr? && |items| == |w.items| && forall i :: 0 <= i < |items| ==> SameValue(items[i], w.items[i])
    case Obj(fields) =>
      w.Obj? && |fields| == |w.fields| && forall i :: 0 <= i < |fields| ==>
        exists j :: 0 <= j < |w.fields| && fields[i].key == w.fields[j].key && SameValue(fields[i].value, w.fields[j].value)
    case _ => v == w
  }

  lemma {:induction false} SubsetMembers<T>(a: seq<T>, b: seq<T>)
    requires Distinct(a) && |a| == |b| && forall x :: x in a ==> x in b
    ensures multiset(a) == multiset(b)
    decreases |a|
  {
    if a != [] {
      assert a[0] in a;
      var k :| 0 <= k < |b| && b[k] == a[0];
      var rest := b[..k] + b[k + 1..];
      forall x | x in a[1..] ensures x in rest {
        assert x in b && x != a[0];
        var m :| 0 <= m < |b| && b[m] == x;
        assert if m < k then rest[m] == x else rest[m - 1] == x;
      }
      SubsetMembers(a[1..], rest);
      assert a == [a[0]] + a[1..] && b == b[..k] + [b[k]] + b[k + 1..];
      assert multiset(b) == multiset(b[..k]) + multiset{b[k]} + multiset(b[k + 1..]);
      assert multiset(rest) == multiset(b[..k]) + multiset(b[k + 1..]);
    }
  }

  lemma NormalFieldsDistinct<N(!new)>(fields: seq<Field<N>>)
    requires DistinctKeys(fields)
    ensures DistinctKeys(NormalizeFields(fields)) && Distinct(NormalizeFields(fields))
    ensures Separates(NormalizeFields(fields), FieldAtMost)
  {
    hide Normalize;
    SeparatesKeys(NormalizeFields(fields));
  }

  lemma SeparatesKeys<N(!new)>(fields: seq<Field<N>>)
    requires DistinctKeys(fields)
    ensures Separates(fields, FieldAtMost)
  {
    forall x, y | x in fields && y in fields && FieldAtMost(x, y) && FieldAtMost(y, x) ensures x == y {
      LessConnected(x.key, y.key);
      hide Less;
      var i :| 0 <= i < |fields| && fields[i] == x;
      var j :| 0 <= j < |fields| && fields[j] == y;
    }
  }

  lemma {:induction false} SameThenNormal<N(!new)>(v: Json<N>, w: Json<N>)
    requires Proper(v) && Proper(w) && SameValue(v, w)
    ensures Normalize(v) == Normalize(w)
    decreases v
  {
    match v
    case Arr(items) =>
      forall i | 0 <= i < |items| ensures Normalize(items[i]) == Normalize(w.items[i]) {
        SameThenNormal(items[i], w.items[i]);
      }
      assert NormalizeItems(items) == NormalizeItems(w.items);
    case Obj(fields) =>
      var a, b := NormalizeFields(fields), NormalizeFields(w.fields);
      forall i | 0 <= i < |fields| ensures a[i] in b {
        var j :| 0 <= j < |w.fields| && fields[i].key == w.fields[j].key && SameValue(fields[i].value, w.fields[j].value);
        SameThenNormal(fields[i].value, w.fields[j].value);
        assert a[i] == b[j];
      }
      SortNormalEqual(fields, w.fields);
    case _ =>
  }

  lemma SortNormalEqual<N(!new)>(f: seq<Field<N>>, g: seq<Field<N>>)
    requires DistinctKeys(f) && |f| == |g|
    requires forall i :: 0 <= i < |f| ==> NormalizeFields(f)[i] in NormalizeFields(g)
    ensures Sort(NormalizeFields(f), FieldAtMost) == Sort(NormalizeFields(g), FieldAtMost)
  {
    var a, b := NormalizeFields(f), NormalizeFields(g);
    NormalFieldsDistinct(f);
    SubsetMembers(a, b);
    FieldOrder<N>();
    SortIgnoresOrder(a, b, FieldAtMost);
  }

  lemma {:induction false} NormalThenSame<N(!new)>(v: Json<N>, w: Json<N>)
    requires Normalize(v) == Normalize(w)
    ensures SameValue(v, w)
    decreases v
  {
    match v
    case Arr(items) =>
      forall i | 0 <= i < |items| ensures SameValue(items[i], w.items[i]) {
        assert NormalizeItems(items)[i] == NormalizeItems(w.items)[i];
        NormalThenSame(items[i], w.items[i]);
      }
    case Obj(fields) =>
      SameFieldCount(fields, w.fields);
      forall i | 0 <= i < |fields|
        ensures exists j :: 0 <= j < |w.fields| && fields[i].key == w.fields[j].key && SameValue(fields[i].value, w.fields[j].value)
      {
        var j := MatchingField(fields, w.fields, i);
        NormalThenSame(fields[i].value, w.fields[j].value);
      }
    case _ =>
  }

  lemma SameFieldCount<N(!new)>(f: seq<Field<N>>, g: seq<Field<N>>)
    requires Sort(NormalizeFields(f), FieldAtMost) == Sort(NormalizeFields(g), FieldAtMost)
    ensures |f| == |g|
  {
    SortSorts(NormalizeFields(f), FieldAtMost);
    SortSorts(NormalizeFields(g), FieldAtMost);
    assert |NormalizeFields(f)| == |f| && |NormalizeFields(g)| == |g|;
  }

  lemma MatchingField<N(!new)>(f: seq<Field<N>>, g: seq<Field<N>>, i: nat) returns (j: nat)
    requires Sort(NormalizeFields(f), FieldAtMost) == Sort(NormalizeFields(g), FieldAtMost) && i < |f|
    ensures j < |g| && f[i].key == g[j].key && Normalize(f[i].value) == Normalize(g[j].value)
  {
    var a, b := NormalizeFields(f), NormalizeFields(g);
    SortMembers(a, FieldAtMost, a[i]);
    SortMembers(b, FieldAtMost, a[i]);
    hide Sort;
    j :| 0 <= j < |b| && b[j] == a[i];
  }

  // ---------- the value a text stands for ----------

  /** The value with negative zero made positive. */
  function Unsigned<N(!new)>(v: Json<N>, num: Codec<N>): Json<N>
    decreases v
  {
    match v
    case Num(n) => Num(ReadNumber(n, num))
    case Arr(items) => Arr(UnsignedItems(items, num))
    case Obj(fields) => Obj(UnsignedFields(fields, num))
    case _ => v
  }

  function UnsignedItems<N(!new)>(items: seq<Json<N>>, num: Codec<N>): (r: seq<Json<N>>)
    ensures |r| == |items| && forall i :: 0 <= i < |items| ==> r[i] == Unsigned(items[i], num)
    decreases items
  {
    if items == [] then [] else [Unsigned(items[0], num)] + UnsignedItems(items[1..], num)
  }

  function UnsignedFields<N(!new)>(fields: seq<Field<N>>, num: Codec<N>): (r: seq<Field<N>>)
    ensures |r| == |fields|
    ensures forall i :: 0 <= i < |fields| ==> r[i] == Field(fields[i].key, Unsigned(fields[i].value, num))
    decreases fields
  {
    if fields == [] then []
    else [Field(fields[0].key, Unsigned(fields[0].value, num))] + UnsignedFields(fields[1..], num)
  }

  function Canon<N(!new)>(v: Json<N>, num: Codec<N>): Json<N> {
    Normalize(Unsigned(v, num))
  }

  function CanonField<N(!new)>(f: Field<N>, num: Codec<N>): Field<N> {
    Field(f.key, Canon(f.value, num))
  }

  function CanonFields<N(!new)>(fields: seq<Field<N>>, num: Codec<N>): (r: seq<Field<N>>)
    ensures |r| == |fields| && forall i :: 0 <= i < |fields| ==> r[i] == CanonField(fields[i], num)
  {
    NormalizeFields(UnsignedFields(fields, num))
  }

  lemma {:induction false} CanonInsert<N(!new)>(f: Field<N>, fields: seq<Field<N>>, num: Codec<N>)
    ensures Insert(CanonField(f, num), CanonFields(fields, num), FieldAtMost) ==
            CanonFields(Insert(f, fields, FieldAtMost), num)
  {
    hide Canon;
    if fields != [] && !FieldAtMost(f, fields[0]) {
      CanonInsert(f, fields[1..], num);
      assert CanonFields(fields, num)[1..] == CanonFields(fields[1..], num);
    }
  }

  lemma {:induction false} CanonSort<N(!new)>(fields: seq<Field<N>>, num: Codec<N>)
    ensures Sort(CanonFields(fields, num), FieldAtMost) == CanonFields(Sort(fields, FieldAtMost), num)
  {
    if fields != [] {
      hide Canon, Insert;
      CanonSort(fields[1..], num);
      CanonInsert(fields[0], Sort(fields[1..], FieldAtMost), num);
      assert CanonFields(fields, num)[1..] == CanonFields(fields[1..], num);
    }
  }

  // ---------- texts tell values apart ----------

  function Kind<N>(v: Json<N>): nat {
    match v
    case Null => 0
    case Bool(b) => if b then 1 else 2
    case Num(_) => 3
    case Str(_) => 4
    case Arr(_) => 5
    case Obj(_) => 6
  }

  function KindOfUnit(c: Unit): nat {
    if c == 110 then 0
    else if c == 116 then 1
    else if c == 102 then 2
    else if c == QUOTE then 4
    else if c == OPEN_BRACKET then 5
    else if c == OPEN_BRACE then 6
    else 3
  }

  lemma FirstUnit<N(!new)>(v: Json<N>, num: Codec<N>)
    requires ValidCodec(num)
    ensures Print(v, num) != [] && KindOfUnit(Print(v, num)[0]) == Kind(v)
    ensures Print(v, num)[0] != CLOSE_BRACKET
  {
    hide ValidCodec, NumberText;
    match v
    case Num(n) => NumberUnit(n, num);
    case Str(s) => QuoteUnit(s);
    case Arr(items) => BracketUnit(OPEN_BRACKET, Join(PrintItems(items, num)), CLOSE_BRACKET);
    case Obj(fields) =>
      BracketUnit(OPEN_BRACE, Join(Texts(Sort(Pieces(fields, num), PieceAtMost))), CLOSE_BRACE);
    case _ =>
  }

  lemma NumberUnit<N(!new)>(n: N, num: Codec<N>)
    requires ValidCodec(num)
    ensures NumberText(n, num) != [] && KindOfUnit(NumberText(n, num)[0]) == 3 && NumberText(n, num)[0] != CLOSE_BRACKET
  {
    NumberTextReads(n, num);
    hide ValidCodec, NumberText, ReadNumber, IsNumberText;
    DigitUnit(NumberText(n, num));
  }

  lemma DigitUnit(t: Text)
    requires IsNumberText(t)
    ensures t != [] && KindOfUnit(t[0]) == 3 && t[0] != CLOSE_BRACKET
  {
    hide NumberLength;
    NumberStarts(t);
  }

  lemma QuoteUnit(s: Text)
    ensures Quoted(s) != [] && Quoted(s)[0] == QUOTE
  {
    hide Escape;
  }

  lemma BracketUnit(open: Unit, inner: Text, close: Unit)
    ensures ([open] + inner + [close])[0] == open
  {
  }

  /** Whatever printed value the text may also begin with, it is the same one and stops at the same place. */
  ghost predicate Unique<N(!new)>(v: Json<N>, num: Codec<N>) {
    forall w: Json<N>, p, q ::
      Printable(w, num, true) && Ends(p) && Ends(q) && Print(v, num) + p == Print(w, num) + q ==>
        p == q && Canon(v, num) == Canon(w, num)
  }

  /** One instance of it. */
  lemma UniqueAt<N(!new)>(v: Json<N>, w: Json<N>, num: Codec<N>, p: Text, q: Text)
    requires Unique(v, num) && Printable(w, num, true) && Ends(p) && Ends(q) && Print(v, num) + p == Print(w, num) + q
    ensures p == q && Canon(v, num) == Canon(w, num)
  {
    hide Print, Canon;
  }

  lemma SameKind<N(!new)>(v: Json<N>, w: Json<N>, num: Codec<N>, p: Text, q: Text)
    requires ValidCodec(num) && Print(v, num) + p == Print(w, num) + q
    ensures Kind(v) == Kind(w)
  {
    FirstUnit(v, num);
    FirstUnit(w, num);
    hide Print;
    assert (Print(v, num) + p)[0] == Print(v, num)[0] && (Print(w, num) + q)[0] == Print(w, num)[0];
  }

  /** Equal texts with equal heads have equal tails. */
  lemma SameTail(head: Text, p: Text, other: Text, q: Text)
    requires head + p == other + q && |head| == |other|
    ensures head == other && p == q
  {
    assert (head + p)[..|head|] == head && (other + q)[..|other|] == other;
    assert (head + p)[|head|..] == p && (other + q)[|other|..] == q;
  }

  lemma NumberUnique<N(!new)>(n: N, m: N, num: Codec<N>, p: Text, q: Text)
    requires ValidCodec(num) && Ends(p) && Ends(q) && NumberText(n, num) + p == NumberText(m, num) + q
    ensures p == q && ReadNumber(n, num) == ReadNumber(m, num)
  {
    NumberTextReads(n, num);
    NumberTextReads(m, num);
    var a, b := NumberText(n, num), NumberText(m, num);
    NumberEnds(a, p);
    NumberEnds(b, q);
    hide NumberLength, ValidCodec;
    SameTail(a, p, b, q);
  }

  lemma StringUnique(s: Text, t: Text, p: Text, q: Text)
    requires WellPaired(s) && WellPaired(t) && Quoted(s) + p == Quoted(t) + q
    ensures s == t && p == q
  {
    ParseQuoted(s, p);
    ParseQuoted(t, q);
  }

  // ---------- arrays ----------

  function ItemsText<N>(items: seq<Json<N>>, num: Codec<N>, p: Text): Text {
    Join(PrintItems(items, num)) + [CLOSE_BRACKET] + p
  }

  function AfterItem<N>(items: seq<Json<N>>, num: Codec<N>, p: Text): Text {
    if items == [] then [CLOSE_BRACKET] + p else [COMMA] + ItemsText(items, num, p)
  }

  lemma ItemsTextCons<N(!new)>(items: seq<Json<N>>, num: Codec<N>, p: Text)
    requires items != []
    ensures ItemsText(items, num, p) == Print(items[0], num) + AfterItem(items[1..], num, p)
  {
    hide Print;
    var head, texts := Print(items[0], num), PrintItems(items[1..], num);
    JoinCons(head, texts);
    hide Join;
    if items[1..] == [] {
      Regroup3(head, [CLOSE_BRACKET], p);
    } else {
      Regroup5(head, [COMMA], Join(texts), [CLOSE_BRACKET], p);
    }
  }

  lemma {:induction false} ItemsUnique<N(!new)>(items: seq<Json<N>>, others: seq<Json<N>>, num: Codec<N>, p: Text, q: Text)
    requires ValidCodec(num) && ItemsText(items, num, p) == ItemsText(others, num, q)
    requires forall i :: 0 <= i < |items| ==> Unique(items[i], num)
    requires forall i :: 0 <= i < |others| ==> Printable(others[i], num, true)
    ensures p == q && |items| == |others|
    ensures forall i :: 0 <= i < |items| ==> Canon(items[i], num) == Canon(others[i], num)
  {
    hide Unique, Print, Printable, Canon, ValidCodec;
    ItemsStart(items, num, p);
    ItemsStart(others, num, q);
    if items != [] {
      ItemsTextCons(items, num, p);
      ItemsTextCons(others, num, q);
      var after, other := AfterItem(items[1..], num, p), AfterItem(others[1..], num, q);
      hide ItemsText;
      UniqueAt(items[0], others[0], num, after, other);
      assert after[0] == other[0] && after[1..] == other[1..];
      if items[1..] != [] {
        ItemsUnique(items[1..], others[1..], num, p, q);
        assert forall i :: 0 < i < |items| ==> items[i] == items[1..][i - 1] && others[i] == others[1..][i - 1];
      }
    } else {
      SameTail([CLOSE_BRACKET], p, [CLOSE_BRACKET], q);
    }
  }

  lemma ItemsStart<N(!new)>(items: seq<Json<N>>, num: Codec<N>, p: Text)
    requires ValidCodec(num)
    ensures ItemsText(items, num, p) != []
    ensures ItemsText(items, num, p)[0] == CLOSE_BRACKET <==> items == []
    ensures items == [] ==> ItemsText(items, num, p) == [CLOSE_BRACKET] + p
  {
    if items != [] {
      FirstUnit(items[0], num);
      ItemsTextCons(items, num, p);
    } else {
      NoneJoined();
    }
  }

  // ---------- objects ----------

  function MembersText<N>(fields: seq<Field<N>>, num: Codec<N>, p: Text): Text {
    Join(MemberTexts(fields, num)) + [CLOSE_BRACE] + p
  }

  function AfterMember<N>(fields: seq<Field<N>>, num: Codec<N>, p: Text): Text {
    if fields == [] then [CLOSE_BRACE] + p else [COMMA] + MembersText(fields, num, p)
  }

  lemma MembersTextCons<N(!new)>(fields: seq<Field<N>>, num: Codec<N>, p: Text)
    requires fields != []
    ensures MembersText(fields, num, p) == MemberText(fields[0], num) + AfterMember(fields[1..], num, p)
  {
    hide MemberText;
    var head, texts := MemberText(fields[0], num), MemberTexts(fields[1..], num);
    JoinCons(head, texts);
    hide Join;
    if fields[1..] == [] {
      Regroup3(head, [CLOSE_BRACE], p);
    } else {
      Regroup5(head, [COMMA], Join(texts), [CLOSE_BRACE], p);
    }
  }

  lemma MemberUnique<N(!new)>(f: Field<N>, g: Field<N>, num: Codec<N>, p: Text, q: Text)
    requires WellPaired(f.key) && WellPaired(g.key) && Unique(f.value, num) && Printable(g.value, num, true)
    requires Ends(p) && Ends(q) && MemberText(f, num) + p == MemberText(g, num) + q
    ensures p == q && CanonField(f, num) == CanonField(g, num)
  {
    hide Unique, Print, Printable, Canon, WellPaired, Quoted, Ends;
    var a, b := Print(f.value, num) + p, Print(g.value, num) + q;
    Regroup4(Quoted(f.key), [COLON], Print(f.value, num), p);
    Regroup4(Quoted(g.key), [COLON], Print(g.value, num), q);
    assert MemberText(f, num) + p == Quoted(f.key) + ([COLON] + a);
    assert MemberText(g, num) + q == Quoted(g.key) + ([COLON] + b);
    StringUnique(f.key, g.key, [COLON] + a, [COLON] + b);
    SameTail([COLON], a, [COLON], b);
    UniqueAt(f.value, g.value, num, p, q);
  }

  ghost predicate UniqueField<N(!new)>(f: Field<N>, num: Codec<N>) {
    WellPaired(f.key) && Unique(f.value, num)
  }

  predicate PrintableField<N>(f: Field<N>, num: Codec<N>) {
    WellPaired(f.key) && Printable(f.value, num, true)
  }

  lemma {:induction false} MembersUnique<N(!new)>(fields: seq<Field<N>>, others: seq<Field<N>>, num: Codec<N>, p: Text, q: Text)
    requires MembersText(fields, num, p) == MembersText(others, num, q)
    requires forall i :: 0 <= i < |fields| ==> UniqueField(fields[i], num)
    requires forall i :: 0 <= i < |others| ==> PrintableField(others[i], num)
    ensures p == q && CanonFields(fields, num) == CanonFields(others, num)
  {
    hide Unique, MemberText, Printable, CanonField, WellPaired, CanonFields;
    MembersStart(fields, num, p);
    MembersStart(others, num, q);
    if fields != [] {
      MembersTextCons(fields, num, p);
      MembersTextCons(others, num, q);
      var after, other := AfterMember(fields[1..], num, p), AfterMember(others[1..], num, q);
      hide MembersText;
      MemberUnique(fields[0], others[0], num, after, other);
      assert after[0] == other[0] && after[1..] == other[1..];
      if fields[1..] != [] {
        MembersUnique(fields[1..], others[1..], num, p, q);
      }
      CanonFieldsCons(fields, num);
      CanonFieldsCons(others, num);
    } else {
      SameTail([CLOSE_BRACE], p, [CLOSE_BRACE], q);
    }
  }

  lemma CanonFieldsCons<N(!new)>(fields: seq<Field<N>>, num: Codec<N>)
    requires fields != []
    ensures CanonFields(fields, num) == [CanonField(fields[0], num)] + CanonFields(fields[1..], num)
  {
  }

  lemma MembersStart<N(!new)>(fields: seq<Field<N>>, num: Codec<N>, p: Text)
    ensures MembersText(fields, num, p) != []
    ensures MembersText(fields, num, p)[0] == if fields == [] then CLOSE_BRACE else QUOTE
    ensures fields == [] ==> MembersText(fields, num, p) == [CLOSE_BRACE] + p
  {
    if fields != [] { MembersTextCons(fields, num, p); } else { NoneJoined(); }
  }

  // ---------- every value ----------

  lemma UniqueScalar<N(!new)>(v: Json<N>, num: Codec<N>)
    requires ValidCodec(num) && Printable(v, num, true) && !v.Arr? && !v.Obj?
    ensures Unique(v, num)
  {
    hide ReadNumber, NumberText, Quoted, WellPaired;
    forall w: Json<N>, p, q | Printable(w, num, true) && Ends(p) && Ends(q) && Print(v, num) + p == Print(w, num) + q
      ensures p == q && Canon(v, num) == Canon(w, num)
    {
      SameKind(v, w, num, p, q);
      match v
      case Num(n) => NumberUnique(n, w.n, num, p, q);
      case Str(s) => StringUnique(s, w.s, p, q);
      case _ => SameTail(Print(v, num), p, Print(w, num), q);
    }
  }

  lemma UniqueArray<N(!new)>(items: seq<Json<N>>, num: Codec<N>)
    requires ValidCodec(num) && forall i :: 0 <= i < |items| ==> Unique(items[i], num)
    ensures Unique(Arr(items), num)
  {
    hide ValidCodec;
    var v := Arr(items);
    forall w: Json<N>, p, q | Printable(w, num, true) && Ends(p) && Ends(q) && Print(v, num) + p == Print(w, num) + q
      ensures p == q && Canon(v, num) == Canon(w, num)
    {
      SameKind(v, w, num, p, q);
      ArrayText(items, num, p);
      ArrayText(w.items, num, q);
      hide Print, Join, Ends;
      SameTail([OPEN_BRACKET], ItemsText(items, num, p), [OPEN_BRACKET], ItemsText(w.items, num, q));
      ItemsUnique(items, w.items, num, p, q);
      CanonArray(items, w.items, num);
    }
  }

  lemma ArrayText<N(!new)>(items: seq<Json<N>>, num: Codec<N>, p: Text)
    ensures Print(Arr(items), num) + p == [OPEN_BRACKET] + ItemsText(items, num, p)
  {
    Regroup4([OPEN_BRACKET], Join(PrintItems(items, num)), [CLOSE_BRACKET], p);
  }

  lemma CanonArray<N(!new)>(items: seq<Json<N>>, others: seq<Json<N>>, num: Codec<N>)
    requires |items| == |others| && forall i :: 0 <= i < |items| ==> Canon(items[i], num) == Canon(others[i], num)
    ensures Canon(Arr(items), num) == Canon(Arr(others), num)
  {
    assert NormalizeItems(UnsignedItems(items, num)) == NormalizeItems(UnsignedItems(others, num));
  }

  lemma ObjectText<N(!new)>(fields: seq<Field<N>>, num: Codec<N>, p: Text)
    ensures Print(Obj(fields), num) + p == [OPEN_BRACE] + MembersText(Sort(fields, FieldAtMost), num, p)
    ensures Canon(Obj(fields), num) == Obj(CanonFields(Sort(fields, FieldAtMost), num))
  {
    ObjectForms(fields, num);
    CanonSort(fields, num);
    hide Print, Sort, Join;
    Regroup4([OPEN_BRACE], Join(MemberTexts(Sort(fields, FieldAtMost), num)), [CLOSE_BRACE], p);
  }

  lemma UniqueObject<N(!new)>(fields: seq<Field<N>>, num: Codec<N>)
    requires ValidCodec(num) && forall i :: 0 <= i < |fields| ==> UniqueField(fields[i], num)
    ensures Unique(Obj(fields), num)
  {
    hide ValidCodec;
    var v := Obj(fields);
    forall w: Json<N>, p, q | Printable(w, num, true) && Ends(p) && Ends(q) && Print(v, num) + p == Print(w, num) + q
      ensures p == q && Canon(v, num) == Canon(w, num)
    {
      SameKind(v, w, num, p, q);
      forall i | 0 <= i < |w.fields| ensures PrintableField(w.fields[i], num) { }
      ObjectsUnique(fields, w.fields, num, p, q);
    }
  }

  lemma ObjectsUnique<N(!new)>(fields: seq<Field<N>>, others: seq<Field<N>>, num: Codec<N>, p: Text, q: Text)
    requires forall i :: 0 <= i < |fields| ==> UniqueField(fields[i], num)
    requires forall i :: 0 <= i < |others| ==> PrintableField(others[i], num)
    requires Print(Obj(fields), num) + p == Print(Obj(others), num) + q
    ensures p == q && Canon(Obj(fields), num) == Canon(Obj(others), num)
  {
    hide Print, UniqueField, PrintableField, Sort, MembersText, Canon, CanonFields;
    var a, b := Sort(fields, FieldAtMost), Sort(others, FieldAtMost);
    ObjectText(fields, num, p);
    ObjectText(others, num, q);
    SameTail([OPEN_BRACE], MembersText(a, num, p), [OPEN_BRACE], MembersText(b, num, q));
    forall i | 0 <= i < |a| ensures UniqueField(a[i], num) { SortMembers(fields, FieldAtMost, a[i]); }
    forall i | 0 <= i < |b| ensures PrintableField(b[i], num) { SortMembers(others, FieldAtMost, b[i]); }
    MembersUnique(a, b, num, p, q);
  }

  /** Every printed value is told apart from every other. */
  lemma {:induction false} PrintedIsUnique<N(!new)>(v: Json<N>, num: Codec<N>)
    requires ValidCodec(num) && Printable(v, num, true)
    ensures Unique(v, num)
    decreases v
  {
    match v
    case Arr(items) =>
      forall i | 0 <= i < |items| ensures Unique(items[i], num) { PrintedIsUnique(items[i], num); }
      UniqueArray(items, num);
    case Obj(fields) =>
      forall i | 0 <= i < |fields| ensures UniqueField(fields[i], num) { PrintedIsUnique(fields[i].value, num); }
      UniqueObject(fields, num);
    case _ => UniqueScalar(v, num);
  }

  // ---------- and only those apart ----------

  /** Printing the canonical value gives the same text. */
  lemma {:induction false} PrintCanon<N(!new)>(v: Json<N>, num: Codec<N>)
    requires ValidCodec(num)
    ensures Print(Canon(v, num), num) == Print(v, num)
    decreases v
  {
    match v
    case Num(n) => NumberTextReads(n, num);
    case Arr(items) =>
      var canon := NormalizeItems(UnsignedItems(items, num));
      forall i | 0 <= i < |items| ensures Print(canon[i], num) == Print(items[i], num) { PrintCanon(items[i], num); }
      assert PrintItems(canon, num) == PrintItems(items, num);
    case Obj(fields) =>
      forall i | 0 <= i < |fields| ensures Print(Canon(fields[i].value, num), num) == Print(fields[i].value, num) {
        PrintCanon(fields[i].value, num);
      }
      PrintCanonObject(fields, num);
    case _ =>
  }

  lemma PrintCanonObject<N(!new)>(fields: seq<Field<N>>, num: Codec<N>)
    requires forall i :: 0 <= i < |fields| ==> Print(Canon(fields[i].value, num), num) == Print(fields[i].value, num)
    ensures Print(Canon(Obj(fields), num), num) == Print(Obj(fields), num)
  {
    var sorted := Sort(fields, FieldAtMost);
    var canon := CanonFields(sorted, num);
    forall i | 0 <= i < |sorted| ensures Print(Canon(sorted[i].value, num), num) == Print(sorted[i].value, num) {
      SortMembers(fields, FieldAtMost, sorted[i]);
      assert sorted[i] in fields;
    }
    hide Print, Sort, MemberTexts, Join, Canon;
    ObjectText(fields, num, []);
    ObjectForms(fields, num);
    ObjectForms(canon, num);
    FieldOrder<N>();
    SortSorts(fields, FieldAtMost);
    SortFixed(sorted, FieldAtMost);
    CanonSort(sorted, num);
    SameMemberTexts(canon, sorted, num);
  }

  lemma {:induction false} UnsignedProper<N(!new)>(v: Json<N>, num: Codec<N>)
    requires Proper(v)
    ensures Proper(Unsigned(v, num))
    decreases v
  {
    match v
    case Arr(items) =>
      forall i | 0 <= i < |items| ensures Proper(Unsigned(items[i], num)) { UnsignedProper(items[i], num); }
    case Obj(fields) =>
      forall i | 0 <= i < |fields| ensures Proper(Unsigned(fields[i].value, num)) { UnsignedProper(fields[i].value, num); }
    case _ =>
  }

  /** Two printable values have one canonical text exactly when they are the same value up to the order of properties
      and the sign of zero: nothing else is lost, not even a `__proto__` property. */
  lemma CanonicalTextDecides<N(!new)>(v: Json<N>, w: Json<N>, num: Codec<N>, allowUnsafe: bool)
    requires ValidCodec(num) && Proper(v) && Proper(w)
    requires Printable(v, num, allowUnsafe) && Printable(w, num, allowUnsafe)
    ensures Print(v, num) == Print(w, num) <==> SameValue(Unsigned(v, num), Unsigned(w, num))
  {
    hide Print, Normalize, SameValue, Printable, Proper, Unsigned, Unique, ValidCodec;
    PrintableRelax(v, num, allowUnsafe);
    PrintableRelax(w, num, allowUnsafe);
    PrintCanon(v, num);
    PrintCanon(w, num);
    UnsignedProper(v, num);
    UnsignedProper(w, num);
    if Print(v, num) == Print(w, num) {
      PrintedIsUnique(v, num);
      UniqueAt(v, w, num, [], []);
      NormalThenSame(Unsigned(v, num), Unsigned(w, num));
    }
    if SameValue(Unsigned(v, num), Unsigned(w, num)) { SameThenNormal(Unsigned(v, num), Unsigned(w, num)); }
  }
}
