/** Strings as the sources compare them: sequences of UTF-16 code units under
    code-unit lexicographic order (the order of `<` on strings, of `sort()` and
    of `utf16Compare`). */
module Text16 {

  type Unit = c: int | 0 <= c < 0x1_0000

  type Text = seq<Unit>

  predicate High(c: Unit) { 0xd800 <= c <= 0xdbff }
  predicate Low(c: Unit) { 0xdc00 <= c <= 0xdfff }

  /** No unpaired surrogate. */
  predicate WellPaired(s: Text) {
    if s == [] then true
    else if High(s[0]) then |s| >= 2 && Low(s[1]) && WellPaired(s[2..])
    else !Low(s[0]) && WellPaired(s[1..])
  }

  predicate Less(a: Text, b: Text) {
    if b == [] then false
    else if a == [] then true
    else if a[0] != b[0] then a[0] < b[0]
    else Less(a[1..], b[1..])
  }

  predicate AtMost(a: Text, b: Text) {
    !Less(b, a)
  }

  lemma {:induction false} LessAsymmetric(a: Text, b: Text)
    ensures !(Less(a, b) && Less(b, a))
  {
    if a != [] && b != [] && a[0] == b[0] {
      LessAsymmetric(a[1..], b[1..]);
    }
  }

  lemma {:induction false} LessConnected(a: Text, b: Text)
    ensures Less(a, b) || a == b || Less(b, a)
  {
    if a != [] && b != [] && a[0] == b[0] {
      LessConnected(a[1..], b[1..]);
      assert a == [a[0]] + a[1..] && b == [b[0]] + b[1..];
    }
  }

  lemma {:induction false} LessTransitive(a: Text, b: Text, c: Text)
    requires Less(a, b) && Less(b, c)
    ensures Less(a, c)
  {
    if a != [] && a[0] == b[0] == c[0] {
      LessTransitive(a[1..], b[1..], c[1..]);
    }
  }

  lemma AtMostTransitive(a: Text, b: Text, c: Text)
    requires AtMost(a, b) && AtMost(b, c)
    ensures AtMost(a, c)
  {
    LessConnected(a, b);
    LessConnected(b, c);
    if Less(c, a) {
      if a != b && b != c { LessTransitive(a, b, c); LessAsymmetric(a, c); }
    }
  }

  /** `AtMost` is a total order on texts. */
  lemma AtMostIsOrder()
    ensures forall a, b :: AtMost(a, b) || AtMost(b, a)
    ensures forall a, b, c :: AtMost(a, b) && AtMost(b, c) ==> AtMost(a, c)
    ensures forall a, b :: AtMost(a, b) && AtMost(b, a) ==> a == b
  {
    forall a, b ensures AtMost(a, b) || AtMost(b, a) { LessAsymmetric(a, b); }
    forall a, b, c | AtMost(a, b) && AtMost(b, c) ensures AtMost(a, c) { AtMostTransitive(a, b, c); }
    forall a, b | AtMost(a, b) && AtMost(b, a) ensures a == b { LessConnected(a, b); }
  }

  /** A common prefix does not change how two texts compare. */
  lemma {:induction false} LessAfterPrefix(p: Text, a: Text, b: Text)
    ensures Less(p + a, p + b) == Less(a, b)
  {
    if p == [] {
      assert p + a == a && p + b == b;
    } else {
      LessAfterPrefix(p[1..], a, b);
      assert (p + a)[1..] == p[1..] + a && (p + b)[1..] == p[1..] + b;
    }
  }

  /** The comparison loop: its sign decides `Less` and its zero decides equality. */
  method Utf16Compare(left: Text, right: Text) returns (r: int)
    ensures r < 0 <==> Less(left, right)
    ensures r == 0 <==> left == right
    ensures r > 0 <==> Less(right, left)
  {
    var max := if |left| < |right| then |left| else |right|;
    var index := 0;
    while index < max
      invariant 0 <= index <= max
      invariant left[..index] == right[..index]
    {
      if left[index] != right[index] {
        r := left[index] as int - right[index] as int;
        CompareAt(left, right, index);
        return;
      }
      index := index + 1;
    }
    CompareAt(left, right, max);
    r := |left| - |right|;
  }

  lemma CompareAt(a: Text, b: Text, k: nat)
    requires k <= |a| && k <= |b| && a[..k] == b[..k]
    ensures Less(a, b) == Less(a[k..], b[k..])
    ensures Less(b, a) == Less(b[k..], a[k..])
  {
    assert a == a[..k] + a[k..] && b == a[..k] + b[k..];
    LessAfterPrefix(a[..k], a[k..], b[k..]);
    LessAfterPrefix(a[..k], b[k..], a[k..]);
  }

  lemma Regroup3<T>(a: seq<T>, b: seq<T>, c: seq<T>)
    ensures a + b + c == a + (b + c)
  {
  }

  lemma Regroup4<T>(a: seq<T>, b: seq<T>, c: seq<T>, d: seq<T>)
    ensures a + b + c + d == a + (b + c + d)
  {
    Regroup3(a, b, c);
    Regroup3(a, b + c, d);
  }

  lemma Regroup5<T>(a: seq<T>, b: seq<T>, c: seq<T>, d: seq<T>, e: seq<T>)
    ensures a + b + c + d + e == a + (b + (c + d + e))
  {
    Regroup4(a, b, c, d);
    Regroup3(a, b + c + d, e);
    Regroup4(b, c, d, e);
  }
}
