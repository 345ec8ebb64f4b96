/** The backup container: Poly1305 as section 2.5.1 of RFC 8439 defines it, and the
    seal and open operations around an abstract stream cipher. */
module Poly1305 {

  type Byte = b: int | 0 <= b < 256
  type Bytes = seq<Byte>

  const P: nat := 0x3_ffff_ffff_ffff_ffff_ffff_ffff_ffff_fffb   // 2^130 - 5
  const TWO_128: nat := 0x1_0000_0000_0000_0000_0000_0000_0000_0000

  function Pow(b: nat, e: nat): nat {
    if e == 0 then 1 else b * Pow(b, e - 1)
  }

  function At(bytes: Bytes, i: nat): Byte {
    if i < |bytes| then bytes[i] else 0
  }

  /** The number whose little-endian digits are the first n bytes, zero padded. */
  function Le(bytes: Bytes, n: nat): nat {
    if n == 0 then 0 else Le(bytes, n - 1) + At(bytes, n - 1) * Pow(256, n - 1)
  }

  lemma PowPositive(b: nat, e: nat)
    requires b > 0
    ensures Pow(b, e) > 0
  {
    if e > 0 { PowPositive(b, e - 1); }
  }

  lemma {:induction false} LeBound(bytes: Bytes, n: nat)
    ensures Le(bytes, n) < Pow(256, n)
  {
    if n > 0 {
      LeBound(bytes, n - 1);
      MulMonotone(At(bytes, n - 1), 255, Pow(256, n - 1));
    }
  }

  lemma {:induction false} LeSame(a: Bytes, b: Bytes, n: nat)
    requires forall i :: 0 <= i < n ==> At(a, i) == At(b, i)
    ensures Le(a, n) == Le(b, n)
  {
    if n > 0 { LeSame(a, b, n - 1); }
  }

  /** `le16` and `le17`: each byte lands above the bits already set, so the
      bitwise or of the source is an addition. */
  method ReadLe(bytes: Bytes, n: nat) returns (value: nat)
    ensures value == Le(bytes, n) && value < Pow(256, n)
  {
    value := 0;
    var power := 1;
    for i := 0 to n
      invariant value == Le(bytes, i) && power == Pow(256, i) && value < power
    {
      LeBound(bytes, i + 1);
      value := value + At(bytes, i) * power;
      power := 256 * power;
    }
  }

  // ---------- blocks and the polynomial ----------

  /** The value of a message block: its bytes followed by a single 1. */
  function BlockValue(block: Bytes): nat {
    Le(block + [1], |block| + 1)
  }

  /** The message cut into 16-byte blocks, the last one possibly shorter. */
  function Blocks(message: Bytes): seq<nat> {
    if message == [] then []
    else if |message| <= 16 then [BlockValue(message)]
    else [BlockValue(message[..16])] + Blocks(message[16..])
  }

  /** c1*r^q + c2*r^(q-1) + ... + cq*r */
  function Polynomial(blocks: seq<nat>, r: nat): nat {
    if blocks == [] then 0 else blocks[0] * Pow(r, |blocks|) + Polynomial(blocks[1..], r)
  }

  lemma {:induction false} PolynomialSnoc(blocks: seq<nat>, c: nat, r: nat)
    ensures Polynomial(blocks + [c], r) == (Polynomial(blocks, r) + c) * r
  {
    if blocks == [] {
      assert blocks + [c] == [c] && [c][1..] == [];
      assert Pow(r, 1) == r * Pow(r, 0) == r;
    } else {
      var longer := blocks + [c];
      assert longer[1..] == blocks[1..] + [c];
      PolynomialSnoc(blocks[1..], c, r);
      var b, w, t := blocks[0], Pow(r, |blocks|), Polynomial(blocks[1..], r);
      assert Pow(r, |longer|) == r * w;
      assert b * (r * w) == b * w * r;
      assert b * w * r + (t + c) * r == (b * w + t + c) * r;
    }
  }

  lemma MulMonotone(x: int, y: int, p: nat)
    requires x <= y
    ensures x * p <= y * p
  {
    assert (y - x) * p >= 0;
  }

  lemma ModUnique(a: nat, m: nat, q: int, s: nat)
    requires m > 0 && a == q * m + s && s < m
    ensures a % m == s
  {
    var d := a / m;
    assert a == d * m + a % m;
    assert (q + 1) * m == q * m + m && (d + 1) * m == d * m + m;
    if d > q {
      MulMonotone(q + 1, d, m);
    } else if d < q {
      MulMonotone(d + 1, q, m);
    }
  }

  lemma ModStep(x: nat, c: nat, r: nat, m: nat)
    requires m > 0
    ensures ((x % m + c) * r) % m == ((x + c) * r) % m
  {
    var q := x / m;
    var y := (x % m + c) * r;
    assert x == q * m + x % m;
    assert (x + c) * r == (q * m + x % m + c) * r == q * m * r + y;
    assert q * m * r == (q * r) * m;
    var k := y / m;
    assert y == k * m + y % m;
    assert (x + c) * r == (q * r + k) * m + y % m;
    ModUnique((x + c) * r, m, q * r + k, y % m);
  }

  function Accumulator(message: Bytes, r: nat): nat {
    Polynomial(Blocks(message), r) % P
  }

  lemma {:induction false} BlocksPrefix(message: Bytes, k: nat)
    requires 16 * k < |message|
    ensures var end := if 16 * k + 16 <= |message| then 16 * k + 16 else |message|;
            Blocks(message[..end]) == Blocks(message[..16 * k]) + [BlockValue(message[16 * k..end])]
    decreases k
  {
    hide BlockValue;
    var end := if 16 * k + 16 <= |message| then 16 * k + 16 else |message|;
    if k == 0 {
      assert message[..0] == [] && message[0..end] == message[..end];
    } else {
      var rest := message[16..];
      BlocksPrefix(rest, k - 1);
      assert message[..end][..16] == message[..16] && message[..end][16..] == rest[..end - 16];
      assert message[..16 * k][..16] == message[..16] && message[..16 * k][16..] == rest[..16 * (k - 1)];
      assert rest[16 * (k - 1)..end - 16] == message[16 * k..end];
      if k == 1 {
        assert message[..16 * k] == message[..16];
        assert Blocks(message[..16]) == [BlockValue(message[..16])];
        assert rest[..0] == [];
      }
    }
  }

  // ---------- the tag ----------

  function Digits(n: nat, count: nat): Bytes {
    if count == 0 then [] else [n % 256] + Digits(n / 256, count - 1)
  }

  /** Sixteen digits hold every number below 2^128. */
  lemma {:induction false} DigitsValue(n: nat, count: nat)
    requires n < Pow(256, count)
    ensures |Digits(n, count)| == count && Le(Digits(n, count), count) == n
  {
    if count > 0 {
      assert n / 256 < Pow(256, count - 1) by {
        assert n == n / 256 * 256 + n % 256;
      }
      DigitsValue(n / 256, count - 1);
      LeShift(n % 256, Digits(n / 256, count - 1), count - 1);
    }
  }

  lemma {:induction false} LeShift(b: Byte, rest: Bytes, n: nat)
    ensures Le([b] + rest, n + 1) == b + 256 * Le(rest, n)
  {
    var all := [b] + rest;
    if n == 0 {
      assert Le(all, 1) == Le(all, 0) + At(all, 0) * Pow(256, 0);
    } else {
      LeShift(b, rest, n - 1);
      assert At(all, n) == At(rest, n - 1);
      var p := Pow(256, n - 1);
      assert Pow(256, n) == 256 * p;
      assert At(rest, n - 1) * (256 * p) == 256 * (At(rest, n - 1) * p);
    }
  }

  function TagValue(r: Bytes, s: Bytes, message: Bytes): nat {
    (Accumulator(message, Le(r, 16)) + Le(s, 16)) % TWO_128
  }

  function Tag(r: Bytes, s: Bytes, message: Bytes): Bytes {
    Digits(TagValue(r, s, message), 16)
  }

  lemma TwoTo128()
    ensures Pow(256, 16) == TWO_128
  {
    assert Pow(256, 4) == 256 * Pow(256, 3) == 256 * 256 * Pow(256, 2) == 0x1_0000_0000;
    PowAdd(256, 4, 4);
    PowAdd(256, 8, 8);
  }

  lemma MulAssociates(x: nat, y: nat, z: nat)
    ensures x * (y * z) == x * y * z
  {
  }

  lemma {:induction false} PowAdd(b: nat, x: nat, y: nat)
    ensures Pow(b, x + y) == Pow(b, x) * Pow(b, y)
  {
    if x > 0 {
      PowAdd(b, x - 1, y);
      MulAssociates(b, Pow(b, x - 1), Pow(b, y));
    }
  }

  /** The tag is sixteen bytes that decode to the polynomial plus s, modulo 2^128. */
  lemma TagDecodes(r: Bytes, s: Bytes, message: Bytes)
    ensures |Tag(r, s, message)| == 16
    ensures Le(Tag(r, s, message), 16) ==
            (Polynomial(Blocks(message), Le(r, 16)) % P + Le(s, 16)) % TWO_128
  {
    TwoTo128();
    DigitsValue(TagValue(r, s, message), 16);
  }

  lemma HornerStep(message: Bytes, k: nat, r: nat)
    requires 16 * k < |message|
    ensures var end := Min(16 * k + 16, |message|);
            Accumulator(message[..end], r) ==
            ((Accumulator(message[..16 * k], r) + BlockValue(message[16 * k..end])) * r) % P
  {
    var end := Min(16 * k + 16, |message|);
    var before, value := Blocks(message[..16 * k]), BlockValue(message[16 * k..end]);
    BlocksPrefix(message, k);
    PolynomialSnoc(before, value, r);
    ModStep(Polynomial(before, r), value, r, P);
  }

  /** The Horner loop and the byte output of `poly1305`. */
  method Authenticate(rBytes: Bytes, sBytes: Bytes, message: Bytes) returns (out: Bytes)
    ensures out == Tag(rBytes, sBytes, message)
  {
    hide Accumulator, BlockValue, Le, Pow, Digits;
    var r := ReadLe(rBytes, 16);
    var s := ReadLe(sBytes, 16);
    var acc := 0;
    var offset := 0;
    ghost var k := 0;
    assert message[..0] == [];
    EmptyMessage(r);
    while offset < |message|
      invariant offset == 16 * k
      invariant acc == Accumulator(message[..Min(offset, |message|)], r)
    {
      var end := Min(offset + 16, |message|);
      var block := message[offset..end];
      var value := ReadLe(block + [1], 17);
      PaddedBlock(block);
      HornerStep(message, k, r);
      acc := ((acc + value) * r) % P;
      offset := offset + 16;
      k := k + 1;
    }
    assert message[..Min(offset, |message|)] == message;
    acc := (acc + s) % TWO_128;
    out := WriteLe(acc);
  }

  lemma EmptyMessage(r: nat)
    ensures Accumulator([], r) == 0
  {
  }

  function Min(a: nat, b: nat): nat {
    if a < b then a else b
  }

  /** Zero bytes above the final 1 add nothing: reading 17 bytes is reading the block. */
  lemma {:induction false} PaddedBlock(block: Bytes)
    requires |block| <= 16
    ensures Le(block + [1], 17) == BlockValue(block)
  {
    LeTail(block + [1], |block| + 1, 17);
  }

  lemma {:induction false} LeTail(bytes: Bytes, m: nat, n: nat)
    requires |bytes| <= m <= n
    ensures Le(bytes, n) == Le(bytes, m)
  {
    if m < n { LeTail(bytes, m, n - 1); }
  }

  method WriteLe(value: nat) returns (out: Bytes)
    ensures out == Digits(value, 16)
  {
    out := [];
    var rest := value;
    for i := 0 to 16
      invariant Digits(value, 16) == out + Digits(rest, 16 - i)
    {
      assert out + ([rest % 256] + Digits(rest / 256, 15 - i)) == (out + [rest % 256]) + Digits(rest / 256, 15 - i);
      out := out + [rest % 256];
      rest := rest / 256;
    }
    assert out + [] == out;
  }

  // ---------- seal and open ----------

  /** The two AES modes the container uses, as functions of key, nonce and data. */
  datatype Ciphers = Ciphers(ctr: (Bytes, Bytes, Bytes) -> Bytes, ecb: (Bytes, Bytes) -> Bytes)

  predicate TwiceIsIdentity(c: Ciphers, key: Bytes, nonce: Bytes, data: Bytes) {
    c.ctr(key, nonce, c.ctr(key, nonce, data)) == data
  }

  /** A stream cipher applied twice with one key and nonce gives the data back. */
  ghost predicate Involution(c: Ciphers) {
    forall key, nonce, data :: TwiceIsIdentity(c, key, nonce, data)
  }

  datatype MasterKey = MasterKey(encrypt: Bytes, macK: Bytes, macR: Bytes)

  datatype Opened = Plain(bytes: Bytes) | Truncated | Unauthenticated

  const NONCE_BYTES := 16
  const MAC_BYTES := 16

  function Mac(c: Ciphers, key: MasterKey, nonce: Bytes, ciphertext: Bytes): Bytes {
    Tag(key.macR, c.ecb(key.macK, nonce), ciphertext)
  }

  /** The nonce the source draws at random is a parameter here. */
  function Seal(c: Ciphers, key: MasterKey, nonce: Bytes, plaintext: Bytes): Bytes {
    var ciphertext := c.ctr(key.encrypt, nonce, plaintext);
    nonce + ciphertext + Mac(c, key, nonce, ciphertext)
  }

  function Open(c: Ciphers, key: MasterKey, sealed: Bytes): Opened {
    if |sealed| < NONCE_BYTES + MAC_BYTES then Truncated
    else
      var nonce := sealed[..NONCE_BYTES];
      var mac := sealed[|sealed| - MAC_BYTES..];
      var ciphertext := sealed[NONCE_BYTES..|sealed| - MAC_BYTES];
      if Mac(c, key, nonce, ciphertext) != mac then Unauthenticated
      else Plain(c.ctr(key.encrypt, nonce, ciphertext))
  }

  /** Open undoes seal for every key, nonce and plaintext. */
  lemma OpenUndoesSeal(c: Ciphers, key: MasterKey, nonce: Bytes, plaintext: Bytes)
    requires Involution(c) && |nonce| == NONCE_BYTES
    ensures Open(c, key, Seal(c, key, nonce, plaintext)) == Plain(plaintext)
  {
    hide Tag;
    var ciphertext := c.ctr(key.encrypt, nonce, plaintext);
    assert TwiceIsIdentity(c, key.encrypt, nonce, plaintext);
    var mac := Mac(c, key, nonce, ciphertext);
    TagDecodes(key.macR, c.ecb(key.macK, nonce), ciphertext);
    var sealed := nonce + ciphertext + mac;
    assert sealed[..NONCE_BYTES] == nonce;
    assert sealed[|sealed| - MAC_BYTES..] == mac;
    assert sealed[NONCE_BYTES..|sealed| - MAC_BYTES] == ciphertext;
  }

  /** Whatever opens is a sealing of what it opens to: nothing else is accepted. */
  lemma SealUndoesOpen(c: Ciphers, key: MasterKey, sealed: Bytes)
    requires Involution(c) && Open(c, key, sealed).Plain?
    ensures Seal(c, key, sealed[..NONCE_BYTES], Open(c, key, sealed).bytes) == sealed
  {
    hide Tag;
    var nonce := sealed[..NONCE_BYTES];
    var ciphertext := sealed[NONCE_BYTES..|sealed| - MAC_BYTES];
    assert TwiceIsIdentity(c, key.encrypt, nonce, ciphertext);
    assert nonce + ciphertext + sealed[|sealed| - MAC_BYTES..] == sealed;
  }
}
