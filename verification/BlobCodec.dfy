/** The binary envelope of an encrypted object: magic, algorithm, key id, nonce,
    additional data and ciphertext, lengths big-endian. The key id is text, written
    as UTF-8; a frame holds its bytes. */
module BlobCodec {
  import opened Text16
  import Utf8

  type Byte = Utf8.Byte
  type Bytes = Utf8.Bytes

  datatype Algorithm = Aes256Gcm | XChaCha20Poly1305

  datatype Blob = Blob(algorithm: Algorithm, keyId: Text, nonce: Bytes, aad: Bytes, ciphertext: Bytes)

  datatype Frame = Frame(algorithm: Algorithm, keyBytes: Bytes, nonce: Bytes, aad: Bytes, ciphertext: Bytes)

  datatype Code = Truncated | Corrupt | InvalidKey | OutOfRange

  datatype Result<+T> = Ok(value: T) | Error(code: Code)

  const MAGIC: Bytes := [72, 69, 67, 49]
  const TAG_BYTES := 16

  function NonceLength(a: Algorithm): nat {
    match a case Aes256Gcm => 12 case XChaCha20Poly1305 => 24
  }

  function AlgorithmByte(a: Algorithm): Byte {
    match a case Aes256Gcm => 1 case XChaCha20Poly1305 => 2
  }

  function BE16(n: nat): Bytes
    requires n < 0x1_0000
  {
    [n / 256, n % 256]
  }

  function BE32(n: nat): Bytes
    requires n < 0x1_0000_0000
  {
    [n / 0x100_0000, n / 0x1_0000 % 256, n / 0x100 % 256, n % 256]
  }

  /** A read past the end yields 0, as `bytes[offset] ?? 0` does. */
  function At(bytes: Bytes, i: nat): Byte {
    if i < |bytes| then bytes[i] else 0
  }

  function ReadUInt16BE(bytes: Bytes, offset: nat): nat {
    At(bytes, offset) * 256 + At(bytes, offset + 1)
  }

  function ReadUInt32BE(bytes: Bytes, offset: nat): nat {
    At(bytes, offset) * 0x100_0000 + At(bytes, offset + 1) * 0x1_0000 + At(bytes, offset + 2) * 0x100 + At(bytes, offset + 3)
  }

  function Header(b: Frame): Bytes
    requires |b.keyBytes| < 0x1_0000 && |b.aad| < 0x1_0000_0000
  {
    MAGIC + [AlgorithmByte(b.algorithm)] + BE16(|b.keyBytes|) + b.keyBytes + b.nonce + BE32(|b.aad|)
  }

  function EncodeFrame(b: Frame): Result<Bytes> {
    if |b.keyBytes| > 0xffff then Error(InvalidKey)
    else if |b.aad| > 0xffff_ffff then Error(OutOfRange)
    else Ok(Header(b) + b.aad + b.ciphertext)
  }

  /** What the encoder does not check but every caller passes. */
  predicate WellShaped(b: Frame) {
    |b.nonce| == NonceLength(b.algorithm) && |b.ciphertext| >= TAG_BYTES
  }

  /** Writes one part of the header into the buffer. */
  method Copy(buffer: array<Byte>, offset: nat, part: Bytes)
    requires offset + |part| <= buffer.Length
    modifies buffer
    ensures buffer[..offset + |part|] == old(buffer[..offset]) + part
    ensures buffer[offset + |part|..] == old(buffer[offset + |part|..])
  {
    var i := 0;
    while i < |part|
      invariant 0 <= i <= |part|
      invariant buffer[..offset + i] == old(buffer[..offset]) + part[..i]
      invariant buffer[offset + i..] == old(buffer[offset + i..])
    {
      assert buffer[offset + i + 1..] == buffer[offset + i..][1..];
      buffer[offset + i] := part[i];
      assert buffer[..offset + i + 1] == buffer[..offset + i] + [part[i]];
      i := i + 1;
    }
    assert part[..i] == part;
  }

  function ParseFrame(bytes: Bytes): Result<Frame> {
    if |bytes| < 4 + 1 + 2 + 4 + TAG_BYTES then Error(Truncated)
    else if bytes[..4] != MAGIC then Error(Corrupt)
    else if bytes[4] != 1 && bytes[4] != 2 then Error(Corrupt)
    else
      var algorithm := if bytes[4] == 1 then Aes256Gcm else XChaCha20Poly1305;
      var keyEnd := 7 + ReadUInt16BE(bytes, 5);
      if keyEnd > |bytes| then Error(Truncated)
      else
        var nonceEnd := keyEnd + NonceLength(algorithm);
        if nonceEnd > |bytes| || nonceEnd + 4 > |bytes| then Error(Truncated)
        else
          var aadEnd := nonceEnd + 4 + ReadUInt32BE(bytes, nonceEnd);
          if aadEnd > |bytes| || |bytes| - aadEnd < TAG_BYTES then Error(Truncated)
          else Ok(Frame(algorithm, bytes[7..keyEnd], bytes[keyEnd..nonceEnd], bytes[nonceEnd + 4..aadEnd], bytes[aadEnd..]))
  }

  lemma Read16(n: nat, p: Bytes, q: Bytes)
    requires n < 0x1_0000
    ensures ReadUInt16BE(p + BE16(n) + q, |p|) == n
  {
    var s := p + BE16(n) + q;
    assert s[|p|] == n / 256 && s[|p| + 1] == n % 256;
  }

  lemma Split32(n: nat)
    ensures n == n / 0x100_0000 * 0x100_0000 + n / 0x1_0000 % 256 * 0x1_0000 + n / 0x100 % 256 * 0x100 + n % 256
  {
    var a := n / 256;
    var b := a / 256;
    assert n == a * 256 + n % 256 && a == b * 256 + a % 256 && b == b / 256 * 256 + b % 256;
    assert b == n / 0x1_0000 && b / 256 == n / 0x100_0000;
  }

  lemma Read32(n: nat, p: Bytes, q: Bytes)
    requires n < 0x1_0000_0000
    ensures ReadUInt32BE(p + BE32(n) + q, |p|) == n
  {
    var w := BE32(n);
    var s := p + w + q;
    assert s[|p|] == w[0] && s[|p| + 1] == w[1] && s[|p| + 2] == w[2] && s[|p| + 3] == w[3];
    Split32(n);
  }

  lemma Write16(bytes: Bytes, i: nat)
    requires i + 2 <= |bytes|
    ensures ReadUInt16BE(bytes, i) < 0x1_0000 && BE16(ReadUInt16BE(bytes, i)) == bytes[i..i + 2]
  {
  }

  lemma Join32(a: Byte, b: Byte, c: Byte, d: Byte) returns (n: nat)
    ensures n == a * 0x100_0000 + b * 0x1_0000 + c * 0x100 + d && n < 0x1_0000_0000
    ensures BE32(n) == [a, b, c, d]
  {
    var x: int := a * 256 + b;
    var y: int := x * 256 + c;
    n := y * 256 + d;
    assert n / 256 == y && n % 256 == d;
    assert y / 256 == x && y % 256 == c;
    assert x / 256 == a && x % 256 == b;
    assert n / 0x1_0000 == x && n / 0x100_0000 == a;
  }

  lemma Write32(bytes: Bytes, i: nat)
    requires i + 4 <= |bytes|
    ensures ReadUInt32BE(bytes, i) < 0x1_0000_0000 && BE32(ReadUInt32BE(bytes, i)) == bytes[i..i + 4]
  {
    var n := Join32(bytes[i], bytes[i + 1], bytes[i + 2], bytes[i + 3]);
    assert bytes[i..i + 4] == [bytes[i], bytes[i + 1], bytes[i + 2], bytes[i + 3]];
  }

  /** The part of an encoding before its key id. */
  function Front(b: Frame): Bytes
    requires |b.keyBytes| < 0x1_0000
  {
    MAGIC + [AlgorithmByte(b.algorithm)] + BE16(|b.keyBytes|)
  }

  lemma ReadFront(b: Frame, rest: Bytes)
    requires |b.keyBytes| < 0x1_0000
    ensures var bytes := Front(b) + rest;
            bytes[..4] == MAGIC && bytes[4] == AlgorithmByte(b.algorithm) && ReadUInt16BE(bytes, 5) == |b.keyBytes|
  {
    var head := MAGIC + [AlgorithmByte(b.algorithm)];
    Read16(|b.keyBytes|, head, rest);
  }

  lemma ReadKeyAndNonce(b: Frame, rest: Bytes)
    requires |b.keyBytes| < 0x1_0000
    ensures var bytes := Front(b) + b.keyBytes + b.nonce + rest;
            var k := 7 + |b.keyBytes|;
            bytes[7..k] == b.keyBytes && bytes[k..k + |b.nonce|] == b.nonce
  {
    BigEndianSizes(|b.keyBytes|, 0);
    var front := Front(b);
    assert |front| == 7;
    hide Front;
    Slice(front, b.keyBytes, b.nonce + rest);
    Regroup3(front + b.keyBytes, b.nonce, rest);
    Slice(front + b.keyBytes, b.nonce, rest);
  }

  lemma ReadTail(p: Bytes, aad: Bytes, ciphertext: Bytes)
    requires |aad| < 0x1_0000_0000
    ensures var bytes := p + BE32(|aad|) + (aad + ciphertext);
            var a := |p| + 4;
            ReadUInt32BE(bytes, |p|) == |aad| && bytes[a..a + |aad|] == aad && bytes[a + |aad|..] == ciphertext
  {
    Read32(|aad|, p, aad + ciphertext);
    var q := p + BE32(|aad|);
    assert q + aad + ciphertext == q + (aad + ciphertext);
    Slice(q, aad, ciphertext);
  }

  /** Bytes laid out as a blob's encoding. */
  ghost predicate LaidOut(bytes: Bytes, b: Frame) {
    var k := 7 + |b.keyBytes|;
    var n := k + NonceLength(b.algorithm);
    var a := n + 4 + |b.aad|;
    && 27 <= |bytes| && a <= |bytes|
    && bytes[..4] == MAGIC && bytes[4] == AlgorithmByte(b.algorithm) && ReadUInt16BE(bytes, 5) == |b.keyBytes|
    && bytes[7..k] == b.keyBytes && bytes[k..n] == b.nonce && ReadUInt32BE(bytes, n) == |b.aad|
    && bytes[n + 4..a] == b.aad && bytes[a..] == b.ciphertext
  }

  lemma ParseReads(bytes: Bytes, b: Frame)
    requires LaidOut(bytes, b) && WellShaped(b)
    ensures ParseFrame(bytes) == Ok(b)
  {
    hide ReadUInt16BE, ReadUInt32BE;
  }

  lemma ParseAccepts(bytes: Bytes)
    requires ParseFrame(bytes).Ok?
    ensures LaidOut(bytes, ParseFrame(bytes).value) && WellShaped(ParseFrame(bytes).value)
  {
    hide ReadUInt16BE, ReadUInt32BE;
  }

  /** Parsing undoes encoding for every frame a caller can build. */
  lemma FrameParses(b: Frame)
    requires WellShaped(b) && EncodeFrame(b).Ok?
    ensures ParseFrame(EncodeFrame(b).value) == Ok(b)
  {
    hide ReadUInt16BE, ReadUInt32BE, ParseFrame, BE16, BE32;
    var bytes := EncodeFrame(b).value;
    var p := Front(b) + b.keyBytes + b.nonce;
    var tail := b.aad + b.ciphertext;
    var rest := BE32(|b.aad|) + tail;
    BigEndianSizes(|b.keyBytes|, |b.aad|);
    Regroup3(p + BE32(|b.aad|), b.aad, b.ciphertext);
    Regroup3(p, BE32(|b.aad|), tail);
    Regroup4(Front(b), b.keyBytes, b.nonce, rest);
    assert bytes == p + BE32(|b.aad|) + tail == p + rest == Front(b) + (b.keyBytes + b.nonce + rest);
    ReadTail(p, b.aad, b.ciphertext);
    ReadKeyAndNonce(b, rest);
    ReadFront(b, b.keyBytes + b.nonce + rest);
    hide Front;
    ParseReads(bytes, b);
  }

  lemma BigEndianSizes(n: nat, m: nat)
    requires n < 0x1_0000 && m < 0x1_0000_0000
    ensures |BE16(n)| == 2 && |BE32(m)| == 4
  {
  }

  lemma Slice(p: Bytes, x: Bytes, q: Bytes)
    ensures (p + x + q)[|p|..|p| + |x|] == x
  {
  }

  lemma Glue(bytes: Bytes, i: nat, j: nat)
    requires i <= j <= |bytes|
    ensures bytes[..i] + bytes[i..j] == bytes[..j]
  {
  }

  /** Re-encoding any parsed frame gives back the same bytes, so the parser accepts
      exactly the encodings of well-shaped frames. */
  lemma FrameReencodes(bytes: Bytes)
    requires ParseFrame(bytes).Ok?
    ensures WellShaped(ParseFrame(bytes).value) && EncodeFrame(ParseFrame(bytes).value) == Ok(bytes)
  {
    var b := ParseFrame(bytes).value;
    ParseAccepts(bytes);
    var keyEnd := 7 + |b.keyBytes|;
    var nonceEnd := keyEnd + NonceLength(b.algorithm);
    var aadEnd := nonceEnd + 4 + |b.aad|;
    Write16(bytes, 5);
    Write32(bytes, nonceEnd);
    hide ReadUInt16BE, ReadUInt32BE, ParseFrame, BE16, BE32;
    assert bytes[4..5] == [bytes[4]];
    Glue(bytes, 4, 5);
    Glue(bytes, 5, 7);
    Glue(bytes, 7, keyEnd);
    Glue(bytes, keyEnd, nonceEnd);
    Glue(bytes, nonceEnd, nonceEnd + 4);
    Glue(bytes, nonceEnd + 4, aadEnd);
    Glue(bytes, aadEnd, |bytes|);
    assert Header(b) == bytes[..nonceEnd + 4];
    assert bytes[aadEnd..] == bytes[aadEnd..|bytes|] && bytes[..|bytes|] == bytes;
  }

  // ---------- blobs ----------

  function FrameOf(b: Blob): Frame {
    Frame(b.algorithm, Utf8.Encode(b.keyId), b.nonce, b.aad, b.ciphertext)
  }

  function BlobOf(f: Frame): Blob {
    Blob(f.algorithm, Utf8.Decode(f.keyBytes), f.nonce, f.aad, f.ciphertext)
  }

  function Encode(b: Blob): Result<Bytes> {
    EncodeFrame(FrameOf(b))
  }

  function Parse(bytes: Bytes): Result<Blob> {
    match ParseFrame(bytes)
    case Error(code) => Error(code)
    case Ok(f) => Ok(BlobOf(f))
  }

  method EncodeBlob(b: Blob) returns (r: Result<Bytes>)
    ensures r == Encode(b)
  {
    var keyIdBytes := Utf8.Encode(b.keyId);
    if |keyIdBytes| > 0xffff {
      return Error(InvalidKey);
    }
    if |b.aad| > 0xffff_ffff {
      return Error(OutOfRange);
    }
    var header := new Byte[11 + |keyIdBytes| + |b.nonce|];
    var offset := 0;
    Copy(header, offset, MAGIC);
    offset := offset + 4;
    header[offset] := AlgorithmByte(b.algorithm);
    offset := offset + 1;
    assert header[..offset] == MAGIC + [AlgorithmByte(b.algorithm)];
    Copy(header, offset, BE16(|keyIdBytes|));
    offset := offset + 2;
    Copy(header, offset, keyIdBytes);
    offset := offset + |keyIdBytes|;
    Copy(header, offset, b.nonce);
    offset := offset + |b.nonce|;
    Copy(header, offset, BE32(|b.aad|));
    assert header[..] == header[..offset + 4] == Header(FrameOf(b));
    return Ok(header[..] + b.aad + b.ciphertext);
  }

  method ParseBlob(bytes: Bytes) returns (r: Result<Blob>)
    ensures r == Parse(bytes)
  {
    var offset := 0;
    if |bytes| < 4 + 1 + 2 + 4 + TAG_BYTES {
      return Error(Truncated);
    }
    if bytes[..4] != MAGIC {
      return Error(Corrupt);
    }
    offset := 4;
    if bytes[offset] != 1 && bytes[offset] != 2 {
      return Error(Corrupt);
    }
    var algorithm := if bytes[offset] == 1 then Aes256Gcm else XChaCha20Poly1305;
    offset := offset + 1;
    var keyIdLen := ReadUInt16BE(bytes, offset);
    offset := offset + 2;
    if offset + keyIdLen > |bytes| {
      return Error(Truncated);
    }
    var keyId := Utf8.Decode(bytes[offset..offset + keyIdLen]);
    offset := offset + keyIdLen;
    var nonceEnd := offset + NonceLength(algorithm);
    if nonceEnd > |bytes| {
      return Error(Truncated);
    }
    var nonce := bytes[offset..nonceEnd];
    offset := nonceEnd;
    if offset + 4 > |bytes| {
      return Error(Truncated);
    }
    var aadLen := ReadUInt32BE(bytes, offset);
    offset := offset + 4;
    if offset + aadLen > |bytes| {
      return Error(Truncated);
    }
    var aad := bytes[offset..offset + aadLen];
    var ciphertext := bytes[offset + aadLen..];
    if |ciphertext| < TAG_BYTES {
      return Error(Truncated);
    }
    return Ok(Blob(algorithm, keyId, nonce, aad, ciphertext));
  }

  /** Parsing undoes encoding for every blob a caller can build whose key id is proper text. */
  lemma ParseUndoesEncode(b: Blob)
    requires WellShaped(FrameOf(b)) && Encode(b).Ok? && WellPaired(b.keyId)
    ensures Parse(Encode(b).value) == Ok(b)
  {
    FrameParses(FrameOf(b));
    Utf8.TextSurvivesExactly(b.keyId);
    hide EncodeFrame, ParseFrame;
  }

  /** The round trip holds exactly for blobs with the algorithm's nonce length, a full tag, and no unpaired surrogate in
      the key id. */
  lemma RoundTripExactly(b: Blob)
    requires Encode(b).Ok?
    ensures Parse(Encode(b).value) == Ok(b) <==> WellShaped(FrameOf(b)) && WellPaired(b.keyId)
  {
    if WellShaped(FrameOf(b)) {
      FrameParses(FrameOf(b));
      Utf8.TextSurvivesExactly(b.keyId);
    }
    hide EncodeFrame, ParseFrame;
    if Parse(Encode(b).value).Ok? {
      FrameReencodes(Encode(b).value);
    }
  }

  /** The bytes of an envelope's key id. */
  function KeyBytes(bytes: Bytes): Bytes
    requires ParseFrame(bytes).Ok?
  {
    ParseFrame(bytes).value.keyBytes
  }

  /** Re-encoding a parsed envelope gives back the same bytes exactly when its key id is well-formed UTF-8. */
  lemma EncodeUndoesParse(bytes: Bytes)
    requires Parse(bytes).Ok?
    ensures WellShaped(FrameOf(Parse(bytes).value))
    ensures Encode(Parse(bytes).value) == Ok(bytes) <==> Utf8.WellFormed(KeyBytes(bytes))
  {
    var f := ParseFrame(bytes).value;
    FrameReencodes(bytes);
    Utf8.BytesSurviveExactly(f.keyBytes);
    var again := FrameOf(BlobOf(f));
    if EncodeFrame(again) == Ok(bytes) { SameFrame(again, f); }
    hide EncodeFrame, ParseFrame;
  }

  /** Well-shaped frames with the same encoding are the same. */
  lemma SameFrame(f: Frame, g: Frame)
    requires WellShaped(f) && WellShaped(g) && EncodeFrame(f).Ok? && EncodeFrame(f) == EncodeFrame(g)
    ensures f == g
  {
    FrameParses(f);
    FrameParses(g);
  }

  // ---------- the inputs the round trips lose ----------

  const ZERO_NONCE: Bytes := [0, 0, 0, 0, 0, 0, 0, 0, 0, 0, 0, 0]
  const ZERO_TAG: Bytes := ZERO_NONCE + [0, 0, 0, 0]

  lemma Replaced()
    ensures Utf8.Encode([0xD800]) == Utf8.Encode([Utf8.REPLACEMENT]) == [0xEF, 0xBF, 0xBD]
    ensures Utf8.Decode([0xFF]) == [Utf8.REPLACEMENT]
  {
    assert [0xD800 as Unit][1..] == [] && [Utf8.REPLACEMENT as Unit][1..] == [] && [0xFF as Byte][1..] == [];
    assert Utf8.Utf8Of(Utf8.REPLACEMENT) == [0xEF, 0xBF, 0xBD];
  }

  /** A key id of one unpaired surrogate comes back as U+FFFD. */
  lemma SurrogateKeyIdChanges()
    ensures var b := Blob(Aes256Gcm, [0xD800], ZERO_NONCE, [], ZERO_TAG);
            Encode(b).Ok? && Parse(Encode(b).value) == Ok(b.(keyId := [Utf8.REPLACEMENT]))
  {
    var b := Blob(Aes256Gcm, [0xD800], ZERO_NONCE, [], ZERO_TAG);
    var c := b.(keyId := [Utf8.REPLACEMENT]);
    Replaced();
    ParseUndoesEncode(c);
  }

  /** A key id of the one byte FF parses, and re-encodes as the three bytes of U+FFFD. */
  lemma IllFormedKeyIdReencodes()
    ensures var f := Frame(Aes256Gcm, [0xFF], ZERO_NONCE, [], ZERO_TAG);
            && EncodeFrame(f).Ok? && Parse(EncodeFrame(f).value).Ok?
            && Parse(EncodeFrame(f).value).value.keyId == [Utf8.REPLACEMENT]
            && Encode(Parse(EncodeFrame(f).value).value) == EncodeFrame(f.(keyBytes := [0xEF, 0xBF, 0xBD]))
            && Encode(Parse(EncodeFrame(f).value).value) != EncodeFrame(f)
  {
    var f := Frame(Aes256Gcm, [0xFF], ZERO_NONCE, [], ZERO_TAG);
    FrameParses(f);
    var bytes := EncodeFrame(f).value;
    assert EncodeFrame(f.(keyBytes := [0xEF, 0xBF, 0xBD])).Ok?;
    hide EncodeFrame, ParseFrame;
    Replaced();
    var g := f.(keyBytes := [0xEF, 0xBF, 0xBD]);
    assert Encode(Parse(bytes).value) == EncodeFrame(g);
    DifferentFrames(f, g);
  }

  lemma DifferentFrames(f: Frame, g: Frame)
    requires WellShaped(f) && WellShaped(g) && f != g && EncodeFrame(f).Ok? && EncodeFrame(g).Ok?
    ensures EncodeFrame(f) != EncodeFrame(g)
  {
    if EncodeFrame(f) == EncodeFrame(g) { SameFrame(f, g); }
  }

  /** A nonce shorter than its algorithm's does not come back. */
  lemma ShortNonceChanges()
    ensures var b := Blob(Aes256Gcm, [], ZERO_NONCE[1..], [], ZERO_TAG);
            Encode(b).Ok? && Parse(Encode(b).value) != Ok(b)
  {
    var b := Blob(Aes256Gcm, [], ZERO_NONCE[1..], [], ZERO_TAG);
    assert Utf8.Encode(b.keyId) == [];
    RoundTripExactly(b);
  }
}
