/** Reading and writing objects. Keys, ciphers and the digest are parameters; the disk may hold any bytes. */
module CasStore {
  import opened Text16
  import opened BlobCodec
  import opened CasFiles

  datatype Option<+T> = None | Some(value: T)

  datatype Dek = Dek(keyId: Text, key: Bytes)

  datatype Failure = NotFound | CorruptObject | InvalidKeyId | KekFailed | BadKey | EnvelopeRefused(code: Code) | QuarantineFailed

  datatype Outcome<+T> = Done(value: T) | Failed(failure: Failure)

  /** Decryption yields plaintext, or the tag does not match, or the key cannot be used. */
  datatype Decrypted = Plain(bytes: Bytes) | TagMismatch | KeyRefused

  datatype Env = Env(
    digest: Bytes -> Hex,
    unwrap: Option<Text> -> Option<Dek>,
    decrypt: (Bytes, Blob) -> Decrypted,
    encrypt: (Bytes, Algorithm, Bytes, Bytes, Bytes) -> Option<Bytes>)

  datatype Finding = Found(plaintext: Bytes, blob: Blob) | Nothing | Damaged | Refused(failure: Failure)

  /** What a file's bytes are worth as the object of a digest. */
  function Examine(bytes: Bytes, hex: Hex, env: Env): Finding {
    match Parse(bytes)
    case Error(Truncated) => Damaged
    case Error(Corrupt) => Damaged
    case Error(code) => Refused(EnvelopeRefused(code))
    case Ok(blob) =>
      match env.unwrap(Some(blob.keyId))
      case None => Refused(KekFailed)
      case Some(dek) =>
        if dek.keyId != blob.keyId then Refused(InvalidKeyId)
        else match env.decrypt(dek.key, blob)
          case TagMismatch => Damaged
          case KeyRefused => Refused(BadKey)
          case Plain(plaintext) => if env.digest(plaintext) == hex then Found(plaintext, blob) else Damaged
  }

  function Seen(files: Files, hex: Hex, env: Env): Finding {
    if ObjectFile(hex) in files then Examine(files[ObjectFile(hex)], hex, env) else Nothing
  }

  /** Whatever bytes are on disk, what is found has the digest asked for. */
  lemma FoundHasDigest(files: Files, hex: Hex, env: Env)
    ensures Seen(files, hex, env).Found? ==> env.digest(Seen(files, hex, env).plaintext) == hex
  {
  }

  /** The key a blob names is at hand, and is that key. */
  predicate KeyFits(blob: Blob, env: Env) {
    var dek := env.unwrap(Some(blob.keyId));
    dek.Some? && dek.value.keyId == blob.keyId
  }

  /** A file to move aside: cut short, corrupt, or under a key that fits not what was sealed or not what was asked for. */
  predicate Spoilt(bytes: Bytes, hex: Hex, env: Env) {
    match Parse(bytes)
    case Error(code) => code == Truncated || code == Corrupt
    case Ok(blob) =>
      KeyFits(blob, env) &&
      var d := env.decrypt(env.unwrap(Some(blob.keyId)).value.key, blob);
      d == TagMismatch || (d.Plain? && env.digest(d.bytes) != hex)
  }

  /** A file that gives what was asked for. */
  predicate Holds(bytes: Bytes, hex: Hex, env: Env, plaintext: Bytes) {
    && env.digest(plaintext) == hex && Parse(bytes).Ok? && KeyFits(Parse(bytes).value, env)
    && env.decrypt(env.unwrap(Some(Parse(bytes).value.keyId)).value.key, Parse(bytes).value) == Plain(plaintext)
  }

  /** A file counts as damaged exactly when its own bytes are at fault: a key that is missing, is another, or is refused
      never makes it so. */
  lemma SeenExactly(files: Files, hex: Hex, env: Env)
    ensures var path, seen := ObjectFile(hex), Seen(files, hex, env);
      && (seen == Nothing <==> path !in files)
      && (seen == Damaged <==> path in files && Spoilt(files[path], hex, env))
      && (seen.Found? <==> path in files && exists p :: Holds(files[path], hex, env, p))
      && (forall p :: path in files && Holds(files[path], hex, env, p) ==> seen.Found? && seen.plaintext == p)
      && (forall blob :: path in files && Parse(files[path]) == Ok(blob) && !KeyFits(blob, env) ==> seen.Refused?)
  {
    hide Parse;
    var path, seen := ObjectFile(hex), Seen(files, hex, env);
    if seen.Found? { assert Holds(files[path], hex, env, seen.plaintext); }
  }

  /** At most the object and its quarantine entry of the day differ. */
  ghost predicate OnlyTouches(before: Files, after: Files, hex: Hex, date: Date) {
    forall path :: path != ObjectFile(hex) && path != QuarantineFile(date, hex) ==>
      (path in before <==> path in after) && (path in before ==> after[path] == before[path])
  }

  /** An entry in quarantine is never replaced. */
  ghost predicate KeepsEntry(before: Files, after: Files, hex: Hex, date: Date) {
    var entry := QuarantineFile(date, hex);
    entry in before ==> entry in after && after[entry] == before[entry]
  }

  /** Reads and checks an object; a damaged file is moved to quarantine and counts as missing. */
  method ReadVerified(store: Store, hex: Hex, env: Env, date: Date, fault: Fault) returns (r: Finding)
    requires store.Valid()
    modifies store
    ensures store.Valid() && old(store.trace) <= store.trace && r != Damaged
    ensures r == Nothing ==> ObjectFile(hex) !in store.files
    ensures var seen := old(Seen(store.files, hex, env));
      if seen != Damaged then r == seen && store.files == old(store.files)
      else if fault != CopyRefused then r == Nothing && store.files == Moved(old(store.files), hex, date)
      else r == Refused(QuarantineFailed) && store.files == old(store.files)
  {
    hide SafeTrace, Parse;
    if ObjectFile(hex) !in store.files { return Nothing; }
    r := Examine(store.files[ObjectFile(hex)], hex, env);
    if r == Damaged {
      var ok := store.MoveToQuarantine(hex, date, fault);
      r := if ok then Nothing else Refused(QuarantineFailed);
    }
  }

  /** Another process may install a file while this one waits. */
  method Intrude(store: Store, hex: Hex, rival: Option<Bytes>)
    requires store.Valid()
    modifies store
    ensures store.Valid() && old(store.trace) <= store.trace
    ensures store.files == if rival.Some? && ObjectFile(hex) !in old(store.files)
                           then old(store.files)[ObjectFile(hex) := rival.value] else old(store.files)
  {
    if rival.Some? && ObjectFile(hex) !in store.files {
      store.AddFile(ObjectFile(hex), rival.value);
    }
  }

  /** The files a get leaves: it moves a damaged file aside, and then whatever a rival has installed since, good or not. */
  function AfterGet(files: Files, hex: Hex, env: Env, date: Date, fault: Fault, rival: Option<Bytes>): Files {
    var seen := Seen(files, hex, env);
    if seen.Found? || seen.Refused? || (seen == Damaged && fault == CopyRefused) then files
    else
      var kept := Moved(files, hex, date);
      var there := if rival.Some? then kept[ObjectFile(hex) := rival.value] else kept;
      if env.unwrap(None).None? || fault == CopyRefused then there else Moved(there, hex, date)
  }

  /** A get returns plaintext exactly when the file holds plaintext of the digest asked for, and then that plaintext. */
  method GetLocked(store: Store, hex: Hex, env: Env, date: Date, fault: Fault, rival: Option<Bytes>)
    returns (r: Outcome<Bytes>)
    requires store.Valid()
    modifies store
    ensures store.Valid() && old(store.trace) <= store.trace
    ensures r.Done? ==> env.digest(r.value) == hex
    ensures r.Done? <==> old(Seen(store.files, hex, env)).Found?
    ensures r.Done? ==> r.value == old(Seen(store.files, hex, env)).plaintext && store.files == old(store.files)
    ensures store.files == AfterGet(old(store.files), hex, env, date, fault, rival)
    ensures OnlyTouches(old(store.files), store.files, hex, date)
  {
    FoundHasDigest(store.files, hex, env);
    hide SafeTrace, Seen;
    var found := ReadVerified(store, hex, env, date, fault);
    match found {
      case Found(plaintext, _) => return Done(plaintext);
      case Refused(failure) => return Failed(failure);
      case Nothing =>
        NothingSeen(old(store.files), hex, env, date);
        assert store.files == Moved(old(store.files), hex, date);
        Intrude(store, hex, rival);
        var unwrapped := env.unwrap(None);
        if unwrapped.None? { return Failed(KekFailed); }
        if ObjectFile(hex) !in store.files { return Failed(NotFound); }
        var ok := store.MoveToQuarantine(hex, date, fault);
        return Failed(if ok then NotFound else QuarantineFailed);
    }
  }

  lemma NothingSeen(files: Files, hex: Hex, env: Env, date: Date)
    ensures Seen(files, hex, env) == Nothing <==> ObjectFile(hex) !in files
    ensures Seen(files, hex, env) == Nothing ==> Moved(files, hex, date) == files
  {
    hide Parse;
  }

  /** A good object that a rival installs after the read is taken away exactly when the read found nothing or moved a
      damaged file aside, the key unwraps and the move works; and its bytes are then in the day's folder exactly when
      no other bytes already had its name there, as those of a damaged file the same get moved have. */
  lemma GoodRivalTakenExactly(files: Files, hex: Hex, env: Env, date: Date, fault: Fault, rival: Bytes)
    requires Examine(rival, hex, env).Found? && !Seen(files, hex, env).Found?
    ensures var after := AfterGet(files, hex, env, date, fault, Some(rival));
      var source, entry := ObjectFile(hex), QuarantineFile(date, hex);
      var seen := Seen(files, hex, env);
      && (source !in after <==> !seen.Refused? && env.unwrap(None).Some? && fault != CopyRefused)
      && (source !in after ==>
            entry in after &&
            (after[entry] == rival <==> if entry in files then files[entry] == rival else seen == Nothing))
  {
    NothingSeen(files, hex, env, date);
    hide Examine;
  }

  // ---------- put ----------

  datatype Put = Put(bytes: Bytes, algorithm: Algorithm, nonce: Bytes, aad: Bytes, critical: bool)

  function Envelope(put: Put, dek: Dek, ciphertext: Bytes): Blob {
    Blob(put.algorithm, dek.keyId, put.nonce, put.aad, ciphertext)
  }

  /** Staged bytes that open to plaintext of the digest. */
  predicate OpensTo(staged: Bytes, key: Bytes, hex: Hex, env: Env) {
    var parsed := Parse(staged);
    parsed.Ok? && var plain := env.decrypt(key, parsed.value); plain.Plain? && env.digest(plain.bytes) == hex
  }

  /** A nonce of the right length, and ciphertext that carries its tag. */
  ghost predicate WellPrepared(put: Put, env: Env) {
    && |put.nonce| == NonceLength(put.algorithm)
    && forall key :: env.encrypt(key, put.algorithm, put.nonce, put.aad, put.bytes).Some? ==>
         |env.encrypt(key, put.algorithm, put.nonce, put.aad, put.bytes).value| >= TAG_BYTES
  }

  /** A key unwrapped by its id, which is proper text, is the key that was unwrapped without one. */
  ghost predicate KeyStable(env: Env) {
    env.unwrap(None).Some? ==>
      WellPaired(env.unwrap(None).value.keyId) && env.unwrap(Some(env.unwrap(None).value.keyId)) == env.unwrap(None)
  }

  /** Encrypting, packing and opening again gives the bytes back. */
  ghost predicate SealWorks(put: Put, env: Env) {
    env.unwrap(None).Some? &&
    var dek := env.unwrap(None).value;
    var c := env.encrypt(dek.key, put.algorithm, put.nonce, put.aad, put.bytes);
    c.Some? && Encode(Envelope(put, dek, c.value)).Ok? && env.decrypt(dek.key, Envelope(put, dek, c.value)) == Plain(put.bytes)
  }

  /** Encrypts and writes the envelope under a fresh incoming name and reads it back; on failure the file is gone. */
  method Stage(store: Store, put: Put, hex: Hex, dek: Dek, env: Env, name: string) returns (r: Outcome<Bytes>)
    requires store.Valid() && IncomingFile(name) !in store.files && WellPrepared(put, env)
    modifies store
    ensures store.Valid() && old(store.trace) <= store.trace
    ensures store.files == if r.Done? then old(store.files)[IncomingFile(name) := r.value] else old(store.files)
    ensures r.Done? ==> OpensTo(r.value, dek.key, hex, env)
    ensures r.Done? && WellPaired(dek.keyId) ==> Parse(r.value).value.keyId == dek.keyId
    ensures env.unwrap(None) == Some(dek) && WellPaired(dek.keyId) && SealWorks(put, env) && env.digest(put.bytes) == hex ==> r.Done?
  {
    hide SafeTrace;
    var ciphertext := env.encrypt(dek.key, put.algorithm, put.nonce, put.aad, put.bytes);
    if ciphertext.None? { return Failed(BadKey); }
    var blob := Envelope(put, dek, ciphertext.value);
    var encoded := EncodeBlob(blob);
    if encoded.Error? { return Failed(EnvelopeRefused(encoded.code)); }
    if WellPaired(dek.keyId) { ParseUndoesEncode(blob); }
    hide Parse, Encode;
    store.AddFile(IncomingFile(name), encoded.value);
    if !OpensTo(store.files[IncomingFile(name)], dek.key, hex, env) {
      store.Unlink(IncomingFile(name));
      assert store.files == old(store.files);
      return Failed(CorruptObject);
    }
    return Done(encoded.value);
  }

  /** An object that is there already: reused if it is good, else moved aside and an error. */
  method Reuse(store: Store, hex: Hex, env: Env, date: Date, fault: Fault) returns (r: Outcome<bool>)
    requires store.Valid()
    modifies store
    ensures store.Valid() && old(store.trace) <= store.trace
    ensures OnlyTouches(old(store.files), store.files, hex, date) && KeepsEntry(old(store.files), store.files, hex, date)
    ensures var seen := old(Seen(store.files, hex, env));
      && (seen.Found? ==> r == Done(true))
      && (seen.Refused? ==> r == Failed(seen.failure))
      && (seen == Nothing || (seen == Damaged && fault != CopyRefused) ==> r == Failed(CorruptObject))
      && (seen == Damaged && fault == CopyRefused ==> r == Failed(QuarantineFailed))
      && (seen != Damaged ==> store.files == old(store.files))
  {
    hide SafeTrace, Examine;
    var found := ReadVerified(store, hex, env, date, fault);
    match found {
      case Found(_, _) => return Done(true);
      case Refused(failure) => return Failed(failure);
      case Nothing =>
        var ok := store.MoveToQuarantine(hex, date, fault);
        return Failed(if ok then CorruptObject else QuarantineFailed);
    }
  }

  /** Installs a staged file unless an object is already there; an object that is there must be good. */
  method Install(store: Store, staged: Bytes, hex: Hex, env: Env, name: string, date: Date, fault: Fault, rival: Option<Bytes>)
    returns (r: Outcome<bool>)
    requires store.Valid() && IncomingFile(name) in store.files && store.files[IncomingFile(name)] == staged
    modifies store
    ensures store.Valid() && old(store.trace) <= store.trace && IncomingFile(name) !in store.files
    ensures OnlyTouches(old(store.files) - {IncomingFile(name)}, store.files, hex, date)
    ensures KeepsEntry(old(store.files), store.files, hex, date)
    ensures r == Done(true) ==> Seen(store.files, hex, env).Found?
    ensures r == Done(false) ==> ObjectFile(hex) in store.files && store.files[ObjectFile(hex)] == staged
    ensures rival.None? && ObjectFile(hex) !in old(store.files) ==> r == Done(false)
  {
    hide SafeTrace, Seen;
    Intrude(store, hex, rival);
    if ObjectFile(hex) in store.files {
      store.Unlink(IncomingFile(name));
      r := Reuse(store, hex, env, date, fault);
      return;
    }
    store.AddFile(ObjectFile(hex), store.files[IncomingFile(name)]);
    store.Unlink(IncomingFile(name));
    return Done(false);
  }

  lemma OpensIsFound(staged: Bytes, dek: Dek, hex: Hex, env: Env)
    requires OpensTo(staged, dek.key, hex, env) && Parse(staged).value.keyId == dek.keyId
    requires env.unwrap(Some(dek.keyId)) == Some(dek)
    ensures Examine(staged, hex, env).Found?
  {
    hide Parse;
  }

  /** The part of a put that writes a new object. */
  method StoreFresh(store: Store, put: Put, dek: Dek, env: Env, name: string, date: Date, fault: Fault, rival: Option<Bytes>)
    returns (r: Outcome<bool>)
    requires store.Valid() && IncomingFile(name) !in store.files && WellPrepared(put, env)
    requires env.unwrap(None) == Some(dek) && ObjectFile(env.digest(put.bytes)) !in store.files
    modifies store
    ensures store.Valid() && old(store.trace) <= store.trace && IncomingFile(name) !in store.files
    ensures OnlyTouches(old(store.files), store.files, env.digest(put.bytes), date)
    ensures KeepsEntry(old(store.files), store.files, env.digest(put.bytes), date)
    ensures r.Done? && (KeyStable(env) || put.critical || r.value) ==> Seen(store.files, env.digest(put.bytes), env).Found?
    ensures rival.None? && KeyStable(env) && SealWorks(put, env) ==> r.Done?
    ensures rival.None? ==> r != Done(true)
  {
    hide SafeTrace, Examine, SealWorks, WellPrepared, OpensTo;
    var hex := env.digest(put.bytes);
    var staged := Stage(store, put, hex, dek, env, name);
    if staged.Failed? { return Failed(staged.failure); }
    r := Install(store, staged.value, hex, env, name, date, fault, rival);
    assert OnlyTouches(old(store.files), store.files, hex, date);
    if r.Failed? { return; }
    if KeyStable(env) && !r.value { OpensIsFound(staged.value, dek, hex, env); }
    if put.critical && !r.value {
      var got := GetLocked(store, hex, env, date, fault, None);
      if got.Failed? { return Failed(got.failure); }
    }
  }

  /** After a successful put a get finds plaintext of its digest, and a critical one has seen that itself. A good object
      that is there is reused as it is, one the key cannot open is left as it is, and a damaged one goes to quarantine,
      where no entry is replaced. Whatever happens the incoming file is gone and no other object changed. With working
      ciphers and no rival the put succeeds. */
  method PutLocked(store: Store, put: Put, env: Env, name: string, date: Date, fault: Fault, rival: Option<Bytes>)
    returns (r: Outcome<bool>)
    requires store.Valid() && IncomingFile(name) !in store.files && WellPrepared(put, env)
    modifies store
    ensures store.Valid() && old(store.trace) <= store.trace && IncomingFile(name) !in store.files
    ensures OnlyTouches(old(store.files), store.files, env.digest(put.bytes), date)
    ensures KeepsEntry(old(store.files), store.files, env.digest(put.bytes), date)
    ensures r.Done? && (KeyStable(env) || put.critical || r.value) ==> Seen(store.files, env.digest(put.bytes), env).Found?
    ensures var seen := old(Seen(store.files, env.digest(put.bytes), env));
      && (seen.Found? ==> r == Done(true) && store.files == old(store.files))
      && (seen.Refused? ==> r == Failed(seen.failure) && store.files == old(store.files))
      && (seen == Damaged && fault != CopyRefused ==> QuarantineFile(date, env.digest(put.bytes)) in store.files)
      && (seen == Damaged && fault == CopyRefused ==> r == Failed(QuarantineFailed) && store.files == old(store.files))
      && (!seen.Found? && rival.None? ==> r != Done(true))
    ensures rival.None? && fault != CopyRefused && KeyStable(env) && SealWorks(put, env) ==>
              old(Seen(store.files, env.digest(put.bytes), env)).Refused? || r.Done?
  {
    hide SafeTrace, Examine, SealWorks, WellPrepared;
    var hex := env.digest(put.bytes);
    var existing := ReadVerified(store, hex, env, date, fault);
    if existing.Found? { return Done(true); }
    if existing.Refused? { return Failed(existing.failure); }
    var unwrapped := env.unwrap(None);
    if unwrapped.None? {
      NoKeyNoSeal(put, env);
      return Failed(KekFailed);
    }
    r := StoreFresh(store, put, unwrapped.value, env, name, date, fault, rival);
  }

  /** Put and then get under the same lock gives the stored bytes back, when digests do not collide. */
  method PutThenGet(store: Store, put: Put, env: Env, name: string, date: Date, fault: Fault) returns (r: Outcome<Bytes>)
    requires store.Valid() && IncomingFile(name) !in store.files && WellPrepared(put, env)
    requires fault != CopyRefused && KeyStable(env) && SealWorks(put, env)
    requires !Seen(store.files, env.digest(put.bytes), env).Refused?
    requires forall other :: env.digest(other) == env.digest(put.bytes) ==> other == put.bytes
    modifies store
    ensures store.Valid() && r == Done(put.bytes)
  {
    hide SafeTrace, Seen, SealWorks, WellPrepared;
    var stored := PutLocked(store, put, env, name, date, fault, None);
    r := GetLocked(store, env.digest(put.bytes), env, date, fault, None);
  }

  lemma NoKeyNoSeal(put: Put, env: Env)
    requires env.unwrap(None).None?
    ensures !SealWorks(put, env)
  {
  }
}
