/** When an envelope opens and when a payload can be sealed, for every input, and how each refusal is reported. */
module DntOpening {
  import opened Prelude
  import opened DntHeader
  import opened DntEnvelope
  import opened DntMigration

  predicate Within(length: nat, max: Option<nat>) {
    max.Some? ==> length <= max.value
  }

  // --------------------------------------------------------------------------
  // Opening
  // --------------------------------------------------------------------------

  /** The input starts with this header, which carries the caller's application, tenant and content type. */
  predicate Addressed(input: Bytes, h: Header, o: OpenOptions) {
    && WellFormed(h) && BytesOf(h) <= input
    && h.parts.application == o.application && h.parts.tenant == o.tenant && h.parts.contentType == o.contentType
  }

  /** What stands before decryption: codec, announced size, some ciphertext, and the key. */
  predicate Unlocked(s: Suite, input: Bytes, o: OpenOptions, h: Header, key: SecretKey) {
    && Addressed(input, h, o) && s.matches(h.parts.codec) && Within(h.parts.payloadLength, o.maxPayload)
    && h.headerLength < |input|
    && s.resolve(h.parts.key, Context(o.application, o.tenant, o.contentType, h.parts.codec, h.parts.schema)) == Ok(key)
  }

  /** The rest decrypts, with the header as associated bytes, to a length, that much metadata, and a payload of the
      announced length and digest. */
  predicate Revealed(s: Suite, input: Bytes, h: Header, key: SecretKey, metadata: Bytes, stored: Bytes) {
    && h.headerLength <= |input|
    && s.decrypt(key, h.parts.nonce, input[..h.headerLength], input[h.headerLength..])
       == Some(BigEndian(|metadata|, 4) + metadata + stored)
    && |metadata| == h.parts.encryptedLength && |stored| == h.parts.payloadLength
    && s.digest(key, stored) == h.parts.payloadHash
  }

  /** The stored form is the encoded payload, or inflates cleanly to it within the limit, which there must be. */
  predicate Expands(s: Suite, o: OpenOptions, flags: nat, stored: Bytes, encoded: Bytes) {
    if flags % 2 == 1 then
      s.inflate(stored) == Inflated(encoded, true) && o.maxPayload.Some? && |encoded| <= o.maxPayload.value
    else encoded == stored
  }

  ghost predicate OpensTo(s: Suite, input: Bytes, o: OpenOptions, content: Opened) {
    exists key, stored, encoded ::
      && Unlocked(s, input, o, content.header, key)
      && Revealed(s, input, content.header, key, content.encryptedMetadata, stored)
      && Expands(s, o, content.header.parts.flags, stored, encoded)
      && s.decode(encoded) == Some(content.payload) && Within(|content.payload|, o.maxPayload)
  }

  /** The admission checks pass exactly when the envelope is unlocked. */
  lemma AdmitsIff(s: Suite, input: Bytes, o: OpenOptions, h: Header, key: SecretKey)
    ensures Admit(s, input, o) == Ok(Admitted(h, key)) <==> Unlocked(s, input, o, h, key)
  {
    InspectIff(input, h);
  }

  lemma PlainParts(plain: Bytes, h: Header, metadata: Bytes, stored: Bytes)
    requires |metadata| == h.parts.encryptedLength < Capacity(4) && |stored| == h.parts.payloadLength
    ensures plain == BigEndian(|metadata|, 4) + metadata + stored <==>
      (&& PayloadStart(plain, h) == Ok(4 + |metadata|) && |plain| == 4 + |metadata| + |stored|
       && plain[4..4 + |metadata|] == metadata && plain[4 + |metadata|..] == stored)
  {
    if plain == BigEndian(|metadata|, 4) + metadata + stored {
      PlaintextReads(metadata, stored, h);
    }
    if PayloadStart(plain, h) == Ok(4 + |metadata|) {
      BigEndianOfNumber(plain[..4]);
      assert plain == plain[..4] + plain[4..4 + |metadata|] + plain[4 + |metadata|..];
    }
  }

  lemma UnpacksIff(s: Suite, a: Admitted, plain: Bytes, metadata: Bytes, stored: Bytes)
    requires a.header.parts.encryptedLength < Capacity(4)
    ensures Unpack(s, a, plain) == Ok(Authenticated(a.header, metadata, stored)) <==>
      (&& plain == BigEndian(|metadata|, 4) + metadata + stored
       && |metadata| == a.header.parts.encryptedLength && |stored| == a.header.parts.payloadLength
       && s.digest(a.key, stored) == a.header.parts.payloadHash)
  {
    if |metadata| == a.header.parts.encryptedLength && |stored| == a.header.parts.payloadLength {
      PlainParts(plain, a.header, metadata, stored);
    }
  }

  lemma AuthenticatesIff(
      s: Suite, input: Bytes, o: OpenOptions, h: Header, metadata: Bytes, stored: Bytes)
    ensures Authenticate(s, input, o) == Ok(Authenticated(h, metadata, stored)) <==>
      exists key :: Unlocked(s, input, o, h, key) && Revealed(s, input, h, key, metadata, stored)
  {
    if Authenticate(s, input, o) == Ok(Authenticated(h, metadata, stored)) {
      var a := Admit(s, input, o).value;
      AdmitsIff(s, input, o, h, a.key);
      AcceptedIsBounded(input, h);
      UnpacksIff(s, a, Decrypted(s, a, input).value, metadata, stored);
      assert Revealed(s, input, h, a.key, metadata, stored);
    }
    if key :| Unlocked(s, input, o, h, key) && Revealed(s, input, h, key, metadata, stored) {
      AdmitsIff(s, input, o, h, key);
      AcceptedIsBounded(input, h);
      UnpacksIff(s, Admitted(h, key), Decrypted(s, Admitted(h, key), input).value, metadata, stored);
    }
  }

  lemma DeliversIff(s: Suite, a: Authenticated, o: OpenOptions, content: Opened)
    ensures Deliver(s, a, o) == Ok(content) <==>
      && content.header == a.header && content.encryptedMetadata == a.encryptedMetadata
      && exists encoded ::
           && Expands(s, o, a.header.parts.flags, a.stored, encoded)
           && s.decode(encoded) == Some(content.payload) && Within(|content.payload|, o.maxPayload)
  {
    var encoded := if a.header.parts.flags % 2 == 1 then s.inflate(a.stored).output else a.stored;
    forall other | Expands(s, o, a.header.parts.flags, a.stored, other) ensures other == encoded {
    }
  }

  /** An envelope opens to this content exactly when it is addressed to the caller, its codec, size and key are at hand,
      and what it hides decrypts, splits, matches its digest, expands and decodes within the limit. */
  lemma OpensExactlyWhen(s: Suite, input: Bytes, o: OpenOptions, content: Opened)
    ensures Open(s, input, o) == Ok(content) <==> OpensTo(s, input, o, content)
  {
    if Open(s, input, o) == Ok(content) {
      var a := Authenticate(s, input, o).value;
      AuthenticatesIff(s, input, o, a.header, a.encryptedMetadata, a.stored);
      DeliversIff(s, a, o, content);
      var key :| Unlocked(s, input, o, a.header, key) && Revealed(s, input, a.header, key, a.encryptedMetadata, a.stored);
    }
    if OpensTo(s, input, o, content) {
      var key, stored, encoded :|
        && Unlocked(s, input, o, content.header, key)
        && Revealed(s, input, content.header, key, content.encryptedMetadata, stored)
        && Expands(s, o, content.header.parts.flags, stored, encoded)
        && s.decode(encoded) == Some(content.payload) && Within(|content.payload|, o.maxPayload);
      AuthenticatesIff(s, input, o, content.header, content.encryptedMetadata, stored);
      DeliversIff(s, Authenticated(content.header, content.encryptedMetadata, stored), o, content);
    }
  }

  // --------------------------------------------------------------------------
  // Refusals
  // --------------------------------------------------------------------------

  /** How an input with this header is refused before anything is decrypted, first reason first. */
  lemma RefusedBeforeDecryption(s: Suite, input: Bytes, o: OpenOptions, h: Header)
    requires WellFormed(h) && BytesOf(h) <= input
    ensures !Addressed(input, h, o) ==> Open(s, input, o) == Err(ContextMismatch)
    ensures Addressed(input, h, o) && !s.matches(h.parts.codec) ==> Open(s, input, o) == Err(CodecUnavailable)
    ensures Addressed(input, h, o) && s.matches(h.parts.codec) ==>
      && (!Within(h.parts.payloadLength, o.maxPayload) ==> Open(s, input, o) == Err(PayloadTooLarge))
      && (Within(h.parts.payloadLength, o.maxPayload) && |input| == h.headerLength ==> Open(s, input, o) == Err(InvalidFormat))
      && (Within(h.parts.payloadLength, o.maxPayload) && |input| > h.headerLength ==>
            var key := s.resolve(h.parts.key,
                                 Context(o.application, o.tenant, o.contentType, h.parts.codec, h.parts.schema));
            key.Err? ==> Open(s, input, o) == Err(key.error))
  {
    InspectIff(input, h);
    LayoutLength(h.parts, h.headerLength);
    LayoutLength(h.parts, 0);
  }

  /** How an unlocked input is refused when it does not decrypt, or to something that cannot be split as announced. */
  lemma RefusedForItsPlaintext(s: Suite, input: Bytes, o: OpenOptions, h: Header, key: SecretKey)
    requires Unlocked(s, input, o, h, key)
    ensures var plain := s.decrypt(key, h.parts.nonce, input[..h.headerLength], input[h.headerLength..]);
      && (plain.None? ==> Open(s, input, o) == Err(AuthenticationFailed))
      && (plain.Some? && |plain.value| < 4 ==> Open(s, input, o) == Err(InvalidFormat))
      && ((&& plain.Some? && |plain.value| >= 4 && plain.value[..4] == BigEndian(h.parts.encryptedLength, 4)
           && 4 + h.parts.encryptedLength > |plain.value|) ==> Open(s, input, o) == Err(InvalidFormat))
  {
    AdmitsIff(s, input, o, h, key);
    AcceptedIsBounded(input, h);
    NumberOfBigEndian(h.parts.encryptedLength, 4);
  }

  /** An unlocked input whose plaintext has other lengths or another digest than its header announces is refused as not
      authentic. */
  lemma RefusedForMismatch(
      s: Suite, input: Bytes, o: OpenOptions, h: Header, key: SecretKey, metadata: Bytes, stored: Bytes)
    requires Unlocked(s, input, o, h, key) && |metadata| < Capacity(4)
    requires s.decrypt(key, h.parts.nonce, input[..h.headerLength], input[h.headerLength..])
             == Some(BigEndian(|metadata|, 4) + metadata + stored)
    requires |metadata| != h.parts.encryptedLength || |stored| != h.parts.payloadLength
             || s.digest(key, stored) != h.parts.payloadHash
    ensures Open(s, input, o) == Err(AuthenticationFailed)
  {
    AdmitsIff(s, input, o, h, key);
    MismatchUnpacks(s, Admitted(h, key), metadata, stored);
  }

  lemma MismatchUnpacks(s: Suite, a: Admitted, metadata: Bytes, stored: Bytes)
    requires |metadata| < Capacity(4)
    requires |metadata| != a.header.parts.encryptedLength || |stored| != a.header.parts.payloadLength
             || s.digest(a.key, stored) != a.header.parts.payloadHash
    ensures Unpack(s, a, BigEndian(|metadata|, 4) + metadata + stored) == Err(AuthenticationFailed)
  {
    var plain := BigEndian(|metadata|, 4) + metadata + stored;
    NumberOfBigEndian(|metadata|, 4);
    assert plain[..4] == BigEndian(|metadata|, 4);
    assert plain[4 + |metadata|..] == stored;
  }

  /** How a revealed payload is refused on its way to the caller. */
  lemma RefusedForItsPayload(
      s: Suite, input: Bytes, o: OpenOptions, h: Header, key: SecretKey, metadata: Bytes, stored: Bytes)
    requires Unlocked(s, input, o, h, key) && Revealed(s, input, h, key, metadata, stored)
    ensures h.parts.flags % 2 == 1 && (o.maxPayload.None? || |s.inflate(stored).output| > o.maxPayload.value) ==>
      Open(s, input, o) == Err(PayloadTooLarge)
    ensures h.parts.flags % 2 == 1 && o.maxPayload.Some? && |s.inflate(stored).output| <= o.maxPayload.value
            && !s.inflate(stored).clean ==>
      Open(s, input, o) == Err(CodecFailed)
    ensures forall encoded :: Expands(s, o, h.parts.flags, stored, encoded) ==>
      && (s.decode(encoded).None? ==> Open(s, input, o) == Err(CodecFailed))
      && (s.decode(encoded).Some? && !Within(|s.decode(encoded).value|, o.maxPayload) ==>
            Open(s, input, o) == Err(PayloadTooLarge))
  {
    AuthenticatesIff(s, input, o, h, metadata, stored);
  }

  /** The one class of inputs on which the in-place path reports another error. */
  lemma ShortExactlyWhen(s: Suite, input: Bytes, o: OpenOptions)
    ensures ShortCiphertext(s, input, o) <==>
      exists h, key :: Unlocked(s, input, o, h, key) && |input| - h.headerLength < 16
  {
    if ShortCiphertext(s, input, o) {
      var a := Admit(s, input, o).value;
      AdmitsIff(s, input, o, a.header, a.key);
    }
    if h, key :| Unlocked(s, input, o, h, key) && |input| - h.headerLength < 16 {
      AdmitsIff(s, input, o, h, key);
    }
  }

  // --------------------------------------------------------------------------
  // Sealing
  // --------------------------------------------------------------------------

  /** The header of a sealed payload: the caller's choices, the codec, the lengths, the nonce and the digest. */
  function HeaderParts(s: Suite, o: SealOptions, key: SecretKey, nonce: Bytes, stored: Bytes): Parts {
    Parts(o.flags, o.application, o.tenant, o.contentType, s.codec, o.key, o.schema, o.createdAt,
          |stored|, nonce, s.digest(key, stored), o.publicMetadata, |o.encryptedMetadata|)
  }

  /** The payload, encoded and compacted when asked, within the limit at every stage. */
  predicate Stores(s: Suite, payload: Bytes, o: SealOptions, stored: Bytes) {
    && Within(|payload|, o.maxPayload) && o.flags % 65536 <= 1
    && s.encode(payload).Some? && Within(|s.encode(payload).value|, o.maxPayload)
    && stored == (if o.flags % 2 == 1 then s.deflate(s.encode(payload).value) else s.encode(payload).value)
    && Within(|stored|, o.maxPayload)
  }

  /** The envelope is made of these. */
  predicate SealsBy(
      s: Suite, payload: Bytes, o: SealOptions, nonce: Option<Bytes>, envelope: Bytes,
      stored: Bytes, key: SecretKey, header: Bytes, ciphertext: Bytes)
  {
    && Stores(s, payload, o, stored) && |stored| <= U64_MAX && |o.encryptedMetadata| < Capacity(4)
    && s.resolve(o.key, Context(o.application, o.tenant, o.contentType, s.codec, o.schema)) == Ok(key)
    && nonce.Some? && Encode(HeaderParts(s, o, key, nonce.value, stored)) == Ok(header)
    && s.encrypt(key, nonce.value, header,
                 BigEndian(|o.encryptedMetadata|, 4) + o.encryptedMetadata + stored) == Some(ciphertext)
    && envelope == header + ciphertext
  }

  ghost predicate SealsTo(s: Suite, payload: Bytes, o: SealOptions, nonce: Option<Bytes>, envelope: Bytes) {
    exists stored, key, header, ciphertext :: SealsBy(s, payload, o, nonce, envelope, stored, key, header, ciphertext)
  }

  lemma PreparesIff(s: Suite, payload: Bytes, o: SealOptions, stored: Bytes)
    ensures Prepare(s, payload, o) == Ok(stored) <==> Stores(s, payload, o, stored)
  {
  }

  lemma SealedBy(s: Suite, payload: Bytes, o: SealOptions, nonce: Option<Bytes>)
    returns (stored: Bytes, key: SecretKey, header: Bytes, ciphertext: Bytes)
    requires Seal(s, payload, o, nonce).Ok?
    ensures SealsBy(s, payload, o, nonce, Seal(s, payload, o, nonce).value, stored, key, header, ciphertext)
  {
    stored := Prepare(s, payload, o).value;
    PreparesIff(s, payload, o, stored);
    key := s.resolve(o.key, Context(o.application, o.tenant, o.contentType, s.codec, o.schema)).value;
    header := Encode(SealedParts(s, o, key, nonce.value, stored)).value;
    ciphertext := s.encrypt(key, nonce.value, header, Plaintext(o.encryptedMetadata, stored)).value;
  }

  lemma SealsFrom(
      s: Suite, payload: Bytes, o: SealOptions, nonce: Option<Bytes>, envelope: Bytes,
      stored: Bytes, key: SecretKey, header: Bytes, ciphertext: Bytes)
    requires SealsBy(s, payload, o, nonce, envelope, stored, key, header, ciphertext)
    ensures Seal(s, payload, o, nonce) == Ok(envelope)
  {
    PreparesIff(s, payload, o, stored);
  }

  /** A payload is sealed to this envelope exactly when it is stored within the limit, key and nonce are there, the header
      can be encoded and the cipher works; the envelope is that header and the ciphertext of metadata and payload. */
  lemma SealsExactlyWhen(s: Suite, payload: Bytes, o: SealOptions, nonce: Option<Bytes>, envelope: Bytes)
    ensures Seal(s, payload, o, nonce) == Ok(envelope) <==> SealsTo(s, payload, o, nonce, envelope)
  {
    if Seal(s, payload, o, nonce) == Ok(envelope) {
      var stored, key, header, ciphertext := SealedBy(s, payload, o, nonce);
    }
    if stored, key, header, ciphertext :| SealsBy(s, payload, o, nonce, envelope, stored, key, header, ciphertext) {
      SealsFrom(s, payload, o, nonce, envelope, stored, key, header, ciphertext);
    }
  }

  /** How a payload is refused that does not get as far as a key, first reason first. */
  lemma NotStoredInOrder(s: Suite, payload: Bytes, o: SealOptions, nonce: Option<Bytes>)
    ensures !Within(|payload|, o.maxPayload) ==> Seal(s, payload, o, nonce) == Err(PayloadTooLarge)
    ensures Within(|payload|, o.maxPayload) && o.flags % 65536 > 1 ==> Seal(s, payload, o, nonce) == Err(InvalidFlags)
    ensures Within(|payload|, o.maxPayload) && o.flags % 65536 <= 1 && s.encode(payload).None? ==>
      Seal(s, payload, o, nonce) == Err(CodecFailed)
    ensures Within(|payload|, o.maxPayload) && o.flags % 65536 <= 1 && s.encode(payload).Some?
            && (forall stored :: !Stores(s, payload, o, stored)) ==>
      Seal(s, payload, o, nonce) == Err(PayloadTooLarge)
  {
    if Prepare(s, payload, o).Ok? {
      PreparesIff(s, payload, o, Prepare(s, payload, o).value);
    }
  }

  /** How a stored payload is refused, first reason first: metadata, key, nonce, length, header, cipher. */
  lemma NotSealedInOrder(s: Suite, payload: Bytes, o: SealOptions, nonce: Option<Bytes>, stored: Bytes)
    requires Stores(s, payload, o, stored)
    ensures var key := s.resolve(o.key, Context(o.application, o.tenant, o.contentType, s.codec, o.schema));
      Seal(s, payload, o, nonce) ==
        if |o.encryptedMetadata| >= Capacity(4) then Err(PayloadTooLarge)
        else if key.Err? then Err(key.error)
        else if nonce.None? then Err(Io)
        else if |stored| > U64_MAX then Err(PayloadTooLarge)
        else
          var header := Encode(HeaderParts(s, o, key.value, nonce.value, stored));
          if header.Err? then Err(header.error)
          else
            var ciphertext := s.encrypt(key.value, nonce.value, header.value,
                                        BigEndian(|o.encryptedMetadata|, 4) + o.encryptedMetadata + stored);
            if ciphertext.None? then Err(AuthenticationFailed) else Ok(header.value + ciphertext.value)
  {
    PreparesIff(s, payload, o, stored);
  }

  // --------------------------------------------------------------------------
  // Re-keying
  // --------------------------------------------------------------------------

  /** What a re-key seals: the opened content under another key identifier, or the same. */
  function Rekeyed(content: Opened, newKey: Option<Bytes>, max: Option<nat>): SealOptions {
    var p := content.header.parts;
    SealOptions(p.application, p.tenant, p.contentType, p.schema, if newKey.Some? then newKey.value else p.key,
                p.createdAt, p.publicMetadata, content.encryptedMetadata, p.flags, max)
  }

  /** A re-key or migration gives this envelope exactly when the input opens and what it holds is sealed to it. */
  lemma ResealsExactlyWhen(
      s: Suite, input: Bytes, o: OpenOptions, newKey: Option<Bytes>, nonce: Option<Bytes>, envelope: Bytes)
    ensures Reseal(s, input, o, newKey, nonce) == Ok(envelope) <==>
      exists content :: OpensTo(s, input, o, content)
                        && SealsTo(s, content.payload, Rekeyed(content, newKey, o.maxPayload), nonce, envelope)
  {
    forall content ensures Open(s, input, o) == Ok(content) <==> OpensTo(s, input, o, content) {
      OpensExactlyWhen(s, input, o, content);
    }
    if Open(s, input, o).Ok? {
      var content := Open(s, input, o).value;
      SealsExactlyWhen(s, content.payload, Rekeyed(content, newKey, o.maxPayload), nonce, envelope);
    }
  }
}
