/** Sealing, opening, in-place opening and re-keying of DNT envelopes. */
module DntEnvelope {
  import opened Prelude
  import opened DntHeader

  type SecretKey = Bytes

  const TAG: nat := 16

  datatype Context = Context(
    application: Bytes, tenant: Option<Bytes>, contentType: Bytes, codec: Bytes, schema: nat)

  /** Everything a decompressor yields before its input ends (`clean`) or turns out to be broken. */
  datatype Inflated = Inflated(output: Bytes, clean: bool)

  /** Key provider, cipher, keyed digest, compressor and codec of one caller. */
  datatype Suite = Suite(
    resolve: (Bytes, Context) -> Result<SecretKey, Error>,
    encrypt: (SecretKey, Bytes, Bytes, Bytes) -> Option<Bytes>,
    decrypt: (SecretKey, Bytes, Bytes, Bytes) -> Option<Bytes>,
    digest: (SecretKey, Bytes) -> Bytes,
    deflate: Bytes -> Bytes,
    inflate: Bytes -> Inflated,
    codec: Bytes,
    matches: Bytes -> bool,
    encode: Bytes -> Option<Bytes>,
    decode: Bytes -> Option<Bytes>)

  /** The cipher undoes itself under the same key, nonce and associated bytes, at the cost of one tag. */
  ghost predicate LawfulCipher(s: Suite) {
    && (forall k, n, a, p :: s.encrypt(k, n, a, p).Some? ==> s.decrypt(k, n, a, s.encrypt(k, n, a, p).value) == Some(p))
    && (forall k, n, a, c :: s.decrypt(k, n, a, c).Some? ==> |c| == |s.decrypt(k, n, a, c).value| + TAG)
  }

  /** Codec and compressor are undone by their inverses, and a codec accepts its own identifier. */
  ghost predicate LawfulCodec(s: Suite) {
    && IsName(s.codec, Codec) && TakeableText(s.codec) && s.matches(s.codec)
    && (forall x :: s.encode(x).Some? ==> s.decode(s.encode(x).value) == Some(x))
    && (forall x :: s.inflate(s.deflate(x)) == Inflated(x, true))
    && (forall k, x :: |s.digest(k, x)| == 32)
  }

  datatype SealOptions = SealOptions(
    application: Bytes, tenant: Option<Bytes>, contentType: Bytes, schema: nat, key: Bytes, createdAt: nat,
    publicMetadata: Bytes, encryptedMetadata: Bytes, flags: nat, maxPayload: Option<nat>)

  datatype OpenOptions = OpenOptions(
    application: Bytes, tenant: Option<Bytes>, contentType: Bytes, maxPayload: Option<nat>)

  datatype Opened = Opened(header: Header, payload: Bytes, encryptedMetadata: Bytes)

  predicate Exceeds(length: nat, max: Option<nat>) {
    max.Some? && length > max.value
  }

  // --------------------------------------------------------------------------
  // Plaintext layout and compaction
  // --------------------------------------------------------------------------

  function Plaintext(metadata: Bytes, payload: Bytes): Bytes {
    BigEndian(|metadata|, 4) + metadata + payload
  }

  method EncodePlaintext(metadata: Bytes, payload: Bytes) returns (r: Result<Bytes, Error>)
    ensures r == if |metadata| < Capacity(4) then Ok(Plaintext(metadata, payload)) else Err(PayloadTooLarge)
  {
    if |metadata| >= Capacity(4) {
      return Err(PayloadTooLarge);
    }
    var output := BigEndian(|metadata|, 4);
    output := output + metadata;
    output := output + payload;
    r := Ok(output);
  }

  /** Where the payload starts; the metadata lies between byte 4 and there. */
  function PayloadStart(plain: Bytes, header: Header): (r: Result<nat, Error>)
    ensures r.Ok? ==> 4 <= r.value <= |plain|
  {
    if |plain| < 4 then Err(InvalidFormat)
    else
      var n := Number(plain[..4]);
      if n != header.parts.encryptedLength then Err(AuthenticationFailed)
      else if 4 + n > |plain| then Err(InvalidFormat)
      else if |plain| - (4 + n) != header.parts.payloadLength then Err(AuthenticationFailed)
      else Ok(4 + n)
  }

  /** Reads one byte more than allowed at most, so a broken tail past the limit is never reached. */
  function InflateBounded(s: Suite, stored: Bytes, max: Option<nat>): Result<Bytes, Error> {
    if max.None? then Err(PayloadTooLarge)
    else
      var inflated := s.inflate(stored);
      if |inflated.output| > max.value then Err(PayloadTooLarge)
      else if !inflated.clean then Err(CodecFailed)
      else Ok(inflated.output)
  }

  function Stored(s: Suite, flags: nat, encoded: Bytes): Bytes {
    if Compacted(flags) then s.deflate(encoded) else encoded
  }

  // --------------------------------------------------------------------------
  // Seal
  // --------------------------------------------------------------------------

  function SealedParts(s: Suite, o: SealOptions, key: SecretKey, nonce: Bytes, stored: Bytes): Parts {
    Parts(o.flags, o.application, o.tenant, o.contentType, s.codec, o.key, o.schema, o.createdAt,
          |stored|, nonce, s.digest(key, stored), o.publicMetadata, |o.encryptedMetadata|)
  }

  /** The stored form of the payload, or the first limit or codec failure on the way to it. */
  function Prepare(s: Suite, payload: Bytes, o: SealOptions): Result<Bytes, Error> {
    if Exceeds(|payload|, o.maxPayload) then Err(PayloadTooLarge)
    else if !ValidFlags(o.flags) then Err(InvalidFlags)
    else
      var encoded := s.encode(payload);
      if encoded.None? then Err(CodecFailed)
      else if Exceeds(|encoded.value|, o.maxPayload) then Err(PayloadTooLarge)
      else
        var stored := Stored(s, o.flags, encoded.value);
        if Exceeds(|stored|, o.maxPayload) then Err(PayloadTooLarge) else Ok(stored)
  }

  function Seal(s: Suite, payload: Bytes, o: SealOptions, nonce: Option<Bytes>): Result<Bytes, Error> {
    var stored :- Prepare(s, payload, o);
    if |o.encryptedMetadata| >= Capacity(4) then Err(PayloadTooLarge)
    else
      var key :- s.resolve(o.key, Context(o.application, o.tenant, o.contentType, s.codec, o.schema));
      if nonce.None? then Err(Io)
      else if |stored| > U64_MAX then Err(PayloadTooLarge)
      else
        var header :- Encode(SealedParts(s, o, key, nonce.value, stored));
        var ciphertext := s.encrypt(key, nonce.value, header, Plaintext(o.encryptedMetadata, stored));
        if ciphertext.None? then Err(AuthenticationFailed) else Ok(header + ciphertext.value)
  }

  // --------------------------------------------------------------------------
  // Open
  // --------------------------------------------------------------------------

  datatype Admitted = Admitted(header: Header, key: SecretKey)

  /** The checks made before any decryption. */
  function Admit(s: Suite, input: Bytes, o: OpenOptions): (r: Result<Admitted, Error>)
    ensures r.Ok? ==> Inspect(input) == Ok(r.value.header) && r.value.header.headerLength < |input|
  {
    var header :- Inspect(input);
    var p := header.parts;
    if p.application != o.application || p.tenant != o.tenant || p.contentType != o.contentType then
      Err(ContextMismatch)
    else if !s.matches(p.codec) then Err(CodecUnavailable)
    else if Exceeds(p.payloadLength, o.maxPayload) then Err(PayloadTooLarge)
    else if |input| <= header.headerLength then Err(InvalidFormat)
    else
      var key :- s.resolve(p.key, Context(p.application, p.tenant, p.contentType, p.codec, p.schema));
      Ok(Admitted(header, key))
  }

  datatype Authenticated = Authenticated(header: Header, encryptedMetadata: Bytes, stored: Bytes)

  /** The checks made on decrypted bytes. */
  function Unpack(s: Suite, a: Admitted, plain: Bytes): Result<Authenticated, Error> {
    var start :- PayloadStart(plain, a.header);
    if s.digest(a.key, plain[start..]) != a.header.parts.payloadHash then Err(AuthenticationFailed)
    else Ok(Authenticated(a.header, plain[4..start], plain[start..]))
  }

  function Decrypted(s: Suite, a: Admitted, input: Bytes): Option<Bytes>
    requires a.header.headerLength <= |input|
  {
    s.decrypt(a.key, a.header.parts.nonce, input[..a.header.headerLength], input[a.header.headerLength..])
  }

  function Authenticate(s: Suite, input: Bytes, o: OpenOptions): Result<Authenticated, Error> {
    var a :- Admit(s, input, o);
    var plain := Decrypted(s, a, input);
    if plain.None? then Err(AuthenticationFailed) else Unpack(s, a, plain.value)
  }

  function Deliver(s: Suite, a: Authenticated, o: OpenOptions): Result<Opened, Error> {
    var encoded :- if Compacted(a.header.parts.flags) then InflateBounded(s, a.stored, o.maxPayload) else Ok(a.stored);
    var payload := s.decode(encoded);
    if payload.None? then Err(CodecFailed)
    else if Exceeds(|payload.value|, o.maxPayload) then Err(PayloadTooLarge)
    else Ok(Opened(a.header, payload.value, a.encryptedMetadata))
  }

  function Open(s: Suite, input: Bytes, o: OpenOptions): Result<Opened, Error> {
    var authenticated :- Authenticate(s, input, o);
    Deliver(s, authenticated, o)
  }

  // --------------------------------------------------------------------------
  // Open in the caller's own buffer
  // --------------------------------------------------------------------------

  /** Admitted, but shorter than one authentication tag. */
  predicate ShortCiphertext(s: Suite, input: Bytes, o: OpenOptions) {
    Admit(s, input, o).Ok? && |input| - Admit(s, input, o).value.header.headerLength < TAG
  }

  /** Overwrites the ciphertext with its plaintext and returns where that ends; the tag stays behind it. */
  method DecryptOwnedInPlace(s: Suite, a: Admitted, input: array<byte>) returns (r: Result<nat, Error>)
    requires LawfulCipher(s) && a.header.headerLength <= input.Length
    modifies input
    ensures r.Ok? ==> a.header.headerLength <= r.value <= input.Length
    ensures
      var start, plain := a.header.headerLength, Decrypted(s, a, old(input[..]));
      if input.Length - start < TAG then r == Err(InvalidFormat)
      else if plain.None? then r == Err(AuthenticationFailed)
      else r == Ok(start + |plain.value|) && input[start..start + |plain.value|] == plain.value
  {
    var start := a.header.headerLength;
    if input.Length - start < TAG {
      return Err(InvalidFormat);
    }
    var plain := Decrypted(s, a, input[..]);
    if plain.None? {
      return Err(AuthenticationFailed);
    }
    var n := |plain.value|;
    for k := 0 to n
      invariant start + n + TAG == input.Length
      invariant input[start..start + k] == plain.value[..k]
    {
      input[start + k] := plain.value[k];
    }
    r := Ok(start + n);
  }

  datatype OwnedAuthenticated = OwnedAuthenticated(header: Header, encryptedMetadata: Bytes, start: nat, end: nat)

  /** The same verdict, with the payload given as a range of the buffer instead of a copy. */
  predicate InBuffer(r: Result<OwnedAuthenticated, Error>, buffer: Bytes, spec: Result<Authenticated, Error>) {
    match spec
    case Err(e) => r == Err(e)
    case Ok(a) =>
      && r.Ok? && r.value.start <= r.value.end <= |buffer|
      && Authenticated(r.value.header, r.value.encryptedMetadata, buffer[r.value.start..r.value.end]) == a
  }

  lemma SliceOfSlice(b: Bytes, i: nat, j: nat, k: nat, l: nat)
    requires k <= l <= j - i && i <= j <= |b|
    ensures b[i..j][k..l] == b[i + k..i + l]
  {
    forall t | 0 <= t < l - k ensures b[i..j][k..l][t] == b[i + k..i + l][t] {
      assert b[i..j][k..l][t] == b[i..j][k + t] == b[i + k + t];
    }
  }

  method UnpackOwned(s: Suite, a: Admitted, input: array<byte>, end: nat)
    returns (r: Result<OwnedAuthenticated, Error>)
    requires a.header.headerLength <= end <= input.Length
    ensures InBuffer(r, input[..], Unpack(s, a, input[a.header.headerLength..end]))
  {
    var from := a.header.headerLength;
    ghost var plain := input[from..end];
    var offset :- PayloadStart(input[from..end], a.header);
    var start := from + offset;
    SliceOfSlice(input[..], from, end, 4, offset);
    SliceOfSlice(input[..], from, end, offset, |plain|);
    if s.digest(a.key, input[start..end]) != a.header.parts.payloadHash {
      return Err(AuthenticationFailed);
    }
    r := Ok(OwnedAuthenticated(a.header, input[from + 4..start], start, end));
  }

  /** Verdict on the original input, with the payload in the buffer it was decrypted into. */
  predicate OwnedVerdict(
      r: Result<OwnedAuthenticated, Error>, buffer: Bytes, s: Suite, original: Bytes, o: OpenOptions)
  {
    if ShortCiphertext(s, original, o) then r == Err(InvalidFormat)
    else InBuffer(r, buffer, Authenticate(s, original, o))
  }

  lemma VerdictAfterAdmission(
      r: Result<OwnedAuthenticated, Error>, buffer: Bytes, s: Suite, original: Bytes, o: OpenOptions, a: Admitted)
    requires Admit(s, original, o) == Ok(a)
    requires
      if |original| - a.header.headerLength < TAG then r == Err(InvalidFormat)
      else if Decrypted(s, a, original).None? then r == Err(AuthenticationFailed)
      else InBuffer(r, buffer, Unpack(s, a, Decrypted(s, a, original).value))
    ensures OwnedVerdict(r, buffer, s, original, o)
  {
  }

  /** The part behind the admission checks. */
  method DecryptAndUnpackOwned(s: Suite, a: Admitted, input: array<byte>)
    returns (r: Result<OwnedAuthenticated, Error>)
    requires LawfulCipher(s) && a.header.headerLength <= input.Length
    modifies input
    ensures
      var plain := Decrypted(s, a, old(input[..]));
      if input.Length - a.header.headerLength < TAG then r == Err(InvalidFormat)
      else if plain.None? then r == Err(AuthenticationFailed)
      else InBuffer(r, input[..], Unpack(s, a, plain.value))
  {
    var end :- DecryptOwnedInPlace(s, a, input);
    r := UnpackOwned(s, a, input, end);
  }

  method AuthenticateOwned(s: Suite, input: array<byte>, o: OpenOptions)
    returns (r: Result<OwnedAuthenticated, Error>)
    requires LawfulCipher(s)
    modifies input
    ensures OwnedVerdict(r, input[..], s, old(input[..]), o)
  {
    var a :- Admit(s, input[..], o);
    r := DecryptAndUnpackOwned(s, a, input);
    VerdictAfterAdmission(r, input[..], s, old(input[..]), o, a);
  }

  /** Shifts the payload to the front over ranges that may overlap, clears what is behind it and cuts there. */
  method TakePayloadBuffer(buffer: array<byte>, start: nat, end: nat) returns (payload: Bytes)
    requires start <= end <= buffer.Length
    modifies buffer
    ensures payload == old(buffer[start..end])
    ensures payload <= buffer[..]
    ensures forall k :: |payload| <= k < end ==> buffer[k] == 0
  {
    var n := end - start;
    if start != 0 {
      for k := 0 to n
        invariant forall j :: 0 <= j < k ==> buffer[j] == old(buffer[start + j])
        invariant forall j :: k <= j < buffer.Length ==> buffer[j] == old(buffer[j])
      {
        buffer[k] := buffer[start + k];
      }
    }
    assert buffer[..n] == old(buffer[start..end]);
    for k := n to end
      invariant buffer[..n] == old(buffer[start..end])
      invariant forall j :: n <= j < k ==> buffer[j] == 0
    {
      buffer[k] := 0;
    }
    payload := buffer[..n];
  }

  method OpenOwned(s: Suite, input: array<byte>, o: OpenOptions) returns (r: Result<Opened, Error>)
    requires LawfulCipher(s)
    modifies input
    ensures r == if ShortCiphertext(s, old(input[..]), o) then Err(InvalidFormat) else Open(s, old(input[..]), o)
  {
    var a :- AuthenticateOwned(s, input, o);
    var encoded;
    if Compacted(a.header.parts.flags) {
      encoded :- InflateBounded(s, input[a.start..a.end], o.maxPayload);
    } else {
      encoded := TakePayloadBuffer(input, a.start, a.end);
    }
    var payload := s.decode(encoded);
    if payload.None? {
      return Err(CodecFailed);
    }
    if Exceeds(|payload.value|, o.maxPayload) {
      return Err(PayloadTooLarge);
    }
    r := Ok(Opened(a.header, payload.value, a.encryptedMetadata));
  }

  /** On a ciphertext shorter than a tag `Open` fails too, with another error: successes are the same. */
  lemma ShortCiphertextFails(s: Suite, input: Bytes, o: OpenOptions)
    requires LawfulCipher(s) && ShortCiphertext(s, input, o)
    ensures Open(s, input, o) == Err(AuthenticationFailed)
  {
    var a := Admit(s, input, o).value;
    assert Decrypted(s, a, input).None?;
  }

  // --------------------------------------------------------------------------
  // Sealing, then opening
  // --------------------------------------------------------------------------

  /** What the types of the seal options and of the nonce already guarantee. */
  predicate Typed(o: SealOptions, nonce: Option<Bytes>) {
    && NameFits(o.application, Application) && TenantFits(o.tenant) && NameFits(o.contentType, ContentType)
    && NameFits(o.key, Key) && o.schema < Capacity(4) && o.createdAt < Capacity(8) && o.flags < Capacity(4)
    && (nonce.Some? ==> |nonce.value| == 24)
  }

  /** The options address the envelope that was sealed with `o`. */
  predicate Addresses(open: OpenOptions, o: SealOptions) {
    open.application == o.application && open.tenant == o.tenant && open.contentType == o.contentType
  }

  /** The opener's limit covers every form of the payload; a compacted one cannot be read without a limit. */
  predicate Covers(max: Option<nat>, s: Suite, payload: Bytes, flags: nat)
    requires s.encode(payload).Some?
  {
    var encoded := s.encode(payload).value;
    && !Exceeds(|Stored(s, flags, encoded)|, max) && !Exceeds(|payload|, max)
    && (Compacted(flags) ==> max.Some? && |encoded| <= max.value)
  }

  lemma SealedPartsFit(s: Suite, o: SealOptions, key: SecretKey, nonce: Bytes, stored: Bytes)
    requires LawfulCodec(s) && Typed(o, Some(nonce)) && ValidFlags(o.flags) && |stored| <= U64_MAX
    requires Encode(SealedParts(s, o, key, nonce, stored)).Ok?
    ensures Fits(SealedParts(s, o, key, nonce, stored))
  {
    var p := SealedParts(s, o, key, nonce, stored);
    assert Capacity(8) == U64_MAX + 1;
    assert NumbersFit(NumbersOf(p));
    assert NameFits(p.codec, Codec);
    assert DigestsFit(DigestsOf(p));
  }

  lemma PlaintextReads(metadata: Bytes, payload: Bytes, h: Header)
    requires h.parts.encryptedLength == |metadata| < Capacity(4) && h.parts.payloadLength == |payload|
    ensures PayloadStart(Plaintext(metadata, payload), h) == Ok(4 + |metadata|)
    ensures Plaintext(metadata, payload)[4..4 + |metadata|] == metadata
    ensures Plaintext(metadata, payload)[4 + |metadata|..] == payload
  {
    var plain := Plaintext(metadata, payload);
    NumberOfBigEndian(|metadata|, 4);
    assert plain[..4] == BigEndian(|metadata|, 4);
  }

  /** A sealed envelope consists of these parts, and its ciphertext decrypts to the plaintext. */
  ghost predicate SealedAs(s: Suite, o: SealOptions, envelope: Bytes, key: SecretKey, nonce: Bytes, stored: Bytes) {
    var p := SealedParts(s, o, key, nonce, stored);
    && s.resolve(o.key, Context(o.application, o.tenant, o.contentType, s.codec, o.schema)) == Ok(key)
    && Encode(p).Ok? && Fits(p) && Encode(p).value <= envelope
    && var ciphertext := envelope[|Encode(p).value|..];
    |ciphertext| >= TAG
    && s.decrypt(key, nonce, Encode(p).value, ciphertext) == Some(Plaintext(o.encryptedMetadata, stored))
  }

  lemma SealedStructure(s: Suite, payload: Bytes, o: SealOptions, nonce: Option<Bytes>)
    returns (key: SecretKey, stored: Bytes)
    requires LawfulCipher(s) && LawfulCodec(s) && Typed(o, nonce) && Seal(s, payload, o, nonce).Ok?
    ensures nonce.Some? && Prepare(s, payload, o) == Ok(stored)
    ensures SealedAs(s, o, Seal(s, payload, o, nonce).value, key, nonce.value, stored)
  {
    stored := Prepare(s, payload, o).value;
    key := s.resolve(o.key, Context(o.application, o.tenant, o.contentType, s.codec, o.schema)).value;
    var p := SealedParts(s, o, key, nonce.value, stored);
    SealedPartsFit(s, o, key, nonce.value, stored);
    var header := Encode(p).value;
    var ciphertext := s.encrypt(key, nonce.value, header, Plaintext(o.encryptedMetadata, stored)).value;
    assert (header + ciphertext)[|header|..] == ciphertext;
  }

  lemma SealedAuthenticates(
      s: Suite, o: SealOptions, envelope: Bytes, key: SecretKey, nonce: Bytes, stored: Bytes, open: OpenOptions)
    requires SealedAs(s, o, envelope, key, nonce, stored) && s.matches(s.codec) && Addresses(open, o)
    ensures var p := SealedParts(s, o, key, nonce, stored);
            Authenticate(s, envelope, open)
            == if Exceeds(|stored|, open.maxPayload) then Err(PayloadTooLarge)
               else Ok(Authenticated(Header(VERSION, |Encode(p).value|, p), o.encryptedMetadata, stored))
  {
    var p := SealedParts(s, o, key, nonce, stored);
    var header := Encode(p).value;
    var h := Header(VERSION, |header|, p);
    assert envelope == header + envelope[|header|..];
    EncodedInspects(p, envelope[|header|..]);
    PlaintextReads(o.encryptedMetadata, stored, h);
    if !Exceeds(|stored|, open.maxPayload) {
      assert Admit(s, envelope, open) == Ok(Admitted(h, key));
      assert envelope[..|header|] == header;
      assert Decrypted(s, Admitted(h, key), envelope) == Some(Plaintext(o.encryptedMetadata, stored));
    }
  }

  lemma StoredDelivers(s: Suite, payload: Bytes, h: Header, metadata: Bytes, open: OpenOptions)
    requires LawfulCodec(s) && s.encode(payload).Some?
    requires !Exceeds(|Stored(s, h.parts.flags, s.encode(payload).value)|, open.maxPayload)
    ensures Deliver(s, Authenticated(h, metadata, Stored(s, h.parts.flags, s.encode(payload).value)), open)
            == if Covers(open.maxPayload, s, payload, h.parts.flags) then Ok(Opened(h, payload, metadata))
               else Err(PayloadTooLarge)
  {
  }

  /**
   * Opening what was sealed returns the payload, the metadata and a header with the chosen fields, exactly
   * when the opener's limit covers the payload; otherwise it is refused for its size.
   */
  lemma SealThenOpen(s: Suite, payload: Bytes, o: SealOptions, nonce: Option<Bytes>, open: OpenOptions)
    returns (header: Header)
    requires LawfulCipher(s) && LawfulCodec(s) && Typed(o, nonce) && Seal(s, payload, o, nonce).Ok?
    requires Addresses(open, o)
    ensures s.encode(payload).Some? && Chosen(header.parts, s, o)
    ensures Open(s, Seal(s, payload, o, nonce).value, open)
            == if Covers(open.maxPayload, s, payload, o.flags)
               then Ok(Opened(header, payload, o.encryptedMetadata)) else Err(PayloadTooLarge)
  {
    var key, stored := SealedStructure(s, payload, o, nonce);
    var envelope := Seal(s, payload, o, nonce).value;
    var p := SealedParts(s, o, key, nonce.value, stored);
    header := Header(VERSION, |Encode(p).value|, p);
    SealedAuthenticates(s, o, envelope, key, nonce.value, stored, open);
    if !Exceeds(|stored|, open.maxPayload) {
      StoredDelivers(s, payload, header, o.encryptedMetadata, open);
    }
  }

  /** The header fields the caller of `Seal` chose, and the codec's own identifier. */
  predicate Chosen(p: Parts, s: Suite, o: SealOptions) {
    && p.flags == o.flags && p.application == o.application && p.tenant == o.tenant
    && p.contentType == o.contentType && p.codec == s.codec && p.key == o.key && p.schema == o.schema
    && p.createdAt == o.createdAt && p.publicMetadata == o.publicMetadata
  }

  /** Under the limit it was sealed with, an envelope reopens unless it is compacted and there is no limit. */
  lemma ReopensUnderItsOwnLimit(s: Suite, payload: Bytes, o: SealOptions, nonce: Option<Bytes>)
    requires LawfulCipher(s) && LawfulCodec(s) && Typed(o, nonce) && Seal(s, payload, o, nonce).Ok?
    ensures var open := OpenOptions(o.application, o.tenant, o.contentType, o.maxPayload);
            Open(s, Seal(s, payload, o, nonce).value, open).Ok? <==> !(Compacted(o.flags) && o.maxPayload.None?)
  {
    var open := OpenOptions(o.application, o.tenant, o.contentType, o.maxPayload);
    var header := SealThenOpen(s, payload, o, nonce, open);
    assert Covers(o.maxPayload, s, payload, o.flags) <==> !(Compacted(o.flags) && o.maxPayload.None?);
  }

  // --------------------------------------------------------------------------
  // Size
  // --------------------------------------------------------------------------

  /** Whatever opens under a payload limit is bounded by that limit, the two fixed bounds, four bytes and a tag. */
  lemma OpenedIsBounded(s: Suite, input: Bytes, o: OpenOptions, limit: nat)
    requires LawfulCipher(s) && Open(s, input, o).Ok? && o.maxPayload == Some(limit)
    ensures |input| <= limit + MAX_HEADER + MAX_ENCRYPTED_METADATA + 4 + TAG
  {
    var a := Admit(s, input, o).value;
    AcceptedIsBounded(input, a.header);
    var plain := Decrypted(s, a, input).value;
    var start := PayloadStart(plain, a.header).value;
    assert |input| == a.header.headerLength + |plain| + TAG;
    assert |plain| == 4 + a.header.parts.encryptedLength + a.header.parts.payloadLength;
  }
}
