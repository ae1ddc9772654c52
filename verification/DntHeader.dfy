/** The DNT envelope header: a canonical encoder and the cursor parser that reads it back. */
module DntHeader {
  import opened Prelude
  import TextFile

  const MAGIC: Bytes := [65, 80, 68, 78, 84, 0, 0, 1]
  const VERSION: nat := 1
  const ALGORITHM: nat := 1
  const MAX_HEADER: nat := 65536
  const MAX_ENCRYPTED_METADATA: nat := 65536
  const MIN_PREFIX: nat := 14

  datatype Error =
    | InvalidFormat | UnsupportedVersion | PayloadTooLarge | InvalidFlags | ContextMismatch
    | KeyUnavailable | AuthenticationFailed | CodecUnavailable | CodecFailed | Io

  /** The fields the encoder is given. */
  datatype Parts = Parts(
    flags: nat, application: Bytes, tenant: Option<Bytes>, contentType: Bytes, codec: Bytes, key: Bytes,
    schema: nat, createdAt: nat, payloadLength: nat, nonce: Bytes, payloadHash: Bytes,
    publicMetadata: Bytes, encryptedLength: nat)

  datatype Header = Header(envelopeVersion: nat, headerLength: nat, parts: Parts)

  // --------------------------------------------------------------------------
  // Identifiers and flags
  // --------------------------------------------------------------------------

  predicate IsLowerOrDigit(b: byte) {
    'a' as int <= b <= 'z' as int || '0' as int <= b <= '9' as int
  }

  predicate IsAlphanumeric(b: byte) {
    IsLowerOrDigit(b) || 'A' as int <= b <= 'Z' as int
  }

  predicate IsApplicationId(id: Bytes) {
    && 0 < |id| <= 128 && IsAlphanumeric(id[0]) && IsAlphanumeric(id[|id| - 1])
    && forall i :: 0 <= i < |id| ==> IsAlphanumeric(id[i]) || id[i] as char in "-_.:+"
  }

  predicate IsTenantId(id: Bytes) {
    && 2 <= |id| <= 80 && IsLowerOrDigit(id[0])
    && forall i :: 0 <= i < |id| ==> IsLowerOrDigit(id[i]) || id[i] == '-' as int
  }

  predicate IsDntId(id: Bytes, max: nat, allowSlash: bool) {
    && 0 < |id| <= max && id[0] != '/' as int && id[|id| - 1] != '/' as int
    && forall i :: 0 <= i < |id| ==>
      IsAlphanumeric(id[i]) || id[i] as char in "-_." || (allowSlash && id[i] == '/' as int)
  }

  datatype NameKind = Application | ContentType | Codec | Key

  predicate IsName(text: Bytes, kind: NameKind) {
    match kind
    case Application => IsApplicationId(text)
    case ContentType => IsDntId(text, 128, true)
    case Codec => IsDntId(text, 64, false)
    case Key => IsDntId(text, 128, false)
  }

  predicate InClass(b: byte, upper: bool, others: string) {
    var c := b as char;
    c in LOWER || c in DIGITS || (upper && c in UPPER) || c in others
  }

  predicate AllInClass(text: Bytes, upper: bool, others: string) {
    forall i :: 0 <= i < |text| ==> InClass(text[i], upper, others)
  }

  lemma CharacterClasses(b: byte)
    ensures IsLowerOrDigit(b) <==> InClass(b, false, "")
    ensures IsAlphanumeric(b) <==> InClass(b, true, "")
    ensures b as char in "-_." || b == 47 || IsAlphanumeric(b) <==> InClass(b, true, "-_./")
    ensures b as char in "-_." || IsAlphanumeric(b) <==> InClass(b, true, "-_.")
    ensures b as char in "-_.:+" || IsAlphanumeric(b) <==> InClass(b, true, "-_.:+")
    ensures b == 45 || IsLowerOrDigit(b) <==> InClass(b, false, "-")
  {
    LetterRanges(b as char);
  }

  lemma AllCharacterClasses()
    ensures forall b: byte :: IsLowerOrDigit(b) <==> InClass(b, false, "")
    ensures forall b: byte :: IsAlphanumeric(b) <==> InClass(b, true, "")
    ensures forall b: byte :: b as char in "-_." || b == 47 || IsAlphanumeric(b) <==> InClass(b, true, "-_./")
    ensures forall b: byte :: b as char in "-_." || IsAlphanumeric(b) <==> InClass(b, true, "-_.")
    ensures forall b: byte :: b as char in "-_.:+" || IsAlphanumeric(b) <==> InClass(b, true, "-_.:+")
    ensures forall b: byte :: b == 45 || IsLowerOrDigit(b) <==> InClass(b, false, "-")
  {
    forall b: byte
      ensures IsLowerOrDigit(b) <==> InClass(b, false, "")
      ensures IsAlphanumeric(b) <==> InClass(b, true, "")
      ensures b as char in "-_." || b == 47 || IsAlphanumeric(b) <==> InClass(b, true, "-_./")
      ensures b as char in "-_." || IsAlphanumeric(b) <==> InClass(b, true, "-_.")
      ensures b as char in "-_.:+" || IsAlphanumeric(b) <==> InClass(b, true, "-_.:+")
      ensures b == 45 || IsLowerOrDigit(b) <==> InClass(b, false, "-")
    {
      CharacterClasses(b);
    }
  }

  /** Which identifiers there are of each kind. */
  lemma NamesAre(text: Bytes)
    ensures IsName(text, Application) <==>
      && 1 <= |text| <= 128 && InClass(text[0], true, "") && InClass(text[|text| - 1], true, "")
      && AllInClass(text, true, "-_.:+")
    ensures IsName(text, ContentType) <==>
      && 1 <= |text| <= 128 && text[0] != 47 && text[|text| - 1] != 47 && AllInClass(text, true, "-_./")
    ensures IsName(text, Codec) <==> 1 <= |text| <= 64 && AllInClass(text, true, "-_.")
    ensures IsName(text, Key) <==> 1 <= |text| <= 128 && AllInClass(text, true, "-_.")
    ensures IsTenantId(text) <==> 2 <= |text| <= 80 && InClass(text[0], false, "") && AllInClass(text, false, "-")
  {
    AllCharacterClasses();
  }

  /** Of the low sixteen bits only the compaction bit has a meaning. */
  predicate ValidFlags(flags: nat) {
    flags % 65536 <= 1
  }

  predicate Compacted(flags: nat) {
    flags % 2 == 1
  }

  // --------------------------------------------------------------------------
  // Numbers
  // --------------------------------------------------------------------------

  function BigEndian(value: nat, width: nat): (bytes: Bytes)
    ensures |bytes| == width
  {
    if width == 0 then [] else BigEndian(value / 256, width - 1) + [value % 256]
  }

  function Number(bytes: Bytes): nat {
    if bytes == [] then 0 else Number(bytes[..|bytes| - 1]) * 256 + bytes[|bytes| - 1]
  }

  function Capacity(width: nat): nat {
    if width == 0 then 1 else 256 * Capacity(width - 1)
  }

  lemma {:induction false} NumberOfBigEndian(value: nat, width: nat)
    requires value < Capacity(width)
    ensures Number(BigEndian(value, width)) == value
  {
    if width > 0 {
      NumberOfBigEndian(value / 256, width - 1);
      assert BigEndian(value, width)[..width - 1] == BigEndian(value / 256, width - 1);
    }
  }

  lemma {:induction false} BigEndianOfNumber(bytes: Bytes)
    ensures Number(bytes) < Capacity(|bytes|) && BigEndian(Number(bytes), |bytes|) == bytes
  {
    if bytes != [] {
      BigEndianOfNumber(bytes[..|bytes| - 1]);
      assert bytes == bytes[..|bytes| - 1] + [bytes[|bytes| - 1]];
    }
  }

  // --------------------------------------------------------------------------
  // Encoder
  // --------------------------------------------------------------------------

  function TextBytes(text: Bytes): Bytes {
    BigEndian(|text|, 2) + text
  }

  function OptionalTextBytes(text: Option<Bytes>): Bytes {
    if text.Some? then TextBytes(text.value) else BigEndian(0, 2)
  }

  /** The header with the given length field, section by section, each followed by the next. */
  function Layout(p: Parts, length: nat): Bytes {
    PutPrefix(length, PutNumbers(p, PutDigests(p, PutNames(p, p.publicMetadata))))
  }

  function PutPrefix(length: nat, tail: Bytes): Bytes {
    MAGIC + (BigEndian(VERSION, 2) + (BigEndian(length, 4) + tail))
  }

  function PutNumbers(p: Parts, tail: Bytes): Bytes {
    BigEndian(p.flags, 4) + (BigEndian(ALGORITHM, 2) + (BigEndian(p.schema, 4)
      + (BigEndian(p.createdAt, 8) + (BigEndian(p.payloadLength, 8) + tail))))
  }

  function PutDigests(p: Parts, tail: Bytes): Bytes {
    p.nonce + (p.payloadHash + (BigEndian(|p.publicMetadata|, 4) + (BigEndian(p.encryptedLength, 4) + tail)))
  }

  function PutNames(p: Parts, tail: Bytes): Bytes {
    TextBytes(p.application) + (OptionalTextBytes(p.tenant)
      + (TextBytes(p.contentType) + (TextBytes(p.codec) + (TextBytes(p.key) + tail))))
  }

  predicate TextsFit(p: Parts) {
    && |p.application| < 65536 && (p.tenant.Some? ==> |p.tenant.value| < 65536)
    && |p.contentType| < 65536 && |p.codec| < 65536 && |p.key| < 65536
  }

  function Encode(p: Parts): Result<Bytes, Error> {
    if |p.publicMetadata| > MAX_HEADER || p.encryptedLength > MAX_ENCRYPTED_METADATA then Err(PayloadTooLarge)
    else if !TextsFit(p) || |Layout(p, 0)| > MAX_HEADER then Err(InvalidFormat)
    else Ok(Layout(p, |Layout(p, 0)|))
  }

  // --------------------------------------------------------------------------
  // Parser, on the bytes still ahead of the cursor
  // --------------------------------------------------------------------------

  function TakeBytes(rest: Bytes, n: nat): Result<(Bytes, Bytes), Error> {
    if n <= |rest| then Ok((rest[..n], rest[n..])) else Err(InvalidFormat)
  }

  function TakeNumber(rest: Bytes, width: nat): Result<(nat, Bytes), Error> {
    if width <= |rest| then Ok((Number(rest[..width]), rest[width..])) else Err(InvalidFormat)
  }

  function TakeOptionalText(rest: Bytes): Result<(Option<Bytes>, Bytes), Error> {
    var (n, rest) :- TakeNumber(rest, 2);
    if n == 0 then Ok((None, rest)) else
      var (text, rest) :- TakeBytes(rest, n);
      if TextFile.ValidUtf8(text) then Ok((Some(text), rest)) else Err(InvalidFormat)
  }

  function TakeText(rest: Bytes): Result<(Bytes, Bytes), Error> {
    var (text, rest) :- TakeOptionalText(rest);
    if text.Some? then Ok((text.value, rest)) else Err(InvalidFormat)
  }

  datatype Numbers = Numbers(flags: nat, schema: nat, createdAt: nat, payloadLength: nat)

  function ParseNumbers(rest: Bytes): Result<(Numbers, Bytes), Error> {
    var (flags, rest) :- TakeNumber(rest, 4);
    if !ValidFlags(flags) then Err(InvalidFlags) else
      var (algorithm, rest) :- TakeNumber(rest, 2);
      if algorithm != ALGORITHM then Err(UnsupportedVersion) else
        var (schema, rest) :- TakeNumber(rest, 4);
        var (createdAt, rest) :- TakeNumber(rest, 8);
        var (payloadLength, rest) :- TakeNumber(rest, 8);
        Ok((Numbers(flags, schema, createdAt, payloadLength), rest))
  }

  datatype Digests = Digests(nonce: Bytes, payloadHash: Bytes, publicLength: nat, encryptedLength: nat)

  function ParseDigests(rest: Bytes): Result<(Digests, Bytes), Error> {
    var (nonce, rest) :- TakeBytes(rest, 24);
    var (payloadHash, rest) :- TakeBytes(rest, 32);
    var (publicLength, rest) :- TakeNumber(rest, 4);
    var (encryptedLength, rest) :- TakeNumber(rest, 4);
    if encryptedLength > MAX_ENCRYPTED_METADATA then Err(PayloadTooLarge)
    else Ok((Digests(nonce, payloadHash, publicLength, encryptedLength), rest))
  }

  datatype Names = Names(application: Bytes, tenant: Option<Bytes>, contentType: Bytes, codec: Bytes, key: Bytes)

  /** A text that must be an identifier of the given kind. */
  function TakeName(rest: Bytes, kind: NameKind): Result<(Bytes, Bytes), Error> {
    var (text, rest) :- TakeText(rest);
    if IsName(text, kind) then Ok((text, rest)) else Err(InvalidFormat)
  }

  function TakeTenant(rest: Bytes): Result<(Option<Bytes>, Bytes), Error> {
    var (text, rest) :- TakeOptionalText(rest);
    if text.Some? && !IsTenantId(text.value) then Err(InvalidFormat) else Ok((text, rest))
  }

  function ParseNames(rest: Bytes): Result<(Names, Bytes), Error> {
    var (application, rest) :- TakeName(rest, Application);
    var (tenant, rest) :- TakeTenant(rest);
    var (contentType, rest) :- TakeName(rest, ContentType);
    var (codec, rest) :- TakeName(rest, Codec);
    var (key, rest) :- TakeName(rest, Key);
    Ok((Names(application, tenant, contentType, codec, key), rest))
  }

  function Assemble(n: Numbers, d: Digests, names: Names, metadata: Bytes): Parts {
    Parts(n.flags, names.application, names.tenant, names.contentType, names.codec, names.key,
          n.schema, n.createdAt, n.payloadLength, d.nonce, d.payloadHash, metadata, d.encryptedLength)
  }

  /** What follows the length field. */
  function ParseBody(rest: Bytes): Result<Parts, Error> {
    var (numbers, rest) :- ParseNumbers(rest);
    var (digests, rest) :- ParseDigests(rest);
    var (names, rest) :- ParseNames(rest);
    var (metadata, rest) :- TakeBytes(rest, digests.publicLength);
    if rest != [] then Err(InvalidFormat) else Ok(Assemble(numbers, digests, names, metadata))
  }

  function Inspect(input: Bytes): Result<Header, Error> {
    if |input| < MIN_PREFIX || input[..8] != MAGIC then Err(InvalidFormat)
    else if Number(input[8..10]) != VERSION then Err(UnsupportedVersion)
    else
      var length := Number(input[10..14]);
      if length < MIN_PREFIX || length > MAX_HEADER || |input| < length then Err(InvalidFormat)
      else
        var parts :- ParseBody(input[14..length]);
        Ok(Header(VERSION, length, parts))
  }

  // --------------------------------------------------------------------------
  // One field: what is taken is exactly what was put
  // --------------------------------------------------------------------------

  lemma TakesBytes(rest: Bytes, bytes: Bytes, tail: Bytes)
    ensures TakeBytes(rest, |bytes|) == Ok((bytes, tail)) <==> rest == bytes + tail
  {
    if |bytes| <= |rest| {
      assert rest == rest[..|bytes|] + rest[|bytes|..];
    }
  }

  lemma TakesNumber(rest: Bytes, width: nat, value: nat, tail: Bytes)
    ensures TakeNumber(rest, width) == Ok((value, tail))
       <==> value < Capacity(width) && rest == BigEndian(value, width) + tail
  {
    if width <= |rest| {
      assert rest == rest[..width] + rest[width..];
      BigEndianOfNumber(rest[..width]);
    }
    if value < Capacity(width) && rest == BigEndian(value, width) + tail {
      NumberOfBigEndian(value, width);
    }
  }

  predicate TakeableText(text: Bytes) {
    0 < |text| < 65536 && TextFile.ValidUtf8(text)
  }

  predicate TakeableOptional(text: Option<Bytes>) {
    text.Some? ==> TakeableText(text.value)
  }

  lemma TakesOptionalText(rest: Bytes, text: Option<Bytes>, tail: Bytes)
    ensures TakeOptionalText(rest) == Ok((text, tail))
       <==> TakeableOptional(text) && rest == OptionalTextBytes(text) + tail
  {
    if TakeOptionalText(rest) == Ok((text, tail)) {
      var (n, after) := TakeNumber(rest, 2).value;
      TakesNumber(rest, 2, n, after);
      if text.Some? {
        TakesBytes(after, text.value, tail);
        assert rest == BigEndian(n, 2) + (text.value + tail) == (BigEndian(n, 2) + text.value) + tail;
      }
    }
    if TakeableOptional(text) && rest == OptionalTextBytes(text) + tail {
      if text.Some? {
        var n := |text.value|;
        assert rest == BigEndian(n, 2) + (text.value + tail);
        TakesNumber(rest, 2, n, text.value + tail);
        TakesBytes(text.value + tail, text.value, tail);
      } else {
        TakesNumber(rest, 2, 0, tail);
      }
    }
  }

  lemma TakesText(rest: Bytes, text: Bytes, tail: Bytes)
    ensures TakeText(rest) == Ok((text, tail)) <==> TakeableText(text) && rest == TextBytes(text) + tail
  {
    TakesOptionalText(rest, Some(text), tail);
  }

  // --------------------------------------------------------------------------
  // One section
  // --------------------------------------------------------------------------

  function NumbersOf(p: Parts): Numbers {
    Numbers(p.flags, p.schema, p.createdAt, p.payloadLength)
  }

  function DigestsOf(p: Parts): Digests {
    Digests(p.nonce, p.payloadHash, |p.publicMetadata|, p.encryptedLength)
  }

  function NamesOf(p: Parts): Names {
    Names(p.application, p.tenant, p.contentType, p.codec, p.key)
  }

  predicate NumbersFit(n: Numbers) {
    && ValidFlags(n.flags) && n.flags < Capacity(4) && n.schema < Capacity(4)
    && n.createdAt < Capacity(8) && n.payloadLength < Capacity(8)
  }

  predicate DigestsFit(d: Digests) {
    && |d.nonce| == 24 && |d.payloadHash| == 32 && d.publicLength < Capacity(4)
    && d.encryptedLength <= MAX_ENCRYPTED_METADATA
  }

  predicate NameFits(text: Bytes, kind: NameKind) {
    TakeableText(text) && IsName(text, kind)
  }

  predicate TenantFits(text: Option<Bytes>) {
    text.Some? ==> TakeableText(text.value) && IsTenantId(text.value)
  }

  predicate NamesFit(n: Names) {
    && NameFits(n.application, Application) && TenantFits(n.tenant) && NameFits(n.contentType, ContentType)
    && NameFits(n.codec, Codec) && NameFits(n.key, Key)
  }

  lemma TakesName(rest: Bytes, kind: NameKind, text: Bytes, tail: Bytes)
    ensures TakeName(rest, kind) == Ok((text, tail)) <==> NameFits(text, kind) && rest == TextBytes(text) + tail
  {
    TakesText(rest, text, tail);
  }

  lemma TakesTenant(rest: Bytes, text: Option<Bytes>, tail: Bytes)
    ensures TakeTenant(rest) == Ok((text, tail)) <==> TenantFits(text) && rest == OptionalTextBytes(text) + tail
  {
    TakesOptionalText(rest, text, tail);
  }

  lemma NumbersTaken(rest: Bytes, p: Parts, tail: Bytes)
    requires ParseNumbers(rest) == Ok((NumbersOf(p), tail))
    ensures NumbersFit(NumbersOf(p)) && rest == PutNumbers(p, tail)
  {
    var r1 := TakeNumber(rest, 4).value.1;
    var r2 := TakeNumber(r1, 2).value.1;
    var r3 := TakeNumber(r2, 4).value.1;
    var r4 := TakeNumber(r3, 8).value.1;
    TakesNumber(rest, 4, p.flags, r1);
    TakesNumber(r1, 2, ALGORITHM, r2);
    TakesNumber(r2, 4, p.schema, r3);
    TakesNumber(r3, 8, p.createdAt, r4);
    TakesNumber(r4, 8, p.payloadLength, tail);
  }

  lemma NumbersPut(p: Parts, tail: Bytes)
    requires NumbersFit(NumbersOf(p))
    ensures ParseNumbers(PutNumbers(p, tail)) == Ok((NumbersOf(p), tail))
  {
    var r4 := BigEndian(p.payloadLength, 8) + tail;
    var r3 := BigEndian(p.createdAt, 8) + r4;
    var r2 := BigEndian(p.schema, 4) + r3;
    var r1 := BigEndian(ALGORITHM, 2) + r2;
    TakesNumber(BigEndian(p.flags, 4) + r1, 4, p.flags, r1);
    TakesNumber(r1, 2, ALGORITHM, r2);
    TakesNumber(r2, 4, p.schema, r3);
    TakesNumber(r3, 8, p.createdAt, r4);
    TakesNumber(r4, 8, p.payloadLength, tail);
  }

  lemma DigestsTaken(rest: Bytes, p: Parts, tail: Bytes)
    requires ParseDigests(rest) == Ok((DigestsOf(p), tail))
    ensures DigestsFit(DigestsOf(p)) && rest == PutDigests(p, tail)
  {
    var r1 := TakeBytes(rest, 24).value.1;
    var r2 := TakeBytes(r1, 32).value.1;
    var r3 := TakeNumber(r2, 4).value.1;
    TakesBytes(rest, p.nonce, r1);
    TakesBytes(r1, p.payloadHash, r2);
    TakesNumber(r2, 4, |p.publicMetadata|, r3);
    TakesNumber(r3, 4, p.encryptedLength, tail);
  }

  lemma DigestsPut(p: Parts, tail: Bytes)
    requires DigestsFit(DigestsOf(p))
    ensures ParseDigests(PutDigests(p, tail)) == Ok((DigestsOf(p), tail))
  {
    var r3 := BigEndian(p.encryptedLength, 4) + tail;
    var r2 := BigEndian(|p.publicMetadata|, 4) + r3;
    var r1 := p.payloadHash + r2;
    TakesBytes(p.nonce + r1, p.nonce, r1);
    TakesBytes(r1, p.payloadHash, r2);
    TakesNumber(r2, 4, |p.publicMetadata|, r3);
    TakesNumber(r3, 4, p.encryptedLength, tail);
  }

  lemma NamesTaken(rest: Bytes, p: Parts, tail: Bytes)
    requires ParseNames(rest) == Ok((NamesOf(p), tail))
    ensures NamesFit(NamesOf(p)) && rest == PutNames(p, tail)
  {
    var r1 := TakeName(rest, Application).value.1;
    var r2 := TakeTenant(r1).value.1;
    var r3 := TakeName(r2, ContentType).value.1;
    var r4 := TakeName(r3, Codec).value.1;
    TakesName(rest, Application, p.application, r1);
    TakesTenant(r1, p.tenant, r2);
    TakesName(r2, ContentType, p.contentType, r3);
    TakesName(r3, Codec, p.codec, r4);
    TakesName(r4, Key, p.key, tail);
  }

  lemma NamesPut(p: Parts, tail: Bytes)
    requires NamesFit(NamesOf(p))
    ensures ParseNames(PutNames(p, tail)) == Ok((NamesOf(p), tail))
  {
    var r4 := TextBytes(p.key) + tail;
    var r3 := TextBytes(p.codec) + r4;
    var r2 := TextBytes(p.contentType) + r3;
    var r1 := OptionalTextBytes(p.tenant) + r2;
    TakesName(TextBytes(p.application) + r1, Application, p.application, r1);
    TakesTenant(r1, p.tenant, r2);
    TakesName(r2, ContentType, p.contentType, r3);
    TakesName(r3, Codec, p.codec, r4);
    TakesName(r4, Key, p.key, tail);
  }

  // --------------------------------------------------------------------------
  // The whole header
  // --------------------------------------------------------------------------

  /** The values an encoder can be given: typed identifiers, fixed-size arrays, machine integers. */
  predicate Fits(p: Parts) {
    NumbersFit(NumbersOf(p)) && DigestsFit(DigestsOf(p)) && NamesFit(NamesOf(p))
  }

  function Body(p: Parts): Bytes {
    PutNumbers(p, PutDigests(p, PutNames(p, p.publicMetadata)))
  }

  lemma BodyTaken(rest: Bytes, p: Parts)
    requires ParseBody(rest) == Ok(p)
    ensures Fits(p) && rest == Body(p)
  {
    var r1 := ParseNumbers(rest).value.1;
    var r2 := ParseDigests(r1).value.1;
    var r3 := ParseNames(r2).value.1;
    NumbersTaken(rest, p, r1);
    DigestsTaken(r1, p, r2);
    NamesTaken(r2, p, r3);
    TakesBytes(r3, p.publicMetadata, []);
    assert r3 == p.publicMetadata;
  }

  lemma BodyPut(p: Parts)
    requires Fits(p)
    ensures ParseBody(Body(p)) == Ok(p)
  {
    var r3 := p.publicMetadata;
    var r2 := PutNames(p, r3);
    NumbersPut(p, PutDigests(p, r2));
    DigestsPut(p, r2);
    NamesPut(p, r3);
    assert r3 == p.publicMetadata + [];
    TakesBytes(r3, p.publicMetadata, []);
  }

  lemma BodyIff(rest: Bytes, p: Parts)
    ensures ParseBody(rest) == Ok(p) <==> Fits(p) && rest == Body(p)
  {
    if ParseBody(rest) == Ok(p) {
      BodyTaken(rest, p);
    }
    if Fits(p) {
      BodyPut(p);
    }
  }

  lemma PrefixIff(input: Bytes, length: nat, tail: Bytes)
    ensures (input == PutPrefix(length, tail) && length < Capacity(4))
       <==> (|input| >= MIN_PREFIX && input[..8] == MAGIC && Number(input[8..10]) == VERSION
             && Number(input[10..14]) == length && input[14..] == tail)
  {
    if |input| >= MIN_PREFIX {
      var r1, r2 := input[8..], input[10..];
      TakesBytes(input, MAGIC, r1);
      TakesNumber(r1, 2, VERSION, r2);
      TakesNumber(r2, 4, length, tail);
      assert r1[..2] == input[8..10] && r2[..4] == input[10..14] && r2[4..] == input[14..];
    }
  }

  predicate WellFormed(h: Header) {
    h.envelopeVersion == VERSION && Fits(h.parts) && h.headerLength == |Layout(h.parts, 0)| <= MAX_HEADER
  }

  function BytesOf(h: Header): Bytes {
    Layout(h.parts, h.headerLength)
  }

  lemma LayoutLength(p: Parts, length: nat)
    ensures |Layout(p, length)| == 14 + |Body(p)|
  {
  }

  /** The parser accepts exactly the inputs that start with the bytes of a well-formed header, and returns it. */
  lemma InspectIff(input: Bytes, h: Header)
    ensures Inspect(input) == Ok(h) <==> WellFormed(h) && BytesOf(h) <= input
  {
    LayoutLength(h.parts, 0);
    LayoutLength(h.parts, h.headerLength);
    if Inspect(input) == Ok(h) {
      var n := h.headerLength;
      BodyIff(input[14..n], h.parts);
      HeadOf(input, n);
      PrefixIff(input[..n], n, Body(h.parts));
    }
    if WellFormed(h) && BytesOf(h) <= input {
      var n := h.headerLength;
      assert input[..n] == BytesOf(h);
      PrefixIff(input[..n], n, Body(h.parts));
      HeadOf(input, n);
      BodyIff(input[14..n], h.parts);
    }
  }

  lemma HeadOf(input: Bytes, n: nat)
    requires 14 <= n <= |input|
    ensures input[..n][..8] == input[..8] && input[..n][8..10] == input[8..10]
    ensures input[..n][10..14] == input[10..14] && input[..n][14..] == input[14..n]
  {
  }

  lemma AcceptedIsBounded(input: Bytes, h: Header)
    requires Inspect(input) == Ok(h)
    ensures Fits(h.parts) && h.headerLength <= MAX_HEADER && h.headerLength <= |input|
    ensures h.parts.encryptedLength <= MAX_ENCRYPTED_METADATA
  {
    BodyTaken(input[14..h.headerLength], h.parts);
  }

  /** Inspecting an encoded header, whatever follows it, returns the encoded fields. */
  lemma EncodedInspects(p: Parts, rest: Bytes)
    requires Encode(p).Ok? && Fits(p)
    ensures Inspect(Encode(p).value + rest) == Ok(Header(VERSION, |Encode(p).value|, p))
  {
    EncodedIsWellFormed(p);
    InspectIff(Encode(p).value + rest, Header(VERSION, |Encode(p).value|, p));
  }

  lemma EncodedIsWellFormed(p: Parts)
    requires Encode(p).Ok? && Fits(p)
    ensures var h := Header(VERSION, |Encode(p).value|, p); WellFormed(h) && BytesOf(h) == Encode(p).value
  {
    LayoutLength(p, 0);
    LayoutLength(p, |Layout(p, 0)|);
  }

  lemma WellFormedEncodes(h: Header)
    requires WellFormed(h)
    ensures Encode(h.parts) == Ok(BytesOf(h)) && |BytesOf(h)| == h.headerLength
  {
    var p := h.parts;
    LayoutLength(p, 0);
    LayoutLength(p, h.headerLength);
    assert DigestsFit(DigestsOf(p)) && NamesFit(NamesOf(p));
    MetadataInside(p);
  }

  lemma MetadataInside(p: Parts)
    ensures |p.publicMetadata| <= |Body(p)|
  {
  }

  /** An accepted header re-encodes to exactly the bytes it was read from. */
  lemma AcceptedReencodes(input: Bytes, h: Header)
    requires Inspect(input) == Ok(h)
    ensures h.headerLength <= |input| && Encode(h.parts) == Ok(input[..h.headerLength])
  {
    InspectIff(input, h);
    WellFormedEncodes(h);
    assert BytesOf(h) == input[..h.headerLength];
  }

  /** No accepted header is a proper prefix of another. */
  lemma PrefixFree(a: Bytes, b: Bytes)
    requires Inspect(a).Ok? && Inspect(b).Ok?
    requires a[..Inspect(a).value.headerLength] <= b
    ensures Inspect(b) == Inspect(a)
  {
    var h := Inspect(a).value;
    AcceptedReencodes(a, h);
    InspectIff(a, h);
    InspectIff(b, h);
  }

  // --------------------------------------------------------------------------
  // The encoder's growing vector
  // --------------------------------------------------------------------------

  /** `tail` is what is still to be pushed: every push moves one piece across. */
  class Writer {
    var bytes: Bytes

    constructor ()
      ensures bytes == []
    {
      bytes := [];
    }

    method Push(piece: Bytes, ghost tail: Bytes)
      modifies this
      ensures bytes == old(bytes) + piece
      ensures bytes + tail == old(bytes) + (piece + tail)
    {
      bytes := bytes + piece;
    }

    method PushText(text: Bytes, ghost tail: Bytes) returns (r: Result<bool, Error>)
      modifies this
      ensures r == if |text| < 65536 then Ok(true) else Err(InvalidFormat)
      ensures r.Ok? ==> bytes + tail == old(bytes) + (TextBytes(text) + tail)
    {
      if |text| >= 65536 {
        return Err(InvalidFormat);
      }
      assert TextBytes(text) + tail == BigEndian(|text|, 2) + (text + tail);
      Push(BigEndian(|text|, 2), text + tail);
      Push(text, tail);
      r := Ok(true);
    }

    method PushOptionalText(text: Option<Bytes>, ghost tail: Bytes) returns (r: Result<bool, Error>)
      modifies this
      ensures r == if text.Some? && |text.value| >= 65536 then Err(InvalidFormat) else Ok(true)
      ensures r.Ok? ==> bytes + tail == old(bytes) + (OptionalTextBytes(text) + tail)
    {
      if text.Some? {
        r := PushText(text.value, tail);
      } else {
        Push(BigEndian(0, 2), tail);
        r := Ok(true);
      }
    }

    method PushNumbers(p: Parts, ghost tail: Bytes)
      modifies this
      ensures bytes + tail == old(bytes) + PutNumbers(p, tail)
    {
      ghost var t4 := BigEndian(p.payloadLength, 8) + tail;
      ghost var t3 := BigEndian(p.createdAt, 8) + t4;
      ghost var t2 := BigEndian(p.schema, 4) + t3;
      Push(BigEndian(p.flags, 4), BigEndian(ALGORITHM, 2) + t2);
      Push(BigEndian(ALGORITHM, 2), t2);
      Push(BigEndian(p.schema, 4), t3);
      Push(BigEndian(p.createdAt, 8), t4);
      Push(BigEndian(p.payloadLength, 8), tail);
    }

    method PushDigests(p: Parts, ghost tail: Bytes)
      modifies this
      ensures bytes + tail == old(bytes) + PutDigests(p, tail)
    {
      ghost var t3 := BigEndian(p.encryptedLength, 4) + tail;
      ghost var t2 := BigEndian(|p.publicMetadata|, 4) + t3;
      Push(p.nonce, p.payloadHash + t2);
      Push(p.payloadHash, t2);
      Push(BigEndian(|p.publicMetadata|, 4), t3);
      Push(BigEndian(p.encryptedLength, 4), tail);
    }

    method PushNames(p: Parts, ghost tail: Bytes) returns (r: Result<bool, Error>)
      modifies this
      ensures r == if TextsFit(p) then Ok(true) else Err(InvalidFormat)
      ensures r.Ok? ==> bytes + tail == old(bytes) + PutNames(p, tail)
    {
      ghost var t4 := TextBytes(p.key) + tail;
      ghost var t3 := TextBytes(p.codec) + t4;
      ghost var t2 := TextBytes(p.contentType) + t3;
      var _ :- PushText(p.application, OptionalTextBytes(p.tenant) + t2);
      var _ :- PushOptionalText(p.tenant, t2);
      var _ :- PushText(p.contentType, t3);
      var _ :- PushText(p.codec, t4);
      r := PushText(p.key, tail);
    }

    /** Overwrites the length field, bytes 10 to 13. */
    method PatchLength(length: nat, ghost tail: Bytes)
      requires bytes == PutPrefix(0, tail)
      modifies this
      ensures bytes == PutPrefix(length, tail)
    {
      assert bytes[..10] == MAGIC + BigEndian(VERSION, 2) && bytes[14..] == tail;
      bytes := bytes[..10] + BigEndian(length, 4) + bytes[14..];
    }
  }

  method EncodeHeader(p: Parts) returns (r: Result<Bytes, Error>)
    ensures r == Encode(p)
  {
    if |p.publicMetadata| > MAX_HEADER || p.encryptedLength > MAX_ENCRYPTED_METADATA {
      return Err(PayloadTooLarge);
    }
    var header := new Writer();
    ghost var t2 := PutDigests(p, PutNames(p, p.publicMetadata));
    ghost var t1 := PutNumbers(p, t2);
    header.Push(MAGIC, BigEndian(VERSION, 2) + (BigEndian(0, 4) + t1));
    header.Push(BigEndian(VERSION, 2), BigEndian(0, 4) + t1);
    header.Push(BigEndian(0, 4), t1);
    header.PushNumbers(p, t2);
    header.PushDigests(p, PutNames(p, p.publicMetadata));
    var _ :- header.PushNames(p, p.publicMetadata);
    header.Push(p.publicMetadata, []);
    assert header.bytes == Layout(p, 0);
    if |header.bytes| > MAX_HEADER {
      return Err(InvalidFormat);
    }
    header.PatchLength(|header.bytes|, t1);
    r := Ok(header.bytes);
  }

  // --------------------------------------------------------------------------
  // The parser's cursor
  // --------------------------------------------------------------------------

  /** The value taken and what is left, as the function on the bytes ahead says. */
  predicate Gives<T(==)>(r: Result<T, Error>, rest: Bytes, spec: Result<(T, Bytes), Error>) {
    match spec
    case Ok((value, tail)) => r == Ok(value) && rest == tail
    case Err(error) => r == Err(error)
  }

  class Reader {
    const input: Bytes
    var cursor: nat

    constructor (input: Bytes, cursor: nat)
      requires cursor <= |input|
      ensures Valid() && this.input == input && Rest() == input[cursor..]
    {
      this.input, this.cursor := input, cursor;
    }

    predicate Valid()
      reads this
    {
      cursor <= |input|
    }

    function Rest(): Bytes
      requires Valid()
      reads this
    {
      input[cursor..]
    }

    method NextBytes(length: nat) returns (r: Result<Bytes, Error>)
      requires Valid()
      modifies this
      ensures Valid() && Gives(r, Rest(), TakeBytes(old(Rest()), length))
    {
      var end := cursor + length;
      if end > |input| {
        return Err(InvalidFormat);
      }
      assert input[cursor..][..length] == input[cursor..end] && input[cursor..][length..] == input[end..];
      r := Ok(input[cursor..end]);
      cursor := end;
    }

    method NextNumber(width: nat) returns (r: Result<nat, Error>)
      requires Valid()
      modifies this
      ensures Valid() && Gives(r, Rest(), TakeNumber(old(Rest()), width))
    {
      var bytes :- NextBytes(width);
      r := Ok(Number(bytes));
    }

    method NextOptionalText() returns (r: Result<Option<Bytes>, Error>)
      requires Valid()
      modifies this
      ensures Valid() && Gives(r, Rest(), TakeOptionalText(old(Rest())))
    {
      var length :- NextNumber(2);
      if length == 0 {
        return Ok(None);
      }
      var bytes :- NextBytes(length);
      r := if TextFile.ValidUtf8(bytes) then Ok(Some(bytes)) else Err(InvalidFormat);
    }

    method NextText() returns (r: Result<Bytes, Error>)
      requires Valid()
      modifies this
      ensures Valid() && Gives(r, Rest(), TakeText(old(Rest())))
    {
      var length :- NextNumber(2);
      if length == 0 {
        return Err(InvalidFormat);
      }
      var bytes :- NextBytes(length);
      r := if TextFile.ValidUtf8(bytes) then Ok(bytes) else Err(InvalidFormat);
    }

    method NextNumbers() returns (r: Result<Numbers, Error>)
      requires Valid()
      modifies this
      ensures Valid() && Gives(r, Rest(), ParseNumbers(old(Rest())))
    {
      var flags :- NextNumber(4);
      if !ValidFlags(flags) {
        return Err(InvalidFlags);
      }
      var algorithm :- NextNumber(2);
      if algorithm != ALGORITHM {
        return Err(UnsupportedVersion);
      }
      var schema :- NextNumber(4);
      var createdAt :- NextNumber(8);
      var payloadLength :- NextNumber(8);
      r := Ok(Numbers(flags, schema, createdAt, payloadLength));
    }

    method NextDigests() returns (r: Result<Digests, Error>)
      requires Valid()
      modifies this
      ensures Valid() && Gives(r, Rest(), ParseDigests(old(Rest())))
    {
      var nonce :- NextBytes(24);
      var payloadHash :- NextBytes(32);
      var publicLength :- NextNumber(4);
      var encryptedLength :- NextNumber(4);
      if encryptedLength > MAX_ENCRYPTED_METADATA {
        return Err(PayloadTooLarge);
      }
      r := Ok(Digests(nonce, payloadHash, publicLength, encryptedLength));
    }

    method NextName(kind: NameKind) returns (r: Result<Bytes, Error>)
      requires Valid()
      modifies this
      ensures Valid() && Gives(r, Rest(), TakeName(old(Rest()), kind))
    {
      var text :- NextText();
      r := if IsName(text, kind) then Ok(text) else Err(InvalidFormat);
    }

    method NextTenant() returns (r: Result<Option<Bytes>, Error>)
      requires Valid()
      modifies this
      ensures Valid() && Gives(r, Rest(), TakeTenant(old(Rest())))
    {
      var text :- NextOptionalText();
      r := if text.Some? && !IsTenantId(text.value) then Err(InvalidFormat) else Ok(text);
    }

    method NextNames() returns (r: Result<Names, Error>)
      requires Valid()
      modifies this
      ensures Valid() && Gives(r, Rest(), ParseNames(old(Rest())))
    {
      var application :- NextName(Application);
      var tenant :- NextTenant();
      var contentType :- NextName(ContentType);
      var codec :- NextName(Codec);
      var key :- NextName(Key);
      r := Ok(Names(application, tenant, contentType, codec, key));
    }
  }

  method ParseHeader(input: Bytes, length: nat) returns (r: Result<Header, Error>)
    requires 14 <= |input| == length
    ensures r == match ParseBody(input[14..]) case Ok(parts) => Ok(Header(VERSION, length, parts)) case Err(e) => Err(e)
  {
    var reader := new Reader(input, 14);
    var numbers :- reader.NextNumbers();
    var digests :- reader.NextDigests();
    var names :- reader.NextNames();
    var metadata :- reader.NextBytes(digests.publicLength);
    if reader.cursor != |input| {
      return Err(InvalidFormat);
    }
    r := Ok(Header(VERSION, length, Assemble(numbers, digests, names, metadata)));
  }

  method InspectHeader(input: Bytes) returns (r: Result<Header, Error>)
    ensures r == Inspect(input)
  {
    if |input| < MIN_PREFIX || input[..8] != MAGIC {
      return Err(InvalidFormat);
    }
    if Number(input[8..10]) != VERSION {
      return Err(UnsupportedVersion);
    }
    var length := Number(input[10..14]);
    if length < MIN_PREFIX || length > MAX_HEADER || |input| < length {
      return Err(InvalidFormat);
    }
    assert input[..length][14..] == input[14..length];
    r := ParseHeader(input[..length], length);
  }
}
