/** Re-keying, migration and the size guard of the DNT file reader. */
module DntMigration {
  import opened Prelude
  import opened DntHeader
  import opened DntEnvelope

  function OptionsFromOpened(content: Opened, key: Bytes, maxPayload: Option<nat>): SealOptions {
    var p := content.header.parts;
    SealOptions(p.application, p.tenant, p.contentType, p.schema, key, p.createdAt,
                p.publicMetadata, content.encryptedMetadata, p.flags, maxPayload)
  }

  /** Re-keys under `newKey`, or migrates under the key identifier the envelope already names. */
  function Reseal(s: Suite, input: Bytes, o: OpenOptions, newKey: Option<Bytes>, nonce: Option<Bytes>):
    Result<Bytes, Error>
  {
    var content :- Open(s, input, o);
    var key := if newKey.Some? then newKey.value else content.header.parts.key;
    Seal(s, content.payload, OptionsFromOpened(content, key, o.maxPayload), nonce)
  }

  /** Everything but the key identifier, the nonce, the lengths and the digest. */
  predicate SameChoices(a: Parts, b: Parts) {
    && a.flags == b.flags && a.application == b.application && a.tenant == b.tenant
    && a.contentType == b.contentType && a.schema == b.schema && a.createdAt == b.createdAt
    && a.publicMetadata == b.publicMetadata
  }

  lemma OpenedChoicesAreTyped(
      s: Suite, input: Bytes, o: OpenOptions, newKey: Option<Bytes>, nonce: Option<Bytes>)
    requires Open(s, input, o).Ok? && (newKey.Some? ==> NameFits(newKey.value, Key))
    requires nonce.Some? ==> |nonce.value| == 24
    ensures var content := Open(s, input, o).value;
            var key := if newKey.Some? then newKey.value else content.header.parts.key;
            Typed(OptionsFromOpened(content, key, o.maxPayload), nonce)
            && Addresses(o, OptionsFromOpened(content, key, o.maxPayload))
  {
    var h := Open(s, input, o).value.header;
    assert Inspect(input) == Ok(h);
    AcceptedIsBounded(input, h);
    assert NumbersFit(NumbersOf(h.parts)) && NamesFit(NamesOf(h.parts));
  }

  /** A compacted envelope only ever opens under a limit. */
  lemma CompactedOpensUnderLimit(s: Suite, input: Bytes, o: OpenOptions)
    requires Open(s, input, o).Ok? && Compacted(Open(s, input, o).value.header.parts.flags)
    ensures o.maxPayload.Some?
  {
  }

  /**
   * A successful re-key opens again under the same options, with the same payload, the same metadata and the
   * same header fields; it names the new key and the codec's own identifier.
   */
  lemma ResealPreserves(s: Suite, input: Bytes, o: OpenOptions, newKey: Option<Bytes>, nonce: Option<Bytes>)
    requires LawfulCipher(s) && LawfulCodec(s)
    requires newKey.Some? ==> NameFits(newKey.value, Key)
    requires nonce.Some? ==> |nonce.value| == 24
    requires Reseal(s, input, o, newKey, nonce).Ok?
    ensures var before, after := Open(s, input, o), Open(s, Reseal(s, input, o, newKey, nonce).value, o);
            && before.Ok? && after.Ok?
            && after.value.payload == before.value.payload
            && after.value.encryptedMetadata == before.value.encryptedMetadata
            && SameChoices(after.value.header.parts, before.value.header.parts)
            && after.value.header.parts.codec == s.codec
            && after.value.header.parts.key
               == (if newKey.Some? then newKey.value else before.value.header.parts.key)
  {
    var content := Open(s, input, o).value;
    var key := if newKey.Some? then newKey.value else content.header.parts.key;
    var options := OptionsFromOpened(content, key, o.maxPayload);
    OpenedChoicesAreTyped(s, input, o, newKey, nonce);
    var header := SealThenOpen(s, content.payload, options, nonce, o);
    if Compacted(options.flags) {
      CompactedOpensUnderLimit(s, input, o);
    }
    ReopensUnderItsOwnLimit(s, content.payload, options, nonce);
  }

  /** Re-keying twice with the same nonce and key gives the same envelope: the first result is a fixed point. */
  lemma ResealIsIdempotent(s: Suite, input: Bytes, o: OpenOptions, newKey: Option<Bytes>, nonce: Option<Bytes>)
    requires LawfulCipher(s) && LawfulCodec(s)
    requires newKey.Some? ==> NameFits(newKey.value, Key)
    requires nonce.Some? ==> |nonce.value| == 24
    requires Reseal(s, input, o, newKey, nonce).Ok?
    ensures Reseal(s, Reseal(s, input, o, newKey, nonce).value, o, None, nonce) == Reseal(s, input, o, newKey, nonce)
  {
    ResealPreserves(s, input, o, newKey, nonce);
  }

  // --------------------------------------------------------------------------
  // The file reader's size guard
  // --------------------------------------------------------------------------

  function MaxEnvelopeBytes(o: OpenOptions): Result<nat, Error> {
    if o.maxPayload.None? then Err(PayloadTooLarge)
    else
      var a := CheckedAdd(o.maxPayload.value, MAX_HEADER);
      if a.None? then Err(PayloadTooLarge)
      else
        var b := CheckedAdd(a.value, MAX_ENCRYPTED_METADATA);
        if b.None? then Err(PayloadTooLarge)
        else
          var c := CheckedAdd(b.value, 20);
          if c.None? then Err(PayloadTooLarge) else Ok(c.value)
  }

  /** The file reader, given the bytes of a regular file that does not change while it is read. */
  method ReadVerified(s: Suite, file: array<byte>, o: OpenOptions) returns (r: Result<Opened, Error>)
    requires LawfulCipher(s) && file.Length <= U64_MAX
    modifies file
    ensures r.Ok? <==> ReadsBack(o) && Open(s, old(file[..]), o).Ok?
    ensures r.Ok? ==> r == Open(s, old(file[..]), o)
  {
    if Open(s, file[..], o).Ok? && o.maxPayload.Some? {
      OpenedIsBounded(s, file[..], o, o.maxPayload.value);
    }
    if ShortCiphertext(s, file[..], o) {
      ShortCiphertextFails(s, file[..], o);
    }
    var limit :- MaxEnvelopeBytes(o);
    if file.Length > limit {
      return Err(PayloadTooLarge);
    }
    if CheckedAdd(limit, 1).None? {
      return Err(PayloadTooLarge);
    }
    r := OpenOwned(s, file, o);
  }

  /** The one case in which the reader refuses what `Open` accepts: no limit, or one near the 64-bit range. */
  predicate ReadsBack(o: OpenOptions) {
    o.maxPayload.Some? && o.maxPayload.value + MAX_HEADER + MAX_ENCRYPTED_METADATA + 20 < U64_MAX
  }
}
