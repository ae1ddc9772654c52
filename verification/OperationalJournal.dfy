/** The hash-chained, bounded operational journal and its byte file. */
module OperationalJournal {
  import opened Prelude
  import opened TextFile

  const FORMAT_MARKER := "# appcore-operational-journal-v1"
  const MAX_RECORD_BYTES: nat := 1024 * 1024
  const RECOVERY_SLACK: nat := 64 * 1024

  const DIGEST_CHARS: nat := 64

  /** Bytes of an envelope besides its record, sequence number and digests: braces, quotes, colons and field names. */
  const PUNCTUATION: nat := 52

  /** Most bytes an envelope adds to its record. */
  const ENVELOPE_OVERHEAD: nat := 200

  datatype Record = Audit(entry: string) | Event(envelope: string)

  datatype Envelope = Envelope(sequence: nat, previous: Bytes, hash: Bytes, record: Record)

  /** The JSON serializer and the digest, which this model leaves abstract. */
  datatype Format = Format(
    marker: string,
    toVec: Record -> Bytes,
    toLine: Envelope -> Bytes,
    fromLine: Bytes -> Option<Envelope>,
    digest: (nat, Bytes, Bytes) -> Bytes)
  {
    /** The first line of every journal file. */
    function Header(): (bytes: Bytes)
      ensures bytes != [] && bytes[|bytes| - 1] == NEWLINE && ValidUtf8(bytes)
    {
      AsciiIsValid(Ascii(marker) + [NEWLINE]);
      Ascii(marker) + [NEWLINE]
    }

    /** What the journal relies on, for the envelopes it writes: lines are plain and parse back, digests are
        hexadecimal SHA-256, and a line consists of its record, its numbers and digests, and fixed punctuation. */
    ghost predicate Lawful() {
      && marker == FORMAT_MARKER
      && (forall e: Envelope :: Written(e) ==> PlainLine(toLine(e)) && fromLine(toLine(e)) == Some(e))
      && (forall n: nat, p: Bytes, r: Bytes :: IsDigest(digest(n, p, r)))
      && (forall e: Envelope :: Written(e) ==>
            |toLine(e)| == |toVec(e.record)| + PUNCTUATION + Digits(e.sequence) + |e.previous| + |e.hash|)
    }
  }

  predicate IsDigest(hash: Bytes) {
    |hash| == DIGEST_CHARS
    && forall i :: 0 <= i < |hash| ==> '0' as int <= hash[i] <= '9' as int || 'a' as int <= hash[i] <= 'f' as int
  }

  /** Envelopes that can occur in a journal file: machine integers, hexadecimal digests, none before the first record. */
  predicate Written(e: Envelope) {
    e.sequence <= U64_MAX && (e.previous == [] || IsDigest(e.previous)) && IsDigest(e.hash)
  }

  /** Decimal digits of a number. */
  function Digits(n: nat): nat {
    if n < 10 then 1 else 1 + Digits(n / 10)
  }

  datatype JournalError = RecordTooLarge | FileTooLarge | NotUtf8 | UnsupportedFormat | BadRecord | BrokenChain

  // --------------------------------------------------------------------------
  // Encoding
  // --------------------------------------------------------------------------

  datatype Encoded = Encoded(bytes: Bytes, sequence: nat, lastHash: Bytes)

  function NextEnvelope(f: Format, sequence: nat, lastHash: Bytes, record: Record): Envelope {
    var next := SaturatingAdd(sequence, 1);
    Envelope(next, lastHash, f.digest(next, lastHash, f.toVec(record)), record)
  }

  /** A whole journal file: records are numbered from one and chained. */
  function Encode(f: Format, records: seq<Record>): Encoded {
    if records == [] then Encoded(f.Header(), 0, [])
    else Extend(f, Encode(f, records[..|records| - 1]), records[|records| - 1])
  }

  function NextLine(f: Format, records: seq<Record>, record: Record): Bytes {
    var before := Encode(f, records);
    f.toLine(NextEnvelope(f, before.sequence, before.lastHash, record))
  }

  /** Adds one record to an encoded file. */
  function Extend(f: Format, before: Encoded, record: Record): Encoded {
    var envelope := NextEnvelope(f, before.sequence, before.lastHash, record);
    Encoded(before.bytes + f.toLine(envelope) + [NEWLINE], envelope.sequence, envelope.hash)
  }

  lemma EncodeSnoc(f: Format, records: seq<Record>, record: Record)
    ensures Encode(f, records + [record]) == Extend(f, Encode(f, records), record)
    ensures Encode(f, records + [record]).bytes == Encode(f, records).bytes + NextLine(f, records, record) + [NEWLINE]
  {
    assert (records + [record])[..|records|] == records;
  }

  // --------------------------------------------------------------------------
  // Loading
  // --------------------------------------------------------------------------

  datatype Chain = Chain(records: seq<Record>, sequence: nat, lastHash: Bytes)

  /** Parses and validates one line after the lines already loaded. */
  function LoadLine(f: Format, chain: Chain, line: Bytes): Result<Chain, JournalError> {
    if line == [] then Ok(chain)
    else
      match f.fromLine(line)
      case None => Err(BadRecord)
      case Some(e) =>
        if e.sequence != SaturatingAdd(chain.sequence, 1) || e.previous != chain.lastHash
           || e.hash != f.digest(e.sequence, chain.lastHash, f.toVec(e.record))
        then Err(BrokenChain)
        else Ok(Chain(chain.records + [e.record], e.sequence, e.hash))
  }

  function LoadLines(f: Format, lines: seq<Bytes>): Result<Chain, JournalError> {
    if lines == [] then Ok(Chain([], 0, []))
    else
      var before :- LoadLines(f, lines[..|lines| - 1]);
      LoadLine(f, before, lines[|lines| - 1])
  }

  /** Reads a file of at most `limit` bytes; the flag says whether a torn tail was dropped. */
  function Load(f: Format, file: Bytes, limit: nat): Result<(Chain, bool), JournalError> {
    if |file| > limit then Err(FileTooLarge)
    else if !ValidUtf8(file) then Err(NotUtf8)
    else if !(f.Header() <= file) then Err(UnsupportedFormat)
    else
      var (complete, torn) := CompleteLinePrefix(file[|f.Header()|..]);
      var chain :- LoadLines(f, Lines(complete));
      Ok((chain, torn))
  }

  lemma {:induction false} RefusalStays(f: Format, lines: seq<Bytes>, n: nat)
    requires n <= |lines| && LoadLines(f, lines[..n]).Err?
    ensures LoadLines(f, lines) == LoadLines(f, lines[..n])
  {
    if n == |lines| {
      assert lines[..n] == lines;
    } else {
      assert lines[..|lines| - 1][..n] == lines[..n];
      RefusalStays(f, lines[..|lines| - 1], n);
    }
  }

  /** The loader's loop over the complete lines, which skips empty ones and validates the others. */
  method LoadState(f: Format, file: Bytes, limit: nat) returns (r: Result<(Chain, bool), JournalError>)
    ensures r == Load(f, file, limit)
  {
    if |file| > limit {
      return Err(FileTooLarge);
    }
    if !ValidUtf8(file) {
      return Err(NotUtf8);
    }
    if !(f.Header() <= file) {
      return Err(UnsupportedFormat);
    }
    var (complete, torn) := CompleteLinePrefix(file[|f.Header()|..]);
    var lines := Lines(complete);
    var records, sequence, lastHash := [], 0, [];
    for i := 0 to |lines|
      invariant LoadLines(f, lines[..i]) == Ok(Chain(records, sequence, lastHash))
    {
      NextLineOf(f, lines, i);
      if lines[i] != [] {
        var parsed := f.fromLine(lines[i]);
        if parsed.None? {
          return Err(BadRecord);
        }
        var envelope := parsed.value;
        var hash := f.digest(envelope.sequence, lastHash, f.toVec(envelope.record));
        if envelope.sequence != SaturatingAdd(sequence, 1) || envelope.previous != lastHash || envelope.hash != hash {
          return Err(BrokenChain);
        }
        records, sequence, lastHash := records + [envelope.record], envelope.sequence, envelope.hash;
      }
    }
    assert lines[..|lines|] == lines;
    r := Ok((Chain(records, sequence, lastHash), torn));
  }

  lemma NextLineOf(f: Format, lines: seq<Bytes>, i: nat)
    requires i < |lines| && LoadLines(f, lines[..i]).Ok?
    ensures LoadLines(f, lines[..i + 1]) == LoadLine(f, LoadLines(f, lines[..i]).value, lines[i])
    ensures LoadLines(f, lines[..i + 1]).Err? ==> LoadLines(f, lines) == LoadLines(f, lines[..i + 1])
  {
    assert lines[..i + 1][..i] == lines[..i];
    if LoadLines(f, lines[..i + 1]).Err? {
      RefusalStays(f, lines, i + 1);
    }
  }

  /** What follows the header in a journal file. */
  function Body(f: Format, records: seq<Record>): Bytes {
    if records == [] then []
    else Body(f, records[..|records| - 1]) + NextLine(f, records[..|records| - 1], records[|records| - 1]) + [NEWLINE]
  }

  lemma {:induction false} EncodeIsHeaderAndBody(f: Format, records: seq<Record>)
    ensures Encode(f, records).bytes == f.Header() + Body(f, records)
  {
    if records != [] {
      EncodeIsHeaderAndBody(f, records[..|records| - 1]);
    }
  }

  /** Where a chain can stand after some records. */
  predicate Sensible(sequence: nat, lastHash: Bytes) {
    sequence <= U64_MAX && (lastHash == [] || IsDigest(lastHash))
  }

  lemma {:induction false} EncodeEnds(f: Format, records: seq<Record>)
    requires f.Lawful()
    ensures var e := Encode(f, records);
      && Sensible(e.sequence, e.lastHash) && |e.bytes| >= |f.Header()|
      && e.sequence == Min(|records|, U64_MAX) && |e.lastHash| == (if records == [] then 0 else DIGEST_CHARS)
  {
    if records != [] {
      EncodeEnds(f, records[..|records| - 1]);
    }
  }

  lemma NextIsWritten(f: Format, sequence: nat, lastHash: Bytes, record: Record)
    requires f.Lawful() && Sensible(sequence, lastHash)
    ensures Written(NextEnvelope(f, sequence, lastHash, record))
  {
  }

  lemma NextLineIsPlain(f: Format, records: seq<Record>, record: Record)
    requires f.Lawful()
    ensures PlainLine(NextLine(f, records, record))
  {
    EncodeEnds(f, records);
    NextIsWritten(f, Encode(f, records).sequence, Encode(f, records).lastHash, record);
  }

  lemma {:induction false} BodyIsText(f: Format, records: seq<Record>)
    requires f.Lawful()
    ensures ValidUtf8(Body(f, records)) && WholeLines(Body(f, records))
  {
    if records != [] {
      var n := |records| - 1;
      BodyIsText(f, records[..n]);
      NextLineIsPlain(f, records[..n], records[n]);
      LineStaysValid(Body(f, records[..n]), NextLine(f, records[..n], records[n]));
    }
  }

  /** A line the journal would append next is accepted after the records before it. */
  lemma NextLineLoads(f: Format, chain: Chain, record: Record)
    requires f.Lawful() && Sensible(chain.sequence, chain.lastHash)
    ensures var envelope := NextEnvelope(f, chain.sequence, chain.lastHash, record);
      LoadLine(f, chain, f.toLine(envelope)) == Ok(Chain(chain.records + [record], envelope.sequence, envelope.hash))
  {
    var envelope := NextEnvelope(f, chain.sequence, chain.lastHash, record);
    NextIsWritten(f, chain.sequence, chain.lastHash, record);
    assert PlainLine(f.toLine(envelope)) && f.fromLine(f.toLine(envelope)) == Some(envelope);
  }

  lemma LoadsOneMore(f: Format, body: Bytes, line: Bytes, chain: Chain)
    requires WholeLines(body) && PlainLine(line) && LoadLines(f, Lines(body)) == Ok(chain)
    ensures WholeLines(body + line + [NEWLINE])
    ensures LoadLines(f, Lines(body + line + [NEWLINE])) == LoadLine(f, chain, line)
  {
    LinesOfAppend(body, line);
    assert (Lines(body) + [line])[..|Lines(body)|] == Lines(body);
  }

  /** The chain a well-formed file of these records loads as. */
  function ChainOf(f: Format, records: seq<Record>): Chain {
    Chain(records, Encode(f, records).sequence, Encode(f, records).lastHash)
  }

  lemma Snoc(f: Format, records: seq<Record>, record: Record)
    ensures Body(f, records + [record]) == Body(f, records) + NextLine(f, records, record) + [NEWLINE]
    ensures var chain := ChainOf(f, records);
      var envelope := NextEnvelope(f, chain.sequence, chain.lastHash, record);
      && NextLine(f, records, record) == f.toLine(envelope)
      && ChainOf(f, records + [record]) == Chain(records + [record], envelope.sequence, envelope.hash)
  {
    assert (records + [record])[..|records|] == records;
  }

  ghost predicate LoadsAs(f: Format, body: Bytes, chain: Chain) {
    WholeLines(body) && LoadLines(f, Lines(body)) == Ok(chain)
  }

  lemma BodyLoadsSnoc(f: Format, records: seq<Record>, record: Record)
    requires f.Lawful() && LoadsAs(f, Body(f, records), ChainOf(f, records))
    ensures LoadsAs(f, Body(f, records + [record]), ChainOf(f, records + [record]))
  {
    NextLineIsPlain(f, records, record);
    EncodeEnds(f, records);
    NextLineLoads(f, ChainOf(f, records), record);
    Snoc(f, records, record);
    LoadsOneMore(f, Body(f, records), NextLine(f, records, record), ChainOf(f, records));
  }

  /** The file is byte for byte what encoding its records gives. */
  predicate IsCanonical(f: Format, file: Bytes, chain: Chain) {
    Encoded(file, chain.sequence, chain.lastHash) == Encode(f, chain.records)
  }

  lemma EmptyLoads(f: Format)
    ensures LoadsAs(f, Body(f, []), ChainOf(f, []))
  {
  }

  lemma {:induction false} BodyLoads(f: Format, records: seq<Record>)
    requires f.Lawful()
    ensures LoadsAs(f, Body(f, records), ChainOf(f, records))
  {
    if |records| == 0 {
      EmptyLoads(f);
      assert records == [];
    } else {
      var before, record := records[..|records| - 1], records[|records| - 1];
      assert records == before + [record];
      BodyLoads(f, before);
      BodyLoadsSnoc(f, before, record);
    }
  }

  lemma LoadAfterHeader(f: Format, body: Bytes, limit: nat)
    requires |f.Header()| + |body| <= limit
    ensures Load(f, f.Header() + body, limit) ==
      if !ValidUtf8(body) then Err(NotUtf8)
      else
        var (complete, torn) := CompleteLinePrefix(body);
        var chain := LoadLines(f, Lines(complete));
        if chain.Ok? then Ok((chain.value, torn)) else Err(chain.error)
  {
    ValidAppend(f.Header(), body);
    assert (f.Header() + body)[|f.Header()|..] == body;
  }

  /** A journal file loads back as the records, sequence and last hash it was encoded from. */
  lemma EncodedLoads(f: Format, records: seq<Record>, limit: nat)
    requires f.Lawful() && |Encode(f, records).bytes| <= limit
    ensures var e := Encode(f, records);
      Load(f, e.bytes, limit) == Ok((ChainOf(f, records), false))
  {
    EncodeIsHeaderAndBody(f, records);
    BodyIsText(f, records);
    BodyLoads(f, records);
    WholeAppend(Body(f, records));
    LoadAfterHeader(f, Body(f, records), limit);
  }

  /** Reading back what an append left when it crashed after `k` of its bytes: the records before it, those after it
      once the newline is there, or a refusal exactly when the cut falls inside a character. */
  lemma TornFileLoads(f: Format, records: seq<Record>, record: Record, k: nat, limit: nat)
    requires f.Lawful()
    requires k <= |NextLine(f, records, record)| + 1 && |Encode(f, records).bytes| + k <= limit
    ensures var line := NextLine(f, records, record) + [NEWLINE];
      var loaded := Load(f, Encode(f, records).bytes + line[..k], limit);
      if k < |line| && IsContinuation(line[k]) then loaded == Err(NotUtf8)
      else
        && loaded.Ok?
        && loaded.value.0.records == (if k == |line| then records + [record] else records)
        && loaded.value.1 == (0 < k < |line|)
  {
    var line := NextLine(f, records, record) + [NEWLINE];
    if k == |line| {
      EncodeSnoc(f, records, record);
      assert line[..k] == line;
      assert Encode(f, records).bytes + line == Encode(f, records + [record]).bytes;
      EncodedLoads(f, records + [record], limit);
    } else {
      EncodedIsReadable(f, records);
      NextLineIsPlain(f, records, record);
      var text := NextLine(f, records, record);
      Regroup(f.Header(), Body(f, records), text, k);
      TornBodyLoads(f, Encode(f, records).bytes + line[..k], Body(f, records), ChainOf(f, records), text, k, limit);
    }
  }

  lemma TornBodyLoads(f: Format, file: Bytes, body: Bytes, chain: Chain, text: Bytes, k: nat, limit: nat)
    requires LoadsAs(f, body, chain) && ValidUtf8(body) && PlainLine(text) && k <= |text|
    requires file == f.Header() + (body + text[..k]) && |file| <= limit
    ensures Load(f, file, limit) == if IsContinuation((text + [NEWLINE])[k]) then Err(NotUtf8) else Ok((chain, k > 0))
  {
    TornAppend(body, text, k);
    LoadAfterHeader(f, body + text[..k], limit);
  }

  /** All that reading back an encoded file rests on. */
  ghost predicate Readable(f: Format, records: seq<Record>) {
    && Encode(f, records).bytes == f.Header() + Body(f, records)
    && ValidUtf8(Body(f, records))
    && LoadsAs(f, Body(f, records), ChainOf(f, records))
  }

  lemma EncodedIsReadable(f: Format, records: seq<Record>)
    requires f.Lawful()
    ensures Readable(f, records)
  {
    EncodeIsHeaderAndBody(f, records);
    BodyIsText(f, records);
    BodyLoads(f, records);
  }

  /** Every crash point of an append is recoverable exactly when the completed file is within the limit and the appended
      line is ASCII. */
  lemma EveryCrashRecoversIffAscii(f: Format, records: seq<Record>, record: Record, limit: nat)
    requires f.Lawful()
    ensures var line := NextLine(f, records, record) + [NEWLINE];
      (forall k :: 0 <= k <= |line| ==> Load(f, Encode(f, records).bytes + line[..k], limit).Ok?)
      <==> |Encode(f, records).bytes| + |line| <= limit && forall b :: b in NextLine(f, records, record) ==> b < 128
  {
    var line := NextLine(f, records, record) + [NEWLINE];
    if |Encode(f, records).bytes| + |line| <= limit {
      CutsRecoverIffAscii(f, records, record, limit);
    } else {
      assert Load(f, Encode(f, records).bytes + line[..|line|], limit) == Err(FileTooLarge);
    }
  }

  lemma CutsRecoverIffAscii(f: Format, records: seq<Record>, record: Record, limit: nat)
    requires f.Lawful() && |Encode(f, records).bytes| + |NextLine(f, records, record)| + 1 <= limit
    ensures var line := NextLine(f, records, record) + [NEWLINE];
      (forall k :: 0 <= k <= |line| ==> Load(f, Encode(f, records).bytes + line[..k], limit).Ok?)
      <==> (forall b :: b in NextLine(f, records, record) ==> b < 128)
  {
    var text := NextLine(f, records, record);
    var line := text + [NEWLINE];
    EveryCutValidIffAscii(text);
    if forall b :: b in text ==> b < 128 {
      forall k | 0 <= k <= |line| ensures Load(f, Encode(f, records).bytes + line[..k], limit).Ok? {
        TornFileLoads(f, records, record, k, limit);
        assert k < |text| ==> line[k] == text[k] && text[k] in text;
      }
    } else {
      var k :| 0 <= k <= |text| && !ValidUtf8(text[..k]);
      ValidPrefix(text, k);
      TornFileLoads(f, records, record, k, limit);
      assert line[k] == text[k];
    }
  }

  // --------------------------------------------------------------------------
  // Retention
  // --------------------------------------------------------------------------

  predicate FitsLimits(f: Format, records: seq<Record>, maxRecords: nat, maxBytes: nat) {
    |records| <= maxRecords && |Encode(f, records).bytes| <= maxBytes
  }

  predicate IsSuffix(suffix: seq<Record>, all: seq<Record>) {
    |suffix| <= |all| && all[|all| - |suffix|..] == suffix
  }

  /** `kept` is the longest suffix of `all` within both limits, or the last record alone when none is. */
  ghost predicate IsRetained(f: Format, kept: seq<Record>, all: seq<Record>, maxRecords: nat, maxBytes: nat) {
    && IsSuffix(kept, all)
    && (kept == [] ==> all == [])
    && (FitsLimits(f, kept, maxRecords, maxBytes) || |kept| <= 1)
    && forall d :: 0 <= d < |all| - |kept| ==> !FitsLimits(f, all[d..], maxRecords, maxBytes)
  }

  lemma RetainedIsUnique(f: Format, a: seq<Record>, b: seq<Record>, all: seq<Record>, maxRecords: nat, maxBytes: nat)
    requires IsRetained(f, a, all, maxRecords, maxBytes) && IsRetained(f, b, all, maxRecords, maxBytes)
    ensures a == b
  {
  }

  /** Compaction has come down to `kept`: every longer suffix was too much. */
  ghost predicate CameDownTo(f: Format, kept: seq<Record>, all: seq<Record>, maxRecords: nat, maxBytes: nat) {
    && IsSuffix(kept, all)
    && (kept == [] ==> all == [])
    && forall d :: 0 <= d < |all| - |kept| ==> !FitsLimits(f, all[d..], maxRecords, maxBytes)
  }

  lemma DropFirst(f: Format, kept: seq<Record>, all: seq<Record>, maxRecords: nat, maxBytes: nat)
    requires CameDownTo(f, kept, all, maxRecords, maxBytes) && |kept| > 1
    requires !FitsLimits(f, kept, maxRecords, maxBytes)
    ensures CameDownTo(f, kept[1..], all, maxRecords, maxBytes)
  {
    var base := |all| - |kept|;
    assert all[base..] == kept;
    assert all[base + 1..] == all[base..][1..];
  }

  lemma AllRetained(f: Format, records: seq<Record>, maxRecords: nat, maxBytes: nat)
    requires FitsLimits(f, records, maxRecords, maxBytes)
    ensures IsRetained(f, records, records, maxRecords, maxBytes)
  {
  }

  lemma WithinLimits(f: Format, file: Bytes, chain: Chain, maxRecords: nat, maxBytes: nat)
    requires |chain.records| <= maxRecords && |file| <= maxBytes
    ensures IsCanonical(f, file, chain) ==>
      && IsRetained(f, chain.records, chain.records, maxRecords, maxBytes)
      && chain.records == Retained(f, chain.records, maxRecords, maxBytes)
  {
    if IsCanonical(f, file, chain) {
      AllRetained(f, chain.records, maxRecords, maxBytes);
    }
  }

  /** Encoding one more record only adds bytes. */
  lemma EncodeGrows(f: Format, records: seq<Record>, record: Record)
    ensures |Encode(f, records).bytes| < |Encode(f, records + [record]).bytes|
  {
    EncodeSnoc(f, records, record);
  }

  /** What was dropped before an append would still not fit after it: looking at the retained records is enough. */
  lemma RetainedThenAppended(
    f: Format, kept: seq<Record>, all: seq<Record>, record: Record, next: seq<Record>, maxRecords: nat, maxBytes: nat)
    requires IsRetained(f, kept, all, maxRecords, maxBytes)
    requires IsRetained(f, next, kept + [record], maxRecords, maxBytes)
    ensures IsRetained(f, next, all + [record], maxRecords, maxBytes)
  {
    var more := all + [record];
    SuffixesAgree(kept, all, record);
    forall d | 0 <= d < |more| - |next|
      ensures !FitsLimits(f, more[d..], maxRecords, maxBytes)
    {
      if d < |all| - |kept| {
        OneMoreStillTooMuch(f, all[d..], record, maxRecords, maxBytes);
        assert more[d..] == all[d..] + [record];
      } else {
        assert more[d..] == (kept + [record])[d - (|all| - |kept|)..];
      }
    }
    assert next == more[|more| - |next|..];
  }

  lemma SuffixesAgree(kept: seq<Record>, all: seq<Record>, record: Record)
    requires IsSuffix(kept, all)
    ensures var more, base := all + [record], |all| - |kept|;
      && (forall d :: 0 <= d <= |all| ==> more[d..] == all[d..] + [record])
      && (forall d :: base <= d <= |more| ==> more[d..] == (kept + [record])[d - base..])
  {
  }

  lemma OneMoreStillTooMuch(f: Format, records: seq<Record>, record: Record, maxRecords: nat, maxBytes: nat)
    requires !FitsLimits(f, records, maxRecords, maxBytes)
    ensures !FitsLimits(f, records + [record], maxRecords, maxBytes)
  {
    EncodeGrows(f, records, record);
  }

  /** Starting compaction again from any suffix it passed through leads to the same records. */
  lemma RetainedFromSuffix(
    f: Format, kept: seq<Record>, middle: seq<Record>, all: seq<Record>, maxRecords: nat, maxBytes: nat)
    requires IsRetained(f, kept, all, maxRecords, maxBytes)
    requires IsSuffix(middle, all) && |kept| <= |middle|
    ensures IsRetained(f, kept, middle, maxRecords, maxBytes)
  {
    var base := |all| - |middle|;
    assert middle[|middle| - |kept|..] == all[|all| - |kept|..];
    forall d | 0 <= d < |middle| - |kept|
      ensures !FitsLimits(f, middle[d..], maxRecords, maxBytes)
    {
      assert middle[d..] == all[base + d..];
    }
  }

  // --------------------------------------------------------------------------
  // The journal
  // --------------------------------------------------------------------------

  /** Largest file that opening accepts. */
  function RecoveryLimit(maxBytes: nat): nat {
    SaturatingAdd(SaturatingAdd(Max(maxBytes, 1), MAX_RECORD_BYTES), RECOVERY_SLACK)
  }

  /** The records compaction leaves. */
  function Retained(f: Format, records: seq<Record>, maxRecords: nat, maxBytes: nat): seq<Record> {
    if FitsLimits(f, records, maxRecords, maxBytes) || |records| <= 1 then records
    else Retained(f, records[1..], maxRecords, maxBytes)
  }

  lemma {:induction false} RetainedComesDown(
    f: Format, kept: seq<Record>, all: seq<Record>, maxRecords: nat, maxBytes: nat)
    requires CameDownTo(f, kept, all, maxRecords, maxBytes)
    ensures IsRetained(f, Retained(f, kept, maxRecords, maxBytes), all, maxRecords, maxBytes)
  {
    if !FitsLimits(f, kept, maxRecords, maxBytes) && |kept| > 1 {
      DropFirst(f, kept, all, maxRecords, maxBytes);
      RetainedComesDown(f, kept[1..], all, maxRecords, maxBytes);
    }
  }

  lemma RetainedIs(f: Format, kept: seq<Record>, all: seq<Record>, maxRecords: nat, maxBytes: nat)
    requires IsRetained(f, kept, all, maxRecords, maxBytes)
    ensures kept == Retained(f, all, maxRecords, maxBytes)
  {
    RetainedIsLongest(f, all, maxRecords, maxBytes);
    RetainedIsUnique(f, kept, Retained(f, all, maxRecords, maxBytes), all, maxRecords, maxBytes);
  }

  lemma RetainedIsLongest(f: Format, all: seq<Record>, maxRecords: nat, maxBytes: nat)
    ensures IsRetained(f, Retained(f, all, maxRecords, maxBytes), all, maxRecords, maxBytes)
  {
    RetainedComesDown(f, all, all, maxRecords, maxBytes);
  }

  /** Records of the journal opened on a file. */
  function Reopened(f: Format, file: Bytes, maxRecords: nat, maxBytes: nat): Result<seq<Record>, JournalError> {
    var loaded := Load(f, file, RecoveryLimit(maxBytes));
    if loaded.Err? then Err(loaded.error)
    else Ok(Retained(f, loaded.value.0.records, maxRecords, maxBytes))
  }

  lemma ReopenedIs(f: Format, file: Bytes, chain: Chain, torn: bool, maxRecords: nat, maxBytes: nat)
    requires Load(f, file, RecoveryLimit(maxBytes)) == Ok((chain, torn))
    ensures Reopened(f, file, maxRecords, Max(maxBytes, 1)) == Ok(Retained(f, chain.records, maxRecords, Max(maxBytes, 1)))
  {
    assert RecoveryLimit(Max(maxBytes, 1)) == RecoveryLimit(maxBytes);
  }

  class Journal {
    const f: Format
    const maxRecords: nat
    const maxBytes: nat
    var file: Bytes
    var records: seq<Record>
    var sequence: nat
    var lastHash: Bytes

    /** Every record appended since the journal was opened, after those it was opened with. */
    ghost var history: seq<Record>

    ghost predicate Valid()
      reads this
    {
      && maxRecords >= 1 && maxBytes >= 1
      && Encoded(file, sequence, lastHash) == Encode(f, records)
      && IsRetained(f, records, history, maxRecords, maxBytes)
    }

    constructor (f: Format, maxRecords: nat, maxBytes: nat, file: Bytes, chain: Chain)
      ensures this.f == f && this.maxRecords == Max(maxRecords, 1) && this.maxBytes == Max(maxBytes, 1)
      ensures this.file == file && Chain(records, sequence, lastHash) == chain && history == chain.records
    {
      this.f, this.maxRecords, this.maxBytes := f, Max(maxRecords, 1), Max(maxBytes, 1);
      this.file := file;
      records, sequence, lastHash := chain.records, chain.sequence, chain.lastHash;
      history := chain.records;
    }

    /** Opens a file: load, then compact when a tail was dropped or a limit is exceeded. What is left untouched is kept
        as it is, whether or not the journal could have written it. */
    static method Open(f: Format, file: Option<Bytes>, maxRecords: nat, maxBytes: nat)
      returns (result: Result<Journal, JournalError>)
      ensures var bytes := if file.None? then f.Header() else file.value;
        var loaded := Load(f, bytes, RecoveryLimit(maxBytes));
        if loaded.Err? then result == Err(loaded.error)
        else
          && result.Ok? && fresh(result.value)
          && var j, chain := result.value, loaded.value.0;
          var compacts := loaded.value.1 || |chain.records| > j.maxRecords || |bytes| > j.maxBytes;
          && j.f == f && j.maxRecords == Max(maxRecords, 1) && j.maxBytes == Max(maxBytes, 1)
          && j.history == chain.records
          && j.records == (if compacts then Retained(f, chain.records, j.maxRecords, j.maxBytes) else chain.records)
          && j.file == (if compacts then Encode(f, j.records).bytes else bytes)
          && (j.Valid() <==> compacts || IsCanonical(f, bytes, chain))
          && (j.Valid() ==> Reopened(f, bytes, j.maxRecords, j.maxBytes) == Ok(j.records))
    {
      var bytes := if file.None? then f.Header() else file.value;
      var loaded := LoadState(f, bytes, RecoveryLimit(maxBytes));
      if loaded.Err? {
        return Err(loaded.error);
      }
      var (chain, torn) := loaded.value;
      ReopenedIs(f, bytes, chain, torn, Max(maxRecords, 1), maxBytes);
      var journal := OpenLoaded(f, bytes, chain, torn, maxRecords, maxBytes);
      result := Ok(journal);
    }

    static method OpenLoaded(f: Format, bytes: Bytes, chain: Chain, torn: bool, maxRecords: nat, maxBytes: nat)
      returns (j: Journal)
      ensures fresh(j) && j.f == f && j.maxRecords == Max(maxRecords, 1) && j.maxBytes == Max(maxBytes, 1)
      ensures j.history == chain.records
      ensures var compacts := torn || |chain.records| > j.maxRecords || |bytes| > j.maxBytes;
        && j.records == (if compacts then Retained(f, chain.records, j.maxRecords, j.maxBytes) else chain.records)
        && j.file == (if compacts then Encode(f, j.records).bytes else bytes)
        && (j.Valid() <==> compacts || IsCanonical(f, bytes, chain))
        && (j.Valid() ==> j.records == Retained(f, chain.records, j.maxRecords, j.maxBytes))
    {
      j := new Journal(f, maxRecords, maxBytes, bytes, chain);
      if torn || |j.records| > j.maxRecords || |j.file| > j.maxBytes {
        j.Compact();
        RetainedIs(f, j.records, chain.records, j.maxRecords, j.maxBytes);
      } else {
        WithinLimits(f, bytes, chain, j.maxRecords, j.maxBytes);
      }
    }

    method Append(record: Record) returns (result: Result<(), JournalError>)
      requires Valid()
      modifies this
      ensures Valid()
      ensures |f.toVec(record)| > MAX_RECORD_BYTES ==>
        result == Err(RecordTooLarge) && unchanged(this)
      ensures |f.toVec(record)| <= MAX_RECORD_BYTES ==>
        && result.Ok? && history == old(history) + [record]
        && records == Retained(f, old(records) + [record], maxRecords, maxBytes)
    {
      if |f.toVec(record)| > MAX_RECORD_BYTES {
        return Err(RecordTooLarge);
      }
      var next := SaturatingAdd(sequence, 1);
      var hash := f.digest(next, lastHash, f.toVec(record));
      var envelope := Envelope(next, lastHash, hash, record);
      file := file + f.toLine(envelope) + [NEWLINE];
      EncodeSnoc(f, records, record);
      records := records + [record];
      sequence := next;
      lastHash := hash;
      assert Encoded(file, sequence, lastHash) == Encode(f, records);
      if |records| > maxRecords || |file| > maxBytes {
        Compact();
      } else {
        AllRetained(f, records, maxRecords, maxBytes);
      }
      RetainedIs(f, records, old(records) + [record], maxRecords, maxBytes);
      RetainedThenAppended(f, old(records), history, record, records, maxRecords, maxBytes);
      history := history + [record];
      result := Ok(());
    }

    method Compact()
      requires maxRecords >= 1 && maxBytes >= 1
      modifies this`file, this`records, this`sequence, this`lastHash
      ensures Encoded(file, sequence, lastHash) == Encode(f, records)
      ensures IsRetained(f, records, old(records), maxRecords, maxBytes)
    {
      ghost var all := records;
      while |records| > maxRecords
        invariant CameDownTo(f, records, all, maxRecords, maxBytes)
      {
        DropFirst(f, records, all, maxRecords, maxBytes);
        records := records[1..];
      }
      Rewrite();
      while |file| > maxBytes && |records| > 1
        invariant CameDownTo(f, records, all, maxRecords, maxBytes)
        invariant Encoded(file, sequence, lastHash) == Encode(f, records)
        invariant |records| <= maxRecords
        decreases |records|
      {
        DropFirst(f, records, all, maxRecords, maxBytes);
        records := records[1..];
        Rewrite();
      }
    }

    /** Encodes the retained records from scratch, with a loop over them, and replaces the file. */
    method Rewrite()
      modifies this`file, this`sequence, this`lastHash
      ensures Encoded(file, sequence, lastHash) == Encode(f, records)
    {
      var output, n, previous := f.Header(), 0, [];
      for i := 0 to |records|
        invariant Encoded(output, n, previous) == Encode(f, records[..i])
      {
        n := SaturatingAdd(n, 1);
        var hash := f.digest(n, previous, f.toVec(records[i]));
        var envelope := Envelope(n, previous, hash, records[i]);
        output := output + f.toLine(envelope) + [NEWLINE];
        previous := hash;
        assert records[..i + 1][..i] == records[..i];
      }
      assert records[..|records|] == records;
      file, sequence, lastHash := output, n, previous;
    }
  }

  // --------------------------------------------------------------------------
  // Crashes
  // --------------------------------------------------------------------------

  /** Where a crash can interrupt an append: after some bytes of the line, or during compaction, whose atomic
      replacements leave one encoded suffix or the next. */
  datatype CrashPoint = DuringAppend(bytes: nat) | DuringCompaction(keep: nat)

  ghost predicate Possible(
    f: Format, records: seq<Record>, record: Record, point: CrashPoint, maxRecords: nat, maxBytes: nat)
  {
    match point
    case DuringAppend(k) => k <= |NextLine(f, records, record)| + 1
    case DuringCompaction(keep) =>
      |Retained(f, records + [record], maxRecords, maxBytes)| <= keep <= |records| + 1
  }

  function CrashFile(f: Format, records: seq<Record>, record: Record, point: CrashPoint): Bytes
    requires point.DuringAppend? ==> point.bytes <= |NextLine(f, records, record)| + 1
    requires point.DuringCompaction? ==> point.keep <= |records| + 1
  {
    match point
    case DuringAppend(k) => AppendCrashFile(f, records, record, k)
    case DuringCompaction(keep) => CompactionCrashFile(f, records + [record], keep)
  }

  function AppendCrashFile(f: Format, records: seq<Record>, record: Record, k: nat): Bytes
    requires k <= |NextLine(f, records, record)| + 1
  {
    Encode(f, records).bytes + (NextLine(f, records, record) + [NEWLINE])[..k]
  }

  function CompactionCrashFile(f: Format, after: seq<Record>, keep: nat): Bytes
    requires keep <= |after|
  {
    Encode(f, after[|after| - keep..]).bytes
  }

  lemma AppendCrashReopens(f: Format, records: seq<Record>, record: Record, k: nat, maxRecords: nat, maxBytes: nat)
    requires f.Lawful() && k <= |NextLine(f, records, record)| + 1
    requires IsRetained(f, records, records, maxRecords, maxBytes)
    requires |AppendCrashFile(f, records, record, k)| <= RecoveryLimit(maxBytes)
    ensures var line := NextLine(f, records, record) + [NEWLINE];
      Reopened(f, AppendCrashFile(f, records, record, k), maxRecords, maxBytes) ==
        if k < |line| && IsContinuation(line[k]) then Err(NotUtf8)
        else if k < |line| then Ok(records)
        else Ok(Retained(f, records + [record], maxRecords, maxBytes))
  {
    TornFileLoads(f, records, record, k, RecoveryLimit(maxBytes));
  }

  lemma CompactionCrashReopens(
    f: Format, after: seq<Record>, keep: nat, maxRecords: nat, maxBytes: nat)
    requires f.Lawful() && |Retained(f, after, maxRecords, maxBytes)| <= keep <= |after|
    requires |CompactionCrashFile(f, after, keep)| <= RecoveryLimit(maxBytes)
    ensures Reopened(f, CompactionCrashFile(f, after, keep), maxRecords, maxBytes) ==
      Ok(Retained(f, after, maxRecords, maxBytes))
  {
    var middle := after[|after| - keep..];
    EncodedLoads(f, middle, RecoveryLimit(maxBytes));
    RetainedAgain(f, after, middle, maxRecords, maxBytes);
  }

  lemma RetainedAgain(f: Format, after: seq<Record>, middle: seq<Record>, maxRecords: nat, maxBytes: nat)
    requires IsSuffix(middle, after) && |Retained(f, after, maxRecords, maxBytes)| <= |middle|
    ensures Retained(f, middle, maxRecords, maxBytes) == Retained(f, after, maxRecords, maxBytes)
  {
    var kept := Retained(f, after, maxRecords, maxBytes);
    RetainedIsLongest(f, after, maxRecords, maxBytes);
    RetainedIsLongest(f, middle, maxRecords, maxBytes);
    RetainedFromSuffix(f, kept, middle, after, maxRecords, maxBytes);
    RetainedIsUnique(f, kept, Retained(f, middle, maxRecords, maxBytes), middle, maxRecords, maxBytes);
  }

  /** A crash anywhere in an append, compaction included, reopens as exactly the records before it or those a
      completed append leaves; the one exception is a cut inside a character of the new line, which opening refuses. */
  lemma CrashReopensBeforeOrAfter(
    f: Format, records: seq<Record>, record: Record, point: CrashPoint, maxRecords: nat, maxBytes: nat)
    requires f.Lawful() && Possible(f, records, record, point, maxRecords, maxBytes)
    requires IsRetained(f, records, records, maxRecords, maxBytes)
    requires |CrashFile(f, records, record, point)| <= RecoveryLimit(maxBytes)
    ensures var line := NextLine(f, records, record) + [NEWLINE];
      Reopened(f, CrashFile(f, records, record, point), maxRecords, maxBytes) ==
        if point.DuringAppend? && point.bytes < |line| && IsContinuation(line[point.bytes]) then Err(NotUtf8)
        else if point.DuringAppend? && point.bytes < |line| then Ok(records)
        else Ok(Retained(f, records + [record], maxRecords, maxBytes))
  {
    if point.DuringAppend? {
      AppendCrashReopens(f, records, record, point.bytes, maxRecords, maxBytes);
    } else {
      CompactionCrashReopens(f, records + [record], point.keep, maxRecords, maxBytes);
    }
  }

  /** `part` is no longer than `whole` in any respect that the next line's length depends on. */
  predicate NoLonger(part: Encoded, whole: Encoded) {
    && |part.bytes| <= |whole.bytes| && part.sequence <= whole.sequence && |part.lastHash| <= |whole.lastHash|
  }

  lemma {:induction false} DigitsGrow(a: nat, b: nat)
    requires a <= b
    ensures Digits(a) <= Digits(b)
  {
    if a >= 10 {
      DigitsGrow(a / 10, b / 10);
    }
  }

  lemma ExtendKeepsNoLonger(f: Format, part: Encoded, whole: Encoded, record: Record)
    requires f.Lawful() && NoLonger(part, whole)
    requires Sensible(part.sequence, part.lastHash) && Sensible(whole.sequence, whole.lastHash)
    ensures NoLonger(Extend(f, part, record), Extend(f, whole, record))
  {
    var e := NextEnvelope(f, part.sequence, part.lastHash, record);
    var e' := NextEnvelope(f, whole.sequence, whole.lastHash, record);
    NextIsWritten(f, part.sequence, part.lastHash, record);
    NextIsWritten(f, whole.sequence, whole.lastHash, record);
    DigitsGrow(e.sequence, e'.sequence);
    assert |f.toLine(e)| <= |f.toLine(e')|;
  }

  /** Renumbering makes no line longer: a suffix never takes more bytes than the whole. */
  lemma {:induction false} SuffixIsShorter(f: Format, all: seq<Record>, d: nat)
    requires f.Lawful() && d <= |all|
    ensures NoLonger(Encode(f, all[d..]), Encode(f, all))
  {
    EncodeEnds(f, all);
    if d == |all| {
      assert all[d..] == [];
    } else {
      var before, record := all[..|all| - 1], all[|all| - 1];
      SuffixIsShorter(f, before, d);
      OneMoreNoLonger(f, before[d..], before, record);
      assert all[d..] == before[d..] + [record] && all == before + [record];
    }
  }

  lemma OneMoreNoLonger(f: Format, part: seq<Record>, whole: seq<Record>, record: Record)
    requires f.Lawful() && NoLonger(Encode(f, part), Encode(f, whole))
    ensures NoLonger(Encode(f, part + [record]), Encode(f, whole + [record]))
  {
    EncodeEnds(f, part);
    EncodeEnds(f, whole);
    ExtendKeepsNoLonger(f, Encode(f, part), Encode(f, whole), record);
    EncodeSnoc(f, part, record);
    EncodeSnoc(f, whole, record);
  }
}
