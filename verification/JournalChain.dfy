/** Which files the operational journal accepts: exactly those whose lines form one hash chain. */
module JournalChain {
  import opened Prelude
  import opened TextFile
  import opened OperationalJournal

  function NonEmpty(lines: seq<Bytes>): seq<Bytes> {
    if lines == [] then []
    else
      var last := lines[|lines| - 1];
      NonEmpty(lines[..|lines| - 1]) + if last == [] then [] else [last]
  }

  /** The complete lines after the header, without the empty ones. */
  function Rows(f: Format, file: Bytes): seq<Bytes>
    requires f.Header() <= file
  {
    NonEmpty(Lines(CompleteLinePrefix(file[|f.Header()|..]).0))
  }

  /** The first rows parse to these envelopes. */
  ghost predicate Parse(f: Format, rows: seq<Bytes>, es: seq<Envelope>) {
    |es| <= |rows| && forall i :: 0 <= i < |es| ==> f.fromLine(rows[i]) == Some(es[i])
  }

  /** Envelope `i` follows the one before it: numbered next, naming that one's hash, and hashed over its own number, that
      hash and its record. */
  predicate Linked(f: Format, es: seq<Envelope>, i: nat)
    requires i < |es|
  {
    && es[i].sequence == Min(i + 1, U64_MAX)
    && es[i].previous == (if i == 0 then [] else es[i - 1].hash)
    && es[i].hash == f.digest(es[i].sequence, es[i].previous, f.toVec(es[i].record))
  }

  ghost predicate Chained(f: Format, es: seq<Envelope>) {
    forall i :: 0 <= i < |es| ==> Linked(f, es, i)
  }

  function RecordsOf(es: seq<Envelope>): (records: seq<Record>)
    ensures |records| == |es|
    ensures forall i :: 0 <= i < |es| ==> records[i] == es[i].record
  {
    seq(|es|, i requires 0 <= i < |es| => es[i].record)
  }

  function ChainEnd(es: seq<Envelope>): Chain {
    Chain(RecordsOf(es), Min(|es|, U64_MAX), if es == [] then [] else es[|es| - 1].hash)
  }

  // --------------------------------------------------------------------------
  // Lines and rows
  // --------------------------------------------------------------------------

  /** Empty lines are skipped. */
  lemma {:induction false} EmptyLinesAreSkipped(f: Format, lines: seq<Bytes>)
    ensures LoadLines(f, lines) == LoadLines(f, NonEmpty(lines))
    ensures forall i :: 0 <= i < |NonEmpty(lines)| ==> NonEmpty(lines)[i] != []
  {
    if lines != [] {
      var before, last := lines[..|lines| - 1], lines[|lines| - 1];
      EmptyLinesAreSkipped(f, before);
      if last != [] {
        assert NonEmpty(lines)[..|NonEmpty(before)|] == NonEmpty(before);
      } else {
        assert NonEmpty(lines) == NonEmpty(before);
      }
    }
  }

  /** One more row after rows that form a chain. */
  lemma NextRow(f: Format, es: seq<Envelope>, row: Bytes)
    requires row != []
    ensures LoadLine(f, ChainEnd(es), row) ==
      match f.fromLine(row)
      case None => Err(BadRecord)
      case Some(e) => if Linked(f, es + [e], |es|) then Ok(ChainEnd(es + [e])) else Err(BrokenChain)
  {
    if f.fromLine(row).Some? {
      var e := f.fromLine(row).value;
      assert es != [] ==> (es + [e])[|es| - 1] == es[|es| - 1];
      assert RecordsOf(es + [e]) == RecordsOf(es) + [e.record];
    }
  }

  lemma ChainedSnoc(f: Format, es: seq<Envelope>, e: Envelope)
    ensures Chained(f, es + [e]) <==> Chained(f, es) && Linked(f, es + [e], |es|)
  {
    forall i | 0 <= i < |es| ensures Linked(f, es + [e], i) <==> Linked(f, es, i) {
    }
  }

  /** What loading rows comes to: their envelopes when they form a chain, else the first row that does not parse or does
      not follow. */
  lemma {:induction false} RowsLoad(f: Format, rows: seq<Bytes>) returns (es: seq<Envelope>)
    requires forall i :: 0 <= i < |rows| ==> rows[i] != []
    ensures Parse(f, rows, es) && Chained(f, es)
    ensures |es| == |rows| ==> LoadLines(f, rows) == Ok(ChainEnd(es))
    ensures |es| < |rows| && f.fromLine(rows[|es|]).None? ==> LoadLines(f, rows) == Err(BadRecord)
    ensures |es| < |rows| && f.fromLine(rows[|es|]).Some? ==>
      && LoadLines(f, rows) == Err(BrokenChain)
      && !Linked(f, es + [f.fromLine(rows[|es|]).value], |es|)
  {
    if rows == [] {
      es := [];
      assert RecordsOf([]) == [];
    } else {
      var before, row := rows[..|rows| - 1], rows[|rows| - 1];
      es := RowsLoad(f, before);
      if |es| == |before| {
        NextRow(f, es, row);
        if f.fromLine(row).Some? && Linked(f, es + [f.fromLine(row).value], |es|) {
          ChainedSnoc(f, es, f.fromLine(row).value);
          es := es + [f.fromLine(row).value];
        }
      }
    }
  }

  /** Rows determine their envelopes as far as they parse. */
  lemma SameEnvelopes(f: Format, rows: seq<Bytes>, a: seq<Envelope>, b: seq<Envelope>)
    requires Parse(f, rows, a) && Parse(f, rows, b) && |a| <= |b|
    ensures a == b[..|a|]
  {
    forall i | 0 <= i < |a| ensures a[i] == b[i] {
      assert f.fromLine(rows[i]) == Some(a[i]) && f.fromLine(rows[i]) == Some(b[i]);
    }
  }

  lemma SameWhole(f: Format, rows: seq<Bytes>, a: seq<Envelope>, b: seq<Envelope>)
    requires Parse(f, rows, a) && Parse(f, rows, b) && |a| == |b|
    ensures a == b
  {
    SameEnvelopes(f, rows, a, b);
    assert b[..|a|] == b;
  }

  lemma ChainedPrefix(f: Format, es: seq<Envelope>, k: nat)
    requires k <= |es|
    ensures forall i :: 0 <= i < k ==> (Linked(f, es[..k], i) <==> Linked(f, es, i))
  {
  }

  // --------------------------------------------------------------------------
  // Accepted and refused files
  // --------------------------------------------------------------------------

  /** Small enough, readable, and with the header. */
  predicate Admissible(f: Format, file: Bytes, limit: nat) {
    |file| <= limit && ValidUtf8(file) && f.Header() <= file
  }

  lemma LoadsRows(f: Format, file: Bytes, limit: nat)
    requires Admissible(f, file, limit)
    ensures var loaded := LoadLines(f, Rows(f, file));
      if loaded.Err? then Load(f, file, limit) == Err(loaded.error)
      else Load(f, file, limit).Ok? && Load(f, file, limit).value.0 == loaded.value
    ensures forall i :: 0 <= i < |Rows(f, file)| ==> Rows(f, file)[i] != []
  {
    EmptyLinesAreSkipped(f, Lines(CompleteLinePrefix(file[|f.Header()|..]).0));
  }

  /** The rows of the whole file parse to envelopes that form a chain. */
  ghost predicate IsJournalOf(f: Format, file: Bytes, es: seq<Envelope>)
    requires f.Header() <= file
  {
    |es| == |Rows(f, file)| && Parse(f, Rows(f, file), es) && Chained(f, es)
  }

  /** Of all files, exactly those load whose complete rows form one hash chain, and what is loaded are its records with
      the number and the hash of its last envelope. */
  lemma LoadsExactlyChains(f: Format, file: Bytes, limit: nat, chain: Chain)
    ensures Load(f, file, limit).Ok? && Load(f, file, limit).value.0 == chain <==>
      Admissible(f, file, limit) && exists es :: IsJournalOf(f, file, es) && chain == ChainEnd(es)
  {
    if Admissible(f, file, limit) {
      var rows := Rows(f, file);
      LoadsRows(f, file, limit);
      var es := RowsLoad(f, rows);
      forall other | IsJournalOf(f, file, other) ensures other == es && |es| == |rows| {
        OnlyChain(f, rows, es, other);
      }
    }
  }

  /** A chain that goes on past other envelopes goes on with one that follows them. */
  lemma GoesOn(f: Format, rows: seq<Bytes>, es: seq<Envelope>, other: seq<Envelope>)
    requires Parse(f, rows, es) && Parse(f, rows, other) && |es| < |other| && Chained(f, other)
    ensures f.fromLine(rows[|es|]) == Some(other[|es|]) && Linked(f, es + [other[|es|]], |es|)
  {
    SameEnvelopes(f, rows, es, other);
    assert es + [other[|es|]] == other[..|es| + 1];
    ChainedPrefix(f, other, |es| + 1);
    assert Linked(f, other, |es|);
  }

  /** Loading stops after these envelopes: the next row does not parse or does not follow. */
  predicate Stops(f: Format, rows: seq<Bytes>, es: seq<Envelope>) {
    |es| < |rows| && f.fromLine(rows[|es|]).Some? ==> !Linked(f, es + [f.fromLine(rows[|es|]).value], |es|)
  }

  lemma OnlyChain(f: Format, rows: seq<Bytes>, es: seq<Envelope>, other: seq<Envelope>)
    requires Parse(f, rows, es) && Parse(f, rows, other) && |other| == |rows| && Chained(f, other) && Stops(f, rows, es)
    ensures other == es
  {
    if |es| < |rows| {
      GoesOn(f, rows, es, other);
    } else {
      SameWhole(f, rows, es, other);
    }
  }

  /** A file whose rows all parse is refused as a broken chain as soon as one envelope does not follow. */
  lemma BrokenLinkIsRefused(f: Format, file: Bytes, limit: nat, es: seq<Envelope>, i: nat)
    requires Admissible(f, file, limit) && |es| == |Rows(f, file)| && Parse(f, Rows(f, file), es)
    requires i < |es| && !Linked(f, es, i)
    ensures Load(f, file, limit) == Err(BrokenChain)
  {
    var rows := Rows(f, file);
    LoadsRows(f, file, limit);
    var good := RowsLoad(f, rows);
    if |good| == |rows| {
      SameWhole(f, rows, good, es);
    } else {
      assert f.fromLine(rows[|good|]) == Some(es[|good|]);
    }
  }

  /** Some rows form a chain, and the next one does not parse. */
  ghost predicate MeetsBadRow(f: Format, rows: seq<Bytes>) {
    exists es :: |es| < |rows| && Parse(f, rows, es) && Chained(f, es) && f.fromLine(rows[|es|]).None?
  }

  /** Some rows form a chain, and the next one parses but does not follow. */
  ghost predicate MeetsBrokenLink(f: Format, rows: seq<Bytes>) {
    exists es :: |es| < |rows| && Parse(f, rows, es) && Chained(f, es) && f.fromLine(rows[|es|]).Some?
                 && !Linked(f, es + [f.fromLine(rows[|es|]).value], |es|)
  }

  /** No chain of rows ends before the one at which loading stops. */
  lemma StopsThere(f: Format, rows: seq<Bytes>, es: seq<Envelope>, other: seq<Envelope>)
    requires Parse(f, rows, es) && Chained(f, es) && Stops(f, rows, es)
    requires Parse(f, rows, other) && Chained(f, other) && Stops(f, rows, other) && |other| < |rows|
    ensures other == es
  {
    if |es| < |other| {
      GoesOn(f, rows, es, other);
    } else if |other| < |es| {
      GoesOn(f, rows, other, es);
    } else {
      SameWhole(f, rows, es, other);
    }
  }

  lemma RowsRefused(f: Format, rows: seq<Bytes>)
    requires forall i :: 0 <= i < |rows| ==> rows[i] != []
    ensures LoadLines(f, rows) == Err(BadRecord) <==> MeetsBadRow(f, rows)
    ensures LoadLines(f, rows) == Err(BrokenChain) <==> MeetsBrokenLink(f, rows)
    ensures LoadLines(f, rows).Err? ==> LoadLines(f, rows).error == BadRecord || LoadLines(f, rows).error == BrokenChain
  {
    var es := RowsLoad(f, rows);
    if MeetsBadRow(f, rows) {
      var other :| |other| < |rows| && Parse(f, rows, other) && Chained(f, other) && f.fromLine(rows[|other|]).None?;
      StopsThere(f, rows, es, other);
    }
    if MeetsBrokenLink(f, rows) {
      var other :| |other| < |rows| && Parse(f, rows, other) && Chained(f, other) && f.fromLine(rows[|other|]).Some?
                   && !Linked(f, other + [f.fromLine(rows[|other|]).value], |other|);
      StopsThere(f, rows, es, other);
    }
  }

  /** How every other file is refused. */
  lemma RefusedExactlyWhen(f: Format, file: Bytes, limit: nat)
    ensures Load(f, file, limit) == Err(FileTooLarge) <==> |file| > limit
    ensures Load(f, file, limit) == Err(NotUtf8) <==> |file| <= limit && !ValidUtf8(file)
    ensures Load(f, file, limit) == Err(UnsupportedFormat) <==>
      |file| <= limit && ValidUtf8(file) && !(f.Header() <= file)
    ensures Load(f, file, limit) == Err(BadRecord) <==>
      Admissible(f, file, limit) && MeetsBadRow(f, Rows(f, file))
    ensures Load(f, file, limit) == Err(BrokenChain) <==>
      Admissible(f, file, limit) && MeetsBrokenLink(f, Rows(f, file))
  {
    if Admissible(f, file, limit) {
      LoadsRows(f, file, limit);
      RowsRefused(f, Rows(f, file));
    }
  }

  /** What was loaded had a torn tail exactly when the file does not end with a newline. */
  lemma TornExactlyWhen(f: Format, file: Bytes, limit: nat)
    requires Load(f, file, limit).Ok?
    ensures Load(f, file, limit).value.1 <==> file[|file| - 1] != NEWLINE
  {
    var body := file[|f.Header()|..];
    if body == [] {
      assert file == f.Header();
    } else {
      assert file[|file| - 1] == body[|body| - 1];
    }
  }
}
