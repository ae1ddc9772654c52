/** Runs of the operational journal over appends, crashes and reopenings, and the sizes at which a crash is final. */
module JournalRuns {
  import opened Prelude
  import opened TextFile
  import opened OperationalJournal

  // --------------------------------------------------------------------------
  // Sizes
  // --------------------------------------------------------------------------

  function PowerOfTen(k: nat): nat {
    if k == 0 then 1 else 10 * PowerOfTen(k - 1)
  }

  lemma {:induction false} DigitsBelow(n: nat, k: nat)
    requires k > 0 && n < PowerOfTen(k)
    ensures Digits(n) <= k
  {
    if n >= 10 {
      DigitsBelow(n / 10, k - 1);
    }
  }

  lemma SequenceDigits(n: nat)
    requires n <= U64_MAX
    ensures Digits(n) <= 20
  {
    assert PowerOfTen(2) == 100 && PowerOfTen(4) == 10_000 && PowerOfTen(6) == 1_000_000;
    assert PowerOfTen(8) == 100_000_000 && PowerOfTen(10) == 10_000_000_000 && PowerOfTen(12) == 1_000_000_000_000;
    assert PowerOfTen(14) == 100_000_000_000_000 && PowerOfTen(16) == 10_000_000_000_000_000;
    assert PowerOfTen(18) == 1_000_000_000_000_000_000 && PowerOfTen(20) == 100_000_000_000_000_000_000;
    DigitsBelow(n, 20);
  }

  /** Length of the line that follows some records. */
  lemma NextLineLength(f: Format, records: seq<Record>, record: Record)
    requires f.Lawful()
    ensures |NextLine(f, records, record)| == |f.toVec(record)| + PUNCTUATION + Digits(SaturatingAdd(Min(|records|, U64_MAX), 1))
              + (if records == [] then 0 else DIGEST_CHARS) + DIGEST_CHARS
    ensures |NextLine(f, records, record)| <= |f.toVec(record)| + ENVELOPE_OVERHEAD
  {
    var before := Encode(f, records);
    EncodeEnds(f, records);
    NextIsWritten(f, before.sequence, before.lastHash, record);
    SequenceDigits(SaturatingAdd(before.sequence, 1));
  }

  /** Length of a file of one record. */
  lemma SingleLength(f: Format, record: Record)
    requires f.Lawful()
    ensures |Encode(f, [record]).bytes| == |f.toVec(record)| + 151
  {
    assert [] + [record] == [record];
    EncodeSnoc(f, [], record);
    NextLineLength(f, [], record);
  }

  /** Records small enough to be appended, in a file small enough to exist. */
  ghost predicate Appendable(f: Format, records: seq<Record>, record: Record) {
    && (forall r :: r in records + [record] ==> |f.toVec(r)| <= MAX_RECORD_BYTES)
    && |Encode(f, records + [record]).bytes| <= U64_MAX
  }

  /** No crash leaves more bytes than the old file and the new line. */
  lemma CrashFileIsShorter(f: Format, records: seq<Record>, record: Record, point: CrashPoint)
    requires f.Lawful()
    requires point.DuringAppend? ==> point.bytes <= |NextLine(f, records, record)| + 1
    requires point.DuringCompaction? ==> point.keep <= |records| + 1
    ensures |CrashFile(f, records, record, point)| <= |Encode(f, records + [record]).bytes|
  {
    EncodeSnoc(f, records, record);
    match point
    case DuringAppend(k) =>
    case DuringCompaction(keep) => SuffixIsShorter(f, records + [record], |records| + 1 - keep);
  }

  ghost predicate SomeCrashIsFinal(f: Format, records: seq<Record>, record: Record, maxRecords: nat, maxBytes: nat) {
    exists point :: Possible(f, records, record, point, maxRecords, maxBytes)
      && |CrashFile(f, records, record, point)| > RecoveryLimit(maxBytes)
  }

  /** Some crash leaves a file above the recovery limit exactly when the completed append does. */
  lemma FinalIffWholeAppend(f: Format, records: seq<Record>, record: Record, maxRecords: nat, maxBytes: nat)
    requires f.Lawful()
    ensures SomeCrashIsFinal(f, records, record, maxRecords, maxBytes) <==>
      |Encode(f, records + [record]).bytes| > RecoveryLimit(maxBytes)
  {
    var line := NextLine(f, records, record) + [NEWLINE];
    var whole := DuringAppend(|line|);
    EncodeSnoc(f, records, record);
    assert line[..|line|] == line;
    assert CrashFile(f, records, record, whole) == Encode(f, records).bytes + line;
    assert Possible(f, records, record, whole, maxRecords, maxBytes);
    forall point | Possible(f, records, record, point, maxRecords, maxBytes)
      ensures |CrashFile(f, records, record, point)| <= |Encode(f, records + [record]).bytes|
    {
      CrashFileIsShorter(f, records, record, point);
    }
  }

  /** With two or more records retained the file fits its limit, and the slack covers one more line. */
  lemma FittingLeavesRoom(f: Format, records: seq<Record>, record: Record, maxRecords: nat, maxBytes: nat)
    requires f.Lawful() && FitsLimits(f, records, maxRecords, maxBytes) && Appendable(f, records, record)
    ensures |Encode(f, records + [record]).bytes| <= RecoveryLimit(maxBytes)
  {
    EncodeSnoc(f, records, record);
    NextLineLength(f, records, record);
    assert record == (records + [record])[|records|];
  }

  /** A crash during an append can leave a file that is too big to reopen exactly when a single record is retained and
      the two records are too big together. */
  lemma FinalCrashIff(f: Format, records: seq<Record>, record: Record, maxRecords: nat, maxBytes: nat)
    requires f.Lawful() && IsRetained(f, records, records, maxRecords, maxBytes) && Appendable(f, records, record)
    ensures SomeCrashIsFinal(f, records, record, maxRecords, maxBytes) <==>
      |records| == 1 && |f.toVec(records[0])| + |f.toVec(record)| + 333 > RecoveryLimit(maxBytes)
  {
    FinalIffWholeAppend(f, records, record, maxRecords, maxBytes);
    if |records| == 1 {
      assert records == [records[0]];
      WholePairLength(f, records[0], record);
    } else if records == [] {
      FirstFits(f, records, record, maxBytes);
    } else {
      FittingLeavesRoom(f, records, record, maxRecords, maxBytes);
    }
  }

  lemma FirstFits(f: Format, records: seq<Record>, record: Record, maxBytes: nat)
    requires f.Lawful() && records == [] && Appendable(f, records, record)
    ensures |Encode(f, records + [record]).bytes| <= RecoveryLimit(maxBytes)
  {
    assert records + [record] == [record] && record in [record];
    SingleLength(f, record);
  }

  lemma WholePairLength(f: Format, first: Record, second: Record)
    requires f.Lawful()
    ensures |Encode(f, [first] + [second]).bytes| == |f.toVec(first)| + |f.toVec(second)| + 333
  {
    EncodeSnoc(f, [first], second);
    NextLineLength(f, [first], second);
    SingleLength(f, first);
  }

  /** Smallest configured size under which no crash is final. */
  const SAFE_BYTES: nat := MAX_RECORD_BYTES + 333 - RECOVERY_SLACK

  ghost predicate NoCrashIsFinal(f: Format, maxRecords: nat, maxBytes: nat) {
    forall records, record :: IsRetained(f, records, records, maxRecords, maxBytes) && Appendable(f, records, record) ==>
      !SomeCrashIsFinal(f, records, record, maxRecords, maxBytes)
  }

  lemma SafeSize(f: Format, records: seq<Record>, record: Record, maxRecords: nat, maxBytes: nat)
    requires f.Lawful() && IsRetained(f, records, records, maxRecords, maxBytes) && Appendable(f, records, record)
    requires maxBytes >= SAFE_BYTES
    ensures !SomeCrashIsFinal(f, records, record, maxRecords, maxBytes)
  {
    FinalCrashIff(f, records, record, maxRecords, maxBytes);
    if |records| == 1 {
      assert records[0] in records + [record] && record == (records + [record])[1];
    }
  }

  /** No crash at all leaves an unrecoverable file exactly from that size on, if records of the maximal size exist. */
  lemma NoCrashIsFinalIff(f: Format, biggest: Record, maxRecords: nat, maxBytes: nat)
    requires f.Lawful() && |f.toVec(biggest)| == MAX_RECORD_BYTES
    ensures NoCrashIsFinal(f, maxRecords, maxBytes) <==> maxBytes >= SAFE_BYTES
  {
    if maxBytes >= SAFE_BYTES {
      forall records, record | IsRetained(f, records, records, maxRecords, maxBytes) && Appendable(f, records, record)
        ensures !SomeCrashIsFinal(f, records, record, maxRecords, maxBytes)
      {
        SafeSize(f, records, record, maxRecords, maxBytes);
      }
    } else {
      WholePairLength(f, biggest, biggest);
      FinalCrashIff(f, [biggest], biggest, maxRecords, maxBytes);
      assert IsRetained(f, [biggest], [biggest], maxRecords, maxBytes);
    }
  }

  // --------------------------------------------------------------------------
  // Runs
  // --------------------------------------------------------------------------

  /** The records on disk, and every record that ever got there. */
  datatype State = State(records: seq<Record>, history: seq<Record>)

  datatype Step =
    | Append(record: Record)
    | Reopen
    | CrashAppend(record: Record, point: CrashPoint)

  /** The append's newline reached the disk. */
  predicate Completed(f: Format, records: seq<Record>, record: Record, point: CrashPoint) {
    point.DuringCompaction? || point.bytes == |NextLine(f, records, record)| + 1
  }

  /** Each step leaves the file that encodes the records of `s'`; a crash is followed by an opening that succeeds. */
  ghost predicate Next(f: Format, maxRecords: nat, maxBytes: nat, s: State, step: Step, s': State) {
    match step
    case Append(record) =>
      && Appendable(f, s.records, record)
      && s'.records == Retained(f, s.records + [record], maxRecords, maxBytes) && s'.history == s.history + [record]
    case Reopen =>
      && Reopened(f, Encode(f, s.records).bytes, maxRecords, maxBytes) == Ok(s'.records) && s'.history == s.history
    case CrashAppend(record, point) =>
      && Appendable(f, s.records, record) && Possible(f, s.records, record, point, maxRecords, maxBytes)
      && Reopened(f, CrashFile(f, s.records, record, point), maxRecords, maxBytes) == Ok(s'.records)
      && s'.history == if Completed(f, s.records, record, point) then s.history + [record] else s.history
  }

  /** A run that starts with what an earlier journal under the same limits left; a new journal starts with nothing. */
  ghost predicate IsRun(f: Format, maxRecords: nat, maxBytes: nat, states: seq<State>, steps: seq<Step>) {
    && |states| == |steps| + 1
    && IsRetained(f, states[0].records, states[0].history, maxRecords, maxBytes)
    && (forall r :: r in states[0].records ==> |f.toVec(r)| <= MAX_RECORD_BYTES)
    && forall i :: 0 <= i < |steps| ==> Next(f, maxRecords, maxBytes, states[i], steps[i], states[i + 1])
  }

  ghost predicate Sound(f: Format, maxRecords: nat, maxBytes: nat, s: State) {
    && IsRetained(f, s.records, s.history, maxRecords, maxBytes)
    && (forall r :: r in s.records ==> |f.toVec(r)| <= MAX_RECORD_BYTES)
  }

  /** What is retained of the history is retained of itself. */
  lemma RetainsItself(f: Format, kept: seq<Record>, all: seq<Record>, maxRecords: nat, maxBytes: nat)
    requires IsRetained(f, kept, all, maxRecords, maxBytes)
    ensures IsRetained(f, kept, kept, maxRecords, maxBytes)
  {
    RetainedFromSuffix(f, kept, kept, all, maxRecords, maxBytes);
  }

  lemma AppendKeepsSound(f: Format, maxRecords: nat, maxBytes: nat, s: State, record: Record, s': State)
    requires Sound(f, maxRecords, maxBytes, s) && |f.toVec(record)| <= MAX_RECORD_BYTES
    requires s'.records == Retained(f, s.records + [record], maxRecords, maxBytes) && s'.history == s.history + [record]
    ensures Sound(f, maxRecords, maxBytes, s')
  {
    RetainedIsLongest(f, s.records + [record], maxRecords, maxBytes);
    RetainedThenAppended(f, s.records, s.history, record, s'.records, maxRecords, maxBytes);
    forall r | r in s'.records ensures |f.toVec(r)| <= MAX_RECORD_BYTES {
      var all := s.records + [record];
      assert r in all[|all| - |s'.records|..];
    }
  }

  /** A retained file is never too big to reopen. */
  lemma RetainedFitsRecovery(f: Format, records: seq<Record>, maxRecords: nat, maxBytes: nat)
    requires f.Lawful() && IsRetained(f, records, records, maxRecords, maxBytes)
    requires (forall r :: r in records ==> |f.toVec(r)| <= MAX_RECORD_BYTES) && |Encode(f, records).bytes| <= U64_MAX
    ensures |Encode(f, records).bytes| <= RecoveryLimit(maxBytes)
  {
    if |records| == 1 {
      assert records == [records[0]];
      SingleLength(f, records[0]);
    } else if records == [] {
      assert |f.Header()| == 33;
    }
  }

  /** Reopening what is retained gives it back. */
  lemma ReopensTheSame(f: Format, records: seq<Record>, maxRecords: nat, maxBytes: nat)
    requires f.Lawful() && IsRetained(f, records, records, maxRecords, maxBytes)
    requires (forall r :: r in records ==> |f.toVec(r)| <= MAX_RECORD_BYTES) && |Encode(f, records).bytes| <= U64_MAX
    ensures Reopened(f, Encode(f, records).bytes, maxRecords, maxBytes) == Ok(records)
  {
    RetainedFitsRecovery(f, records, maxRecords, maxBytes);
    EncodedLoads(f, records, RecoveryLimit(maxBytes));
    RetainedIs(f, records, records, maxRecords, maxBytes);
  }

  lemma TooBigToReopen(f: Format, file: Bytes, maxRecords: nat, maxBytes: nat)
    requires |file| > RecoveryLimit(maxBytes)
    ensures Reopened(f, file, maxRecords, maxBytes) == Err(FileTooLarge)
  {
  }

  /** An opening after a crash never refuses for another reason than size or a cut character. */
  lemma CrashReopens(f: Format, maxRecords: nat, maxBytes: nat, s: State, record: Record, point: CrashPoint)
    requires f.Lawful() && Sound(f, maxRecords, maxBytes, s) && Possible(f, s.records, record, point, maxRecords, maxBytes)
    ensures var file := CrashFile(f, s.records, record, point);
      var line := NextLine(f, s.records, record) + [NEWLINE];
      Reopened(f, file, maxRecords, maxBytes) ==
        if |file| > RecoveryLimit(maxBytes) then Err(FileTooLarge)
        else if point.DuringAppend? && point.bytes < |line| && IsContinuation(line[point.bytes]) then Err(NotUtf8)
        else Ok(if Completed(f, s.records, record, point) then Retained(f, s.records + [record], maxRecords, maxBytes)
                else s.records)
  {
    RetainsItself(f, s.records, s.history, maxRecords, maxBytes);
    if |CrashFile(f, s.records, record, point)| <= RecoveryLimit(maxBytes) {
      CrashReopensBeforeOrAfter(f, s.records, record, point, maxRecords, maxBytes);
    } else {
      TooBigToReopen(f, CrashFile(f, s.records, record, point), maxRecords, maxBytes);
    }
  }

  lemma StepKeepsSound(f: Format, maxRecords: nat, maxBytes: nat, s: State, step: Step, s': State)
    requires f.Lawful() && Sound(f, maxRecords, maxBytes, s) && Next(f, maxRecords, maxBytes, s, step, s')
    ensures Sound(f, maxRecords, maxBytes, s')
  {
    match step
    case Append(record) =>
      assert record == (s.records + [record])[|s.records|];
      AppendKeepsSound(f, maxRecords, maxBytes, s, record, s');
    case Reopen =>
      RetainsItself(f, s.records, s.history, maxRecords, maxBytes);
      EncodedLoadsOrNot(f, s.records, maxRecords, maxBytes);
      RetainedIs(f, s.records, s.records, maxRecords, maxBytes);
    case CrashAppend(record, point) =>
      assert record == (s.records + [record])[|s.records|];
      CrashReopens(f, maxRecords, maxBytes, s, record, point);
      if Completed(f, s.records, record, point) {
        AppendKeepsSound(f, maxRecords, maxBytes, s, record, s');
      }
  }

  lemma EncodedLoadsOrNot(f: Format, records: seq<Record>, maxRecords: nat, maxBytes: nat)
    requires f.Lawful() && Reopened(f, Encode(f, records).bytes, maxRecords, maxBytes).Ok?
    ensures Reopened(f, Encode(f, records).bytes, maxRecords, maxBytes) == Ok(Retained(f, records, maxRecords, maxBytes))
  {
    EncodedLoads(f, records, RecoveryLimit(maxBytes));
  }

  /** Over any number of appends, crashes and reopenings, the records on disk are the longest suffix within both limits
      of all the records whose newline ever reached the disk, or the last of them alone. */
  lemma {:induction false} RunsRetainTheHistory(
      f: Format, maxRecords: nat, maxBytes: nat, states: seq<State>, steps: seq<Step>, n: nat)
    requires f.Lawful() && IsRun(f, maxRecords, maxBytes, states, steps) && n <= |steps|
    ensures Sound(f, maxRecords, maxBytes, states[n])
  {
    if n > 0 {
      RunsRetainTheHistory(f, maxRecords, maxBytes, states, steps, n - 1);
      StepKeepsSound(f, maxRecords, maxBytes, states[n - 1], steps[n - 1], states[n]);
    }
  }

  lemma SafeCrashSize(f: Format, maxRecords: nat, maxBytes: nat, s: State, record: Record, point: CrashPoint)
    requires f.Lawful() && Sound(f, maxRecords, maxBytes, s) && Possible(f, s.records, record, point, maxRecords, maxBytes)
    requires maxBytes >= SAFE_BYTES && Appendable(f, s.records, record)
    ensures |CrashFile(f, s.records, record, point)| <= RecoveryLimit(maxBytes)
  {
    RetainsItself(f, s.records, s.history, maxRecords, maxBytes);
    SafeSize(f, s.records, record, maxRecords, maxBytes);
  }

  /** Under a safe size, every crash in every run reopens unless the cut falls inside a character. */
  lemma SafeRunsReopen(
      f: Format, maxRecords: nat, maxBytes: nat, states: seq<State>, steps: seq<Step>, n: nat,
      record: Record, point: CrashPoint)
    requires f.Lawful() && IsRun(f, maxRecords, maxBytes, states, steps) && n <= |steps|
    requires maxBytes >= SAFE_BYTES && Appendable(f, states[n].records, record)
    requires Possible(f, states[n].records, record, point, maxRecords, maxBytes)
    ensures var records := states[n].records;
      var line := NextLine(f, records, record) + [NEWLINE];
      Reopened(f, CrashFile(f, records, record, point), maxRecords, maxBytes).Ok? <==>
        !(point.DuringAppend? && point.bytes < |line| && IsContinuation(line[point.bytes]))
  {
    RunsRetainTheHistory(f, maxRecords, maxBytes, states, steps, n);
    SafeCrashSize(f, maxRecords, maxBytes, states[n], record, point);
    CrashReopens(f, maxRecords, maxBytes, states[n], record, point);
  }
}
