/** Which files the idempotency store accepts, and what it shows of them. */
module IdempotencyFiles {
  import opened Prelude
  import opened TextFile
  import opened IdempotencyRecords
  import opened IdempotencyLog
  import Utf8

  // --------------------------------------------------------------------------
  // White space
  // --------------------------------------------------------------------------

  /** White space are the encodings of the characters with that property. */
  lemma SpacesAreWhiteSpace(c: Bytes)
    ensures IsSpace(c) <==> exists n :: IsWhiteSpace(n) && Utf8.IsScalar(n) && c == Utf8.Encode(n)
  {
    if IsSpace(c) {
      SpaceIsCharacter(c);
      Utf8.OneCharIsEncoded(c);
      SpaceDecodes(c);
    }
    if n :| IsWhiteSpace(n) && Utf8.IsScalar(n) && c == Utf8.Encode(n) {
      WhiteSpaceEncodes(n);
    }
  }

  lemma SpaceIsCharacter(c: Bytes)
    requires IsSpace(c)
    ensures OneChar(c)
  {
  }

  lemma SpaceDecodes(c: Bytes)
    requires IsSpace(c) && OneChar(c)
    ensures IsWhiteSpace(Utf8.Decode(c))
  {
  }

  lemma WhiteSpaceEncodes(n: nat)
    requires IsWhiteSpace(n) && Utf8.IsScalar(n)
    ensures IsSpace(Utf8.Encode(n))
  {
  }

  /** The bytes of some characters. */
  function Joined(chars: seq<Bytes>): Bytes {
    if chars == [] then [] else Joined(chars[..|chars| - 1]) + chars[|chars| - 1]
  }

  ghost predicate AllSpace(chars: seq<Bytes>) {
    forall i :: 0 <= i < |chars| ==> IsSpace(chars[i])
  }

  lemma {:induction false} JoinedCons(c: Bytes, chars: seq<Bytes>)
    ensures Joined([c] + chars) == c + Joined(chars)
  {
    var all := [c] + chars;
    if chars == [] {
      assert all[..0] == [] && all[0] == c;
    } else {
      var n := |chars| - 1;
      JoinedCons(c, chars[..n]);
      assert all[..|all| - 1] == [c] + chars[..n] && all[|all| - 1] == chars[n];
    }
  }

  lemma JoinedSnoc(chars: seq<Bytes>, c: Bytes)
    ensures Joined(chars + [c]) == Joined(chars) + c
  {
    assert (chars + [c])[..|chars|] == chars;
  }

  lemma {:induction false} TrimEnds(line: Bytes)
    ensures LeadingSpace(Trim(line)) == 0 && TrailingSpace(Trim(line)) == 0
    decreases |line|
  {
    if LeadingSpace(line) > 0 {
      TrimEnds(line[LeadingSpace(line)..]);
    } else if TrailingSpace(line) > 0 {
      TrimEnds(line[..|line| - TrailingSpace(line)]);
    }
  }

  lemma LongIsNoSpace(c: Bytes)
    requires |c| > 3
    ensures !IsSpace(c)
  {
  }

  lemma NoSpaceAhead(s: Bytes, n: nat)
    requires LeadingSpace(s) == 0 && 1 <= n <= |s|
    ensures !IsSpace(s[..n])
  {
    if n > 3 {
      LongIsNoSpace(s[..n]);
    }
  }

  lemma NoSpaceBehind(s: Bytes, n: nat)
    requires TrailingSpace(s) == 0 && 1 <= n <= |s|
    ensures !IsSpace(s[|s| - n..])
  {
    var end := s[|s| - n..];
    if n > 3 {
      LongIsNoSpace(end);
    } else if n == 3 {
      assert end == s[|s| - 3..];
    } else if n == 2 {
      assert end == s[|s| - 2..];
    }
  }

  /** Trimming takes off white space characters, at both ends ... */
  lemma {:induction false} TrimTakesBlanks(line: Bytes) returns (before: seq<Bytes>, after: seq<Bytes>)
    ensures AllSpace(before) && AllSpace(after) && line == Joined(before) + Trim(line) + Joined(after)
    decreases |line|
  {
    var a, b := LeadingSpace(line), TrailingSpace(line);
    if a > 0 {
      before, after := TrimTakesBlanks(line[a..]);
      before := OneMoreAhead(line, a, before, after, Trim(line[a..]));
    } else if b > 0 {
      before, after := TrimTakesBlanks(line[..|line| - b]);
      after := OneMoreBehind(line, b, before, after, Trim(line[..|line| - b]));
    } else {
      before, after := [], [];
    }
  }

  lemma OneMoreAhead(line: Bytes, n: nat, before: seq<Bytes>, after: seq<Bytes>, middle: Bytes) returns (more: seq<Bytes>)
    requires n <= |line| && IsSpace(line[..n]) && AllSpace(before)
    requires line[n..] == Joined(before) + middle + Joined(after)
    ensures AllSpace(more) && line == Joined(more) + middle + Joined(after)
  {
    more := [line[..n]] + before;
    JoinedCons(line[..n], before);
    assert line == line[..n] + line[n..];
    Regrouped(line, line[..n], line[n..], Joined(before), middle, Joined(after));
  }

  lemma OneMoreBehind(line: Bytes, n: nat, before: seq<Bytes>, after: seq<Bytes>, middle: Bytes)
    returns (more: seq<Bytes>)
    requires n <= |line| && IsSpace(line[|line| - n..]) && AllSpace(after)
    requires line[..|line| - n] == Joined(before) + middle + Joined(after)
    ensures AllSpace(more) && line == Joined(before) + middle + Joined(more)
  {
    var end := line[|line| - n..];
    more := after + [end];
    JoinedSnoc(after, end);
    assert line == line[..|line| - n] + end;
    RegroupedEnd(line, line[..|line| - n], end, Joined(before), middle, Joined(after));
  }

  lemma Regrouped(line: Bytes, head: Bytes, tail: Bytes, before: Bytes, middle: Bytes, after: Bytes)
    requires line == head + tail && tail == before + middle + after
    ensures line == head + before + middle + after
  {
  }

  lemma RegroupedEnd(line: Bytes, head: Bytes, tail: Bytes, before: Bytes, middle: Bytes, after: Bytes)
    requires line == head + tail && head == before + middle + after
    ensures line == before + middle + (after + tail)
  {
  }

  /** ... and all of it. */
  lemma TrimmedHasNoSpace(line: Bytes, n: nat)
    requires 1 <= n <= |Trim(line)|
    ensures !IsSpace(Trim(line)[..n]) && !IsSpace(Trim(line)[|Trim(line)| - n..])
  {
    TrimEnds(line);
    NoSpaceAhead(Trim(line), n);
    NoSpaceBehind(Trim(line), n);
  }

  // --------------------------------------------------------------------------
  // Rows and records
  // --------------------------------------------------------------------------

  /** The trimmed lines, without the blank ones. */
  function TrimmedRows(lines: seq<Bytes>): seq<Bytes> {
    if lines == [] then []
    else
      var last := Trim(lines[|lines| - 1]);
      TrimmedRows(lines[..|lines| - 1]) + if last == [] then [] else [last]
  }

  function Rows(f: Format, file: Bytes): seq<Bytes>
    requires f.Header() <= file
  {
    TrimmedRows(Lines(CompleteLinePrefix(file[|f.Header()|..]).0))
  }

  /** The row is an object that parses to this record. */
  predicate Parses(f: Format, row: Bytes, record: Record) {
    row != [] && row[0] == 123 && f.fromLine(row) == Some(record)
  }

  /** The first rows parse to these records, all under valid keys. */
  ghost predicate GoodRows(f: Format, rows: seq<Bytes>, records: seq<Record>) {
    |records| <= |rows| && forall i :: 0 <= i < |records| ==> Parses(f, rows[i], records[i]) && f.validKey(records[i].key)
  }

  /** Record `i` is the last resolved one of its key. */
  predicate LastResolved(records: seq<Record>, i: nat, key: string)
    requires i < |records|
  {
    && records[i].key == key && records[i].status.Resolved?
    && forall j :: i < j < |records| && records[j].status.Resolved? ==> records[j].key != key
  }

  /** A view shows the last resolved record of every key that has one. */
  lemma {:induction false} ViewShowsLastResolved(records: seq<Record>, key: string)
    ensures key !in ResolvedView(records) ==> forall i :: 0 <= i < |records| && records[i].status.Resolved? ==> records[i].key != key
    ensures key in ResolvedView(records) ==>
      exists i :: 0 <= i < |records| && LastResolved(records, i, key) && ResolvedView(records)[key] == records[i]
  {
    if records != [] {
      var n := |records| - 1;
      ViewShowsLastResolved(records[..n], key);
      if records[n].status.Resolved? && records[n].key == key {
        assert LastResolved(records, n, key);
      } else if key in ResolvedView(records) {
        var i :| 0 <= i < n && LastResolved(records[..n], i, key) && ResolvedView(records[..n])[key] == records[..n][i];
        assert LastResolved(records, i, key);
      }
    }
  }

  /** One more row. */
  lemma NextRow(f: Format, seen: Seen, line: Bytes)
    ensures LoadLine(f, seen, line) ==
      if Trim(line) == [] then Ok(seen)
      else if Trim(line)[0] != 123 || f.fromLine(Trim(line)).None? then Err(Corrupt)
      else if !f.validKey(f.fromLine(Trim(line)).value.key) then Err(InvalidKey)
      else Ok(WithRecord(seen, f.fromLine(Trim(line)).value))
  {
  }

  lemma ViewSnoc(records: seq<Record>, record: Record)
    ensures ResolvedView(records + [record]) == WithRecord(ResolvedView(records), record)
  {
    assert (records + [record])[..|records|] == records;
  }

  /** Loading lines comes to the view of the records their rows parse to, or to the first row that is no record under a
      valid key. */
  lemma {:induction false} LinesLoad(f: Format, lines: seq<Bytes>) returns (records: seq<Record>)
    ensures GoodRows(f, TrimmedRows(lines), records)
    ensures var rows := TrimmedRows(lines);
      && (|records| == |rows| ==> LoadLines(f, lines) == Ok(ResolvedView(records)))
      && (|records| < |rows| ==>
            if exists r :: Parses(f, rows[|records|], r)
            then LoadLines(f, lines) == Err(InvalidKey) && forall r :: Parses(f, rows[|records|], r) ==> !f.validKey(r.key)
            else LoadLines(f, lines) == Err(Corrupt))
  {
    if lines == [] {
      records := [];
    } else {
      var before, line := lines[..|lines| - 1], lines[|lines| - 1];
      records := LinesLoad(f, before);
      if |records| == |TrimmedRows(before)| {
        NextRow(f, ResolvedView(records), line);
        if Trim(line) != [] && Trim(line)[0] == 123 && f.fromLine(Trim(line)).Some? {
          var record := f.fromLine(Trim(line)).value;
          assert Parses(f, Trim(line), record);
          if f.validKey(record.key) {
            ViewSnoc(records, record);
            records := records + [record];
          }
        }
      }
    }
  }

  // --------------------------------------------------------------------------
  // Accepted and refused files
  // --------------------------------------------------------------------------

  predicate Admissible(f: Format, file: Bytes) {
    |file| <= MAX_FILE_BYTES && ValidUtf8(file) && f.Header() <= file
  }

  lemma LoadsItsRows(f: Format, file: Bytes)
    requires Admissible(f, file)
    ensures var loaded := LoadLines(f, Lines(CompleteLinePrefix(file[|f.Header()|..]).0));
      if loaded.Err? then Load(f, file) == Err(loaded.error)
      else Load(f, file).Ok? && Load(f, file).value.0 == loaded.value
  {
  }

  /** Rows determine their records. */
  lemma SameRecords(f: Format, rows: seq<Bytes>, a: seq<Record>, b: seq<Record>)
    requires GoodRows(f, rows, a) && GoodRows(f, rows, b) && |a| <= |b|
    ensures a == b[..|a|]
    ensures |a| < |b| ==> Parses(f, rows[|a|], b[|a|]) && f.validKey(b[|a|].key)
  {
    forall i | 0 <= i < |a| ensures a[i] == b[i] {
      assert Parses(f, rows[i], a[i]) && Parses(f, rows[i], b[i]);
    }
  }

  /** Of all files with the header, exactly those open whose rows are all records under valid keys, and what is shown is
      the last resolved one of each key. */
  lemma LoadsExactlyRecords(f: Format, file: Bytes, view: Seen)
    requires f.Header() <= file
    ensures Load(f, file).Ok? && Load(f, file).value.0 == view <==>
      Admissible(f, file) && exists records ::
        |records| == |Rows(f, file)| && GoodRows(f, Rows(f, file), records) && view == ResolvedView(records)
  {
    if Admissible(f, file) {
      var lines := Lines(CompleteLinePrefix(file[|f.Header()|..]).0);
      LoadsItsRows(f, file);
      var records := LinesLoad(f, lines);
      forall other | |other| == |Rows(f, file)| && GoodRows(f, Rows(f, file), other) ensures other == records {
        SameRecords(f, Rows(f, file), records, other);
        assert other[..|other|] == other;
      }
    }
  }

  /** How the other files are refused: for their size, as unreadable, or at the first row that is no record under a valid
      key. A file without the header opens only if it is the bare marker. */
  lemma RefusedExactlyWhen(f: Format, file: Bytes)
    ensures |file| > MAX_FILE_BYTES ==> Load(f, file) == Err(Corrupt)
    ensures |file| <= MAX_FILE_BYTES && !ValidUtf8(file) ==> Load(f, file) == Err(NotUtf8)
    ensures |file| <= MAX_FILE_BYTES && ValidUtf8(file) && !(f.Header() <= file) ==>
      Load(f, file) == if file == Ascii(f.marker) then Ok((map[], false)) else Err(Corrupt)
    ensures Admissible(f, file) && Load(f, file).Err? ==>
      exists records :: |records| < |Rows(f, file)| && GoodRows(f, Rows(f, file), records)
        && if Load(f, file) == Err(Corrupt) then forall r :: !Parses(f, Rows(f, file)[|records|], r)
           else Load(f, file) == Err(InvalidKey)
                && exists r :: Parses(f, Rows(f, file)[|records|], r) && !f.validKey(r.key)
  {
    if Admissible(f, file) {
      LoadsItsRows(f, file);
      var records := LinesLoad(f, Lines(CompleteLinePrefix(file[|f.Header()|..]).0));
    }
  }

  /** A torn tail was dropped exactly when the file goes on after its last newline. */
  lemma TornExactlyWhen(f: Format, file: Bytes)
    requires Load(f, file).Ok? && f.Header() <= file
    ensures Load(f, file).value.1 <==> file[|file| - 1] != NEWLINE
  {
    var body := file[|f.Header()|..];
    if body == [] {
      assert file == f.Header();
    } else {
      assert file[|file| - 1] == body[|body| - 1];
    }
  }
}
