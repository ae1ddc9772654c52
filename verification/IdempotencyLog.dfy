/** Records of idempotent executions, shared by the controller and its stores. */
module IdempotencyRecords {
  import opened Prelude

  datatype Status = Pending | Resolved(responseStatus: u16, responseBody: string)

  datatype Record = Record(key: string, requestHash: string, status: Status, createdAt: u64)
}

/** The file-backed idempotency store: an append log with expiry, compaction and torn-tail recovery. */
module IdempotencyLog {
  import opened Prelude
  import opened TextFile
  import opened IdempotencyRecords

  const FORMAT_MARKER := "# appcore-idempotency-v1"
  const MAX_FILE_BYTES: nat := 64 * 1024 * 1024
  const OPEN_BRACE: byte := 123
  const CLOSE_BRACE: byte := 125

  datatype StoreError = Corrupt | NotUtf8 | InvalidKey

  type Seen = map<string, Record>

  /** The JSON serializer and the key validator, which this model leaves abstract. */
  datatype Format = Format(
    marker: string,
    toLine: Record -> Bytes,
    fromLine: Bytes -> Option<Record>,
    validKey: string -> bool)
  {
    function Header(): (bytes: Bytes)
      ensures bytes != [] && bytes[|bytes| - 1] == NEWLINE && ValidUtf8(bytes)
    {
      AsciiIsValid(Ascii(marker) + [NEWLINE]);
      Ascii(marker) + [NEWLINE]
    }

    /** Records are written as JSON objects on plain lines and parse back. */
    ghost predicate Lawful() {
      && marker == FORMAT_MARKER
      && forall r: Record :: IsObjectLine(toLine(r)) && fromLine(toLine(r)) == Some(r)
    }
  }

  predicate IsObjectLine(line: Bytes) {
    PlainLine(line) && line[0] == OPEN_BRACE && line[|line| - 1] == CLOSE_BRACE
  }

  predicate Expired(createdAt: nat, ttl: Option<nat>, now: nat) {
    createdAt != 0 && ttl.Some? && SaturatingSub(now, createdAt) > ttl.value
  }

  // --------------------------------------------------------------------------
  // Reading a file
  // --------------------------------------------------------------------------

  /** Bytes of one Unicode white space character; the characters beyond ASCII take two or three. */
  predicate IsSpace(c: Bytes) {
    || (|c| == 1 && (c[0] == 32 || 9 <= c[0] <= 13))
    || c == [0xC2, 0x85] || c == [0xC2, 0xA0] || c == [0xE1, 0x9A, 0x80]
    || (|c| == 3 && c[..2] == [0xE2, 0x80] && (0x80 <= c[2] <= 0x8A || c[2] == 0xA8 || c[2] == 0xA9 || c[2] == 0xAF))
    || c == [0xE2, 0x81, 0x9F] || c == [0xE3, 0x80, 0x80]
  }

  /** Length of the white space character that starts the text; zero when none does. */
  function LeadingSpace(s: Bytes): (n: nat)
    ensures n <= |s| && (n > 0 ==> IsSpace(s[..n]))
  {
    if |s| >= 1 && IsSpace(s[..1]) then 1
    else if |s| >= 2 && IsSpace(s[..2]) then 2
    else if |s| >= 3 && IsSpace(s[..3]) then 3
    else 0
  }

  function TrailingSpace(s: Bytes): (n: nat)
    ensures n <= |s| && (n > 0 ==> IsSpace(s[|s| - n..]))
  {
    if |s| >= 1 && IsSpace(s[|s| - 1..]) then 1
    else if |s| >= 2 && IsSpace(s[|s| - 2..]) then 2
    else if |s| >= 3 && IsSpace(s[|s| - 3..]) then 3
    else 0
  }

  function Trim(line: Bytes): Bytes
    decreases |line|
  {
    if LeadingSpace(line) > 0 then Trim(line[LeadingSpace(line)..])
    else if TrailingSpace(line) > 0 then Trim(line[..|line| - TrailingSpace(line)])
    else line
  }

  /** Adds one line to the records loaded so far; only resolved records are kept. */
  function LoadLine(f: Format, seen: Seen, line: Bytes): Result<Seen, StoreError> {
    var trimmed := Trim(line);
    if trimmed == [] then Ok(seen)
    else if trimmed[0] != OPEN_BRACE then Err(Corrupt)
    else
      match f.fromLine(trimmed)
      case None => Err(Corrupt)
      case Some(record) =>
        if !f.validKey(record.key) then Err(InvalidKey)
        else if record.status.Resolved? then Ok(seen[record.key := record])
        else Ok(seen)
  }

  function LoadLines(f: Format, lines: seq<Bytes>): Result<Seen, StoreError> {
    if lines == [] then Ok(map[])
    else
      var before :- LoadLines(f, lines[..|lines| - 1]);
      LoadLine(f, before, lines[|lines| - 1])
  }

  /** What opening reads from a file, and whether a torn tail was dropped. */
  function Load(f: Format, file: Bytes): Result<(Seen, bool), StoreError> {
    if |file| > MAX_FILE_BYTES then Err(Corrupt)
    else if !ValidUtf8(file) then Err(NotUtf8)
    else if f.Header() <= file then
      var (complete, torn) := CompleteLinePrefix(file[|f.Header()|..]);
      var seen :- LoadLines(f, Lines(complete));
      Ok((seen, torn))
    else if file == Ascii(f.marker) then Ok((map[], false))
    else Err(Corrupt)
  }

  lemma {:induction false} RefusalStays(f: Format, lines: seq<Bytes>, n: nat)
    requires n <= |lines| && LoadLines(f, lines[..n]).Err?
    ensures LoadLines(f, lines) == LoadLines(f, lines[..n])
  {
    if n == |lines| {
      assert lines[..n] == lines;
    } else {
      assert lines[..|lines| - 1][..n] == lines[..n];
      RefusalStays(f, lines[..|lines| - 1], n);
    }
  }

  lemma NextLineOf(f: Format, lines: seq<Bytes>, i: nat)
    requires i < |lines| && LoadLines(f, lines[..i]).Ok?
    ensures LoadLines(f, lines[..i + 1]) == LoadLine(f, LoadLines(f, lines[..i]).value, lines[i])
    ensures LoadLines(f, lines[..i + 1]).Err? ==> LoadLines(f, lines) == LoadLines(f, lines[..i + 1])
  {
    assert lines[..i + 1][..i] == lines[..i];
    if LoadLines(f, lines[..i + 1]).Err? {
      RefusalStays(f, lines, i + 1);
    }
  }

  /** The loader's loop over the complete lines, trimmed; blank ones are skipped and pending records dropped. */
  method LoadEntries(f: Format, file: Bytes) returns (r: Result<(Seen, bool), StoreError>)
    ensures r == Load(f, file)
  {
    if |file| > MAX_FILE_BYTES {
      return Err(Corrupt);
    }
    if !ValidUtf8(file) {
      return Err(NotUtf8);
    }
    if !(f.Header() <= file) {
      return if file == Ascii(f.marker) then Ok((map[], false)) else Err(Corrupt);
    }
    var (complete, torn) := CompleteLinePrefix(file[|f.Header()|..]);
    var lines := Lines(complete);
    var seen: Seen := map[];
    for i := 0 to |lines|
      invariant LoadLines(f, lines[..i]) == Ok(seen)
    {
      NextLineOf(f, lines, i);
      var trimmed := Trim(lines[i]);
      if trimmed != [] {
        if trimmed[0] != OPEN_BRACE {
          return Err(Corrupt);
        }
        var parsed := f.fromLine(trimmed);
        if parsed.None? {
          return Err(Corrupt);
        }
        if !f.validKey(parsed.value.key) {
          return Err(InvalidKey);
        }
        if parsed.value.status.Resolved? {
          seen := seen[parsed.value.key := parsed.value];
        }
      }
    }
    assert lines[..|lines|] == lines;
    r := Ok((seen, torn));
  }

  // --------------------------------------------------------------------------
  // Files the store writes
  // --------------------------------------------------------------------------

  /** Rows of a file that holds these records in this order. */
  function Body(f: Format, rows: seq<Record>): Bytes {
    if rows == [] then [] else Body(f, rows[..|rows| - 1]) + f.toLine(rows[|rows| - 1]) + [NEWLINE]
  }

  function FileOf(f: Format, rows: seq<Record>): Bytes {
    f.Header() + Body(f, rows)
  }

  /** The resolved records that some rows show: the latest one of each key. */
  function ResolvedView(rows: seq<Record>): Seen {
    if rows == [] then map[]
    else
      var last := rows[|rows| - 1];
      var before := ResolvedView(rows[..|rows| - 1]);
      if last.status.Resolved? then before[last.key := last] else before
  }

  ghost predicate ValidKeys(f: Format, rows: seq<Record>) {
    forall r :: r in rows ==> f.validKey(r.key)
  }

  /** The rows hold each record in memory once, and nothing else. */
  ghost predicate Enumerates(rows: seq<Record>, seen: Seen) {
    && (forall r :: r in rows <==> r.key in seen && seen[r.key] == r)
    && (forall i, j :: 0 <= i < j < |rows| ==> rows[i].key != rows[j].key)
  }

  lemma OneMoreRow(rows: seq<Record>, seen: Seen, keys: set<string>, key: string)
    requires Enumerates(rows, seen - keys) && key in keys && key in seen && seen[key].key == key
    ensures Enumerates(rows + [seen[key]], seen - (keys - {key}))
  {
    forall i | 0 <= i < |rows| ensures rows[i].key != key {
      assert rows[i] in rows;
    }
  }

  /** What a file with whole lines shows, and with what it goes on showing after one more line. */
  ghost predicate LoadsAs(f: Format, body: Bytes, seen: Seen) {
    ValidUtf8(body) && WholeLines(body) && LoadLines(f, Lines(body)) == Ok(seen)
  }

  ghost predicate Reads(f: Format, file: Bytes, view: Seen) {
    f.Header() <= file && LoadsAs(f, file[|f.Header()|..], view)
  }

  lemma SpaceBytes(c: Bytes)
    requires IsSpace(c)
    ensures c != [] && c[0] != OPEN_BRACE && c[|c| - 1] != CLOSE_BRACE
  {
  }

  lemma NoLeadingSpace(s: Bytes)
    requires s != [] && s[0] == OPEN_BRACE
    ensures LeadingSpace(s) == 0
  {
    var n := LeadingSpace(s);
    if n > 0 {
      SpaceBytes(s[..n]);
    }
  }

  lemma NoTrailingSpace(s: Bytes)
    requires s != [] && s[|s| - 1] == CLOSE_BRACE
    ensures TrailingSpace(s) == 0
  {
    var n := TrailingSpace(s);
    if n > 0 {
      SpaceBytes(s[|s| - n..]);
    }
  }

  lemma ObjectLineTrims(line: Bytes)
    requires IsObjectLine(line)
    ensures Trim(line) == line
  {
    NoLeadingSpace(line);
    NoTrailingSpace(line);
  }

  lemma LoadsOneMore(f: Format, body: Bytes, line: Bytes, seen: Seen)
    requires LoadsAs(f, body, seen) && PlainLine(line) && LoadLine(f, seen, line).Ok?
    ensures LoadsAs(f, body + line + [NEWLINE], LoadLine(f, seen, line).value)
  {
    LinesOfAppend(body, line);
    LineStaysValid(body, line);
    LinesSnoc(f, Lines(body), line, seen);
  }

  lemma LinesSnoc(f: Format, lines: seq<Bytes>, line: Bytes, seen: Seen)
    requires LoadLines(f, lines) == Ok(seen)
    ensures LoadLines(f, lines + [line]) == LoadLine(f, seen, line)
  {
    assert (lines + [line])[..|lines|] == lines;
  }

  /** What the file shows after a record's line. */
  function WithRecord(view: Seen, record: Record): Seen {
    if record.status.Resolved? then view[record.key := record] else view
  }

  lemma RecordLoads(f: Format, seen: Seen, record: Record)
    requires f.Lawful() && f.validKey(record.key)
    ensures IsObjectLine(f.toLine(record))
    ensures LoadLine(f, seen, f.toLine(record)) == Ok(WithRecord(seen, record))
  {
    assert IsObjectLine(f.toLine(record));
    ObjectLineTrims(f.toLine(record));
  }

  lemma BodySnoc(f: Format, rows: seq<Record>, record: Record)
    ensures Body(f, rows + [record]) == Body(f, rows) + f.toLine(record) + [NEWLINE]
    ensures ResolvedView(rows + [record]) == WithRecord(ResolvedView(rows), record)
  {
    assert (rows + [record])[..|rows|] == rows;
  }

  lemma FileSnoc(f: Format, rows: seq<Record>, record: Record)
    ensures FileOf(f, rows + [record]) == FileOf(f, rows) + f.toLine(record) + [NEWLINE]
  {
    BodySnoc(f, rows, record);
  }

  lemma EmptyLoads(f: Format)
    ensures LoadsAs(f, Body(f, []), ResolvedView([]))
  {
  }

  lemma {:induction false} BodyLoads(f: Format, rows: seq<Record>)
    requires f.Lawful() && ValidKeys(f, rows)
    ensures LoadsAs(f, Body(f, rows), ResolvedView(rows))
  {
    if |rows| == 0 {
      EmptyLoads(f);
      assert rows == [];
    } else {
      var before, record := rows[..|rows| - 1], rows[|rows| - 1];
      assert rows == before + [record];
      assert record in rows && forall r :: r in before ==> r in rows;
      BodyLoads(f, before);
      RecordLoads(f, ResolvedView(before), record);
      LoadsOneMore(f, Body(f, before), f.toLine(record), ResolvedView(before));
      BodySnoc(f, before, record);
    }
  }

  /** Loading a header and a body. */
  lemma LoadAfterHeader(f: Format, body: Bytes)
    ensures Load(f, f.Header() + body) ==
      if |f.Header()| + |body| > MAX_FILE_BYTES then Err(Corrupt)
      else if !ValidUtf8(body) then Err(NotUtf8)
      else
        var (complete, torn) := CompleteLinePrefix(body);
        var seen := LoadLines(f, Lines(complete));
        if seen.Ok? then Ok((seen.value, torn)) else Err(seen.error)
  {
    ValidAppend(f.Header(), body);
    assert (f.Header() + body)[|f.Header()|..] == body;
  }

  /** Result of loading a readable file followed by the first `k` bytes of one more line. */
  lemma TornLoads(f: Format, file: Bytes, view: Seen, text: Bytes, k: nat)
    requires Reads(f, file, view) && PlainLine(text) && k <= |text|
    ensures Load(f, file + text[..k]) ==
      if |file| + k > MAX_FILE_BYTES then Err(Corrupt)
      else if IsContinuation((text + [NEWLINE])[k]) then Err(NotUtf8)
      else Ok((view, k > 0))
  {
    var body := file[|f.Header()|..];
    TornAppend(body, text, k);
    HeaderFirst(f.Header(), file, body, text[..k]);
    LoadAfterHeader(f, body + text[..k]);
  }

  lemma HeaderFirst(header: Bytes, file: Bytes, body: Bytes, tail: Bytes)
    requires header <= file && body == file[|header|..]
    ensures file + tail == header + (body + tail)
  {
  }

  /** A readable file opens whole. */
  lemma ReadableLoads(f: Format, file: Bytes, view: Seen)
    requires Reads(f, file, view)
    ensures Load(f, file) == if |file| > MAX_FILE_BYTES then Err(Corrupt) else Ok((view, false))
  {
    var text: Bytes := [OPEN_BRACE];
    AsciiIsValid(text);
    assert file + text[..0] == file;
    TornLoads(f, file, view, text, 0);
  }

  /** A readable file stays readable after a whole record, and shows it if it is resolved. */
  lemma AppendedReads(f: Format, file: Bytes, view: Seen, record: Record)
    requires f.Lawful() && Reads(f, file, view) && f.validKey(record.key)
    ensures Reads(f, file + f.toLine(record) + [NEWLINE], WithRecord(view, record))
  {
    RecordLoads(f, view, record);
    LoadsOneMore(f, file[|f.Header()|..], f.toLine(record), view);
    BodyAfterLine(f.Header(), file, f.toLine(record));
  }

  lemma BodyAfterLine(header: Bytes, file: Bytes, line: Bytes)
    requires header <= file
    ensures header <= file + line + [NEWLINE]
    ensures (file + line + [NEWLINE])[|header|..] == file[|header|..] + line + [NEWLINE]
  {
  }

  lemma WholeFileReads(f: Format, rows: seq<Record>)
    requires f.Lawful() && ValidKeys(f, rows)
    ensures Reads(f, FileOf(f, rows), ResolvedView(rows))
  {
    BodyLoads(f, rows);
    assert FileOf(f, rows)[|f.Header()|..] == Body(f, rows);
  }

  /** Opening what an append left when it crashed after `k` of its bytes, for every `k`: a refusal when the file has
      outgrown the limit or the cut falls inside a character, else what it showed without or with the record. */
  lemma CrashedAppendLoads(f: Format, file: Bytes, view: Seen, record: Record, k: nat)
    requires f.Lawful() && Reads(f, file, view) && f.validKey(record.key)
    requires k <= |f.toLine(record)| + 1
    ensures var line := f.toLine(record) + [NEWLINE];
      Load(f, file + line[..k]) ==
        if |file| + k > MAX_FILE_BYTES then Err(Corrupt)
        else if k < |line| && IsContinuation(line[k]) then Err(NotUtf8)
        else if k < |line| then Ok((view, k > 0))
        else Ok((WithRecord(view, record), false))
  {
    var text := f.toLine(record);
    AppendedPart(file, text, k);
    if k <= |text| {
      RecordLoads(f, map[], record);
      TornLoads(f, file, view, text, k);
    } else {
      AppendedReads(f, file, view, record);
      ReadableLoads(f, file + text + [NEWLINE], WithRecord(view, record));
    }
  }

  lemma AppendedPart(file: Bytes, text: Bytes, k: nat)
    requires k <= |text| + 1
    ensures file + (text + [NEWLINE])[..k] == if k <= |text| then file + text[..k] else file + text + [NEWLINE]
  {
  }

  // --------------------------------------------------------------------------
  // What loading leaves
  // --------------------------------------------------------------------------

  ghost predicate KeysValid(f: Format, seen: Seen) {
    forall key :: key in seen ==> seen[key].key == key && f.validKey(key)
  }

  ghost predicate AllResolved(seen: Seen) {
    forall key :: key in seen ==> seen[key].status.Resolved?
  }

  lemma {:induction false} LoadedIsResolved(f: Format, lines: seq<Bytes>)
    requires LoadLines(f, lines).Ok?
    ensures KeysValid(f, LoadLines(f, lines).value) && AllResolved(LoadLines(f, lines).value)
  {
    if lines != [] {
      LoadedIsResolved(f, lines[..|lines| - 1]);
    }
  }

  /** Whatever file opens shows resolved records under valid keys. */
  lemma OpensResolved(f: Format, file: Bytes)
    requires Load(f, file).Ok?
    ensures KeysValid(f, Load(f, file).value.0) && AllResolved(Load(f, file).value.0)
  {
    if f.Header() <= file {
      LoadsItsLines(f, file);
      LoadedIsResolved(f, Lines(CompleteLinePrefix(file[|f.Header()|..]).0));
    } else {
      LoadsBareMarker(f, file);
    }
  }

  lemma LoadsBareMarker(f: Format, file: Bytes)
    requires Load(f, file).Ok? && !(f.Header() <= file)
    ensures file == Ascii(f.marker) && Load(f, file) == Ok((map[], false))
  {
  }

  lemma LoadsItsLines(f: Format, file: Bytes)
    requires Load(f, file).Ok? && f.Header() <= file
    ensures LoadLines(f, Lines(CompleteLinePrefix(file[|f.Header()|..]).0)) == Ok(Load(f, file).value.0)
  {
  }

  /** A file that opens whole after its header is readable. */
  lemma OpensWholeReads(f: Format, file: Bytes)
    requires Load(f, file).Ok? && !Load(f, file).value.1 && f.Header() <= file
    ensures Reads(f, file, Load(f, file).value.0)
  {
    var body := file[|f.Header()|..];
    assert file == f.Header() + body;
    ValidAppend(f.Header(), body);
    var i := LastLineStart(body);
    assert i == |body| && body[..i] == body;
  }

  // --------------------------------------------------------------------------
  // The store
  // --------------------------------------------------------------------------

  /** The store's memory and its file. */
  datatype Memory = Memory(seen: Seen, file: Bytes)

  ghost predicate Rewritten(f: Format, m: Memory) {
    exists rows :: Enumerates(rows, m.seen) && m.file == FileOf(f, rows)
  }

  /** Opening `file` succeeds and leaves `m`. */
  ghost predicate Opened(f: Format, file: Bytes, m: Memory) {
    var loaded := Load(f, file);
    && loaded.Ok? && m.seen == loaded.value.0
    && (if loaded.value.1 then Rewritten(f, m) else m.file == file)
  }

  ghost predicate Inserted(f: Format, m: Memory, record: Record, m': Memory) {
    m' == Memory(m.seen[record.key := record], m.file + f.toLine(record) + [NEWLINE])
  }

  ghost predicate Removed(f: Format, m: Memory, key: string, m': Memory) {
    if key in m.seen then m'.seen == m.seen - {key} && Rewritten(f, m') else m' == m
  }

  ghost predicate Compacted(f: Format, ttl: Option<nat>, m: Memory, now: nat, m': Memory) {
    m'.seen == Unexpired(m.seen, ttl, now) && Rewritten(f, m')
  }

  class FileStore {
    const f: Format
    const ttl: Option<nat>
    var seen: Seen
    var file: Bytes

    ghost function View(): Memory
      reads this
    {
      Memory(seen, file)
    }

    ghost predicate Valid()
      reads this
    {
      KeysValid(f, seen)
    }

    constructor (f: Format, ttl: Option<nat>, seen: Seen, file: Bytes)
      ensures this.f == f && this.ttl == ttl && this.seen == seen && this.file == file
    {
      this.f, this.ttl, this.seen, this.file := f, ttl, seen, file;
    }

    /** Opens an existing file, or a new one, and rewrites it after a torn tail. A lifetime of zero means none. */
    static method Open(f: Format, existing: Option<Bytes>, ttl: Option<nat>) returns (result: Result<FileStore, StoreError>)
      ensures var file := if existing.Some? then existing.value else FileOf(f, []);
        if Load(f, file).Err? then result == Err(Load(f, file).error)
        else
          && result.Ok? && fresh(result.value) && result.value.Valid() && result.value.f == f
          && result.value.ttl == (if ttl == Some(0) then None else ttl)
          && Opened(f, file, result.value.View())
    {
      var file := if existing.Some? then existing.value else f.Header();
      assert FileOf(f, []) == f.Header();
      var loaded := LoadEntries(f, file);
      if loaded.Err? {
        return Err(loaded.error);
      }
      var (seen, torn) := loaded.value;
      OpensResolved(f, file);
      var store := new FileStore(f, if ttl == Some(0) then None else ttl, seen, file);
      if torn {
        store.Rewrite();
      }
      result := Ok(store);
    }

    /** A record is shown until its lifetime is over; one without a creation time, or any without a lifetime, for ever. */
    method Get(key: string, now: nat) returns (record: Option<Record>)
      ensures record.Some? ==> key in seen && seen[key] == record.value
      ensures record.Some? <==>
        key in seen && (ttl.None? || seen[key].createdAt == 0 || now <= seen[key].createdAt + ttl.value)
    {
      if key in seen {
        if !Expired(seen[key].createdAt, ttl, now) {
          return Some(seen[key]);
        }
      }
      record := None;
    }

    method Insert(record: Record) returns (result: Result<(), StoreError>)
      requires Valid()
      modifies this
      ensures Valid()
      ensures if f.validKey(record.key) then result.Ok? && Inserted(f, old(View()), record, View())
              else result == Err(InvalidKey) && unchanged(this)
    {
      if !f.validKey(record.key) {
        return Err(InvalidKey);
      }
      file := file + f.toLine(record) + [NEWLINE];
      seen := seen[record.key := record];
      result := Ok(());
    }

    method Remove(key: string)
      requires Valid()
      modifies this
      ensures Valid() && Removed(f, old(View()), key, View())
    {
      if key in seen {
        seen := seen - {key};
        Rewrite();
      }
    }

    method Compact(now: nat) returns (removed: nat)
      requires Valid()
      modifies this
      ensures Valid() && Compacted(f, ttl, old(View()), now, View())
      ensures forall key :: key in seen <==>
        && key in old(seen)
        && (ttl.None? || old(seen)[key].createdAt == 0 || now <= old(seen)[key].createdAt + ttl.value)
      ensures forall key :: key in seen ==> seen[key] == old(seen)[key]
      ensures removed == |old(seen)| - |seen|
    {
      var before := seen;
      seen := Unexpired(seen, ttl, now);
      assert seen.Keys <= before.Keys;
      SubsetSize(seen.Keys, before.Keys);
      removed := |before| - |seen|;
      Rewrite();
    }

    /** Replaces the file by one line per record in memory. */
    method Rewrite()
      requires Valid()
      modifies this`file
      ensures Rewritten(f, View())
    {
      var output := f.Header();
      ghost var rows: seq<Record> := [];
      var keys := seen.Keys;
      assert output == FileOf(f, []);
      while keys != {}
        invariant keys <= seen.Keys
        invariant output == FileOf(f, rows)
        invariant Enumerates(rows, seen - keys)
        decreases |keys|
      {
        var key :| key in keys;
        OneMoreRow(rows, seen, keys, key);
        FileSnoc(f, rows, seen[key]);
        output := output + f.toLine(seen[key]) + [NEWLINE];
        rows := rows + [seen[key]];
        keys := keys - {key};
      }
      file := output;
      assert seen - keys == seen;
      assert Enumerates(rows, seen) && file == FileOf(f, rows);
    }
  }

  function Lookup(seen: Seen, ttl: Option<nat>, key: string, now: nat): Option<Record> {
    if key in seen && !Expired(seen[key].createdAt, ttl, now) then Some(seen[key]) else None
  }

  function Unexpired(seen: Seen, ttl: Option<nat>, now: nat): Seen {
    map key | key in seen && !Expired(seen[key].createdAt, ttl, now) :: seen[key]
  }

  lemma SubsetSize(small: set<string>, large: set<string>)
    requires small <= large
    ensures |small| <= |large|
  {
    assert large == small + (large - small);
  }

  // --------------------------------------------------------------------------
  // Rewritten files
  // --------------------------------------------------------------------------

  /** A view of rows with distinct keys. */
  ghost predicate ShowsEach(rows: seq<Record>, view: Seen) {
    && (forall r :: r in rows && r.status.Resolved? ==> r.key in view && view[r.key] == r)
    && (forall k :: k in view ==> view[k] in rows && view[k].key == k && view[k].status.Resolved?)
  }

  lemma {:induction false} ViewOfDistinct(rows: seq<Record>)
    requires forall i, j :: 0 <= i < j < |rows| ==> rows[i].key != rows[j].key
    ensures ShowsEach(rows, ResolvedView(rows))
  {
    if rows != [] {
      var before, last := rows[..|rows| - 1], rows[|rows| - 1];
      ViewOfDistinct(before);
      assert last == rows[|rows| - 1];
      forall r | r in before ensures r.key != last.key && r in rows {
        var i :| 0 <= i < |before| && before[i] == r;
        assert rows[i] == r;
      }
      forall r | r in rows ensures r == last || r in before {
        var i :| 0 <= i < |rows| && rows[i] == r;
        assert i < |before| ==> before[i] == r;
      }
      var view := ResolvedView(rows);
      forall k | k in view ensures view[k] in rows && view[k].key == k && view[k].status.Resolved? {
        assert (k == last.key && view[k] == last) || (k in ResolvedView(before) && view[k] == ResolvedView(before)[k]);
        assert last in rows;
      }
    }
  }

  function ResolvedIn(seen: Seen): Seen {
    map key | key in seen && seen[key].status.Resolved? :: seen[key]
  }

  lemma ViewOfEnumerated(rows: seq<Record>, seen: Seen)
    requires Enumerates(rows, seen) && forall k :: k in seen ==> seen[k].key == k
    ensures ResolvedView(rows) == ResolvedIn(seen)
  {
    ViewOfDistinct(rows);
    var view := ResolvedView(rows);
    forall k ensures k in view <==> k in ResolvedIn(seen) {
      if k in view {
        assert view[k] in rows && view[k].key == k;
      }
      if k in ResolvedIn(seen) {
        assert seen[k] in rows;
      }
    }
    forall k | k in view ensures view[k] == ResolvedIn(seen)[k] {
      assert view[k] in rows;
    }
  }

  /** A rewritten file shows exactly the resolved records in memory. */
  lemma RewrittenReads(f: Format, m: Memory)
    requires f.Lawful() && KeysValid(f, m.seen) && Rewritten(f, m)
    ensures Reads(f, m.file, ResolvedIn(m.seen))
  {
    var rows :| Enumerates(rows, m.seen) && m.file == FileOf(f, rows);
    ViewOfEnumerated(rows, m.seen);
    WholeFileReads(f, rows);
  }

  // --------------------------------------------------------------------------
  // Which files stay openable
  // --------------------------------------------------------------------------

  /** A file that is the bare marker opens as an empty store and is left as it is; the next record follows the marker
      on its own line, and the file no longer opens. */
  lemma BareMarkerBreaks(f: Format, record: Record)
    requires f.Lawful()
    ensures Load(f, Ascii(f.marker)) == Ok((map[], false))
    ensures Load(f, Ascii(f.marker) + f.toLine(record) + [NEWLINE]) == Err(Corrupt)
  {
    var marker, line := Ascii(f.marker), f.toLine(record);
    AsciiIsValid(marker);
    assert |marker| == |f.marker| <= MAX_FILE_BYTES;
    assert !(f.Header() <= marker);
    assert IsObjectLine(line);
    LineStaysValid(marker, line);
    var file := marker + line + [NEWLINE];
    assert file[|marker|] == OPEN_BRACE && f.Header()[|marker|] == NEWLINE;
    assert !(f.Header() <= file) && |file| != |marker|;
  }

  /** Of all files that open, those with a complete first line, torn or not, still open after an insert that keeps them
      within the size limit; the others never do. */
  lemma OpensAfterInsert(f: Format, file: Bytes, m: Memory, record: Record, m': Memory)
    requires f.Lawful() && Opened(f, file, m) && f.validKey(record.key) && Inserted(f, m, record, m')
    requires |m'.file| <= MAX_FILE_BYTES
    ensures Load(f, m'.file).Ok? <==> f.Header() <= file
  {
    if f.Header() <= file {
      OpenedReads(f, file, m);
      AppendedReads(f, m.file, m.seen, record);
      ReadableLoads(f, m'.file, WithRecord(m.seen, record));
    } else {
      BareMarkerBreaks(f, record);
    }
  }

  lemma OpenedReads(f: Format, file: Bytes, m: Memory)
    requires f.Lawful() && Opened(f, file, m) && f.Header() <= file
    ensures KeysValid(f, m.seen) && AllResolved(m.seen) && Reads(f, m.file, m.seen)
  {
    OpensResolved(f, file);
    if Load(f, file).value.1 {
      RewrittenReads(f, m);
      assert ResolvedIn(m.seen) == m.seen;
    } else {
      OpensWholeReads(f, file);
    }
  }
}
