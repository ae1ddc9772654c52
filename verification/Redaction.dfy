/** Credential redaction of operational text: seven scan-and-replace passes, then truncation. */
module Redaction {
  import opened Prelude

  const REDACTED := "[REDACTED]"
  const TRUNCATED := "[TRUNCATED]"

  /** The markers in the order of their passes. */
  const MARKERS: seq<string> :=
    ["authorization:", "bearer ", "token=", "secret=", "password=", "api_key=", "apikey="]

  function Lower(c: char): char {
    if 'A' <= c <= 'Z' then (c as int + 32) as char else c
  }

  predicate IsDelimiter(c: char) {
    IsWhiteSpace(c as int) || c == ',' || c == ';' || c == '&' || c == '"' || c == '\''
  }

  /** The marker occurs at position `i`, letters compared without case. */
  predicate OccursAt(s: string, marker: string, i: int) {
    0 <= i && i + |marker| <= |s| && forall k :: 0 <= k < |marker| ==> Lower(s[i + k]) == marker[k]
  }

  /** Position of the first occurrence at or after `from`, or the length of the text. */
  function FindMarker(s: string, marker: string, from: nat): (i: nat)
    requires from <= |s|
    ensures from <= i <= |s|
    ensures i < |s| ==> OccursAt(s, marker, i)
    ensures forall k :: from <= k < i ==> !OccursAt(s, marker, k)
    decreases |s| - from
  {
    if from == |s| || OccursAt(s, marker, from) then from else FindMarker(s, marker, from + 1)
  }

  /** Position of the first delimiter at or after `from`, or the length of the text. */
  function FindDelimiter(s: string, from: nat): (i: nat)
    requires from <= |s|
    ensures from <= i <= |s|
    ensures i < |s| ==> IsDelimiter(s[i])
    ensures forall k {:trigger IsDelimiter(s[k])} :: from <= k < i ==> !IsDelimiter(s[k])
    decreases |s| - from
  {
    if from == |s| || IsDelimiter(s[from]) then from else FindDelimiter(s, from + 1)
  }

  /** What one turn of a pass emits from `cursor`, and where it goes on; `start` is the marker it found. */
  function Piece(s: string, marker: string, cursor: nat, start: nat): (string, nat)
    requires cursor <= start && start + |marker| <= |s|
  {
    var valueStart := start + |marker|;
    var valueEnd := FindDelimiter(s, valueStart);
    (s[cursor..valueStart] + (if valueEnd > valueStart then REDACTED else ""), valueEnd)
  }

  /** One pass from `cursor` on. */
  function Redact(s: string, marker: string, cursor: nat): string
    requires cursor <= |s| && marker != []
    decreases |s| - cursor
  {
    var start := FindMarker(s, marker, cursor);
    if start == |s| then s[cursor..]
    else
      var (piece, next) := Piece(s, marker, cursor, start);
      piece + Redact(s, marker, next)
  }

  lemma Associative(a: string, b: string, c: string)
    ensures (a + b) + c == a + (b + c)
  {
  }

  method RedactMarker(s: string, marker: string) returns (output: string)
    requires marker != []
    ensures output == Redact(s, marker, 0)
  {
    output := "";
    var cursor := 0;
    var start := FindMarker(s, marker, 0);
    while start < |s|
      invariant cursor <= |s| && start == FindMarker(s, marker, cursor)
      invariant output + Redact(s, marker, cursor) == Redact(s, marker, 0)
      decreases |s| - cursor
    {
      var (piece, next) := Piece(s, marker, cursor, start);
      Associative(output, piece, Redact(s, marker, next));
      output := output + piece;
      cursor := next;
      start := FindMarker(s, marker, cursor);
    }
    output := output + s[cursor..];
  }

  /** The text after the first passes, one for each marker. */
  function RedactAll(s: string, markers: seq<string>, passes: nat): string
    requires passes <= |markers| && [] !in markers
  {
    if passes == 0 then s else Redact(RedactAll(s, markers, passes - 1), markers[passes - 1], 0)
  }

  // --------------------------------------------------------------------------
  // Truncation, in UTF-8 bytes
  // --------------------------------------------------------------------------

  function Utf8Length(c: char): (n: nat)
    ensures 1 <= n <= 4
  {
    if c as int < 0x80 then 1 else if c as int < 0x800 then 2 else if c as int < 0x10000 then 3 else 4
  }

  function ByteLength(s: string): nat {
    if s == [] then 0 else ByteLength(s[..|s| - 1]) + Utf8Length(s[|s| - 1])
  }

  /** The longest prefix of at most `limit` bytes, as a number of characters. */
  function FloorBoundary(s: string, limit: nat): (n: nat)
    ensures n <= |s| && ByteLength(s[..n]) <= limit
    ensures n == |s| || ByteLength(s[..n + 1]) > limit
  {
    if ByteLength(s) <= limit then
      assert s[..|s|] == s;
      |s|
    else
      var n := FloorBoundary(s[..|s| - 1], limit);
      assert s[..|s| - 1][..n] == s[..n];
      assert n < |s| - 1 ==> s[..|s| - 1][..n + 1] == s[..n + 1];
      assert n == |s| - 1 ==> s[..n + 1] == s;
      n
  }

  function Truncate(value: string, maxBytes: nat, inputWasTruncated: bool): string {
    if !inputWasTruncated && ByteLength(value) <= maxBytes then value
    else value[..FloorBoundary(value, SaturatingSub(maxBytes, |TRUNCATED|))] + TRUNCATED
  }

  /** The text that reaches logs and audit records. */
  function RedactText(input: string, maxBytes: nat): string {
    var limit := Max(maxBytes, |TRUNCATED|);
    var scanned := FloorBoundary(input, SaturatingAdd(limit, 1024));
    Truncate(RedactAll(input[..scanned], MARKERS, |MARKERS|), limit, ByteLength(input) > ByteLength(input[..scanned]))
  }

  method RedactTextWithLimit(input: string, maxBytes: nat) returns (output: string)
    ensures output == RedactText(input, maxBytes)
  {
    var limit := Max(maxBytes, |TRUNCATED|);
    var scanned := FloorBoundary(input, SaturatingAdd(limit, 1024));
    output := input[..scanned];
    for i := 0 to |MARKERS|
      invariant output == RedactAll(input[..scanned], MARKERS, i)
    {
      output := RedactMarker(output, MARKERS[i]);
    }
    output := Truncate(output, limit, ByteLength(input) > ByteLength(input[..scanned]));
  }

  // --------------------------------------------------------------------------
  // No secret survives
  // --------------------------------------------------------------------------

  predicate EndsAt(s: string, j: nat) {
    j <= |s| && (j == |s| || IsDelimiter(s[j]))
  }

  /** A value at `j` is empty or is the replacement and nothing more. */
  predicate Covered(s: string, j: nat) {
    EndsAt(s, j) || (j <= |s| && REDACTED <= s[j..] && EndsAt(s, j + |REDACTED|))
  }

  /** Every occurrence of the marker is followed by the end, a delimiter, or the replacement and then one of these. */
  ghost predicate Clean(s: string, marker: string) {
    forall i :: OccursAt(s, marker, i) ==> Covered(s, i + |marker|)
  }

  /** Characters that end a marker appear nowhere else in any marker, nor in the replacement. */
  predicate IsEndMark(c: char) {
    c == ':' || c == ' ' || c == '='
  }

  predicate IsMarker(m: string) {
    && m != [] && IsEndMark(m[|m| - 1])
    && (forall k :: 0 <= k < |m| - 1 ==> !IsEndMark(m[k]))
    && (forall k :: 0 <= k < |m| ==> m[k] != '[' && m[k] != ']')
  }

  /** Neither marker ends with the other. */
  predicate Unrelated(a: string, b: string) {
    a == b || (!(|a| <= |b| && b[|b| - |a|..] == a) && !(|b| <= |a| && a[|a| - |b|..] == b))
  }

  predicate AreMarkers(markers: seq<string>) {
    && (forall i :: 0 <= i < |markers| ==> IsMarker(markers[i]))
    && (forall i, j :: 0 <= i < |markers| && 0 <= j < |markers| ==> Unrelated(markers[i], markers[j]))
  }

  lemma EachIsMarker()
    ensures forall i :: 0 <= i < |MARKERS| ==> IsMarker(MARKERS[i])
  {
  }

  /** No two markers agree in the fifth character from the end. */
  predicate TailsDiffer(a: string, b: string) {
    |a| >= 5 && |b| >= 5 && a[|a| - 5] != b[|b| - 5]
  }

  lemma UnrelatedByTails(a: string, b: string)
    requires TailsDiffer(a, b)
    ensures Unrelated(a, b)
  {
    if |a| <= |b| {
      assert b[|b| - |a|..][|a| - 5] == b[|b| - 5];
    }
    if |b| <= |a| {
      assert a[|a| - |b|..][|b| - 5] == a[|a| - 5];
    }
  }

  lemma EachPairIsUnrelated()
    ensures forall i, j :: 0 <= i < |MARKERS| && 0 <= j < |MARKERS| ==> Unrelated(MARKERS[i], MARKERS[j])
  {
    forall i, j | 0 <= i < |MARKERS| && 0 <= j < |MARKERS| ensures Unrelated(MARKERS[i], MARKERS[j]) {
      if i != j {
        UnrelatedByTails(MARKERS[i], MARKERS[j]);
      }
    }
  }

  lemma MarkersAreMarkers()
    ensures AreMarkers(MARKERS)
  {
    EachIsMarker();
    EachPairIsUnrelated();
  }

  /** The text one turn of the pass for `m` emits: `head` ends with the marker, `cover` replaces its value. */
  ghost predicate Turn(t: string, head: string, cover: string, rest: string, m: string, m': string) {
    && IsMarker(m) && IsMarker(m') && Unrelated(m, m')
    && |m| <= |head| <= |t| && head == t[..|head|] && OccursAt(t, m, |head| - |m|)
    && (cover == REDACTED || cover == "") && EndsAt(rest, 0)
    && (if m == m' then forall k :: 0 <= k < |head| - |m| ==> !OccursAt(t, m, k) else Clean(t, m'))
    && Clean(rest, m')
  }

  lemma EndMarkAt(s: string, m: string, i: nat, p: nat)
    requires IsMarker(m) && OccursAt(s, m, i) && i <= p < i + |m|
    ensures IsEndMark(Lower(s[p])) <==> p == i + |m| - 1
    ensures s[p] != '[' && s[p] != ']'
  {
    assert Lower(s[i + (p - i)]) == m[p - i];
  }

  /** A shorter marker ending where `head` ends would be the tail of the pass's marker. */
  lemma ShorterEnds(t: string, head: string, cover: string, rest: string, m: string, m': string, i: nat)
    requires |m| <= |head| <= |t| && head == t[..|head|] && OccursAt(t, m, |head| - |m|)
    requires OccursAt(head + cover + rest, m', i) && i + |m'| == |head| && |m'| < |m|
    ensures |m'| <= |m| && m[|m| - |m'|..] == m'
  {
    var out, d := head + cover + rest, |m| - |m'|;
    forall k | 0 <= k < |m'| ensures m[d + k] == m'[k] {
      assert out[i + k] == head[i + k] == t[i + k];
      assert Lower(t[|head| - |m| + (d + k)]) == m[d + k] && Lower(out[i + k]) == m'[k];
    }
  }

  lemma LongerEnds(t: string, head: string, cover: string, rest: string, m: string, m': string, i: nat)
    requires |m| <= |head| <= |t| && head == t[..|head|] && OccursAt(t, m, |head| - |m|)
    requires OccursAt(head + cover + rest, m', i) && i + |m'| == |head| && |m| <= |m'|
    ensures m'[|m'| - |m|..] == m
  {
    var out, d := head + cover + rest, |m'| - |m|;
    forall k | 0 <= k < |m| ensures m'[d + k] == m[k] {
      var p := |head| - |m| + k;
      assert out[p] == head[p] == t[p];
      assert Lower(t[p]) == m[k] && Lower(out[i + (d + k)]) == m'[d + k];
    }
  }

  /** An occurrence that reaches the end of `head` ends there. */
  lemma EndsTogether(t: string, head: string, cover: string, rest: string, m: string, m': string, i: nat)
    requires IsMarker(m) && IsMarker(m') && m' != []
    requires |m| <= |head| <= |t| && head == t[..|head|] && OccursAt(t, m, |head| - |m|)
    requires OccursAt(head + cover + rest, m', i) && i < |head| <= i + |m'|
    ensures i + |m'| == |head|
  {
    var out, h := head + cover + rest, |head|;
    EndMarkAt(t, m, h - |m|, h - 1);
    EndMarkAt(out, m', i, h - 1);
    assert out[h - 1] == head[h - 1] == t[h - 1];
  }

  /** It is then the marker of the pass itself, and its value is replaced. */
  lemma AtHeadEnd(t: string, head: string, cover: string, rest: string, m: string, m': string, i: nat)
    requires Turn(t, head, cover, rest, m, m')
    requires OccursAt(head + cover + rest, m', i) && i < |head| <= i + |m'|
    ensures i + |m'| == |head| && m == m' && Covered(head + cover + rest, |head|)
  {
    EndsTogether(t, head, cover, rest, m, m', i);
    if |m| <= |m'| {
      LongerEnds(t, head, cover, rest, m, m', i);
    } else {
      ShorterEnds(t, head, cover, rest, m, m', i);
    }
    assert (head + cover + rest)[|head|..] == cover + rest;
  }

  /** An occurrence inside `head` was already there, with the same text after it. */
  lemma InsideHead(t: string, head: string, cover: string, rest: string, m: string, m': string, i: nat)
    requires Turn(t, head, cover, rest, m, m')
    requires OccursAt(head + cover + rest, m', i) && i + |m'| < |head|
    ensures Covered(head + cover + rest, i + |m'|)
  {
    var out := head + cover + rest;
    var h, j := |head|, i + |m'|;
    forall k | 0 <= k < |m'| ensures Lower(t[i + k]) == m'[k] {
      assert t[i + k] == head[i + k] == out[i + k];
    }
    assert OccursAt(t, m', i);
    assert m != m' && Covered(t, j);
    assert t[j] == head[j] == out[j];
    if !IsDelimiter(t[j]) {
      ReplacementInside(t, m, h, j);
      SameReplacement(t, out, h, j);
    }
  }

  /** A replacement that starts before the end of a marker lies before its last character. */
  lemma ReplacementInside(t: string, m: string, h: nat, j: nat)
    requires IsMarker(m) && |m| <= h && OccursAt(t, m, h - |m|) && j < h && REDACTED <= t[j..]
    ensures j + |REDACTED| < h
  {
    EndMarkAt(t, m, h - |m|, h - 1);
    assert forall k :: 0 <= k < |REDACTED| ==> t[j..][k] == REDACTED[k] && t[j..][k] == t[j + k];
    assert forall k :: 0 <= k < |REDACTED| ==> !IsEndMark(Lower(REDACTED[k]));
    assert h - 1 < j || h - 1 >= j + |REDACTED|;
  }

  lemma SameReplacement(t: string, out: string, h: nat, j: nat)
    requires j + |REDACTED| < h <= |t| && h <= |out| && t[..h] == out[..h] && REDACTED <= t[j..]
    requires EndsAt(t, j + |REDACTED|)
    ensures Covered(out, j)
  {
    var end := j + |REDACTED|;
    assert t[end] == t[..h][end] == out[..h][end] == out[end];
    SliceOfPrefix(t, h, j, |REDACTED|);
    SliceOfPrefix(out, h, j, |REDACTED|);
  }

  lemma SliceOfPrefix(s: string, h: nat, j: nat, n: nat)
    requires j + n <= h <= |s|
    ensures s[j..][..n] == s[..h][j..j + n]
  {
  }

  /** No occurrence starts inside the replacement; one after it belongs to the rest. */
  lemma AfterHead(t: string, head: string, cover: string, rest: string, m: string, m': string, i: nat)
    requires Turn(t, head, cover, rest, m, m')
    requires OccursAt(head + cover + rest, m', i) && i >= |head|
    ensures Covered(head + cover + rest, i + |m'|)
  {
    var out := head + cover + rest;
    var base := |head| + |cover|;
    if i < base {
      var p := Min(i + |m'|, base) - 1;
      EndMarkAt(out, m', i, p);
      assert false;
    }
    assert forall k :: base <= k < |out| ==> out[k] == rest[k - base];
    forall k | 0 <= k < |m'| ensures Lower(rest[i - base + k]) == m'[k] {
      assert Lower(out[i + k]) == m'[k];
    }
    assert OccursAt(rest, m', i - base);
    assert Covered(rest, i - base + |m'|);
    assert out[i + |m'|..] == rest[i - base + |m'|..];
  }

  lemma TurnIsClean(t: string, head: string, cover: string, rest: string, m: string, m': string)
    requires Turn(t, head, cover, rest, m, m')
    ensures Clean(head + cover + rest, m')
  {
    var out := head + cover + rest;
    forall i | OccursAt(out, m', i) ensures Covered(out, i + |m'|) {
      if i >= |head| {
        AfterHead(t, head, cover, rest, m, m', i);
      } else if i + |m'| >= |head| {
        AtHeadEnd(t, head, cover, rest, m, m', i);
      } else {
        InsideHead(t, head, cover, rest, m, m', i);
      }
    }
  }

  lemma SuffixIsClean(s: string, m: string, from: nat)
    requires Clean(s, m) && from <= |s|
    ensures Clean(s[from..], m)
  {
    forall i | OccursAt(s[from..], m, i) ensures Covered(s[from..], i + |m|) {
      forall k | 0 <= k < |m| ensures Lower(s[from + i + k]) == m[k] {
        assert s[from..][i + k] == s[from + i + k];
      }
      assert OccursAt(s, m, from + i);
      assert s[from + i + |m|..] == s[from..][i + |m|..];
    }
  }

  lemma ShiftedOccurrence(s: string, m: string, from: nat, i: int)
    requires from <= |s| && 0 <= i
    ensures OccursAt(s[from..], m, i) <==> OccursAt(s, m, from + i)
  {
    if i + |m| <= |s| - from {
      if OccursAt(s[from..], m, i) {
        forall k | 0 <= k < |m| ensures Lower(s[from + i + k]) == m[k] {
          assert s[from..][i + k] == s[from + i + k];
        }
      } else if OccursAt(s, m, from + i) {
        forall k | 0 <= k < |m| ensures Lower(s[from..][i + k]) == m[k] {
          assert s[from..][i + k] == s[from + i + k];
        }
      }
    }
  }

  lemma RedactStartsLikeRest(s: string, marker: string, from: nat)
    requires from <= |s| && marker != []
    ensures var rest := Redact(s, marker, from);
            if from == |s| then rest == "" else rest != "" && rest[0] == s[from]
  {
  }

  lemma NothingLeft(s: string, m: string, cursor: nat)
    requires cursor <= |s| && FindMarker(s, m, cursor) == |s| && m != []
    ensures Clean(s[cursor..], m)
  {
    forall i | OccursAt(s[cursor..], m, i) ensures Covered(s[cursor..], i + |m|) {
      ShiftedOccurrence(s, m, cursor, i);
    }
  }

  lemma FoundInRest(s: string, m: string, cursor: nat)
    requires cursor <= |s| && m != [] && FindMarker(s, m, cursor) < |s|
    ensures var t, at := s[cursor..], FindMarker(s, m, cursor) - cursor;
            OccursAt(t, m, at) && forall k :: 0 <= k < at ==> !OccursAt(t, m, k)
  {
    var at := FindMarker(s, m, cursor) - cursor;
    ShiftedOccurrence(s, m, cursor, at);
    forall k | 0 <= k < at ensures !OccursAt(s[cursor..], m, k) {
      ShiftedOccurrence(s, m, cursor, k);
    }
  }

  /** One turn of a pass, given that what follows it is clean. */
  lemma TurnOfPass(s: string, m: string, m': string, cursor: nat, start: nat, rest: string)
    requires cursor <= |s| && IsMarker(m) && IsMarker(m') && Unrelated(m, m')
    requires m == m' || Clean(s[cursor..], m')
    requires start == FindMarker(s, m, cursor) < |s|
    requires Clean(rest, m')
    requires rest == "" || (Piece(s, m, cursor, start).1 < |s| && rest[0] == s[Piece(s, m, cursor, start).1])
    ensures Clean(Piece(s, m, cursor, start).0 + rest, m')
  {
    FoundInRest(s, m, cursor);
    var head, cover := PieceParts(s, m, cursor, start, rest);
    FoundTurn(s[cursor..], m, m', start - cursor, head, cover, rest);
  }

  lemma FoundTurn(t: string, m: string, m': string, at: nat, head: string, cover: string, rest: string)
    requires IsMarker(m) && IsMarker(m') && Unrelated(m, m') && (m == m' || Clean(t, m'))
    requires OccursAt(t, m, at) && forall k :: 0 <= k < at ==> !OccursAt(t, m, k)
    requires Clean(rest, m') && EndsAt(rest, 0)
    requires head == t[..at + |m|] && (cover == REDACTED || cover == "")
    ensures Clean(head + cover + rest, m')
  {
    assert Turn(t, head, cover, rest, m, m');
    TurnIsClean(t, head, cover, rest, m, m');
  }

  lemma PieceParts(s: string, m: string, cursor: nat, start: nat, rest: string) returns (head: string, cover: string)
    requires cursor <= start && start + |m| <= |s|
    requires rest == "" || (Piece(s, m, cursor, start).1 < |s| && rest[0] == s[Piece(s, m, cursor, start).1])
    ensures Piece(s, m, cursor, start).0 == head + cover && EndsAt(rest, 0)
    ensures head == s[cursor..][..start + |m| - cursor] && (cover == REDACTED || cover == "")
  {
    head := s[cursor..start + |m|];
    cover := if Piece(s, m, cursor, start).1 > start + |m| then REDACTED else "";
  }

  lemma StaysClean(s: string, m: string, m': string, cursor: nat, next: nat)
    requires cursor <= next <= |s|
    requires m == m' || Clean(s[cursor..], m')
    ensures m == m' || Clean(s[next..], m')
  {
    if m != m' {
      SuffixIsClean(s[cursor..], m', next - cursor);
      assert s[cursor..][next - cursor..] == s[next..];
    }
  }

  /** A pass leaves its own marker clean and keeps the markers of earlier passes clean. */
  lemma {:induction false} PassIsClean(s: string, m: string, m': string, cursor: nat)
    requires cursor <= |s| && IsMarker(m) && IsMarker(m') && Unrelated(m, m')
    requires m == m' || Clean(s[cursor..], m')
    ensures Clean(Redact(s, m, cursor), m')
    decreases |s| - cursor
  {
    var start := FindMarker(s, m, cursor);
    if start == |s| {
      NothingLeft(s, m, cursor);
    } else {
      var next := Piece(s, m, cursor, start).1;
      StaysClean(s, m, m', cursor, next);
      PassIsClean(s, m, m', next);
      RedactStartsLikeRest(s, m, next);
      TurnOfPass(s, m, m', cursor, start, Redact(s, m, next));
    }
  }

  lemma {:induction false} PassesAreClean(s: string, markers: seq<string>, passes: nat, k: nat)
    requires AreMarkers(markers) && [] !in markers && k < passes <= |markers|
    ensures Clean(RedactAll(s, markers, passes), markers[k])
  {
    if k < passes - 1 {
      PassesAreClean(s, markers, passes - 1, k);
    }
    WholePassIsClean(RedactAll(s, markers, passes - 1), markers[passes - 1], markers[k]);
  }

  lemma WholePassIsClean(s: string, m: string, m': string)
    requires IsMarker(m) && IsMarker(m') && Unrelated(m, m') && (m == m' || Clean(s, m'))
    ensures Clean(Redact(s, m, 0), m')
  {
    assert s[0..] == s;
    PassIsClean(s, m, m', 0);
  }

  /** Before truncation, no later pass has undone an earlier one: all seven markers are clean. */
  lemma NoSecretSurvives(s: string, k: nat)
    requires k < |MARKERS|
    ensures Clean(RedactAll(s, MARKERS, |MARKERS|), MARKERS[k])
  {
    MarkersAreMarkers();
    PassesAreClean(s, MARKERS, |MARKERS|, k);
  }

  // --------------------------------------------------------------------------
  // The returned text
  // --------------------------------------------------------------------------

  lemma {:induction false} ByteLengthOfSum(a: string, b: string)
    ensures ByteLength(a + b) == ByteLength(a) + ByteLength(b)
  {
    if b == [] {
      assert a + b == a;
    } else {
      ByteLengthOfSum(a, b[..|b| - 1]);
      assert (a + b)[..|a + b| - 1] == a + b[..|b| - 1];
    }
  }

  lemma {:induction false} AsciiByteLength(s: string)
    requires forall k :: 0 <= k < |s| ==> s[k] as int < 0x80
    ensures ByteLength(s) == |s|
  {
    if s != [] {
      AsciiByteLength(s[..|s| - 1]);
    }
  }

  /** No returned text is longer than the limit, or than the truncation mark for smaller limits. */
  lemma ReturnedTextIsBounded(input: string, maxBytes: nat)
    ensures ByteLength(RedactText(input, maxBytes)) <= Max(maxBytes, 11)
  {
    var limit := Max(maxBytes, |TRUNCATED|);
    var scanned := FloorBoundary(input, SaturatingAdd(limit, 1024));
    var value := RedactAll(input[..scanned], MARKERS, |MARKERS|);
    var kept := value[..FloorBoundary(value, SaturatingSub(limit, |TRUNCATED|))];
    AsciiByteLength(TRUNCATED);
    ByteLengthOfSum(kept, TRUNCATED);
  }

  /** What may follow a marker in a returned text. */
  predicate SafeAt(s: string, j: nat) {
    j <= |s| && (j == |s| || IsDelimiter(s[j]) || s[j] == '[')
  }

  lemma TruncationStaysSafe(value: string, marker: string, n: nat, i: nat)
    requires IsMarker(marker) && Clean(value, marker) && n <= |value|
    requires OccursAt(value[..n] + TRUNCATED, marker, i)
    ensures SafeAt(value[..n] + TRUNCATED, i + |marker|)
  {
    var out, j := value[..n] + TRUNCATED, i + |marker|;
    if j <= n {
      forall k | 0 <= k < |marker| ensures Lower(value[i + k]) == marker[k] {
        assert value[i + k] == out[i + k];
      }
      assert OccursAt(value, marker, i) && Covered(value, j);
      assert j < n ==> out[j] == value[j];
      assert j < n && !IsDelimiter(value[j]) ==> value[j] == value[j..][0] == REDACTED[0];
    } else {
      EndMarkAt(out, marker, i, j - 1);
      assert false;
    }
  }

  /** In every returned text, a marker is followed by the end, a delimiter or an opening bracket. */
  lemma ReturnedTextIsSafe(input: string, maxBytes: nat, k: nat, i: nat)
    requires k < |MARKERS| && OccursAt(RedactText(input, maxBytes), MARKERS[k], i)
    ensures SafeAt(RedactText(input, maxBytes), i + |MARKERS[k]|)
  {
    var limit := Max(maxBytes, |TRUNCATED|);
    var scanned := FloorBoundary(input, SaturatingAdd(limit, 1024));
    var value := RedactAll(input[..scanned], MARKERS, |MARKERS|);
    var out := RedactText(input, maxBytes);
    NoSecretSurvives(input[..scanned], k);
    MarkersAreMarkers();
    if out == value {
      assert Covered(value, i + |MARKERS[k]|);
      assert i + |MARKERS[k]| < |value| ==> value[i + |MARKERS[k]|] == value[i + |MARKERS[k]|..][0];
    } else {
      TruncationStaysSafe(value, MARKERS[k], FloorBoundary(value, SaturatingSub(limit, |TRUNCATED|)), i);
    }
  }

  // --------------------------------------------------------------------------
  // Nothing else changes
  // --------------------------------------------------------------------------

  /** A stretch of text up to the end of a marker, and the value after it. */
  datatype Secret = Secret(head: string, value: string)

  function Original(secrets: seq<Secret>): string {
    if secrets == [] then "" else secrets[0].head + secrets[0].value + Original(secrets[1..])
  }

  function Masked(secrets: seq<Secret>): string {
    if secrets == [] then ""
    else secrets[0].head + (if secrets[0].value == "" then "" else REDACTED) + Masked(secrets[1..])
  }

  predicate EndsWithMarker(head: string, m: string) {
    |m| <= |head| && OccursAt(head, m, |head| - |m|)
  }

  ghost predicate AreSecrets(secrets: seq<Secret>, m: string) {
    forall i :: 0 <= i < |secrets| ==>
      EndsWithMarker(secrets[i].head, m) && forall c :: c in secrets[i].value ==> !IsDelimiter(c)
  }

  lemma OneMoreSecret(first: Secret, rest: seq<Secret>, m: string)
    requires AreSecrets(rest, m) && EndsWithMarker(first.head, m)
    requires forall c :: c in first.value ==> !IsDelimiter(c)
    ensures AreSecrets([first] + rest, m)
    ensures Original([first] + rest) == first.head + first.value + Original(rest)
    ensures Masked([first] + rest) == first.head + (if first.value == "" then "" else REDACTED) + Masked(rest)
  {
    assert ([first] + rest)[1..] == rest;
  }

  /** `out` is `text` with the given values masked, and no marker is left in the tail. */
  ghost predicate Masks(text: string, out: string, m: string, secrets: seq<Secret>, tail: string) {
    && AreSecrets(secrets, m) && (forall i :: !OccursAt(tail, m, i))
    && text == Original(secrets) + tail && out == Masked(secrets) + tail
  }

  lemma MasksOneMore(first: Secret, text: string, out: string, m: string, secrets: seq<Secret>, tail: string)
    requires Masks(text, out, m, secrets, tail) && EndsWithMarker(first.head, m)
    requires forall c :: c in first.value ==> !IsDelimiter(c)
    ensures var mask := if first.value == "" then "" else REDACTED;
            Masks(first.head + first.value + text, first.head + mask + out, m, [first] + secrets, tail)
  {
    var mask := if first.value == "" then "" else REDACTED;
    OneMoreSecret(first, secrets, m);
    Associative(first.head + first.value, Original(secrets), tail);
    Associative(first.head + mask, Masked(secrets), tail);
  }

  /** The text of one turn: up to the end of the marker, the value, and what follows. */
  lemma TurnText(s: string, m: string, cursor: nat, start: nat)
    requires cursor <= start && OccursAt(s, m, start)
    ensures var (piece, next) := Piece(s, m, cursor, start);
            var at := start + |m|;
            && at <= next <= |s| && (forall c :: c in s[at..next] ==> !IsDelimiter(c))
            && s[cursor..] == s[cursor..at] + s[at..next] + s[next..]
            && piece == s[cursor..at] + (if s[at..next] == "" then "" else REDACTED)
  {
  }

  lemma MaskTurn(s: string, m: string, cursor: nat, start: nat, out: string, rest: seq<Secret>, tail: string)
    requires cursor <= start && OccursAt(s, m, start)
    requires Masks(s[Piece(s, m, cursor, start).1..], out, m, rest, tail)
    ensures var (piece, next) := Piece(s, m, cursor, start);
            var first := Secret(s[cursor..start + |m|], s[start + |m|..next]);
            Masks(s[cursor..], piece + out, m, [first] + rest, tail)
  {
    var (piece, next) := Piece(s, m, cursor, start);
    HeadEndsWithMarker(s, m, cursor, start);
    TurnText(s, m, cursor, start);
    MasksOneMore(Secret(s[cursor..start + |m|], s[start + |m|..next]), s[next..], out, m, rest, tail);
  }

  lemma LastTurn(s: string, m: string, cursor: nat)
    requires cursor <= |s| && FindMarker(s, m, cursor) == |s| && m != []
    ensures Masks(s[cursor..], s[cursor..], m, [], s[cursor..])
  {
    NoMarkerLeft(s, m, cursor);
    assert Original([]) + s[cursor..] == s[cursor..] && Masked([]) + s[cursor..] == s[cursor..];
  }

  /** A pass masks values that follow a marker, and keeps every other character where it was. */
  lemma {:induction false} PassMasksValuesOnly(s: string, m: string, cursor: nat)
    returns (secrets: seq<Secret>, tail: string)
    requires cursor <= |s| && m != []
    ensures Masks(s[cursor..], Redact(s, m, cursor), m, secrets, tail)
    decreases |s| - cursor
  {
    var start := FindMarker(s, m, cursor);
    if start == |s| {
      secrets, tail := [], s[cursor..];
      LastTurn(s, m, cursor);
    } else {
      var next := Piece(s, m, cursor, start).1;
      secrets, tail := PassMasksValuesOnly(s, m, next);
      MaskTurn(s, m, cursor, start, Redact(s, m, next), secrets, tail);
      secrets := [Secret(s[cursor..start + |m|], s[start + |m|..next])] + secrets;
    }
  }

  lemma NoMarkerLeft(s: string, m: string, cursor: nat)
    requires cursor <= |s| && FindMarker(s, m, cursor) == |s| && m != []
    ensures forall i :: !OccursAt(s[cursor..], m, i)
  {
    forall i | 0 <= i ensures !OccursAt(s[cursor..], m, i) {
      ShiftedOccurrence(s, m, cursor, i);
    }
  }

  lemma HeadEndsWithMarker(s: string, m: string, cursor: nat, start: nat)
    requires cursor <= start && OccursAt(s, m, start)
    ensures EndsWithMarker(s[cursor..start + |m|], m)
  {
    var head := s[cursor..start + |m|];
    forall k | 0 <= k < |m| ensures Lower(head[|head| - |m| + k]) == m[k] {
      assert head[|head| - |m| + k] == s[start + k];
    }
  }

  lemma Slices(s: string, i: nat, j: nat, k: nat)
    requires i <= j <= k <= |s|
    ensures s[i..j] + s[j..k] == s[i..k]
  {
  }

  /** A turn on a covered value emits what it read. */
  lemma CleanTurn(s: string, m: string, cursor: nat, start: nat)
    requires OccursAt(s, m, start) && Covered(s, start + |m|) && cursor <= start
    ensures var (piece, next) := Piece(s, m, cursor, start); next <= |s| && piece == s[cursor..next]
  {
    var at := start + |m|;
    var next := FindDelimiter(s, at);
    if !EndsAt(s, at) {
      var end := at + |REDACTED|;
      assert s[at..][..|REDACTED|] == REDACTED;
      assert s[at..end] == REDACTED;
      assert next == end;
      Slices(s, cursor, at, end);
    }
  }

  lemma {:induction false} CleanIsFixed(s: string, m: string, cursor: nat)
    requires cursor <= |s| && m != [] && Clean(s, m)
    ensures Redact(s, m, cursor) == s[cursor..]
    decreases |s| - cursor
  {
    var start := FindMarker(s, m, cursor);
    if start < |s| {
      FixedTurn(s, m, cursor, start);
      CleanIsFixed(s, m, Piece(s, m, cursor, start).1);
    }
  }

  lemma FixedTurn(s: string, m: string, cursor: nat, start: nat)
    requires cursor <= start && m != [] && Clean(s, m) && OccursAt(s, m, start)
    ensures var (piece, next) := Piece(s, m, cursor, start);
            cursor < next <= |s| && piece + s[next..] == s[cursor..]
  {
    assert Covered(s, start + |m|);
    CleanTurn(s, m, cursor, start);
    Slices(s, cursor, Piece(s, m, cursor, start).1, |s|);
  }

  lemma WholeTextIsFixed(s: string, m: string)
    requires m != [] && Clean(s, m)
    ensures Redact(s, m, 0) == s
  {
    CleanIsFixed(s, m, 0);
    assert s[0..] == s;
  }

  lemma NextPass(s: string, markers: seq<string>, passes: nat, before: string)
    requires 0 < passes <= |markers| && [] !in markers && RedactAll(s, markers, passes - 1) == before
    ensures RedactAll(s, markers, passes) == Redact(before, markers[passes - 1], 0)
  {
  }

  lemma {:induction false} CleanTextIsKept(s: string, markers: seq<string>, passes: nat)
    requires passes <= |markers| && [] !in markers
    requires forall k :: 0 <= k < |markers| ==> Clean(s, markers[k])
    ensures RedactAll(s, markers, passes) == s
  {
    if passes > 0 {
      CleanTextIsKept(s, markers, passes - 1);
      NextPass(s, markers, passes, s);
      WholeTextIsFixed(s, markers[passes - 1]);
    }
  }

  /** The seven passes change nothing the second time. */
  lemma PassesAreIdempotent(s: string)
    ensures var once := RedactAll(s, MARKERS, |MARKERS|); RedactAll(once, MARKERS, |MARKERS|) == once
  {
    forall k | 0 <= k < |MARKERS| ensures Clean(RedactAll(s, MARKERS, |MARKERS|), MARKERS[k]) {
      NoSecretSurvives(s, k);
    }
    CleanTextIsKept(RedactAll(s, MARKERS, |MARKERS|), MARKERS, |MARKERS|);
  }
}
