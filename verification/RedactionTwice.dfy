/** Redacting a returned text again: what truncation leaves behind, and exactly when it changes. */
module RedactionTwice {
  import opened Prelude
  import opened Redaction

  // --------------------------------------------------------------------------
  // The parts of a returned text
  // --------------------------------------------------------------------------

  function Limit(maxBytes: nat): nat {
    Max(maxBytes, |TRUNCATED|)
  }

  function Scanned(input: string, maxBytes: nat): string {
    input[..FloorBoundary(input, SaturatingAdd(Limit(maxBytes), 1024))]
  }

  /** The scanned text after the seven passes. */
  function Value(input: string, maxBytes: nat): string {
    RedactAll(Scanned(input, maxBytes), MARKERS, |MARKERS|)
  }

  predicate IsCut(input: string, maxBytes: nat) {
    ByteLength(input) > ByteLength(Scanned(input, maxBytes)) || ByteLength(Value(input, maxBytes)) > Limit(maxBytes)
  }

  /** What is kept of a cut text, before the truncation mark. */
  function Kept(input: string, maxBytes: nat): string {
    var value := Value(input, maxBytes);
    value[..FloorBoundary(value, SaturatingSub(Limit(maxBytes), |TRUNCATED|))]
  }

  lemma ReturnedParts(input: string, maxBytes: nat)
    ensures RedactText(input, maxBytes) ==
      if IsCut(input, maxBytes) then Kept(input, maxBytes) + TRUNCATED else Value(input, maxBytes)
  {
  }

  /** A text within the limit is scanned whole the next time. */
  lemma ScannedWhole(y: string, maxBytes: nat)
    requires ByteLength(y) <= Limit(maxBytes) && maxBytes <= U64_MAX
    ensures RedactText(y, maxBytes) == Truncate(RedactAll(y, MARKERS, |MARKERS|), Limit(maxBytes), false)
  {
    assert FloorBoundary(y, SaturatingAdd(Limit(maxBytes), 1024)) == |y|;
    assert y[..|y|] == y;
  }

  // --------------------------------------------------------------------------
  // Cuts through a secret
  // --------------------------------------------------------------------------

  /** The kept text ends with the marker and the first `p` characters of the replacement. */
  predicate CutsAt(kept: string, m: string, p: nat) {
    && p <= |REDACTED| && |m| + p <= |kept|
    && OccursAt(kept, m, |kept| - p - |m|) && kept[|kept| - p..] == REDACTED[..p]
  }

  predicate CutsSecret(kept: string, m: string) {
    exists p :: 0 <= p <= |REDACTED| && CutsAt(kept, m, p)
  }

  lemma OccurrenceInPrefix(a: string, b: string, m: string, i: nat)
    requires i + |m| <= |a|
    ensures OccursAt(a + b, m, i) <==> OccursAt(a, m, i)
  {
    if OccursAt(a + b, m, i) {
      forall k | 0 <= k < |m| ensures Lower(a[i + k]) == m[k] {
        assert (a + b)[i + k] == a[i + k];
      }
    }
    if OccursAt(a, m, i) {
      forall k | 0 <= k < |m| ensures Lower((a + b)[i + k]) == m[k] {
        assert (a + b)[i + k] == a[i + k];
      }
    }
  }

  lemma PlainCharacters()
    ensures forall k :: 0 <= k < |REDACTED| ==> !IsEndMark(Lower(REDACTED[k])) && !IsDelimiter(REDACTED[k])
    ensures forall k :: 0 <= k < |TRUNCATED| ==> !IsEndMark(Lower(TRUNCATED[k])) && !IsDelimiter(TRUNCATED[k])
  {
  }

  /** No marker reaches into the truncation mark. */
  lemma MarkersEndInKept(kept: string, m: string, i: nat)
    requires IsMarker(m) && OccursAt(kept + TRUNCATED, m, i)
    ensures i + |m| <= |kept|
  {
    PlainCharacters();
    EndMarkAt(kept + TRUNCATED, m, i, i + |m| - 1);
  }

  /** An occurrence that was covered before the cut is covered after it, or is the one that is cut. */
  lemma CoveredOrCut(value: string, n: nat, m: string, i: nat)
    requires n <= |value| && i + |m| <= n && OccursAt(value[..n], m, i) && Covered(value, i + |m|)
    ensures Covered(value[..n] + TRUNCATED, i + |m|)
            || (n - (i + |m|) <= |REDACTED| && CutsAt(value[..n], m, n - (i + |m|)))
  {
    var out, j := value[..n] + TRUNCATED, i + |m|;
    if j == n {
      assert value[..n][n..] == REDACTED[..0];
    } else if EndsAt(value, j) {
      assert out[j] == value[j];
    } else if j + |REDACTED| < n {
      assert value[..n] == out[..n];
      SameReplacement(value, out, n, j);
    } else {
      assert value[..n][j..] == value[j..][..n - j] == REDACTED[..n - j];
    }
  }

  /** A cut occurrence is followed by more than its replacement. */
  lemma CutIsUncovered(kept: string, m: string, p: nat)
    requires CutsAt(kept, m, p)
    ensures var i := |kept| - p - |m|; OccursAt(kept + TRUNCATED, m, i) && !Covered(kept + TRUNCATED, i + |m|)
  {
    var out, j := kept + TRUNCATED, |kept| - p;
    OccurrenceInPrefix(kept, TRUNCATED, m, j - |m|);
    assert out[j..] == REDACTED[..p] + TRUNCATED;
    if p == |REDACTED| {
      WholeThenMark(out, j);
    } else {
      PartThenMark(out, j, p);
    }
  }

  lemma WholeThenMark(out: string, j: nat)
    requires j <= |out| && out[j..] == REDACTED + TRUNCATED
    ensures !Covered(out, j)
  {
    assert out[j] == out[j..][0] == '[' && out[j + 10] == out[j..][10] == '[';
    assert !IsDelimiter('[');
  }

  lemma PartThenMark(out: string, j: nat, p: nat)
    requires j <= |out| && p < |REDACTED| && out[j..] == REDACTED[..p] + TRUNCATED
    ensures !Covered(out, j)
  {
    var tail := REDACTED[..p] + TRUNCATED;
    var q := if p == 0 then 1 else p;
    assert out[j] == tail[0] == '[' && !IsDelimiter('[');
    assert tail[q] == TRUNCATED[q - p] && tail[q] != REDACTED[q];
  }

  /** A cut text is clean for a marker exactly when the cut does not go through its secret. */
  lemma CleanIffUncut(value: string, n: nat, m: string)
    requires IsMarker(m) && Clean(value, m) && n <= |value|
    ensures Clean(value[..n] + TRUNCATED, m) <==> !CutsSecret(value[..n], m)
  {
    var kept := value[..n];
    if CutsSecret(kept, m) {
      var p :| 0 <= p <= |REDACTED| && CutsAt(kept, m, p);
      CutIsUncovered(kept, m, p);
    } else {
      forall i | OccursAt(kept + TRUNCATED, m, i) ensures Covered(kept + TRUNCATED, i + |m|) {
        OccursInValue(value, n, m, i);
        CoveredOrCut(value, n, m, i);
      }
    }
  }

  lemma TailsAgree(s: string, a: string, b: string, j: nat)
    requires |a| <= |b| <= j && OccursAt(s, a, j - |a|) && OccursAt(s, b, j - |b|)
    ensures b[|b| - |a|..] == a
  {
    var d := |b| - |a|;
    forall k | 0 <= k < |a| ensures b[d + k] == a[k] {
      assert Lower(s[j - |a| + k]) == a[k] && Lower(s[j - |b| + (d + k)]) == b[d + k];
    }
  }

  /** What is kept of the replacement holds no delimiter and no end of a marker. */
  lemma CutTail(kept: string, m: string, p: nat)
    requires CutsAt(kept, m, p)
    ensures forall q :: |kept| - p <= q < |kept| ==> !IsEndMark(Lower(kept[q])) && !IsDelimiter(kept[q])
  {
    PlainCharacters();
    forall q | |kept| - p <= q < |kept| ensures !IsEndMark(Lower(kept[q])) && !IsDelimiter(kept[q]) {
      var k := q - (|kept| - p);
      assert kept[|kept| - p..][k] == REDACTED[..p][k] == REDACTED[k];
    }
  }

  /** No marker ends inside the part of the replacement that was kept. */
  lemma EndsBeforeTail(kept: string, m: string, p: nat, m': string, i: nat)
    requires CutsAt(kept, m, p) && IsMarker(m') && OccursAt(kept, m', i)
    ensures i + |m'| <= |kept| - p
  {
    CutTail(kept, m, p);
    EndMarkAt(kept, m', i, i + |m'| - 1);
  }

  lemma SameEnd(s: string, a: string, b: string, j: nat)
    requires |a| <= j && |b| <= j && OccursAt(s, a, j - |a|) && OccursAt(s, b, j - |b|) && Unrelated(a, b)
    ensures a == b
  {
    if |a| <= |b| {
      TailsAgree(s, a, b, j);
    } else {
      TailsAgree(s, b, a, j);
    }
  }

  lemma SameCut(kept: string, m: string, p: nat, m': string, p': nat)
    requires IsMarker(m) && IsMarker(m') && CutsAt(kept, m, p) && CutsAt(kept, m', p')
    ensures p == p'
  {
    EndsBeforeTail(kept, m, p, m', |kept| - p' - |m'|);
    EndsBeforeTail(kept, m', p', m, |kept| - p - |m|);
  }

  /** A cut goes through the secret of one marker only. */
  lemma OneCut(kept: string, m: string, p: nat, m': string, p': nat)
    requires IsMarker(m) && IsMarker(m') && Unrelated(m, m') && CutsAt(kept, m, p) && CutsAt(kept, m', p')
    ensures m == m'
  {
    SameCut(kept, m, p, m', p');
    SameEnd(kept, m, m', |kept| - p);
  }

  // --------------------------------------------------------------------------
  // Redacting a text with a cut secret
  // --------------------------------------------------------------------------

  /** Every occurrence but the last is covered, and the value of the last one runs to the end. */
  ghost predicate OpenEnded(y: string, m: string, last: nat) {
    && OccursAt(y, m, last) && last + |m| < |y|
    && (forall k {:trigger IsDelimiter(y[k])} :: last + |m| <= k < |y| ==> !IsDelimiter(y[k]))
    && (forall i :: OccursAt(y, m, i) ==> i == last || (i < last && Covered(y, i + |m|)))
  }

  /** The covered value of an earlier occurrence ends before a later one begins. */
  lemma EndsBefore(y: string, m: string, i: nat, last: nat)
    requires IsMarker(m) && OccursAt(y, m, i) && OccursAt(y, m, last) && i < last && Covered(y, i + |m|)
    ensures FindDelimiter(y, i + |m|) <= last
  {
    var at := i + |m|;
    EndMarkAt(y, m, i, at - 1);
    if last < at {
      EndMarkAt(y, m, last, at - 1);
    }
    assert at <= last;
    if !EndsAt(y, at) {
      ReplacementEndsBefore(y, m, at, last);
    }
  }

  lemma ReplacementEndsBefore(y: string, m: string, at: nat, last: nat)
    requires IsMarker(m) && OccursAt(y, m, last) && at <= last
    requires at <= |y| && REDACTED <= y[at..] && EndsAt(y, at + |REDACTED|)
    ensures FindDelimiter(y, at) <= last
  {
    var end := at + |REDACTED|;
    PlainCharacters();
    forall q | at <= q < end ensures y[q] == REDACTED[q - at] {
      assert y[at..][q - at] == REDACTED[q - at];
    }
    assert y[end - 1] == ']';
    var p := Min(last + |m|, Max(end, last + 1)) - 1;
    EndMarkAt(y, m, last, p);
    assert last >= end;
  }

  lemma LastPiece(y: string, m: string, last: nat, cursor: nat)
    requires OpenEnded(y, m, last) && cursor <= last && m != [] && FindMarker(y, m, cursor) == last
    ensures Redact(y, m, cursor) == y[cursor..last + |m|] + REDACTED
  {
    var (piece, next) := Piece(y, m, cursor, last);
    assert next == |y| && piece == y[cursor..last + |m|] + REDACTED;
    assert Redact(y, m, |y|) == "";
  }

  lemma EarlierPiece(y: string, m: string, last: nat, cursor: nat, start: nat)
    requires IsMarker(m) && OpenEnded(y, m, last) && cursor <= start < last && OccursAt(y, m, start)
    ensures var (piece, next) := Piece(y, m, cursor, start);
      && cursor < next <= last
      && piece + (y[next..last + |m|] + REDACTED) == y[cursor..last + |m|] + REDACTED
  {
    var next := Piece(y, m, cursor, start).1;
    EndsBefore(y, m, start, last);
    CleanTurn(y, m, cursor, start);
    Slices(y, cursor, next, last + |m|);
    Associative(y[cursor..next], y[next..last + |m|], REDACTED);
  }

  lemma {:induction false} OpenEndedPass(y: string, m: string, last: nat, cursor: nat)
    requires IsMarker(m) && OpenEnded(y, m, last) && cursor <= last
    ensures Redact(y, m, cursor) == y[cursor..last + |m|] + REDACTED
    decreases |y| - cursor
  {
    var start := FindMarker(y, m, cursor);
    assert start <= last;
    if start == last {
      LastPiece(y, m, last, cursor);
    } else {
      EarlierPiece(y, m, last, cursor, start);
      OpenEndedPass(y, m, last, Piece(y, m, cursor, start).1);
    }
  }

  lemma OpenTail(kept: string, m: string, p: nat)
    requires CutsAt(kept, m, p)
    ensures forall k :: |kept| - p <= k < |kept + TRUNCATED| ==> !IsDelimiter((kept + TRUNCATED)[k])
  {
    PlainCharacters();
    CutTail(kept, m, p);
  }

  /** After a cut through the secret of `m` every other occurrence is covered. */
  lemma CutIsOpenEnded(value: string, n: nat, m: string, p: nat, y: string, last: nat)
    requires IsMarker(m) && Clean(value, m) && n <= |value| && CutsAt(value[..n], m, p)
    requires y == value[..n] + TRUNCATED && last + |m| + p == n
    ensures OpenEnded(y, m, last)
  {
    var kept := value[..n];
    CutIsUncovered(kept, m, p);
    OpenTail(kept, m, p);
    forall i | OccursAt(y, m, i) ensures i == last || (i < last && Covered(y, i + |m|)) {
      OtherOccurrence(value, n, m, p, i);
    }
  }

  lemma OtherOccurrence(value: string, n: nat, m: string, p: nat, i: nat)
    requires IsMarker(m) && Clean(value, m) && n <= |value| && CutsAt(value[..n], m, p)
    requires OccursAt(value[..n] + TRUNCATED, m, i)
    ensures i == n - p - |m| || (i < n - p - |m| && Covered(value[..n] + TRUNCATED, i + |m|))
  {
    var kept := value[..n];
    OccursInValue(value, n, m, i);
    EndsBeforeTail(kept, m, p, m, i);
    CoveredOrCut(value, n, m, i);
    if !Covered(kept + TRUNCATED, i + |m|) {
      SameCut(kept, m, p, m, n - (i + |m|));
    }
  }

  /** An occurrence in a cut text was one in the text. */
  lemma OccursInValue(value: string, n: nat, m: string, i: nat)
    requires IsMarker(m) && Clean(value, m) && n <= |value| && OccursAt(value[..n] + TRUNCATED, m, i)
    ensures i + |m| <= n && OccursAt(value[..n], m, i) && Covered(value, i + |m|)
  {
    var kept := value[..n];
    MarkersEndInKept(kept, m, i);
    OccurrenceInPrefix(kept, TRUNCATED, m, i);
    OccurrenceInPrefix(kept, value[n..], m, i);
    assert kept + value[n..] == value;
  }

  /** Passes that change nothing leave the result where it is. */
  lemma {:induction false} IdlePasses(x: string, s: string, markers: seq<string>, a: nat, b: nat)
    requires [] !in markers && a <= b <= |markers| && RedactAll(x, markers, a) == s
    requires forall k {:trigger Redact(s, markers[k], 0)} :: a <= k < b ==> Redact(s, markers[k], 0) == s
    ensures RedactAll(x, markers, b) == s
    decreases b
  {
    if a < b {
      IdlePasses(x, s, markers, a, b - 1);
      NextPass(x, markers, b, s);
    }
  }

  /** If only one pass changes the text, that pass decides the result. */
  lemma OnlyPass(s: string, s': string, markers: seq<string>, c: nat)
    requires [] !in markers && c < |markers| && Redact(s, markers[c], 0) == s'
    requires forall k {:trigger Redact(s, markers[k], 0)} :: 0 <= k < c ==> Redact(s, markers[k], 0) == s
    requires forall k {:trigger Redact(s', markers[k], 0)} :: c < k < |markers| ==> Redact(s', markers[k], 0) == s'
    ensures RedactAll(s, markers, |markers|) == s'
  {
    IdlePasses(s, s, markers, 0, c);
    NextPass(s, markers, c + 1, s);
    IdlePasses(s, s', markers, c + 1, |markers|);
  }

  lemma OnePassChanges(y: string, y': string, markers: seq<string>, c: nat)
    requires [] !in markers && c < |markers| && Redact(y, markers[c], 0) == y'
    requires forall k :: 0 <= k < |markers| && k != c ==> Clean(y, markers[k])
    requires AllClean(y', markers)
    ensures RedactAll(y, markers, |markers|) == y'
  {
    forall k | 0 <= k < |markers| && k != c
      ensures Redact(y, markers[k], 0) == y && Redact(y', markers[k], 0) == y'
    {
      assert markers[k] in markers;
      WholeTextIsFixed(y, markers[k]);
      WholeTextIsFixed(y', markers[k]);
    }
    OnlyPass(y, y', markers, c);
  }

  lemma {:induction false} AtLeastOneByte(s: string)
    ensures ByteLength(s) >= |s|
  {
    if s != [] {
      AtLeastOneByte(s[..|s| - 1]);
    }
  }

  ghost predicate AllClean(s: string, markers: seq<string>) {
    forall k :: 0 <= k < |markers| ==> Clean(s, markers[k])
  }

  lemma CutPassIsClean(y: string, markers: seq<string>, c: nat)
    requires AreMarkers(markers) && c < |markers|
    requires forall k :: 0 <= k < |markers| && markers[k] != markers[c] ==> Clean(y, markers[k])
    ensures AllClean(Redact(y, markers[c], 0), markers)
  {
    forall k | 0 <= k < |markers| ensures Clean(Redact(y, markers[c], 0), markers[k]) {
      WholePassIsClean(y, markers[c], markers[k]);
    }
  }

  lemma CutPassIsShorter(value: string, n: nat, m: string)
    requires IsMarker(m) && Clean(value, m) && n <= |value| && CutsSecret(value[..n], m)
    ensures var y := value[..n] + TRUNCATED;
      |Redact(y, m, 0)| < |y| && ByteLength(Redact(y, m, 0)) <= ByteLength(y)
  {
    var p :| 0 <= p <= |REDACTED| && CutsAt(value[..n], m, p);
    var y := value[..n] + TRUNCATED;
    var last := n - p - |m|;
    CutPass(value, n, m, p, y, last);
    ShorterThanCut(y, last + |m|, Redact(y, m, 0));
  }

  lemma CutPass(value: string, n: nat, m: string, p: nat, y: string, last: nat)
    requires IsMarker(m) && Clean(value, m) && n <= |value| && CutsAt(value[..n], m, p)
    requires y == value[..n] + TRUNCATED && last + |m| + p == n
    ensures Redact(y, m, 0) == y[0..last + |m|] + REDACTED
  {
    CutIsOpenEnded(value, n, m, p, y, last);
    OpenEndedPass(y, m, last, 0);
  }

  /** What redacting does to a text cut through the secret of marker `c`: the value is replaced to the end. */
  lemma CutRedacted(value: string, n: nat, markers: seq<string>, c: nat)
    requires AreMarkers(markers) && [] !in markers && c < |markers| && AllClean(value, markers) && n <= |value|
    requires (forall i, j :: 0 <= i < j < |markers| ==> markers[i] != markers[j]) && CutsSecret(value[..n], markers[c])
    ensures var again := RedactAll(value[..n] + TRUNCATED, markers, |markers|);
      |again| < n + |TRUNCATED| && ByteLength(again) <= ByteLength(value[..n] + TRUNCATED)
  {
    var y := value[..n] + TRUNCATED;
    OthersClean(value, n, markers, c);
    CutPassIsClean(y, markers, c);
    CutPassIsShorter(value, n, markers[c]);
    OnePassChanges(y, Redact(y, markers[c], 0), markers, c);
  }

  lemma OthersClean(value: string, n: nat, markers: seq<string>, c: nat)
    requires AreMarkers(markers) && c < |markers| && AllClean(value, markers) && n <= |value|
    requires CutsSecret(value[..n], markers[c])
    ensures forall k :: 0 <= k < |markers| && markers[k] != markers[c] ==> Clean(value[..n] + TRUNCATED, markers[k])
  {
    forall k | 0 <= k < |markers| && markers[k] != markers[c] ensures Clean(value[..n] + TRUNCATED, markers[k]) {
      if CutsSecret(value[..n], markers[k]) {
        var p :| 0 <= p <= |REDACTED| && CutsAt(value[..n], markers[k], p);
        var p' :| 0 <= p' <= |REDACTED| && CutsAt(value[..n], markers[c], p');
        OneCut(value[..n], markers[k], p, markers[c], p');
      }
      CleanIffUncut(value, n, markers[k]);
    }
  }

  /** Replacing a value of eleven characters or more shortens the text. */
  lemma ShorterThanCut(y: string, j: nat, out: string)
    requires j + |TRUNCATED| <= |y| && out == y[0..j] + REDACTED
    ensures |out| < |y| && ByteLength(out) <= ByteLength(y)
  {
    ShorterTail(y[0..j], y[j..]);
    assert y == y[0..j] + y[j..];
  }

  lemma ShorterTail(a: string, b: string)
    requires |b| > |REDACTED|
    ensures ByteLength(a + REDACTED) <= ByteLength(a + b)
  {
    AsciiByteLength(REDACTED);
    AtLeastOneByte(b);
    ByteLengthOfSum(a, REDACTED);
    ByteLengthOfSum(a, b);
  }

  // --------------------------------------------------------------------------
  // Redacting twice
  // --------------------------------------------------------------------------

  lemma DistinctMarkers()
    ensures forall i, j :: 0 <= i < j < |MARKERS| ==> MARKERS[i] != MARKERS[j]
  {
  }

  /** A returned text changes when it is redacted again exactly when it was cut and the kept part ends with a marker and
      a beginning of its replacement, from none of it to all of it. */
  lemma UnchangedExactlyWhenUncut(input: string, maxBytes: nat)
    requires maxBytes <= U64_MAX
    ensures RedactText(RedactText(input, maxBytes), maxBytes) == RedactText(input, maxBytes) <==>
      !IsCut(input, maxBytes) || forall k :: 0 <= k < |MARKERS| ==> !CutsSecret(Kept(input, maxBytes), MARKERS[k])
  {
    var y, value := RedactText(input, maxBytes), Value(input, maxBytes);
    ReturnedTextIsBounded(input, maxBytes);
    ScannedWhole(y, maxBytes);
    ReturnedParts(input, maxBytes);
    ValueIsClean(input, maxBytes);
    if !IsCut(input, maxBytes) {
      PassesAreIdempotent(Scanned(input, maxBytes));
    } else {
      var n := FloorBoundary(value, SaturatingSub(Limit(maxBytes), |TRUNCATED|));
      CutTextTwice(value, n, y, maxBytes);
    }
  }

  lemma ValueIsClean(input: string, maxBytes: nat)
    ensures AllClean(Value(input, maxBytes), MARKERS)
  {
    forall k | 0 <= k < |MARKERS| ensures Clean(Value(input, maxBytes), MARKERS[k]) {
      NoSecretSurvives(Scanned(input, maxBytes), k);
    }
  }

  lemma CutTextTwice(value: string, n: nat, y: string, maxBytes: nat)
    requires AllClean(value, MARKERS) && n <= |value| && y == value[..n] + TRUNCATED
    requires ByteLength(y) <= Limit(maxBytes)
    ensures Truncate(RedactAll(y, MARKERS, |MARKERS|), Limit(maxBytes), false) == y <==>
      forall k :: 0 <= k < |MARKERS| ==> !CutsSecret(value[..n], MARKERS[k])
  {
    MarkersAreMarkers();
    if forall k :: 0 <= k < |MARKERS| ==> !CutsSecret(value[..n], MARKERS[k]) {
      forall k | 0 <= k < |MARKERS| ensures Clean(y, MARKERS[k]) {
        CleanIffUncut(value, n, MARKERS[k]);
      }
      CleanTextIsKept(y, MARKERS, |MARKERS|);
    } else {
      var c :| 0 <= c < |MARKERS| && CutsSecret(value[..n], MARKERS[c]);
      DistinctMarkers();
      CutRedacted(value, n, MARKERS, c);
    }
  }

  // --------------------------------------------------------------------------
  // An input whose returned text changes
  // --------------------------------------------------------------------------

  lemma TokenPass(value: string, rest: string)
    requires value != "" && (forall c :: c in value ==> !IsDelimiter(c)) && EndsAt(rest, 0)
    requires forall c :: c in value + rest ==> Lower(c) != '='
    ensures Redact("token=" + value + rest, "token=", 0) == "token=" + REDACTED + rest
  {
    var m, s := "token=", "token=" + value + rest;
    var at, next := |m|, |m| + |value|;
    assert OccursAt(s, m, 0);
    assert s[at..next] == value && s[next..] == rest;
    forall k | at <= k < next ensures !IsDelimiter(s[k]) {
      assert s[k] == value[k - at] && value[k - at] in value;
    }
    assert FindDelimiter(s, at) == next;
    forall i | i >= next ensures !OccursAt(s, m, i) {
      if i + |m| <= |s| {
        assert s[i + 5] == (value + rest)[i + 5 - at] && (value + rest)[i + 5 - at] in value + rest;
        assert Lower(s[i + 5]) != m[5];
      }
    }
    assert Redact(s, m, next) == s[next..];
    assert Piece(s, m, 0, 0) == (s[0..at] + REDACTED, next) && s[0..at] == m;
  }

  lemma FloorOfAscii(s: string, limit: nat)
    requires forall k :: 0 <= k < |s| ==> s[k] as int < 0x80
    ensures FloorBoundary(s, limit) == Min(|s|, limit)
  {
    var n := FloorBoundary(s, limit);
    AsciiByteLength(s[..n]);
    if n < |s| {
      AsciiByteLength(s[..n + 1]);
    }
  }

  /** A short value and a text after it, plain but for the space between them. */
  predicate ShortSecret(value: string, rest: string) {
    && 0 < |value| < 6 && 2 <= |rest| <= 1000 && rest[0] == ' '
    && (forall k :: 0 <= k < |value| ==> IsPlain(value[k])) && forall k :: 0 < k < |rest| ==> IsPlain(rest[k])
  }

  predicate IsPlain(c: char) {
    'a' <= c <= 'z'
  }

  /** Where the end marks of such a text are, masked or not. */
  predicate EndMarksAt(s: string, space: nat) {
    && 6 < space < |s| && s[5] == '=' && s[space] == ' '
    && forall p :: 0 <= p < |s| && p != 5 && p != space ==> !IsEndMark(Lower(s[p]))
  }

  lemma OtherMarkersAbsent(s: string, space: nat, m: string)
    requires EndMarksAt(s, space) && IsMarker(m) && |m| >= 7 && (m[|m| - 1] == ' ' ==> space < 12 && |m| == 7)
    ensures Redact(s, m, 0) == s
  {
    forall i ensures !OccursAt(s, m, i) {
      if 0 <= i && i + |m| <= |s| && OccursAt(s, m, i) {
        EndMarkAt(s, m, i, i + |m| - 1);
        assert Lower(s[i + (|m| - 1)]) == m[|m| - 1];
        assert i + |m| - 1 == space;
        EndMarkAt(s, m, i, 5);
        assert false;
      }
    }
    assert s[0..] == s;
  }

  lemma OtherMarkers(k: nat)
    requires k < |MARKERS| && k != 2
    ensures var m := MARKERS[k];
      && IsMarker(m) && |m| >= 7 && (m[|m| - 1] == ' ' ==> k == 1 && |m| == 7)
  {
    EachIsMarker();
  }

  /** Lemma for `EndMarksAt`: around a word, delimited text without further end marks. */
  lemma MarksAround(word: string, rest: string, s: string)
    requires s == "token=" + word + rest && 0 < |word| <= 10 && |rest| > 0 && rest[0] == ' '
    requires forall c :: c in word ==> !IsEndMark(Lower(c))
    requires forall k :: 0 < k < |rest| ==> !IsEndMark(Lower(rest[k]))
    ensures EndMarksAt(s, 6 + |word|)
  {
    var space := 6 + |word|;
    assert s[..6] == "token=" && s[space] == rest[0];
    forall p | 0 <= p < |s| && p != 5 && p != space ensures !IsEndMark(Lower(s[p])) {
      if p >= space {
        assert s[p] == rest[p - space];
      } else if p >= 6 {
        assert s[p] == word[p - 6];
      } else {
        assert s[p] == "token="[p];
      }
    }
  }

  lemma PassesBefore(s: string, space: nat, markers: seq<string>)
    requires markers == MARKERS && EndMarksAt(s, space) && space < 12
    ensures forall k :: 0 <= k < 2 ==> Redact(s, markers[k], 0) == s
  {
    forall k | 0 <= k < 2 ensures Redact(s, markers[k], 0) == s {
      OtherMarkers(k);
      OtherMarkersAbsent(s, space, markers[k]);
    }
  }

  lemma PassesAfter(s: string, space: nat, markers: seq<string>)
    requires markers == MARKERS && EndMarksAt(s, space)
    ensures forall k :: 2 < k < |markers| ==> Redact(s, markers[k], 0) == s
  {
    forall k | 2 < k < |markers| ensures Redact(s, markers[k], 0) == s {
      OtherMarkers(k);
      OtherMarkersAbsent(s, space, markers[k]);
    }
  }

  lemma ShortSecretMarks(value: string, rest: string)
    requires ShortSecret(value, rest)
    ensures EndMarksAt("token=" + value + rest, 6 + |value|) && EndMarksAt("token=" + REDACTED + rest, 16)
  {
    PlainCharacters();
    MarksAround(value, rest, "token=" + value + rest);
    MarksAround(REDACTED, rest, "token=" + REDACTED + rest);
  }

  lemma ShortSecretRedacted(value: string, rest: string, s: string, s': string, markers: seq<string>)
    requires ShortSecret(value, rest) && markers == MARKERS
    requires s == "token=" + value + rest && s' == "token=" + REDACTED + rest
    ensures RedactAll(s, markers, |markers|) == s'
  {
    ShortSecretMarks(value, rest);
    PassesBefore(s, 6 + |value|, markers);
    PassesAfter(s', 16, markers);
    TokenPasses(value, rest, markers);
    NoEmptyMarker(markers);
    OnlyPass(s, s', markers, 2);
  }

  lemma TokenPasses(value: string, rest: string, markers: seq<string>)
    requires ShortSecret(value, rest) && markers == MARKERS
    ensures Redact("token=" + value + rest, markers[2], 0) == "token=" + REDACTED + rest
  {
    PlainCharacters();
    TokenPass(value, rest);
  }

  lemma NoEmptyMarker(markers: seq<string>)
    requires markers == MARKERS
    ensures |markers| == 7 && [] !in markers
  {
  }

  lemma ShortSecretScanned(value: string, rest: string, input: string)
    requires ShortSecret(value, rest) && input == "token=" + value + rest
    ensures Scanned(input, 17) == input
  {
    AsciiByteLength(input);
    FloorOfAscii(input, SaturatingAdd(Limit(17), 1024));
  }

  lemma MaskedIsCut(rest: string, masked: string)
    requires masked == "token=" + REDACTED + rest && |rest| >= 2 && forall k :: 0 <= k < |rest| ==> rest[k] as int < 0x80
    ensures ByteLength(masked) > 17 && FloorBoundary(masked, 6) == 6 && masked[..6] == "token="
  {
    AsciiByteLength(masked);
    FloorOfAscii(masked, 6);
  }

  lemma ShortSecretParts(value: string, rest: string, input: string)
    requires ShortSecret(value, rest) && input == "token=" + value + rest
    ensures IsCut(input, 17) && Kept(input, 17) == "token="
  {
    ShortSecretScanned(value, rest, input);
    var masked := "token=" + REDACTED + rest;
    ShortSecretRedacted(value, rest, input, masked, MARKERS);
    MaskedIsCut(rest, masked);
    assert Value(input, 17) == masked;
  }

  /** Inputs whose returned text changes: the cut falls right after the marker, and the second time the truncation mark
      itself is taken for the secret. */
  lemma CutSecretChanges(value: string, rest: string)
    requires ShortSecret(value, rest)
    ensures var once := RedactText("token=" + value + rest, 17);
      once == "token=" + TRUNCATED && RedactText(once, 17) != once
  {
    var input := "token=" + value + rest;
    ShortSecretParts(value, rest, input);
    ReturnedParts(input, 17);
    assert OccursAt("token=", "token=", 0);
    assert CutsAt("token=", MARKERS[2], 0);
    UnchangedExactlyWhenUncut(input, 17);
  }
}
