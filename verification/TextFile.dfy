/** UTF-8 text files made of lines: what survives when the last line is torn. */
module TextFile {
  import opened Prelude

  const NEWLINE: byte := 10
  const CARRIAGE_RETURN: byte := 13

  /** Bytes of an ASCII string. */
  function Ascii(text: string): (bytes: Bytes)
    ensures |bytes| == |text|
    ensures forall b :: b in bytes ==> b < 128
  {
    if text == [] then [] else Ascii(text[..|text| - 1]) + [text[|text| - 1] as int % 128]
  }

  // --------------------------------------------------------------------------
  // UTF-8
  // --------------------------------------------------------------------------

  predicate IsContinuation(b: byte) {
    0x80 <= b <= 0xBF
  }

  /** Length of the character that starts with `lead`; zero when no character does. */
  function CharLength(lead: byte): nat {
    if lead < 0x80 then 1
    else if 0xC2 <= lead <= 0xDF then 2
    else if 0xE0 <= lead <= 0xEF then 3
    else if 0xF0 <= lead <= 0xF4 then 4
    else 0
  }

  predicate SecondByteFits(lead: byte, second: byte) {
    && (lead == 0xE0 ==> 0xA0 <= second)
    && (lead == 0xED ==> second <= 0x9F)
    && (lead == 0xF0 ==> 0x90 <= second)
    && (lead == 0xF4 ==> second <= 0x8F)
  }

  /** `bytes` is the encoding of one Unicode scalar value. */
  predicate OneChar(bytes: Bytes) {
    && bytes != [] && CharLength(bytes[0]) == |bytes|
    && (forall i :: 0 < i < |bytes| ==> IsContinuation(bytes[i]))
    && (|bytes| > 1 ==> SecondByteFits(bytes[0], bytes[1]))
  }

  predicate ValidUtf8(bytes: Bytes)
    decreases |bytes|
  {
    bytes == [] ||
    var n := CharLength(bytes[0]);
    0 < n <= |bytes| && OneChar(bytes[..n]) && ValidUtf8(bytes[n..])
  }

  lemma {:induction false} AsciiIsValid(bytes: Bytes)
    requires forall b :: b in bytes ==> b < 128
    ensures ValidUtf8(bytes)
    decreases |bytes|
  {
    if bytes != [] {
      assert bytes[0] in bytes && forall b :: b in bytes[1..] ==> b in bytes;
      AsciiIsValid(bytes[1..]);
    }
  }

  /** Appending to valid text leaves validity to what is appended. */
  lemma {:induction false} ValidAppend(a: Bytes, b: Bytes)
    requires ValidUtf8(a)
    ensures ValidUtf8(a + b) <==> ValidUtf8(b)
    decreases |a|
  {
    if a == [] {
      assert a + b == b;
    } else {
      var n := CharLength(a[0]);
      ValidAppend(a[n..], b);
      assert (a + b)[..n] == a[..n] && (a + b)[n..] == a[n..] + b;
    }
  }

  /** A prefix of valid text is valid exactly when the cut does not fall inside a character. */
  lemma {:induction false} ValidPrefix(s: Bytes, k: nat)
    requires ValidUtf8(s) && k <= |s|
    ensures ValidUtf8(s[..k]) <==> k == |s| || !IsContinuation(s[k])
    decreases |s|
  {
    if k == 0 || k == |s| {
      assert s[..k] == [] || s[..k] == s;
    } else {
      var n := CharLength(s[0]);
      assert s[..n][0] == s[0];
      if k < n {
        assert s[..k][0] == s[0] && s[..n][k] == s[k];
      } else {
        ValidPrefix(s[n..], k - n);
        CutSlices(s, n, k);
      }
    }
  }

  lemma CutSlices(s: Bytes, n: nat, k: nat)
    requires n <= k <= |s|
    ensures s[..k][..n] == s[..n] && s[..k][n..] == s[n..][..k - n]
    ensures k < |s| ==> s[n..][k - n] == s[k]
  {
  }

  lemma {:induction false} NonAsciiHasContinuation(s: Bytes, i: nat) returns (k: nat)
    requires ValidUtf8(s) && i < |s| && s[i] >= 128
    ensures k < |s| && IsContinuation(s[k])
    decreases |s|
  {
    var n := CharLength(s[0]);
    if n > 1 {
      assert s[..n][1] == s[1];
      k := 1;
    } else {
      k := NonAsciiHasContinuation(s[1..], i - 1);
      k := k + 1;
    }
  }

  /** Every cut of valid text is valid exactly when the text is ASCII. */
  lemma EveryCutValidIffAscii(s: Bytes)
    requires ValidUtf8(s)
    ensures (forall k :: 0 <= k <= |s| ==> ValidUtf8(s[..k])) <==> (forall b :: b in s ==> b < 128)
  {
    if b :| b in s && b >= 128 {
      var i :| 0 <= i < |s| && s[i] == b;
      var k := NonAsciiHasContinuation(s, i);
      ValidPrefix(s, k);
      assert !ValidUtf8(s[..k]);
    } else {
      forall k | 0 <= k <= |s| ensures ValidUtf8(s[..k]) {
        ValidPrefix(s, k);
        assert k < |s| ==> s[k] in s;
      }
    }
  }

  // --------------------------------------------------------------------------
  // Lines
  // --------------------------------------------------------------------------

  /** Position after the last newline. */
  function LastLineStart(s: Bytes): (i: nat)
    ensures i <= |s|
    ensures NEWLINE !in s[i..]
    ensures i == 0 || s[i - 1] == NEWLINE
  {
    if s == [] || s[|s| - 1] == NEWLINE then |s|
    else
      var i := LastLineStart(s[..|s| - 1]);
      assert s[i..] == s[..|s| - 1][i..] + [s[|s| - 1]];
      i
  }

  /** The part of the text made of complete lines, and whether a torn tail was dropped. */
  function CompleteLinePrefix(body: Bytes): (Bytes, bool) {
    var i := LastLineStart(body);
    (body[..i], i < |body|)
  }

  predicate WholeLines(s: Bytes) {
    s == [] || s[|s| - 1] == NEWLINE
  }

  function StripCarriageReturn(line: Bytes): Bytes {
    if line != [] && line[|line| - 1] == CARRIAGE_RETURN then line[..|line| - 1] else line
  }

  /** Lines of a text that ends with a newline. */
  function Lines(s: Bytes): seq<Bytes>
    requires WholeLines(s)
    decreases |s|
  {
    if s == [] then []
    else
      var i := LastLineStart(s[..|s| - 1]);
      Lines(s[..i]) + [StripCarriageReturn(s[i..|s| - 1])]
  }

  lemma {:induction false} LastLineStartOfAppend(s: Bytes, tail: Bytes)
    requires WholeLines(s) && NEWLINE !in tail
    ensures LastLineStart(s + tail) == |s|
  {
    if tail == [] {
      assert s + tail == s;
    } else {
      var n := |tail| - 1;
      assert (s + tail)[..|s| + n] == s + tail[..n];
      assert tail[n] in tail;
      LastLineStartOfAppend(s, tail[..n]);
    }
  }

  /** A line a store writes: non-empty valid text that no line operation changes. */
  predicate PlainLine(line: Bytes) {
    line != [] && NEWLINE !in line && line[|line| - 1] != CARRIAGE_RETURN && ValidUtf8(line)
  }

  lemma LinesFrom(t: Bytes, i: nat)
    requires t != [] && WholeLines(t) && LastLineStart(t[..|t| - 1]) == i && WholeLines(t[..i])
    ensures Lines(t) == Lines(t[..i]) + [StripCarriageReturn(t[i..|t| - 1])]
  {
  }

  /** One more line is one more in the list of lines, without the carriage return it may end with. */
  lemma OneMoreLine(s: Bytes, line: Bytes)
    requires WholeLines(s) && NEWLINE !in line
    ensures WholeLines(s + line + [NEWLINE])
    ensures Lines(s + line + [NEWLINE]) ==
      Lines(s) + [if line != [] && line[|line| - 1] == 13 then line[..|line| - 1] else line]
  {
    var t := s + line + [NEWLINE];
    LineParts(s, line);
    LastLineStartOfAppend(s, line);
    LinesFrom(t, |s|);
  }

  lemma LinesOfAppend(s: Bytes, line: Bytes)
    requires WholeLines(s) && PlainLine(line)
    ensures WholeLines(s + line + [NEWLINE])
    ensures Lines(s + line + [NEWLINE]) == Lines(s) + [line]
  {
    OneMoreLine(s, line);
  }

  /** The text is its complete lines and a rest without a newline, which is torn unless it is empty. */
  lemma CompleteLinesAndRest(body: Bytes) returns (rest: Bytes)
    ensures var (complete, torn) := CompleteLinePrefix(body);
      && body == complete + rest && NEWLINE !in rest && torn == (rest != [])
      && (complete == [] || complete[|complete| - 1] == 10)
  {
    rest := body[LastLineStart(body)..];
  }

  lemma LineParts(s: Bytes, line: Bytes)
    ensures var t := s + line + [NEWLINE];
      && t[|t| - 1] == NEWLINE && t[..|t| - 1] == s + line && t[..|s|] == s && t[|s|..|t| - 1] == line
  {
  }

  /** A crash after `k` bytes of appending a line: the old lines remain, the tail is torn unless nothing was written,
      and the text is readable exactly when the cut does not fall inside a character. */
  lemma TornAppend(s: Bytes, line: Bytes, k: nat)
    requires WholeLines(s) && ValidUtf8(s) && PlainLine(line) && k <= |line|
    ensures CompleteLinePrefix(s + line[..k]) == (s, k > 0)
    ensures ValidUtf8(s + line[..k]) <==> !IsContinuation((line + [NEWLINE])[k])
  {
    assert NEWLINE !in line[..k];
    TornTail(s, line[..k]);
    TornText(s, line, k);
  }

  lemma TornText(s: Bytes, line: Bytes, k: nat)
    requires ValidUtf8(s) && ValidUtf8(line) && k <= |line|
    ensures ValidUtf8(s + line[..k]) <==> !IsContinuation((line + [NEWLINE])[k])
  {
    ValidPrefix(line, k);
    ValidAppend(s, line[..k]);
    assert k < |line| ==> (line + [NEWLINE])[k] == line[k];
  }

  lemma TornTail(s: Bytes, tail: Bytes)
    requires WholeLines(s) && NEWLINE !in tail
    ensures CompleteLinePrefix(s + tail) == (s, |tail| > 0)
  {
    LastLineStartOfAppend(s, tail);
    assert (s + tail)[..|s|] == s;
  }

  lemma WholeAppend(s: Bytes)
    requires WholeLines(s)
    ensures CompleteLinePrefix(s) == (s, false)
  {
    assert LastLineStart(s) == |s|;
    assert s[..|s|] == s;
  }

  /** A torn line after a header and a body, with the body and the torn line taken together. */
  lemma Regroup(header: Bytes, body: Bytes, text: Bytes, k: nat)
    requires k <= |text|
    ensures (header + body) + (text + [NEWLINE])[..k] == header + (body + text[..k])
  {
    assert (text + [NEWLINE])[..k] == text[..k];
  }

  /** Valid text stays valid with one more line. */
  lemma LineStaysValid(s: Bytes, line: Bytes)
    requires ValidUtf8(s) && ValidUtf8(line)
    ensures ValidUtf8(s + line + [NEWLINE])
  {
    ValidAppend(s, line);
    AsciiIsValid([NEWLINE]);
    ValidAppend(s + line, [NEWLINE]);
  }
}
