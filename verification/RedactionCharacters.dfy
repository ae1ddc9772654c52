/** The characters that redaction looks at: case folding, delimiters and lengths in bytes. */
module RedactionCharacters {
  import opened Prelude
  import opened Redaction
  import Utf8

  /** Letters are compared without case, ASCII letters only. */
  lemma FoldsAsciiLetters(c: char)
    ensures c !in UPPER ==> Redaction.Lower(c) == c
    ensures forall i :: 0 <= i < 26 ==> Redaction.Lower(UPPER[i]) == LOWER[i]
  {
    LetterRanges(c);
  }

  /** A value ends at white space or one of five marks. */
  lemma DelimitersAre(c: char)
    ensures IsDelimiter(c) <==>
      IsWhiteSpace(c as int) || c as int == 0x2C || c as int == 0x3B || c as int == 0x26 || c as int == 0x22 || c as int == 0x27
  {
  }

  lemma CharBytes(c: char)
    ensures Utf8Length(c) == |Utf8.Encode(c as int)|
  {
  }

  /** The length that limits and truncation count is the length of the text in UTF-8. */
  lemma {:induction false} LengthInBytes(s: string)
    ensures ByteLength(s) == |Utf8.EncodeAll(Utf8.ScalarsOf(s))|
  {
    if s != [] {
      LengthInBytes(s[1..]);
      CharBytes(s[0]);
      assert s == [s[0]] + s[1..] && [s[0]][..0] == [];
      assert ByteLength([]) == 0 && ByteLength([s[0]]) == Utf8Length(s[0]);
      ByteLengthOfSum([s[0]], s[1..]);
    }
  }
}
