/** UTF-8 by its encoder, section 3 of RFC 3629: which byte texts are valid, and how many bytes characters take. */
module Utf8 {
  import opened Prelude
  import TextFile

  /** Unicode scalar values. */
  predicate IsScalar(n: nat) {
    n < 0xD800 || 0xE000 <= n <= 0x10FFFF
  }

  function Encode(n: nat): Bytes
    requires IsScalar(n)
  {
    if n < 0x80 then [n]
    else if n < 0x800 then [0xC0 + n / 64, 0x80 + n % 64]
    else if n < 0x10000 then [0xE0 + n / 4096, 0x80 + n / 64 % 64, 0x80 + n % 64]
    else [0xF0 + n / 262144, 0x80 + n / 4096 % 64, 0x80 + n / 64 % 64, 0x80 + n % 64]
  }

  function EncodeAll(scalars: seq<nat>): Bytes
    requires forall n :: n in scalars ==> IsScalar(n)
  {
    if scalars == [] then [] else Encode(scalars[0]) + EncodeAll(scalars[1..])
  }

  // --------------------------------------------------------------------------
  // One character
  // --------------------------------------------------------------------------

  lemma EncodedIsOneChar(n: nat)
    requires IsScalar(n)
    ensures TextFile.OneChar(Encode(n))
  {
    if 0x800 <= n < 0x10000 {
      ThreeByteChar(n);
    } else if 0x10000 <= n {
      FourByteChar(n);
    }
  }

  lemma ThreeByteChar(n: nat)
    requires IsScalar(n) && 0x800 <= n < 0x10000
    ensures TextFile.OneChar(Encode(n))
  {
    assert n / 64 % 64 < 64 && n % 64 < 64;
  }

  lemma FourByteChar(n: nat)
    requires IsScalar(n) && 0x10000 <= n
    ensures TextFile.OneChar(Encode(n))
  {
    assert n / 4096 % 64 < 64 && n / 64 % 64 < 64 && n % 64 < 64;
  }

  function Decode(bytes: Bytes): nat
    requires TextFile.OneChar(bytes)
  {
    if |bytes| == 1 then bytes[0]
    else if |bytes| == 2 then 64 * (bytes[0] as int - 0xC0) + (bytes[1] as int - 0x80)
    else if |bytes| == 3 then 4096 * (bytes[0] as int - 0xE0) + 64 * (bytes[1] as int - 0x80) + (bytes[2] as int - 0x80)
    else
      262144 * (bytes[0] as int - 0xF0) + 4096 * (bytes[1] as int - 0x80) + 64 * (bytes[2] as int - 0x80)
      + (bytes[3] as int - 0x80)
  }

  lemma Digits64(high: nat, low: nat)
    requires low < 64
    ensures (64 * high + low) / 64 == high && (64 * high + low) % 64 == low
  {
  }

  lemma Digits4096(high: nat, middle: nat, low: nat)
    requires middle < 64 && low < 64
    ensures var n := 4096 * high + 64 * middle + low;
      n / 4096 == high && n / 64 % 64 == middle && n % 64 == low
  {
    Digits64(64 * high + middle, low);
    Digits64(high, middle);
  }

  lemma Digits262144(top: nat, high: nat, middle: nat, low: nat)
    requires high < 64 && middle < 64 && low < 64
    ensures var n := 262144 * top + 4096 * high + 64 * middle + low;
      n / 262144 == top && n / 4096 % 64 == high && n / 64 % 64 == middle && n % 64 == low
  {
    Digits4096(64 * top + high, middle, low);
    Digits64(top, high);
  }

  lemma OneCharIsEncoded(bytes: Bytes)
    requires TextFile.OneChar(bytes)
    ensures IsScalar(Decode(bytes)) && Encode(Decode(bytes)) == bytes
  {
    assert forall i :: 0 < i < |bytes| ==> TextFile.IsContinuation(bytes[i]);
    if |bytes| == 2 {
      Digits64(bytes[0] - 0xC0, bytes[1] - 0x80);
    } else if |bytes| == 3 {
      ThreeBytes(bytes);
    } else if |bytes| == 4 {
      FourBytes(bytes);
    }
  }

  lemma ThreeBytes(bytes: Bytes)
    requires TextFile.OneChar(bytes) && |bytes| == 3
    ensures IsScalar(Decode(bytes)) && Encode(Decode(bytes)) == bytes
  {
    assert forall i :: 0 < i < 3 ==> TextFile.IsContinuation(bytes[i]);
    Digits4096(bytes[0] - 0xE0, bytes[1] - 0x80, bytes[2] - 0x80);
  }

  lemma FourBytes(bytes: Bytes)
    requires TextFile.OneChar(bytes) && |bytes| == 4
    ensures IsScalar(Decode(bytes)) && Encode(Decode(bytes)) == bytes
  {
    assert forall i :: 0 < i < 4 ==> TextFile.IsContinuation(bytes[i]);
    Digits262144(bytes[0] - 0xF0, bytes[1] - 0x80, bytes[2] - 0x80, bytes[3] - 0x80);
  }

  /** A text is valid exactly when it is the encoding of some scalar values. */
  lemma ValidExactlyWhen(bytes: Bytes)
    ensures TextFile.ValidUtf8(bytes) <==>
      exists scalars: seq<nat> :: (forall n :: n in scalars ==> IsScalar(n)) && bytes == EncodeAll(scalars)
  {
    if TextFile.ValidUtf8(bytes) {
      var scalars := Decoded(bytes);
    }
    if scalars: seq<nat> :| (forall n :: n in scalars ==> IsScalar(n)) && bytes == EncodeAll(scalars) {
      EncodedIsValid(scalars);
    }
  }

  lemma {:induction false} Decoded(bytes: Bytes) returns (scalars: seq<nat>)
    requires TextFile.ValidUtf8(bytes)
    ensures (forall n :: n in scalars ==> IsScalar(n)) && bytes == EncodeAll(scalars)
    decreases |bytes|
  {
    if bytes == [] {
      scalars := [];
    } else {
      var n := TextFile.CharLength(bytes[0]);
      OneCharIsEncoded(bytes[..n]);
      var rest := Decoded(bytes[n..]);
      scalars := [Decode(bytes[..n])] + rest;
      assert scalars[1..] == rest && bytes == bytes[..n] + bytes[n..];
    }
  }

  lemma {:induction false} EncodedIsValid(scalars: seq<nat>)
    requires forall n :: n in scalars ==> IsScalar(n)
    ensures TextFile.ValidUtf8(EncodeAll(scalars))
  {
    if scalars != [] {
      EncodedIsOneChar(scalars[0]);
      EncodedIsValid(scalars[1..]);
      CharThenText(Encode(scalars[0]), EncodeAll(scalars[1..]));
    }
  }

  lemma CharThenText(c: Bytes, text: Bytes)
    requires TextFile.OneChar(c) && TextFile.ValidUtf8(text)
    ensures TextFile.ValidUtf8(c + text)
  {
    assert (c + text)[..|c|] == c && (c + text)[|c|..] == text && (c + text)[0] == c[0];
  }

  /** One character is the encoding of one scalar value. */
  lemma CharacterExactlyWhen(bytes: Bytes)
    ensures TextFile.OneChar(bytes) <==> exists n :: IsScalar(n) && bytes == Encode(n)
  {
    if TextFile.OneChar(bytes) {
      OneCharIsEncoded(bytes);
    }
    if n :| IsScalar(n) && bytes == Encode(n) {
      EncodedIsOneChar(n);
    }
  }

  // --------------------------------------------------------------------------
  // Characters of a string
  // --------------------------------------------------------------------------

  function ScalarsOf(s: string): (scalars: seq<nat>)
    ensures forall n :: n in scalars ==> IsScalar(n)
  {
    if s == [] then [] else [s[0] as int] + ScalarsOf(s[1..])
  }
}
