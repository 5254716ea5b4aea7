/** UTF-8 (RFC 3629): the byte-level test the engine applies to a key, against the encoding of
    Unicode scalar values. */
module Utf8 {
  import opened ByteStrings

  predicate IsContinuation(b: Byte) {
    0x80 <= b <= 0xBF
  }

  /** The length of the well-formed UTF-8 sequence at the front of `s`, 0 if there is none
      (RFC 3629, section 4). */
  function Utf8Width(s: Bytes): (n: nat)
    requires s != []
    ensures n <= |s|
  {
    var a := s[0];
    if a < 0x80 then 1
    else if 0xC2 <= a <= 0xDF then (if |s| >= 2 && IsContinuation(s[1]) then 2 else 0)
    else if 0xE0 <= a <= 0xEF then
      (if && |s| >= 3
          && (if a == 0xE0 then 0xA0 else 0x80) <= s[1] <= (if a == 0xED then 0x9F else 0xBF)
          && IsContinuation(s[2])
       then 3 else 0)
    else if 0xF0 <= a <= 0xF4 then
      (if && |s| >= 4
          && (if a == 0xF0 then 0x90 else 0x80) <= s[1] <= (if a == 0xF4 then 0x8F else 0xBF)
          && IsContinuation(s[2]) && IsContinuation(s[3])
       then 4 else 0)
    else 0
  }

  predicate IsUtf8(s: Bytes) {
    s == [] || (Utf8Width(s) > 0 && IsUtf8(s[Utf8Width(s)..]))
  }

  // ----- the encoding -----

  /** A Unicode scalar value: a code point that is no surrogate. */
  predicate IsScalar(c: nat) {
    c < 0xD800 || 0xE000 <= c < 0x11_0000
  }

  /** RFC 3629, section 3. */
  function EncodeScalar(c: nat): (bytes: Bytes)
    requires IsScalar(c)
    ensures bytes != []
  {
    if c < 0x80 then [c]
    else if c < 0x800 then [0xC0 + c / 64, 0x80 + c % 64]
    else if c < 0x1_0000 then [0xE0 + c / 4096, 0x80 + c / 64 % 64, 0x80 + c % 64]
    else [0xF0 + c / 262144, 0x80 + c / 4096 % 64, 0x80 + c / 64 % 64, 0x80 + c % 64]
  }

  function EncodeText(text: seq<nat>): Bytes
    requires forall c :: c in text ==> IsScalar(c)
  {
    if text == [] then [] else EncodeScalar(text[0]) + EncodeText(text[1..])
  }

  /** Digits to the base of 64. */
  lemma TwoDigits(a: nat, b: nat)
    requires b < 64
    ensures (64 * a + b) / 64 == a && (64 * a + b) % 64 == b
  {
  }

  lemma Quotients(c: nat)
    ensures c / 4096 == c / 64 / 64 && c / 262144 == c / 64 / 64 / 64
  {
  }

  /** What follows an encoded scalar does not matter to the test. */
  lemma EncodedWidth(c: nat, rest: Bytes)
    requires IsScalar(c)
    ensures Utf8Width(EncodeScalar(c) + rest) == |EncodeScalar(c)|
  {
    Quotients(c);
    var s := EncodeScalar(c) + rest;
    assert forall i :: 0 <= i < |EncodeScalar(c)| ==> s[i] == EncodeScalar(c)[i];
  }

  lemma TwoBytes(a: nat, b: nat)
    requires 2 <= a < 32 && b < 64
    ensures IsScalar(64 * a + b) && EncodeScalar(64 * a + b) == [0xC0 + a, 0x80 + b]
  {
    TwoDigits(a, b);
  }

  lemma ThreeBytes(a: nat, b: nat, d: nat)
    requires a < 16 && b < 64 && d < 64 && (a == 0 ==> b >= 32) && (a == 13 ==> b < 32)
    ensures var c := 64 * (64 * a + b) + d; IsScalar(c) && EncodeScalar(c) == [0xE0 + a, 0x80 + b, 0x80 + d]
  {
    TwoDigits(a, b);
    TwoDigits(64 * a + b, d);
    Quotients(64 * (64 * a + b) + d);
  }

  lemma FourBytes(a: nat, b: nat, d: nat, e: nat)
    requires a <= 4 && b < 64 && d < 64 && e < 64 && (a == 0 ==> b >= 16) && (a == 4 ==> b < 16)
    ensures var c := 64 * (64 * (64 * a + b) + d) + e;
            IsScalar(c) && EncodeScalar(c) == [0xF0 + a, 0x80 + b, 0x80 + d, 0x80 + e]
  {
    TwoDigits(a, b);
    TwoDigits(64 * a + b, d);
    TwoDigits(64 * (64 * a + b) + d, e);
    Quotients(64 * (64 * (64 * a + b) + d) + e);
  }

  /** The scalar at the front of a well-formed string. */
  lemma FirstScalar(s: Bytes) returns (c: nat)
    requires s != [] && Utf8Width(s) > 0
    ensures IsScalar(c) && EncodeScalar(c) == s[..Utf8Width(s)]
  {
    hide EncodeScalar, IsScalar;
    var n := Utf8Width(s);
    if n == 1 {
      c := s[0];
      OneByte(c);
    } else if n == 2 {
      var a: nat, b: nat := s[0] - 0xC0, s[1] - 0x80;
      c := 64 * a + b;
      TwoBytes(a, b);
    } else if n == 3 {
      var a: nat, b: nat, d: nat := s[0] - 0xE0, s[1] - 0x80, s[2] - 0x80;
      c := 64 * (64 * a + b) + d;
      ThreeBytes(a, b, d);
    } else {
      var a: nat, b: nat, d: nat, e: nat := s[0] - 0xF0, s[1] - 0x80, s[2] - 0x80, s[3] - 0x80;
      c := 64 * (64 * (64 * a + b) + d) + e;
      FourBytes(a, b, d, e);
    }
  }

  lemma OneByte(c: nat)
    requires c < 0x80
    ensures IsScalar(c) && EncodeScalar(c) == [c]
  {
  }

  lemma {:induction false} EncodedIsUtf8(text: seq<nat>)
    requires forall c :: c in text ==> IsScalar(c)
    ensures IsUtf8(EncodeText(text))
  {
    hide Utf8Width, EncodeScalar;
    if text != [] {
      var s := EncodeText(text);
      EncodedWidth(text[0], EncodeText(text[1..]));
      assert s[|EncodeScalar(text[0])|..] == EncodeText(text[1..]);
      EncodedIsUtf8(text[1..]);
    }
  }

  lemma {:induction false} DecodeText(s: Bytes) returns (text: seq<nat>)
    requires IsUtf8(s)
    ensures (forall c :: c in text ==> IsScalar(c)) && EncodeText(text) == s
    decreases |s|
  {
    hide Utf8Width, EncodeScalar;
    if s == [] {
      text := [];
    } else {
      var n := Utf8Width(s);
      var c := FirstScalar(s);
      var rest := DecodeText(s[n..]);
      text := [c] + rest;
      assert s == s[..n] + s[n..];
    }
  }

  /** A byte string passes the test exactly if it encodes a sequence of scalar values. */
  lemma IsUtf8Exact(s: Bytes)
    ensures IsUtf8(s) <==> exists text: seq<nat> :: (forall c :: c in text ==> IsScalar(c)) && EncodeText(text) == s
  {
    hide IsUtf8, EncodeText;
    if IsUtf8(s) {
      var text := DecodeText(s);
    }
    if text: seq<nat> :| (forall c :: c in text ==> IsScalar(c)) && EncodeText(text) == s {
      EncodedIsUtf8(text);
    }
  }
}
