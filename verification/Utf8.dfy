/** Which octets are UTF-8 text (section 4 of RFC 3629). */
module Utf8 {
  import opened Common

  predicate Tail(b: Byte) {
    0x80 <= b <= 0xBF
  }

  /** The octets of one character beyond U+007F: no overlong form, no surrogate, nothing beyond U+10FFFF. */
  predicate Multibyte(s: seq<Byte>) {
    match |s|
    case 2 => 0xC2 <= s[0] <= 0xDF && Tail(s[1])
    case 3 =>
      && Tail(s[1]) && Tail(s[2])
      && (s[0] == 0xE0 ==> s[1] >= 0xA0) && (s[0] == 0xED ==> s[1] <= 0x9F) && 0xE0 <= s[0] <= 0xEF
    case 4 =>
      && Tail(s[1]) && Tail(s[2]) && Tail(s[3])
      && (s[0] == 0xF0 ==> s[1] >= 0x90) && (s[0] == 0xF4 ==> s[1] <= 0x8F) && 0xF0 <= s[0] <= 0xF4
    case _ => false
  }

  predicate IsUtf8(s: seq<Byte>) {
    || s == []
    || (s[0] < 0x80 && IsUtf8(s[1..]))
    || (|s| >= 2 && Multibyte(s[..2]) && IsUtf8(s[2..]))
    || (|s| >= 3 && Multibyte(s[..3]) && IsUtf8(s[3..]))
    || (|s| >= 4 && Multibyte(s[..4]) && IsUtf8(s[4..]))
  }

  // ---------------------------------------------------------------- characters

  /** A Unicode scalar value. */
  predicate Scalar(c: nat) {
    c < 0xD800 || 0xE000 <= c <= 0x10FFFF
  }

  /** The octets of one character. */
  function EncodeOne(c: nat): seq<Byte>
    requires Scalar(c)
  {
    if c < 0x80 then [c]
    else if c < 0x800 then [0xC0 + c / 64, 0x80 + c % 64]
    else if c < 0x10000 then [0xE0 + c / 64 / 64, 0x80 + c / 64 % 64, 0x80 + c % 64]
    else [0xF0 + c / 64 / 64 / 64, 0x80 + c / 64 / 64 % 64, 0x80 + c / 64 % 64, 0x80 + c % 64]
  }

  type Characters = t: seq<nat> | forall i :: 0 <= i < |t| ==> Scalar(t[i])

  function EncodeText(t: Characters): seq<Byte> {
    if t == [] then [] else EncodeOne(t[0]) + EncodeText(t[1..])
  }

  lemma EncodedOne(c: nat)
    requires Scalar(c)
    ensures c < 0x80 ==> EncodeOne(c) == [c]
    ensures c >= 0x80 ==> Multibyte(EncodeOne(c))
  {
  }

  /** One more tail octet after the bits `c`. */
  function More(c: nat, b: Byte): nat
    requires Tail(b)
  {
    c * 64 + (b - 0x80)
  }

  lemma MoreSplits(c: nat, b: Byte)
    requires Tail(b)
    ensures More(c, b) / 64 == c && More(c, b) % 64 == b - 0x80
  {
  }

  /** The character of one multibyte sequence. */
  function DecodeOne(s: seq<Byte>): (c: nat)
    requires Multibyte(s)
  {
    if |s| == 2 then More(s[0] - 0xC0, s[1])
    else if |s| == 3 then More(More(s[0] - 0xE0, s[1]), s[2])
    else More(More(More(s[0] - 0xF0, s[1]), s[2]), s[3])
  }

  lemma DecodedOne(s: seq<Byte>)
    requires Multibyte(s)
    ensures Scalar(DecodeOne(s)) && EncodeOne(DecodeOne(s)) == s
  {
    if |s| == 2 {
      MoreSplits(s[0] - 0xC0, s[1]);
    } else if |s| == 3 {
      MoreSplits(s[0] - 0xE0, s[1]);
      MoreSplits(More(s[0] - 0xE0, s[1]), s[2]);
    } else {
      MoreSplits(s[0] - 0xF0, s[1]);
      MoreSplits(More(s[0] - 0xF0, s[1]), s[2]);
      MoreSplits(More(More(s[0] - 0xF0, s[1]), s[2]), s[3]);
    }
  }

  lemma {:induction false} EncodedIsUtf8(t: Characters)
    ensures IsUtf8(EncodeText(t))
  {
    if t != [] {
      EncodedIsUtf8(t[1..]);
      EncodedOne(t[0]);
      var one, rest := EncodeOne(t[0]), EncodeText(t[1..]);
      assert (one + rest)[..|one|] == one && (one + rest)[|one|..] == rest;
      hide Multibyte;
    }
  }

  /** The accepted octets are exactly the encodings of texts. */
  lemma {:induction false} Utf8IsEncoded(s: seq<Byte>) returns (t: Characters)
    requires IsUtf8(s)
    ensures EncodeText(t) == s
  {
    if s == [] {
      return [];
    }
    hide Multibyte;
    var n := if s[0] < 0x80 && IsUtf8(s[1..]) then 1 else if |s| >= 2 && Multibyte(s[..2]) && IsUtf8(s[2..]) then 2
      else if |s| >= 3 && Multibyte(s[..3]) && IsUtf8(s[3..]) then 3 else 4;
    var rest := Utf8IsEncoded(s[n..]);
    var c := if n == 1 then s[0] else DecodeOne(s[..n]);
    if n > 1 {
      DecodedOne(s[..n]);
    }
    t := [c] + rest;
    assert t[1..] == rest && s == s[..n] + s[n..];
  }
}
