/** WebSocket frames as the developer tool's client writes and reads them (section 5 of RFC 6455). */
module WebSocketCodec {
  import opened Common

  // ---------------------------------------------------------------- exclusive or

  /** Bitwise exclusive or of the low `n` bits. */
  function XorBits(a: nat, b: nat, n: nat): (r: nat)
    ensures r < Pow2(n)
  {
    if n == 0 then 0 else (if a % 2 == b % 2 then 0 else 1) + 2 * XorBits(a / 2, b / 2, n - 1)
  }

  lemma {:induction false} XorTwice(a: nat, b: nat, n: nat)
    requires a < Pow2(n)
    ensures XorBits(XorBits(a, b, n), b, n) == a
  {
    if n > 0 {
      XorTwice(a / 2, b / 2, n - 1);
      var once, high := XorBits(a, b, n), XorBits(a / 2, b / 2, n - 1);
      var bit := if a % 2 == b % 2 then 0 else 1;
      assert once == bit + 2 * high && once % 2 == bit && once / 2 == high;
      assert XorBits(once, b, n) == (if once % 2 == b % 2 then 0 else 1) + 2 * XorBits(once / 2, b / 2, n - 1);
    }
  }

  function Xor(a: Byte, b: Byte): Byte {
    assert Pow2(8) == 256 by { assert Pow2(4) == 16; }
    XorBits(a, b, 8)
  }

  type Mask = m: seq<Byte> | |m| == 4 witness [0, 0, 0, 0]

  /** Section 5.3: octet i is combined with octet i modulo 4 of the key. */
  function ApplyMask(payload: seq<Byte>, mask: Mask): (r: seq<Byte>)
    ensures |r| == |payload|
  {
    seq(|payload|, i requires 0 <= i < |payload| => Xor(payload[i], mask[i % 4]))
  }

  /** Masking is its own inverse. */
  lemma MaskTwice(payload: seq<Byte>, mask: Mask)
    ensures ApplyMask(ApplyMask(payload, mask), mask) == payload
  {
    var once := ApplyMask(payload, mask);
    forall i | 0 <= i < |payload|
      ensures ApplyMask(once, mask)[i] == payload[i]
    {
      assert Pow2(8) == 256 by { assert Pow2(4) == 16; }
      XorTwice(payload[i], mask[i % 4], 8);
    }
  }

  /** Bit `b` of a number, the lowest being bit 0. */
  predicate Bit(x: nat, b: nat) {
    if b == 0 then x % 2 == 1 else Bit(x / 2, b - 1)
  }

  lemma {:induction false} XorBit(x: nat, y: nat, n: nat, b: nat)
    requires b < n
    ensures Bit(XorBits(x, y, n), b) <==> Bit(x, b) != Bit(y, b)
  {
    var bit, high := if x % 2 == y % 2 then 0 else 1, XorBits(x / 2, y / 2, n - 1);
    assert XorBits(x, y, n) == bit + 2 * high;
    assert (bit + 2 * high) % 2 == bit && (bit + 2 * high) / 2 == high;
    if b > 0 {
      XorBit(x / 2, y / 2, n - 1, b - 1);
    }
  }

  /** Octet `i` of the one differs from octet `i` of the other in exactly the bits that are set in octet `i` modulo 4 of the key. */
  ghost predicate MaskedBy(masked: seq<Byte>, plain: seq<Byte>, mask: seq<Byte>)
    requires |mask| == 4
  {
    && |masked| == |plain|
    && forall i, b :: 0 <= i < |plain| && 0 <= b < 8 ==> ((Bit(masked[i], b) != Bit(plain[i], b)) <==> Bit(mask[i % 4], b))
  }

  lemma MaskIsBitwise(payload: seq<Byte>, mask: Mask)
    ensures MaskedBy(ApplyMask(payload, mask), payload, mask) && MaskedBy(payload, ApplyMask(payload, mask), mask)
  {
    var masked := ApplyMask(payload, mask);
    forall i, b | 0 <= i < |payload| && 0 <= b < 8
      ensures (Bit(masked[i], b) != Bit(payload[i], b)) <==> Bit(mask[i % 4], b)
    {
      XorBit(payload[i], mask[i % 4], 8, b);
    }
    hide Bit, ApplyMask;
  }

  // ---------------------------------------------------------------- network byte order

  function Pow256(w: nat): (p: nat)
    ensures p >= 1
  {
    if w == 0 then 1 else 256 * Pow256(w - 1)
  }

  function BigEndian(n: nat, w: nat): (bs: seq<Byte>)
    ensures |bs| == w
  {
    if w == 0 then [] else BigEndian(n / 256, w - 1) + [n % 256]
  }

  function FromBigEndian(bs: seq<Byte>): nat {
    if bs == [] then 0 else 256 * FromBigEndian(bs[..|bs| - 1]) + bs[|bs| - 1]
  }

  lemma {:induction false} BigEndianRoundTrip(n: nat, w: nat)
    requires n < Pow256(w)
    ensures FromBigEndian(BigEndian(n, w)) == n
  {
    if w > 0 {
      BigEndianRoundTrip(n / 256, w - 1);
      assert BigEndian(n, w)[..w - 1] == BigEndian(n / 256, w - 1);
    }
  }

  // ---------------------------------------------------------------- frames on the wire

  datatype Frame = Frame(fin: bool, opcode: nat, payload: seq<Byte>)

  /** The three ways of writing a length (section 5.2): in seven bits, in two octets, in eight octets. */
  datatype Form = Short | Medium | Long

  predicate Fits(form: Form, n: nat) {
    match form
    case Short => n < 126
    case Medium => n < Pow256(2)
    case Long => n < Pow256(8)
  }

  function ShortestForm(n: nat): Form {
    if n < 126 then Short else if n < Pow256(2) then Medium else Long
  }

  function LengthField(form: Form, maskBit: nat, n: nat): (bs: seq<Byte>)
    requires Fits(form, n) && (maskBit == 0 || maskBit == 128)
  {
    match form
    case Short => [maskBit + n]
    case Medium => [maskBit + 126] + BigEndian(n, 2)
    case Long => [maskBit + 127] + BigEndian(n, 8)
  }

  predicate Sendable(form: Form, f: Frame) {
    f.opcode < 16 && Fits(form, |f.payload|)
  }

  function Header(form: Form, f: Frame, mask: Option<Mask>): seq<Byte>
    requires Sendable(form, f)
  {
    [(if f.fin then 128 else 0) + f.opcode] + LengthField(form, if mask.Some? then 128 else 0, |f.payload|)
  }

  function Body(f: Frame, mask: Option<Mask>): seq<Byte> {
    if mask.Some? then mask.value + ApplyMask(f.payload, mask.value) else f.payload
  }

  /** A frame with any length form that holds its length, masked or not. */
  function Encode(form: Form, f: Frame, mask: Option<Mask>): seq<Byte>
    requires Sendable(form, f)
  {
    Header(form, f, mask) + Body(f, mask)
  }

  /** Reads one frame and returns what follows it; None when the stream ends inside the frame. */
  function Decode(s: seq<Byte>): Option<(Frame, seq<Byte>)> {
    if |s| < 2 then None
    else
      var short := s[1] % 128;
      var ext := if short == 126 then 2 else if short == 127 then 8 else 0;
      if |s| < 2 + ext then None
      else
        var length := if ext == 0 then short else FromBigEndian(s[2..2 + ext]);
        DecodeBody(s[0] >= 128, s[0] % 16, s[1] >= 128, length, s[2 + ext..])
  }

  function DecodeBody(fin: bool, opcode: nat, masked: bool, length: nat, s: seq<Byte>): Option<(Frame, seq<Byte>)> {
    if masked then
      if |s| < 4 + length then None
      else Some((Frame(fin, opcode, ApplyMask(s[4..4 + length], s[..4])), s[4 + length..]))
    else if |s| < length then None
    else Some((Frame(fin, opcode, s[..length]), s[length..]))
  }

  lemma DecodeBodyInverts(fin: bool, opcode: nat, f: Frame, mask: Option<Mask>, rest: seq<Byte>)
    ensures DecodeBody(fin, opcode, mask.Some?, |f.payload|, Body(f, mask) + rest) == Some((Frame(fin, opcode, f.payload), rest))
  {
    var s := Body(f, mask) + rest;
    if mask.Some? {
      var n := |f.payload|;
      assert s[..4] == mask.value && s[4..4 + n] == ApplyMask(f.payload, mask.value) && s[4 + n..] == rest;
      MaskTwice(f.payload, mask.value);
    } else {
      assert s[..|f.payload|] == f.payload && s[|f.payload|..] == rest;
    }
  }

  /** The first two octets and the extended length, read back from a frame's header. */
  lemma HeaderParts(form: Form, f: Frame, mask: Option<Mask>)
    requires Sendable(form, f)
    ensures var h := Header(form, f, mask);
      var ext := match form case Short => 0 case Medium => 2 case Long => 8;
      && |h| == 2 + ext
      && (h[0] >= 128 <==> f.fin) && h[0] % 16 == f.opcode
      && (h[1] >= 128 <==> mask.Some?)
      && h[1] % 128 == (match form case Short => |f.payload| case Medium => 126 case Long => 127)
      && (form != Short ==> FromBigEndian(h[2..]) == |f.payload|)
  {
    hide FromBigEndian, BigEndian;
    var h, n := Header(form, f, mask), |f.payload|;
    if form == Medium {
      assert h[2..] == BigEndian(n, 2);
      BigEndianRoundTrip(n, 2);
    } else if form == Long {
      assert h[2..] == BigEndian(n, 8);
      BigEndianRoundTrip(n, 8);
    }
  }

  /** A complete header determines the length, and the body is read from what follows it. */
  lemma DecodeHeader(h: seq<Byte>, tail: seq<Byte>, n: nat)
    requires |h| >= 2
    requires |h| == 2 + (if h[1] % 128 == 126 then 2 else if h[1] % 128 == 127 then 8 else 0)
    requires n == if |h| == 2 then h[1] % 128 else FromBigEndian(h[2..])
    ensures Decode(h + tail) == DecodeBody(h[0] >= 128, h[0] % 16, h[1] >= 128, n, tail)
  {
    hide DecodeBody, FromBigEndian;
    var s := h + tail;
    assert s[2..|h|] == h[2..] && s[|h|..] == tail;
  }

  /** Decoding inverts encoding for every opcode, mask, payload and length form, and leaves the rest of the stream. */
  lemma DecodeInvertsEncode(form: Form, f: Frame, mask: Option<Mask>, rest: seq<Byte>)
    requires Sendable(form, f)
    ensures Decode(Encode(form, f, mask) + rest) == Some((f, rest))
  {
    var h, tail := Header(form, f, mask), Body(f, mask) + rest;
    assert Encode(form, f, mask) + rest == h + tail;
    HeaderParts(form, f, mask);
    hide Header, Body, DecodeBody, FromBigEndian, Encode, Decode;
    DecodeHeader(h, tail, |f.payload|);
    DecodeBodyInverts(f.fin, f.opcode, f, mask, rest);
  }

  /** What the client sends: a final frame with a mask and the shortest length form. */
  function SendBytes(opcode: nat, payload: seq<Byte>, mask: Mask): seq<Byte>
    requires |payload| < Pow256(8)
  {
    Encode(ShortestForm(|payload|), Frame(true, opcode % 16, payload), Some(mask))
  }

  /** What the client sends decodes to what was asked for, and no other length form of the frame is shorter. */
  lemma SentFramesDecode(opcode: nat, payload: seq<Byte>, mask: Mask, rest: seq<Byte>, form: Form)
    requires |payload| < Pow256(8)
    ensures Decode(SendBytes(opcode, payload, mask) + rest) == Some((Frame(true, opcode % 16, payload), rest))
    ensures Fits(form, |payload|) ==> |SendBytes(opcode, payload, mask)| <= |Encode(form, Frame(true, opcode % 16, payload), Some(mask))|
  {
    DecodeInvertsEncode(ShortestForm(|payload|), Frame(true, opcode % 16, payload), Some(mask), rest);
  }

  /** The number that network byte order gives octets, from the most significant on. */
  function Horner(bs: seq<Byte>, from: nat): nat {
    if bs == [] then from else Horner(bs[1..], from * 256 + bs[0])
  }

  lemma {:induction false} HornerAppend(bs: seq<Byte>, b: Byte, from: nat)
    ensures Horner(bs + [b], from) == Horner(bs, from) * 256 + b
    decreases |bs|
  {
    if bs == [] {
      assert bs + [b] == [b] && [b][1..] == [];
    } else {
      assert (bs + [b])[0] == bs[0] && (bs + [b])[1..] == bs[1..] + [b];
      HornerAppend(bs[1..], b, from * 256 + bs[0]);
    }
  }

  lemma {:induction false} BigEndianIsHorner(n: nat, w: nat)
    requires n < Pow256(w)
    ensures Horner(BigEndian(n, w), 0) == n
  {
    if w > 0 {
      BigEndianIsHorner(n / 256, w - 1);
      HornerAppend(BigEndian(n / 256, w - 1), n % 256, 0);
    }
  }

  lemma {:induction false} FromBigEndianIsHorner(bs: seq<Byte>)
    ensures FromBigEndian(bs) == Horner(bs, 0)
    decreases |bs|
  {
    if bs != [] {
      var init := bs[..|bs| - 1];
      FromBigEndianIsHorner(init);
      HornerAppend(init, bs[|bs| - 1], 0);
      assert bs == init + [bs[|bs| - 1]];
    }
  }

  /** The header of a final masked frame: the opcode in four bits, then the length in the shortest of the three forms. */
  ghost predicate MaskedHeader(h: seq<Byte>, opcode: nat, n: nat) {
    && |h| == (if n < 126 then 2 else if n < 65536 then 4 else 10)
    && h[0] == 128 + opcode % 16
    && (if n < 126 then h[1] == 128 + n else if n < 65536 then h[1] == 254 else h[1] == 255)
    && (n >= 126 ==> Horner(h[2..], 0) == n)
  }

  lemma HeaderIsMasked(opcode: nat, payload: seq<Byte>, mask: Mask)
    requires |payload| < Pow256(8)
    ensures MaskedHeader(Header(ShortestForm(|payload|), Frame(true, opcode % 16, payload), Some(mask)), opcode, |payload|)
  {
    var n := |payload|;
    assert Pow256(2) == 65536;
    var h := Header(ShortestForm(n), Frame(true, opcode % 16, payload), Some(mask));
    if 126 <= n < 65536 {
      BigEndianIsHorner(n, 2);
      hide BigEndian, Horner;
      assert h[2..] == BigEndian(n, 2);
    } else if n >= 65536 {
      BigEndianIsHorner(n, 8);
      hide BigEndian, Horner;
      assert h[2..] == BigEndian(n, 8);
    }
  }

  /** What is on the wire: a header, the key, and the payload masked bit by bit. */
  ghost predicate OnWire(wire: seq<Byte>, opcode: nat, payload: seq<Byte>, mask: Mask) {
    var k := if |payload| < 126 then 2 else if |payload| < 65536 then 4 else 10;
    && |wire| == k + 4 + |payload|
    && MaskedHeader(wire[..k], opcode, |payload|) && wire[k..k + 4] == mask && MaskedBy(wire[k + 4..], payload, mask)
  }

  lemma SentOnWire(opcode: nat, payload: seq<Byte>, mask: Mask)
    requires |payload| < Pow256(8)
    ensures OnWire(SendBytes(opcode, payload, mask), opcode, payload, mask)
  {
    var h := Header(ShortestForm(|payload|), Frame(true, opcode % 16, payload), Some(mask));
    HeaderIsMasked(opcode, payload, mask);
    MaskIsBitwise(payload, mask);
    hide Header, ApplyMask, MaskedBy;
    var masked := ApplyMask(payload, mask);
    SentPieces(h, opcode, payload, mask);
    ThreePieces(h, mask, masked);
    hide SendBytes, Pow256, ShortestForm;
  }

  lemma ThreePieces(a: seq<Byte>, b: seq<Byte>, c: seq<Byte>)
    ensures var s := a + b + c; s[..|a|] == a && s[|a|..|a| + |b|] == b && s[|a| + |b|..] == c
  {
  }

  /** Where the octets after the length begin, what the length is, and where the payload begins. */
  function LengthEnd(s: seq<Byte>): nat
    requires |s| >= 2
  {
    var seven := s[1] % 128;
    if seven == 126 then 4 else if seven == 127 then 10 else 2
  }

  function PayloadLength(s: seq<Byte>): nat
    requires |s| >= 2 && |s| >= LengthEnd(s)
  {
    if LengthEnd(s) == 2 then s[1] % 128 else Horner(s[2..LengthEnd(s)], 0)
  }

  function PayloadStart(s: seq<Byte>): nat
    requires |s| >= 2
  {
    LengthEnd(s) + if s[1] >= 128 then 4 else 0
  }

  /** The stream begins with a whole frame. */
  predicate HoldsFrame(s: seq<Byte>) {
    |s| >= 2 && |s| >= LengthEnd(s) && |s| >= PayloadStart(s) + PayloadLength(s)
  }

  /** The frame's bits, and its payload with the key's bits taken off. */
  ghost predicate ReadOff(s: seq<Byte>, f: Frame, rest: seq<Byte>)
    requires HoldsFrame(s)
  {
    var start, n := PayloadStart(s), PayloadLength(s);
    && (f.fin <==> s[0] >= 128) && f.opcode == s[0] % 16
    && rest == s[start + n..]
    && if s[1] >= 128 then MaskedBy(s[start..start + n], f.payload, s[start - 4..start]) else f.payload == s[start..start + n]
  }

  lemma BodyReads(fin: bool, opcode: nat, masked: bool, n: nat, s: seq<Byte>)
    ensures var d, k := DecodeBody(fin, opcode, masked, n, s), if masked then 4 else 0;
      && (d.Some? <==> |s| >= k + n)
      && (d.Some? ==>
            && d.value.0.fin == fin && d.value.0.opcode == opcode && d.value.1 == s[k + n..]
            && if masked then MaskedBy(s[4..4 + n], d.value.0.payload, s[..4]) else d.value.0.payload == s[..n])
  {
    if masked && |s| >= 4 + n {
      MaskIsBitwise(s[4..4 + n], s[..4]);
    }
    hide ApplyMask, MaskedBy;
  }

  /** Decoding succeeds exactly on streams that begin with a whole frame, and reads off its bits. */
  lemma DecodeReads(s: seq<Byte>)
    ensures Decode(s).Some? <==> HoldsFrame(s)
    ensures Decode(s).Some? ==> ReadOff(s, Decode(s).value.0, Decode(s).value.1)
  {
    if |s| >= 2 && |s| >= LengthEnd(s) {
      var e := LengthEnd(s);
      var n, tail := PayloadLength(s), s[e..];
      FromBigEndianIsHorner(s[2..e]);
      BodyReads(s[0] >= 128, s[0] % 16, s[1] >= 128, n, tail);
      hide DecodeBody, FromBigEndian, Horner, MaskedBy;
      assert Decode(s) == DecodeBody(s[0] >= 128, s[0] % 16, s[1] >= 128, n, tail);
      if HoldsFrame(s) {
        SlicesOfTail(s, e, n, s[1] >= 128);
      }
    }
  }

  lemma SlicesOfTail(s: seq<Byte>, e: nat, n: nat, masked: bool)
    requires |s| >= e + (if masked then 4 else 0) + n
    ensures var tail, k := s[e..], if masked then 4 else 0;
      && tail[k..k + n] == s[e + k..e + k + n] && tail[k + n..] == s[e + k + n..] && tail[..k] == s[e..e + k]
  {
  }

  lemma EightOctets()
    ensures Pow256(8) == 18_446_744_073_709_551_616
  {
    assert Pow256(2) == 65536;
    assert Pow256(4) == 65536 * Pow256(2);
    assert Pow256(6) == 65536 * Pow256(4);
    assert Pow256(8) == 65536 * Pow256(6);
  }

  /** The bytes handed to the socket; a length that eight octets cannot hold is refused. */
  method BuildFrame(opcode: nat, payload: seq<Byte>, mask: Mask) returns (wire: Option<seq<Byte>>)
    ensures wire == if |payload| < Pow256(8) then Some(SendBytes(opcode, payload, mask)) else None
    ensures wire.Some? <==> |payload| < 18_446_744_073_709_551_616
    ensures wire.Some? ==> OnWire(wire.value, opcode, payload, mask)
  {
    EightOctets();
    if |payload| < Pow256(8) {
      SentOnWire(opcode, payload, mask);
    }
    hide OnWire, Encode, Header, ApplyMask, Pow256;
    var header := BuildHeader(opcode, payload, mask);
    if header.None? {
      return None;
    }
    var wired := header.value + mask + ApplyMask(payload, mask);
    SentPieces(header.value, opcode, payload, mask);
    return Some(wired);
  }

  lemma SentPieces(h: seq<Byte>, opcode: nat, payload: seq<Byte>, mask: Mask)
    requires |payload| < Pow256(8) && h == Header(ShortestForm(|payload|), Frame(true, opcode % 16, payload), Some(mask))
    ensures SendBytes(opcode, payload, mask) == h + mask + ApplyMask(payload, mask)
  {
    hide Header, ApplyMask, Pow256, ShortestForm;
    Associative(h, mask, ApplyMask(payload, mask));
  }

  /** The header up to the key. */
  method BuildHeader(opcode: nat, payload: seq<Byte>, ghost mask: Mask) returns (header: Option<seq<Byte>>)
    ensures header.Some? <==> |payload| < Pow256(8)
    ensures header.Some? ==> header.value == Header(ShortestForm(|payload|), Frame(true, opcode % 16, payload), Some(mask))
  {
    EightOctets();
    assert Pow256(2) == 65536;
    var first := 128 + opcode % 16;
    var length := |payload|;
    if length < 126 {
      return Some([first] + [128 + length]);
    } else if length < Pow256(2) {
      return Some([first] + ([128 + 126] + BigEndian(length, 2)));
    } else if length < Pow256(8) {
      return Some([first] + ([128 + 127] + BigEndian(length, 8)));
    }
    return None;
  }
}
