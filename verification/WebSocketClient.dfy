/** Reading frames and text messages from a socket that delivers its bytes in arbitrary pieces. */
module WebSocketClient {
  import opened Common
  import opened Utf8
  import opened WebSocketCodec

  // ---------------------------------------------------------------- the meaning of a stream

  /** A text is given by the UTF-8 octets that it decodes from. */
  datatype Outcome = Text(bytes: seq<Byte>) | NotText | ClosedByPeer | EndOfStream

  /** What the complete data of a message comes to: bytes that are not UTF-8 are an error. */
  function Finished(data: seq<Byte>): Outcome {
    if IsUtf8(data) then Text(data) else NotText
  }

  /** The outcome of reading one text message, the pings answered on the way, and what is left of the stream. */
  datatype Reading = Reading(outcome: Outcome, pongs: seq<seq<Byte>>, rest: seq<Byte>)

  const CONTINUATION := 0
  const TEXT := 1
  const CLOSE := 8
  const PING := 9
  const PONG := 10

  function Receive(stream: seq<Byte>, parts: seq<Byte>, sawText: bool, pongs: seq<seq<Byte>>): Reading
    decreases |stream|
  {
    match Decode(stream)
    case None => Reading(EndOfStream, pongs, stream)
    case Some((f, rest)) =>
      DecodeConsumes(stream);
      if f.opcode == TEXT then
        if f.fin then Reading(Finished(f.payload), pongs, rest) else Receive(rest, f.payload, true, pongs)
      else if f.opcode == CONTINUATION && sawText then
        if f.fin then Reading(Finished(parts + f.payload), pongs, rest) else Receive(rest, parts + f.payload, true, pongs)
      else if f.opcode == CLOSE then Reading(ClosedByPeer, pongs, rest)
      else if f.opcode == PING then Receive(rest, parts, sawText, pongs + [f.payload])
      else Receive(rest, parts, sawText, pongs)
  }

  lemma DecodeConsumes(stream: seq<Byte>)
    requires Decode(stream).Some?
    ensures |Decode(stream).value.1| < |stream|
  {
  }

  // ---------------------------------------------------------------- fragmented messages

  /** A frame together with how the peer wrote it. */
  datatype Wired = Wired(frame: Frame, form: Form, mask: Option<Mask>)

  predicate Writable(ws: seq<Wired>) {
    forall i :: 0 <= i < |ws| ==> Sendable(ws[i].form, ws[i].frame)
  }

  function Wire(ws: seq<Wired>): seq<Byte>
    requires Writable(ws)
  {
    if ws == [] then [] else Encode(ws[0].form, ws[0].frame, ws[0].mask) + Wire(ws[1..])
  }

  /** Section 5.4: continuation frames, the last one final, with pings and pongs in between. */
  predicate Continuation(ws: seq<Wired>) {
    && ws != []
    && var f := ws[0].frame;
       if f.opcode == CONTINUATION && f.fin then |ws| == 1
       else f.opcode in {CONTINUATION, PING, PONG} && Continuation(ws[1..])
  }

  function DataOf(f: Frame): seq<Byte> {
    if f.opcode == TEXT || f.opcode == CONTINUATION then f.payload else []
  }

  function PingOf(f: Frame): seq<seq<Byte>> {
    if f.opcode == PING then [f.payload] else []
  }

  function Data(ws: seq<Wired>): seq<Byte> {
    if ws == [] then [] else DataOf(ws[0].frame) + Data(ws[1..])
  }

  function Pings(ws: seq<Wired>): seq<seq<Byte>> {
    if ws == [] then [] else PingOf(ws[0].frame) + Pings(ws[1..])
  }

  /** One turn of the reading loop on a control or continuation frame. */
  function Turn(f: Frame, rest: seq<Byte>, parts: seq<Byte>, pongs: seq<seq<Byte>>): Reading {
    if f.opcode == CONTINUATION && f.fin then Reading(Finished(parts + DataOf(f)), pongs + PingOf(f), rest)
    else Receive(rest, parts + DataOf(f), true, pongs + PingOf(f))
  }

  lemma ReceiveTurn(w: Wired, rest: seq<Byte>, parts: seq<Byte>, pongs: seq<seq<Byte>>)
    requires Sendable(w.form, w.frame) && w.frame.opcode in {CONTINUATION, PING, PONG}
    ensures Receive(Encode(w.form, w.frame, w.mask) + rest, parts, true, pongs) == Turn(w.frame, rest, parts, pongs)
  {
    DecodeInvertsEncode(w.form, w.frame, w.mask, rest);
    hide Encode, Decode;
    assert parts + [] == parts && pongs + [] == pongs;
  }

  lemma {:induction false} WireCons(ws: seq<Wired>, rest: seq<Byte>)
    requires Writable(ws) && ws != []
    ensures Wire(ws) + rest == Encode(ws[0].form, ws[0].frame, ws[0].mask) + (Wire(ws[1..]) + rest)
  {
  }

  lemma {:induction false} Unrolled(ws: seq<Wired>, parts: seq<Byte>, pongs: seq<seq<Byte>>)
    requires ws != []
    ensures parts + Data(ws) == parts + DataOf(ws[0].frame) + Data(ws[1..])
    ensures pongs + Pings(ws) == pongs + PingOf(ws[0].frame) + Pings(ws[1..])
    ensures |ws| == 1 ==> parts + Data(ws) == parts + DataOf(ws[0].frame) && pongs + Pings(ws) == pongs + PingOf(ws[0].frame)
  {
    Associative(parts, DataOf(ws[0].frame), Data(ws[1..]));
    Associative(pongs, PingOf(ws[0].frame), Pings(ws[1..]));
  }

  /** The rest of a fragmented message: its data is appended in order and every ping is answered in order. */
  lemma {:induction false} ContinuationReassembles(ws: seq<Wired>, rest: seq<Byte>, parts: seq<Byte>, pongs: seq<seq<Byte>>)
    requires Writable(ws) && Continuation(ws)
    ensures Receive(Wire(ws) + rest, parts, true, pongs) == Reading(Finished(parts + Data(ws)), pongs + Pings(ws), rest)
    decreases |ws|
  {
    hide Encode, Decode, Receive, Sendable, Finished;
    var w, tail := ws[0], ws[1..];
    ReceiveTurn(w, Wire(tail) + rest, parts, pongs);
    WireCons(ws, rest);
    Unrolled(ws, parts, pongs);
    hide Wire, Data, Pings, Writable;
    if |ws| > 1 {
      ContinuationReassembles(tail, rest, parts + DataOf(w.frame), pongs + PingOf(w.frame));
    }
  }

  /** A legal text message with control frames before and inside it: one final text frame, or fragments. */
  predicate Message(ws: seq<Wired>) {
    && ws != []
    && var f := ws[0].frame;
       if f.opcode == TEXT && f.fin then |ws| == 1
       else if f.opcode == TEXT then Continuation(ws[1..])
       else f.opcode in {PING, PONG} && Message(ws[1..])
  }

  lemma OpeningTurn(w: Wired, rest: seq<Byte>, pongs: seq<seq<Byte>>)
    requires Sendable(w.form, w.frame) && w.frame.opcode in {TEXT, PING, PONG}
    ensures Receive(Encode(w.form, w.frame, w.mask) + rest, [], false, pongs)
         == if w.frame.opcode == TEXT && w.frame.fin then Reading(Finished(DataOf(w.frame)), pongs + PingOf(w.frame), rest)
            else Receive(rest, DataOf(w.frame), w.frame.opcode == TEXT, pongs + PingOf(w.frame))
  {
    DecodeInvertsEncode(w.form, w.frame, w.mask, rest);
    hide Encode, Decode;
    assert pongs + [] == pongs;
  }

  /** A text message is read as the concatenation of its fragments, with one pong per ping in order. */
  lemma {:induction false} MessageReassembles(ws: seq<Wired>, rest: seq<Byte>, pongs: seq<seq<Byte>>)
    requires Writable(ws) && Message(ws)
    ensures Receive(Wire(ws) + rest, [], false, pongs) == Reading(Finished(Data(ws)), pongs + Pings(ws), rest)
    decreases |ws|
  {
    hide Encode, Decode, Receive, Sendable, Finished;
    var w, tail := ws[0], ws[1..];
    OpeningTurn(w, Wire(tail) + rest, pongs);
    WireCons(ws, rest);
    Unrolled(ws, [], pongs);
    assert forall s: seq<Byte> {:trigger [] + s} :: [] + s == s;
    hide Wire, Data, Pings, Writable;
    if w.frame.opcode != TEXT {
      MessageReassembles(tail, rest, pongs + PingOf(w.frame));
    } else if !w.frame.fin {
      ContinuationReassembles(tail, rest, DataOf(w.frame), pongs + PingOf(w.frame));
    }
  }

  // ---------------------------------------------------------------- messages that do not finish

  /** Any frames of which none completes a message or closes the connection. */
  predicate Unfinished(ws: seq<Wired>, sawText: bool) {
    ws == [] ||
      var f := ws[0].frame;
      && f.opcode != 8 && !(f.fin && (f.opcode == 1 || (f.opcode == 0 && sawText)))
      && Unfinished(ws[1..], sawText || f.opcode == 1)
  }

  /** What is collected so far: a text frame starts afresh, a continuation adds to it, all else is skipped. */
  function Collected(parts: seq<Byte>, sawText: bool, f: Frame): seq<Byte> {
    if f.opcode == 1 then f.payload else if f.opcode == 0 && sawText then parts + f.payload else parts
  }

  function CollectedAll(parts: seq<Byte>, sawText: bool, ws: seq<Wired>): (seq<Byte>, bool)
    decreases |ws|
  {
    if ws == [] then (parts, sawText)
    else CollectedAll(Collected(parts, sawText, ws[0].frame), sawText || ws[0].frame.opcode == 1, ws[1..])
  }

  lemma UnfinishedTurn(w: Wired, rest: seq<Byte>, parts: seq<Byte>, sawText: bool, pongs: seq<seq<Byte>>)
    requires Sendable(w.form, w.frame) && Unfinished([w], sawText)
    ensures Receive(Encode(w.form, w.frame, w.mask) + rest, parts, sawText, pongs)
         == Receive(rest, Collected(parts, sawText, w.frame), sawText || w.frame.opcode == 1, pongs + PingOf(w.frame))
  {
    DecodeInvertsEncode(w.form, w.frame, w.mask, rest);
    assert [w][0] == w;
    hide Encode, Decode;
    assert pongs + [] == pongs;
  }

  lemma {:induction false} UnfinishedIsRead(ws: seq<Wired>, rest: seq<Byte>, parts: seq<Byte>, sawText: bool, pongs: seq<seq<Byte>>)
    requires Writable(ws) && Unfinished(ws, sawText)
    ensures var (parts', sawText') := CollectedAll(parts, sawText, ws);
      Receive(Wire(ws) + rest, parts, sawText, pongs) == Receive(rest, parts', sawText', pongs + Pings(ws))
    decreases |ws|
  {
    hide Encode, Decode, Receive;
    if ws == [] {
      assert Wire(ws) + rest == rest && pongs + [] == pongs;
    } else {
      var w, tail := ws[0], ws[1..];
      assert Unfinished([w], sawText) by { assert [w][1..] == []; }
      UnfinishedTurn(w, Wire(tail) + rest, parts, sawText, pongs);
      WireCons(ws, rest);
      Unrolled(ws, [], pongs);
      hide Wire, Pings;
      UnfinishedIsRead(tail, rest, Collected(parts, sawText, w.frame), sawText || w.frame.opcode == 1, pongs + PingOf(w.frame));
    }
  }

  /** A close frame ends the reading wherever it comes, with the pings before it answered. */
  lemma {:induction false} CloseEndsReading(ws: seq<Wired>, close: Wired, rest: seq<Byte>)
    requires Writable(ws) && Unfinished(ws, false) && Sendable(close.form, close.frame) && close.frame.opcode == 8
    ensures Receive(Wire(ws) + (Encode(close.form, close.frame, close.mask) + rest), [], false, []) == Reading(ClosedByPeer, Pings(ws), rest)
  {
    UnfinishedIsRead(ws, Encode(close.form, close.frame, close.mask) + rest, [], false, []);
    DecodeInvertsEncode(close.form, close.frame, close.mask, rest);
    assert [] + Pings(ws) == Pings(ws);
    hide Encode, Decode;
  }

  /** A stream that ends inside a frame, or between frames, is an error, with the pings before it answered. */
  lemma {:induction false} StreamEndsReading(ws: seq<Wired>, rest: seq<Byte>)
    requires Writable(ws) && Unfinished(ws, false) && !HoldsFrame(rest)
    ensures Receive(Wire(ws) + rest, [], false, []) == Reading(EndOfStream, Pings(ws), rest)
  {
    UnfinishedIsRead(ws, rest, [], false, []);
    DecodeReads(rest);
    assert [] + Pings(ws) == Pings(ws);
    hide Decode;
  }

  /** The pings' payloads in order. */
  lemma {:induction false} PingsInOrder(ws: seq<Wired>, w: Wired)
    ensures Pings(ws + [w]) == Pings(ws) + if w.frame.opcode == 9 then [w.frame.payload] else []
    decreases |ws|
  {
    if ws == [] {
      assert ws + [w] == [w] && [w][1..] == [];
    } else {
      PingsInOrder(ws[1..], w);
      assert (ws + [w])[0] == ws[0] && (ws + [w])[1..] == ws[1..] + [w];
      Associative(PingOf(ws[0].frame), Pings(ws[1..]), PingOf(w.frame));
    }
  }

  /** Every ping is answered by one final pong with its payload. */
  lemma {:induction false} AnswersArePongs(pongs: seq<seq<Byte>>, i: nat)
    requires i < |pongs|
    ensures |Answers(pongs)| == |pongs| && Answers(pongs)[i] == Frame(true, 10, pongs[i])
  {
    if |pongs| > 1 {
      AnswersArePongs(pongs[1..], if i > 0 then i - 1 else 0);
    }
  }

  // ---------------------------------------------------------------- the client

  function Flatten(chunks: seq<seq<Byte>>): seq<Byte> {
    if chunks == [] then [] else chunks[0] + Flatten(chunks[1..])
  }

  class Client {
    /** Received pieces that have not been read yet; the peer closes after the last one. */
    var chunks: seq<seq<Byte>>
    /** Frames sent, without their masks. */
    var sent: seq<Frame>

    ghost predicate Valid()
      reads this
    {
      forall i :: 0 <= i < |chunks| ==> chunks[i] != []
    }

    ghost function Pending(): seq<Byte>
      reads this
    {
      Flatten(chunks)
    }

    constructor (chunks: seq<seq<Byte>>)
      requires forall i :: 0 <= i < |chunks| ==> chunks[i] != []
      ensures Valid() && this.chunks == chunks && sent == []
    {
      this.chunks, sent := chunks, [];
    }

    /** One socket read: at most `size` bytes, none only at the end of the stream. */
    method Recv(size: nat) returns (chunk: seq<Byte>)
      requires Valid() && size > 0
      modifies this`chunks
      ensures Valid() && chunk + Pending() == old(Pending())
      ensures |chunk| <= size && (chunk == [] <==> old(Pending()) == [])
    {
      if chunks == [] {
        return [];
      }
      var head := chunks[0];
      assert Flatten(chunks) == head + Flatten(chunks[1..]);
      if |head| <= size {
        chunks := chunks[1..];
        return head;
      }
      chunk := head[..size];
      chunks := [head[size..]] + chunks[1..];
      assert Flatten(chunks) == head[size..] + Flatten(old(chunks)[1..]);
      assert head == head[..size] + head[size..];
    }

    /** Exactly `size` bytes however they arrive, or nothing when the stream is shorter. */
    method RecvExact(size: nat) returns (data: Option<seq<Byte>>)
      requires Valid()
      modifies this`chunks
      ensures Valid()
      ensures data.Some? <==> size <= |old(Pending())|
      ensures data.Some? ==> data.value == old(Pending())[..size] && Pending() == old(Pending())[size..]
    {
      var got: seq<Byte> := [];
      while |got| < size
        invariant Valid() && |got| <= size && got + Pending() == old(Pending())
        decreases size - |got|
      {
        ghost var before := Pending();
        var chunk := Recv(size - |got|);
        if chunk == [] {
          return None;
        }
        assert got + before == (got + chunk) + Pending();
        got := got + chunk;
      }
      return Some(got);
    }

    /** Reads the frame that the stream holds next, independent of how it was cut into pieces. */
    method ReadFrame() returns (frame: Option<Frame>)
      requires Valid()
      modifies this`chunks
      ensures Valid()
      ensures frame.Some? <==> Decode(old(Pending())).Some?
      ensures frame.Some? ==> Decode(old(Pending())) == Some((frame.value, Pending()))
      ensures frame.Some? <==> HoldsFrame(old(Pending()))
      ensures frame.Some? ==> ReadOff(old(Pending()), frame.value, Pending())
    {
      ghost var s := Pending();
      DecodeReads(s);
      hide ReadOff, HoldsFrame;
      var head := RecvExact(2);
      if head.None? {
        return None;
      }
      var fin, opcode := head.value[0] >= 128, head.value[0] % 16;
      var length: nat, masked := head.value[1] % 128, head.value[1] >= 128;
      if length == 126 {
        var ext := RecvExact(2);
        if ext.None? {
          return None;
        }
        assert ext.value == s[2..4] && Pending() == s[4..];
        length := FromBigEndian(ext.value);
      } else if length == 127 {
        var ext := RecvExact(8);
        if ext.None? {
          return None;
        }
        assert ext.value == s[2..10] && Pending() == s[10..];
        length := FromBigEndian(ext.value);
      }
      assert Decode(s) == DecodeBody(fin, opcode, masked, length, Pending());
      frame := ReadBody(fin, opcode, masked, length);
    }

    method ReadBody(fin: bool, opcode: nat, masked: bool, length: nat) returns (frame: Option<Frame>)
      requires Valid()
      modifies this`chunks
      ensures Valid()
      ensures var d := DecodeBody(fin, opcode, masked, length, old(Pending()));
        && (frame.Some? <==> d.Some?) && (frame.Some? ==> d == Some((frame.value, Pending())))
    {
      ghost var s := Pending();
      if masked {
        var mask := RecvExact(4);
        if mask.None? {
          return None;
        }
        var payload := RecvExact(length);
        if payload.None? {
          return None;
        }
        assert payload.value == s[4..4 + length] && Pending() == s[4 + length..];
        return Some(Frame(fin, opcode, ApplyMask(payload.value, mask.value)));
      }
      var payload := RecvExact(length);
      if payload.None? {
        return None;
      }
      return Some(Frame(fin, opcode, payload.value));
    }

    /** Reads one text message and answers every ping on the way. */
    method ReceiveText() returns (outcome: Outcome)
      requires Valid()
      modifies this
      ensures Valid()
      ensures var r := Receive(old(Pending()), [], false, []);
        && outcome == r.outcome && sent == old(sent) + Answers(r.pongs)
        && (outcome != EndOfStream ==> Pending() == r.rest)
    {
      var parts, sawText := [], false;
      ghost var pongs: seq<seq<Byte>> := [];
      assert old(sent) + Answers([]) == old(sent);
      while true
        invariant Valid() && sent == old(sent) + Answers(pongs)
        invariant Receive(Pending(), parts, sawText, pongs) == Receive(old(Pending()), [], false, [])
        decreases |Pending()|
      {
        ghost var before := Pending();
        var next := ReadFrame();
        if next.None? {
          return EndOfStream;
        }
        DecodeConsumes(before);
        var frame := next.value;
        hide Decode, IsUtf8;
        if frame.opcode == TEXT {
          if frame.fin {
            return Finished(frame.payload);
          }
          parts, sawText := frame.payload, true;
        } else if frame.opcode == CONTINUATION && sawText {
          if frame.fin {
            return Finished(parts + frame.payload);
          }
          parts := parts + frame.payload;
        } else if frame.opcode == CLOSE {
          return ClosedByPeer;
        } else if frame.opcode == PING {
          AnswersAppend(pongs, frame.payload);
          sent := sent + [Frame(true, PONG, frame.payload)];
          pongs := pongs + [frame.payload];
        }
      }
    }
  }

  function Answers(pongs: seq<seq<Byte>>): seq<Frame> {
    if pongs == [] then [] else [Frame(true, PONG, pongs[0])] + Answers(pongs[1..])
  }

  lemma {:induction false} AnswersAppend(pongs: seq<seq<Byte>>, payload: seq<Byte>)
    ensures Answers(pongs + [payload]) == Answers(pongs) + [Frame(true, PONG, payload)]
  {
    if pongs == [] {
      assert pongs + [payload] == [payload] && [payload][1..] == [];
    } else {
      AnswersAppend(pongs[1..], payload);
      assert (pongs + [payload])[1..] == pongs[1..] + [payload];
    }
  }
}
