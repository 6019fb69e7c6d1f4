/** HDLC-like framing (section 4.2 of RFC 1662): the encoder, and the decoder of crates/interface/src/hdlc.rs. */
module Hdlc {
  import opened Bytes
  import opened ByteMachines

  const FLAG: byte := 0x7E
  const ESC: byte := 0x7D

  /** Exclusive or with the escape mask 0x20. */
  function Mask(b: byte): byte { if b / 32 % 2 == 0 then b + 32 else b - 32 }

  function Special(b: byte): bool { b == FLAG || b == ESC }

  function EscapeByte(b: byte): bytes { if Special(b) then [ESC, Mask(b)] else [b] }

  function Escape(data: bytes): bytes { if data == [] then [] else EscapeByte(data[0]) + Escape(data[1..]) }

  function Encode(data: bytes): bytes { [FLAG] + Escape(data) + [FLAG] }

  function Stream(payloads: seq<bytes>): bytes {
    if payloads == [] then [] else Encode(payloads[0]) + Stream(payloads[1..])
  }

  function NonEmpty(frames: seq<bytes>): seq<bytes> {
    if frames == [] then [] else (if frames[0] == [] then [] else [frames[0]]) + NonEmpty(frames[1..])
  }

  lemma {:induction false} EscapeSnoc(data: bytes, b: byte)
    ensures Escape(data + [b]) == Escape(data) + EscapeByte(b)
  {
    if data == [] {
      assert data + [b] == [b];
      assert Escape([]) == [];
    } else {
      EscapeSnoc(data[1..], b);
      assert (data + [b])[1..] == data[1..] + [b];
      assert EscapeByte(data[0]) + (Escape(data[1..]) + EscapeByte(b)) ==
        EscapeByte(data[0]) + Escape(data[1..]) + EscapeByte(b);
    }
  }

  method EncodeFrame(data: bytes) returns (frame: bytes)
    ensures frame == Encode(data)
  {
    var out := [];
    for i := 0 to |data|
      invariant out == Escape(data[..i])
    {
      EscapeSnoc(data[..i], data[i]);
      assert data[..i + 1] == data[..i] + [data[i]];
      if data[i] == FLAG || data[i] == ESC {
        out := out + [ESC, Mask(data[i])];
      } else {
        out := out + [data[i]];
      }
    }
    assert data[..|data|] == data;
    frame := [FLAG] + out + [FLAG];
  }

  /** Masking is an involution, and no masked special octet is special. */
  lemma MaskLaws(b: byte)
    ensures Mask(Mask(b)) == b
    ensures Special(b) ==> !Special(Mask(b))
  {
  }

  /** Masking changes bit 5 and no other. */
  lemma MaskIsXor(b: byte)
    ensures Mask(b) % 32 == b % 32 && Mask(b) / 64 == b / 64 && Mask(b) / 32 % 2 != b / 32 % 2
  {
  }

  lemma {:induction false} EscapeConcat(a: bytes, b: bytes)
    ensures Escape(a + b) == Escape(a) + Escape(b)
    decreases |b|
  {
    if b == [] {
      assert a + b == a && Escape(a) + Escape(b) == Escape(a);
    } else {
      var init, last := b[..|b| - 1], b[|b| - 1];
      assert b == init + [last] && a + b == (a + init) + [last];
      EscapeConcat(a, init);
      EscapeSnoc(a + init, last);
      EscapeSnoc(init, last);
    }
  }

  /** The octets of a frame: 0x7E at both ends and nowhere between, 0x7E and 0x7D of the payload as 0x7D 0x5E and
      0x7D 0x5D, and every other octet as itself. */
  lemma EncodeExactly(a: bytes, b: byte, c: bytes)
    ensures var e, inner := Encode(a + [b] + c), Escape(a) + Escape([b]) + Escape(c);
      e == [0x7E] + inner + [0x7E] && 0x7E !in inner
    ensures Escape([]) == [] && Encode([]) == [0x7E, 0x7E]
    ensures Escape([b]) == if b == 0x7E then [0x7D, 0x5E] else if b == 0x7D then [0x7D, 0x5D] else [b]
  {
    EscapeConcat(a, [b]);
    EscapeConcat(a + [b], c);
    EscapeHasNoFlag(a + [b] + c);
    assert Escape([b]) == EscapeByte(b) + Escape([b][1..]) == EscapeByte(b);
  }

  lemma {:induction false} EscapeHasNoFlag(data: bytes)
    ensures FLAG !in Escape(data)
  {
    if data != [] {
      EscapeHasNoFlag(data[1..]);
      MaskLaws(data[0]);
    }
  }

  // ---------- The decoder of hdlc.rs ----------

  datatype Decoder = Decoder(inFrame: bool, escape: bool, buffer: bytes)

  const IDLE := Decoder(false, false, [])

  function Feed(d: Decoder, b: byte): (Decoder, seq<bytes>) {
    if !d.inFrame then (if b == FLAG then Decoder(true, false, []) else d, [])
    else if d.escape then (Decoder(true, false, d.buffer + [Mask(b)]), [])
    else if b == ESC then (d.(escape := true), [])
    else if b == FLAG then (Decoder(true, false, []), [d.buffer])
    else (d.(buffer := d.buffer + [b]), [])
  }

  class HdlcDecoder {
    var inFrame: bool
    var escape: bool
    var dataBuffer: bytes

    ghost function View(): Decoder
      reads this
    {
      Decoder(inFrame, escape, dataBuffer)
    }

    constructor ()
      ensures View() == IDLE
    {
      inFrame, escape, dataBuffer := false, false, [];
    }

    method Reset()
      modifies this
      ensures View() == IDLE
    {
      inFrame, escape, dataBuffer := false, false, [];
    }

    method FeedByte(b: byte) returns (frame: Option<bytes>)
      modifies this
      ensures View() == Feed(old(View()), b).0
      ensures Feed(old(View()), b).1 == if frame.Some? then [frame.value] else []
      ensures frame == if old(inFrame) && !old(escape) && b == 0x7E then Some(old(dataBuffer)) else None
      ensures inFrame == (old(inFrame) || b == 0x7E)
      ensures old(inFrame) ==> (escape <==> !old(escape) && b == 0x7D)
      ensures old(inFrame) && old(escape) ==>
        dataBuffer == old(dataBuffer) + [if b / 32 % 2 == 0 then b + 32 else b - 32]
      ensures old(inFrame) && !old(escape) ==>
        dataBuffer == if b == 0x7D then old(dataBuffer) else if b == 0x7E then [] else old(dataBuffer) + [b]
    {
      if !inFrame {
        if b == FLAG {
          inFrame, escape, dataBuffer := true, false, [];
        }
        return None;
      }
      if escape {
        escape := false;
        dataBuffer := dataBuffer + [Mask(b)];
        return None;
      }
      if b == ESC {
        escape := true;
        return None;
      }
      if b == FLAG {
        frame := Some(dataBuffer);
        dataBuffer := [];
        inFrame := true;
        return;
      }
      dataBuffer := dataBuffer + [b];
      return None;
    }
  }

  /** Inside a frame, one escaped octet adds that octet to the buffer. */
  lemma DecodeOctet(buffer: bytes, b: byte, rest: bytes)
    ensures Run(Feed, Decoder(true, false, buffer), EscapeByte(b) + rest) ==
      Run(Feed, Decoder(true, false, buffer + [b]), rest)
  {
    var d, d' := Decoder(true, false, buffer), Decoder(true, false, buffer + [b]);
    MaskLaws(b);
    if Special(b) {
      assert EscapeByte(b) + rest == [ESC] + ([Mask(b)] + rest);
      RunSilent(Feed, d, ESC, [Mask(b)] + rest, d.(escape := true));
      RunSilent(Feed, d.(escape := true), Mask(b), rest, d');
    } else {
      RunSilent(Feed, d, b, rest, d');
    }
  }

  /** Inside a frame, escaped data accumulates unescaped and completes nothing. */
  lemma {:induction false} DecodeEscaped(buffer: bytes, data: bytes)
    ensures Run(Feed, Decoder(true, false, buffer), Escape(data)) == (Decoder(true, false, buffer + data), [])
    decreases |data|
  {
    if data == [] {
      assert buffer + data == buffer;
    } else {
      MoveHead(buffer, data);
      DecodeOctet(buffer, data[0], Escape(data[1..]));
      DecodeEscaped(buffer + [data[0]], data[1..]);
    }
  }

  /** What one encoded frame does to each kind of state. */
  lemma DecodeFrame(d: Decoder, data: bytes)
    ensures Run(Feed, d, Encode(data)) ==
      (Decoder(true, false, []),
       if !d.inFrame then [data]
       else if !d.escape then [d.buffer, data]
       else [d.buffer + [Mask(FLAG)] + data])
  {
    var (d1, f1) := Feed(d, FLAG);
    RunOne(Feed, d, FLAG);
    DecodeEscaped(d1.buffer, data);
    RunOne(Feed, Decoder(true, false, d1.buffer + data), FLAG);
    RunConcat(Feed, d, [FLAG], Escape(data));
    RunConcat(Feed, d, [FLAG] + Escape(data), [FLAG]);
    assert [] + data == data;
    var out := Run(Feed, d, Encode(data)).1;
    assert out == f1 + [] + [d1.buffer + data] == f1 + [d1.buffer + data];
    assert d.inFrame && !d.escape ==> out == [d.buffer, data];
    assert !(d.inFrame && !d.escape) ==> out == [d1.buffer + data];
  }

  /** The closing flag of one frame opens the next, so an empty frame separates payloads. */
  function Separated(payloads: seq<bytes>): seq<bytes> {
    if payloads == [] then [] else [[], payloads[0]] + Separated(payloads[1..])
  }

  lemma {:induction false} DecodeStreamInFrame(payloads: seq<bytes>)
    ensures Run(Feed, Decoder(true, false, []), Stream(payloads)) == (Decoder(true, false, []), Separated(payloads))
  {
    if payloads != [] {
      DecodeFrame(Decoder(true, false, []), payloads[0]);
      RunConcat(Feed, Decoder(true, false, []), Encode(payloads[0]), Stream(payloads[1..]));
      DecodeStreamInFrame(payloads[1..]);
    }
  }

  lemma {:induction false} NonEmptySeparated(payloads: seq<bytes>)
    ensures NonEmpty(Separated(payloads)) == NonEmpty(payloads)
  {
    if payloads != [] {
      NonEmptySeparated(payloads[1..]);
      var tail := [payloads[0]] + Separated(payloads[1..]);
      assert Separated(payloads) == [[]] + tail;
      assert Separated(payloads)[1..] == tail && tail[1..] == Separated(payloads[1..]);
    }
  }

  lemma DecodeStream(payloads: seq<bytes>)
    requires payloads != []
    ensures Run(Feed, IDLE, Stream(payloads)).1 == [payloads[0]] + Separated(payloads[1..])
  {
    DecodeFrame(IDLE, payloads[0]);
    RunConcat(Feed, IDLE, Encode(payloads[0]), Stream(payloads[1..]));
    DecodeStreamInFrame(payloads[1..]);
  }

  lemma SeparatedTail(payloads: seq<bytes>)
    requires payloads != []
    ensures Separated(payloads)[1..] == [payloads[0]] + Separated(payloads[1..])
    ensures NonEmpty([payloads[0]] + Separated(payloads[1..])) == NonEmpty(payloads)
  {
    var s := [payloads[0]] + Separated(payloads[1..]);
    assert s[1..] == Separated(payloads[1..]);
    NonEmptySeparated(payloads[1..]);
  }

  /** A new decoder returns the payloads in order with an empty frame between neighbours. */
  lemma HdlcStream(payloads: seq<bytes>)
    ensures Run(Feed, IDLE, Stream(payloads)).1 == if payloads == [] then [] else Separated(payloads)[1..]
    ensures NonEmpty(Run(Feed, IDLE, Stream(payloads)).1) == NonEmpty(payloads)
  {
    if payloads != [] {
      DecodeStream(payloads);
      SeparatedTail(payloads);
    }
  }

  /** Self-synchronisation: from any state whatever, the last frame after two encoded frames is the second payload;
      after one frame it is that payload exactly when the decoder was not in the middle of an escape. */
  lemma HdlcResynchronises(d: Decoder, x: bytes, data: bytes)
    ensures var frames := Run(Feed, d, Encode(x) + Encode(data)).1;
      frames != [] && frames[|frames| - 1] == data
    ensures var frames := Run(Feed, d, Encode(data)).1;
      frames != [] && (frames[|frames| - 1] == data <==> !(d.inFrame && d.escape))
  {
    DecodeFrame(d, x);
    DecodeFrame(d, data);
    DecodeFrame(Decoder(true, false, []), data);
    RunConcat(Feed, d, Encode(x), Encode(data));
    assert |d.buffer + [Mask(FLAG)] + data| > |data|;
  }
}
