/** KISS framing (crates/interface/src/kiss.rs). */
module Kiss {
  import opened Bytes
  import opened ByteMachines

  const FEND: byte := 0xC0
  const FESC: byte := 0xDB
  const TFEND: byte := 0xDC
  const TFESC: byte := 0xDD
  const CMD_DATA: byte := 0x00

  datatype Frame = Frame(command: byte, data: bytes)

  function EscapeByte(b: byte): bytes {
    if b == FESC then [FESC, TFESC] else if b == FEND then [FESC, TFEND] else [b]
  }

  function Escape(data: bytes): bytes { if data == [] then [] else EscapeByte(data[0]) + Escape(data[1..]) }

  function EncodeCmd(f: Frame): bytes { [FEND] + ([f.command] + (Escape(f.data) + [FEND])) }

  function Stream(frames: seq<Frame>): bytes {
    if frames == [] then [] else EncodeCmd(frames[0]) + Stream(frames[1..])
  }

  lemma {:induction false} EscapeSnoc(data: bytes, b: byte)
    ensures Escape(data + [b]) == Escape(data) + EscapeByte(b)
  {
    if data == [] {
      assert data + [b] == [b];
      assert Escape([]) == [];
    } else {
      EscapeSnoc(data[1..], b);
      assert (data + [b])[1..] == data[1..] + [b];
      assert EscapeByte(data[0]) + (Escape(data[1..]) + EscapeByte(b)) ==
        EscapeByte(data[0]) + Escape(data[1..]) + EscapeByte(b);
    }
  }

  method EncodeFrame(command: byte, data: bytes) returns (frame: bytes)
    ensures frame == EncodeCmd(Frame(command, data))
  {
    var out := [];
    for i := 0 to |data|
      invariant out == Escape(data[..i])
    {
      EscapeSnoc(data[..i], data[i]);
      assert data[..i + 1] == data[..i] + [data[i]];
      if data[i] == FESC {
        out := out + [FESC, TFESC];
      } else if data[i] == FEND {
        out := out + [FESC, TFEND];
      } else {
        out := out + [data[i]];
      }
    }
    assert data[..|data|] == data;
    frame := [FEND, command] + out + [FEND];
  }

  lemma {:induction false} EscapeConcat(a: bytes, b: bytes)
    ensures Escape(a + b) == Escape(a) + Escape(b)
    decreases |b|
  {
    if b == [] {
      assert a + b == a && Escape(a) + Escape(b) == Escape(a);
    } else {
      var init, last := b[..|b| - 1], b[|b| - 1];
      assert b == init + [last] && a + b == (a + init) + [last];
      EscapeConcat(a, init);
      EscapeSnoc(a + init, last);
      EscapeSnoc(init, last);
    }
  }

  /** The octets of a frame: 0xC0, the command, the payload with 0xDB as 0xDB 0xDD and 0xC0 as 0xDB 0xDC, 0xC0. */
  lemma EncodeExactly(command: byte, a: bytes, b: byte, c: bytes)
    ensures EncodeCmd(Frame(command, a + [b] + c)) ==
      [0xC0] + ([command] + (Escape(a) + Escape([b]) + Escape(c) + [0xC0]))
    ensures Escape([]) == [] && EncodeCmd(Frame(command, [])) == [0xC0, command, 0xC0]
    ensures Escape([b]) == if b == 0xDB then [0xDB, 0xDD] else if b == 0xC0 then [0xDB, 0xDC] else [b]
  {
    EscapeConcat(a, [b]);
    EscapeConcat(a + [b], c);
    assert Escape([b]) == EscapeByte(b) + Escape([b][1..]) == EscapeByte(b);
  }

  // ---------- The decoder ----------

  datatype Decoder = Decoder(inFrame: bool, escape: bool, buffer: bytes, command: Option<byte>)

  const IDLE := Decoder(false, false, [], None)

  function Unescaped(b: byte): byte { if b == TFESC then FESC else if b == TFEND then FEND else b }

  /** The frame the next closing delimiter completes. */
  function PendingFrame(d: Decoder): Frame { Frame(if d.command.Some? then d.command.value else CMD_DATA, d.buffer) }

  function Feed(d: Decoder, b: byte): (Decoder, seq<Frame>) {
    if !d.inFrame then (if b == FEND then Decoder(true, false, [], None) else d, [])
    else if d.escape then (d.(escape := false, buffer := d.buffer + [Unescaped(b)]), [])
    else if b == FESC then (d.(escape := true), [])
    else if b == FEND then (Decoder(false, false, [], None), [PendingFrame(d)])
    else if d.command.None? then (d.(command := Some(b)), [])
    else (d.(buffer := d.buffer + [b]), [])
  }

  class KissDecoder {
    var inFrame: bool
    var escape: bool
    var dataBuffer: bytes
    var command: Option<byte>

    ghost function View(): Decoder
      reads this
    {
      Decoder(inFrame, escape, dataBuffer, command)
    }

    constructor ()
      ensures View() == IDLE
    {
      inFrame, escape, dataBuffer, command := false, false, [], None;
    }

    method FeedByte(b: byte) returns (frame: Option<Frame>)
      modifies this
      ensures View() == Feed(old(View()), b).0
      ensures Feed(old(View()), b).1 == if frame.Some? then [frame.value] else []
      ensures frame == if old(inFrame) && !old(escape) && b == 0xC0
                       then Some(Frame(if old(command).Some? then old(command).value else 0, old(dataBuffer)))
                       else None
      ensures inFrame == if b == 0xC0 then !old(inFrame) || old(escape) else old(inFrame)
      ensures old(inFrame) ==> (escape <==> !old(escape) && b == 0xDB)
      ensures old(inFrame) && old(escape) ==>
        && command == old(command)
        && dataBuffer == old(dataBuffer) + [if b == 0xDD then 0xDB else if b == 0xDC then 0xC0 else b]
      ensures old(inFrame) && !old(escape) && b != 0xC0 && b != 0xDB ==>
        && command == Some(if old(command).Some? then old(command).value else b)
        && dataBuffer == old(dataBuffer) + (if old(command).Some? then [b] else [])
    {
      if !inFrame {
        if b == FEND {
          inFrame, escape, dataBuffer, command := true, false, [], None;
        }
        return None;
      }
      if escape {
        escape := false;
        if b == TFESC {
          dataBuffer := dataBuffer + [FESC];
        } else if b == TFEND {
          dataBuffer := dataBuffer + [FEND];
        } else {
          dataBuffer := dataBuffer + [b];
        }
        return None;
      }
      if b == FESC {
        escape := true;
        return None;
      }
      if b == FEND {
        inFrame := false;
        frame := Some(Frame(if command.Some? then command.value else CMD_DATA, dataBuffer));
        dataBuffer, command := [], None;
        return;
      }
      if command.None? {
        command := Some(b);
      } else {
        dataBuffer := dataBuffer + [b];
      }
      return None;
    }
  }

  /** After the command octet, one escaped octet adds that octet to the buffer. */
  lemma DecodeOctet(buffer: bytes, command: byte, b: byte, rest: bytes)
    ensures Run(Feed, Decoder(true, false, buffer, Some(command)), EscapeByte(b) + rest)
      == Run(Feed, Decoder(true, false, buffer + [b], Some(command)), rest)
  {
    var d, d' := Decoder(true, false, buffer, Some(command)), Decoder(true, false, buffer + [b], Some(command));
    if b == FESC || b == FEND {
      var t := if b == FESC then TFESC else TFEND;
      assert EscapeByte(b) + rest == [FESC] + ([t] + rest);
      RunSilent(Feed, d, FESC, [t] + rest, d.(escape := true));
      RunSilent(Feed, d.(escape := true), t, rest, d');
    } else {
      RunSilent(Feed, d, b, rest, d');
    }
  }

  /** Escaped data after the command octet accumulates unescaped. */
  lemma {:induction false} DecodeEscaped(buffer: bytes, command: byte, data: bytes)
    ensures Run(Feed, Decoder(true, false, buffer, Some(command)), Escape(data))
      == (Decoder(true, false, buffer + data, Some(command)), [])
    decreases |data|
  {
    if data == [] {
      assert buffer + data == buffer;
    } else {
      MoveHead(buffer, data);
      DecodeOctet(buffer, command, data[0], Escape(data[1..]));
      DecodeEscaped(buffer + [data[0]], command, data[1..]);
    }
  }

  predicate Plain(b: byte) { b != FEND && b != FESC }

  /** A frame whose command needs no escaping comes back whole. */
  lemma DecodeFrame(f: Frame)
    requires Plain(f.command)
    ensures Run(Feed, IDLE, EncodeCmd(f)) == (IDLE, [f])
  {
    var s1 := Decoder(true, false, [], None);
    var s2 := Decoder(true, false, [], Some(f.command));
    RunSilent(Feed, IDLE, FEND, [f.command] + (Escape(f.data) + [FEND]), s1);
    RunSilent(Feed, s1, f.command, Escape(f.data) + [FEND], s2);
    DecodeEscaped([], f.command, f.data);
    assert [] + f.data == f.data;
    RunPast(Feed, s2, Escape(f.data), [FEND], s2.(buffer := f.data));
    RunOne(Feed, Decoder(true, false, f.data, Some(f.command)), FEND);
  }

  lemma {:induction false} DecodeStream(frames: seq<Frame>)
    requires forall i :: 0 <= i < |frames| ==> Plain(frames[i].command)
    ensures Run(Feed, IDLE, Stream(frames)) == (IDLE, frames)
  {
    if frames != [] {
      DecodeFrame(frames[0]);
      RunConcat(Feed, IDLE, EncodeCmd(frames[0]), Stream(frames[1..]));
      DecodeStream(frames[1..]);
      assert frames == [frames[0]] + frames[1..];
    }
  }

  /** No octet stream ever makes the decoder report a delimiter or escape octet as a command. */
  lemma {:induction false} CommandsArePlain(d: Decoder, s: bytes)
    requires d.command.Some? ==> Plain(d.command.value)
    ensures forall f :: f in Run(Feed, d, s).1 ==> Plain(f.command)
    decreases |s|
  {
    if s != [] {
      CommandsArePlain(Feed(d, s[0]).0, s[1..]);
    }
  }

  /** KISS streams: decoding the encoded frames returns exactly those frames, for exactly the lists of frames whose
      commands are neither the delimiter nor the escape octet. */
  lemma KissStream(frames: seq<Frame>)
    ensures Run(Feed, IDLE, Stream(frames)).1 == frames <==> forall i :: 0 <= i < |frames| ==> Plain(frames[i].command)
  {
    if forall i :: 0 <= i < |frames| ==> Plain(frames[i].command) {
      DecodeStream(frames);
    } else {
      var i :| 0 <= i < |frames| && !Plain(frames[i].command);
      CommandsArePlain(IDLE, Stream(frames));
      assert frames[i] in frames;
    }
  }

  // ---------- Starting in the middle of a frame ----------

  lemma {:induction false} EscapeHasNoDelimiter(data: bytes)
    ensures FEND !in Escape(data)
  {
    if data != [] {
      EscapeHasNoDelimiter(data[1..]);
    }
  }

  /** In a frame and not after an escape, a frame's opening delimiter closes what is pending and its payload is
      skipped. */
  lemma OutOfPhaseFrame(d: Decoder, f: Frame)
    requires d.inFrame && !d.escape && Plain(f.command)
    ensures Run(Feed, d, EncodeCmd(f)) == (Decoder(true, false, [], None), [PendingFrame(d)])
  {
    RunCons(Feed, d, FEND, [f.command] + (Escape(f.data) + [FEND]));
    EscapeHasNoDelimiter(f.data);
    assert [f.command] + (Escape(f.data) + [FEND]) == ([f.command] + Escape(f.data)) + [FEND];
    RunIgnores(Feed, IDLE, [f.command] + Escape(f.data));
    RunPast(Feed, IDLE, [f.command] + Escape(f.data), [FEND], IDLE);
    RunOne(Feed, IDLE, FEND);
    assert [PendingFrame(d)] + [] == [PendingFrame(d)];
  }

  /** Out of phase, a stream yields the pending frame and then only empty data frames, never a payload. */
  lemma {:induction false} OutOfPhase(d: Decoder, frames: seq<Frame>)
    requires d.inFrame && !d.escape && frames != []
    requires forall i :: 0 <= i < |frames| ==> Plain(frames[i].command)
    ensures Run(Feed, d, Stream(frames)) ==
      (Decoder(true, false, [], None), [PendingFrame(d)] + seq(|frames| - 1, _ => Frame(CMD_DATA, [])))
    decreases |frames|
  {
    OutOfPhaseFrame(d, frames[0]);
    var next := Decoder(true, false, [], None);
    RunConcat(Feed, d, EncodeCmd(frames[0]), Stream(frames[1..]));
    if |frames| == 1 {
      assert Stream(frames[1..]) == [];
    } else {
      OutOfPhase(next, frames[1..]);
      assert [Frame(CMD_DATA, [])] + seq(|frames| - 2, _ => Frame(CMD_DATA, [])) ==
        seq(|frames| - 1, _ => Frame(CMD_DATA, []));
    }
  }

  /** Outside a frame the opening delimiter clears whatever the decoder holds. */
  lemma DecodeFromOutside(d: Decoder, f: Frame)
    requires !d.inFrame && Plain(f.command)
    ensures Run(Feed, d, EncodeCmd(f)) == (IDLE, [f])
  {
    var s1 := Decoder(true, false, [], None);
    RunSilent(Feed, d, FEND, [f.command] + (Escape(f.data) + [FEND]), s1);
    RunSilent(Feed, IDLE, FEND, [f.command] + (Escape(f.data) + [FEND]), s1);
    DecodeFrame(f);
  }

  /** In the middle of an escape the opening delimiter is taken for data, and the closing one ends the garbled frame. */
  lemma DecodeFromEscape(d: Decoder, f: Frame)
    requires d.inFrame && d.escape && Plain(f.command)
    ensures Run(Feed, d, EncodeCmd(f)).0 == IDLE
  {
    var tail := Escape(f.data) + [FEND];
    var s1 := d.(escape := false, buffer := d.buffer + [FEND]);
    var s2 := Feed(s1, f.command).0;
    RunSilent(Feed, d, FEND, [f.command] + tail, s1);
    RunSilent(Feed, s1, f.command, tail, s2);
    DecodeEscaped(s2.buffer, s2.command.value, f.data);
    RunPast(Feed, s2, Escape(f.data), [FEND], s2.(buffer := s2.buffer + f.data));
    RunOne(Feed, s2.(buffer := s2.buffer + f.data), FEND);
  }

  predicate AllPlain(frames: seq<Frame>) { forall i :: 0 <= i < |frames| ==> Plain(frames[i].command) }

  /** After one frame the decoder returns every later stream whole. */
  ghost predicate Recovers(d: Decoder, f: Frame) {
    forall fs :: AllPlain(fs) ==> Run(Feed, d, EncodeCmd(f) + Stream(fs)).1 == Run(Feed, d, EncodeCmd(f)).1 + fs
  }

  /** One frame brings the decoder into step exactly when it was outside a frame or in the middle of an escape. */
  lemma KissRecoversExactly(d: Decoder, f: Frame)
    requires Plain(f.command)
    ensures Recovers(d, f) <==> !(d.inFrame && !d.escape)
  {
    if d.inFrame && !d.escape {
      var fs := [Frame(CMD_DATA, [0])];
      var next := Decoder(true, false, [], None);
      OutOfPhaseFrame(d, f);
      RunConcat(Feed, d, EncodeCmd(f), Stream(fs));
      OutOfPhase(next, fs);
      assert Run(Feed, next, Stream(fs)).1 == [Frame(CMD_DATA, [])];
      assert AllPlain(fs);
      assert Run(Feed, d, EncodeCmd(f) + Stream(fs)).1[1] != (Run(Feed, d, EncodeCmd(f)).1 + fs)[1];
    } else {
      if d.inFrame { DecodeFromEscape(d, f); } else { DecodeFromOutside(d, f); }
      forall fs | AllPlain(fs)
        ensures Run(Feed, d, EncodeCmd(f) + Stream(fs)).1 == Run(Feed, d, EncodeCmd(f)).1 + fs
      {
        RunConcat(Feed, d, EncodeCmd(f), Stream(fs));
        DecodeStream(fs);
      }
    }
  }
}
