/** The framing part of crates/interface/src/serial.rs: the same encoding as `Hdlc`, a buffer decoder, and a decoder
    that needs its own opening flag for every frame. */
module SerialHdlc {
  import opened Bytes
  import opened ByteMachines
  import opened Hdlc

  // ---------- Whole buffers ----------

  /** Undo escapes from position `i` on; a trailing escape octet stands for itself. */
  function UnescapeFrom(inner: bytes, i: nat): bytes
    requires i <= |inner|
    decreases |inner| - i
  {
    if i == |inner| then []
    else if inner[i] == ESC && i + 1 < |inner| then [Mask(inner[i + 1])] + UnescapeFrom(inner, i + 2)
    else [inner[i]] + UnescapeFrom(inner, i + 1)
  }

  /** The octets between the delimiters, each of which is optional. */
  function Inner(frame: bytes): bytes
    requires |frame| >= 2
  {
    frame[if frame[0] == FLAG then 1 else 0 .. if frame[|frame| - 1] == FLAG then |frame| - 1 else |frame|]
  }

  function Decoded(frame: bytes): Option<bytes> {
    if |frame| < 2 then None else Some(UnescapeFrom(Inner(frame), 0))
  }

  method HdlcDecode(frame: bytes) returns (r: Option<bytes>)
    ensures r == Decoded(frame)
  {
    if |frame| < 2 {
      return None;
    }
    var start := if frame[0] == FLAG then 1 else 0;
    var end := if frame[|frame| - 1] == FLAG then |frame| - 1 else |frame|;
    if start > end {
      return None;
    }
    var out := Unescape(frame[start..end]);
    return Some(out);
  }

  method Unescape(inner: bytes) returns (out: bytes)
    ensures out == UnescapeFrom(inner, 0)
  {
    out := [];
    var i := 0;
    while i < |inner|
      invariant 0 <= i <= |inner|
      invariant UnescapeFrom(inner, 0) == out + UnescapeFrom(inner, i)
      decreases |inner| - i
    {
      ghost var before := out;
      if inner[i] == ESC && i + 1 < |inner| {
        out := out + [Mask(inner[i + 1])];
        i := i + 2;
      } else {
        out := out + [inner[i]];
        i := i + 1;
      }
      Regroup(before, out[|out| - 1], UnescapeFrom(inner, i));
    }
  }

  lemma Regroup(a: bytes, b: byte, c: bytes)
    ensures a + ([b] + c) == a + [b] + c
  {
  }

  lemma {:induction false} UnescapeAligned(t: bytes, n: nat, s: bytes, i: nat)
    requires |t| == n + |s| && i <= |s| && forall k :: 0 <= k < |s| ==> t[n + k] == s[k]
    ensures UnescapeFrom(t, n + i) == UnescapeFrom(s, i)
    decreases |s| - i
  {
    if i < |s| {
      assert t[n + i] == s[i];
      if s[i] == ESC && i + 1 < |s| {
        assert t[n + (i + 1)] == s[i + 1];
        UnescapeAligned(t, n, s, i + 2);
        assert UnescapeFrom(t, n + i) == [Mask(s[i + 1])] + UnescapeFrom(t, n + (i + 2));
      } else {
        UnescapeAligned(t, n, s, i + 1);
        assert UnescapeFrom(t, n + i) == [s[i]] + UnescapeFrom(t, n + (i + 1));
      }
    }
  }

  lemma UnescapeShift(pre: bytes, s: bytes, i: nat)
    requires i <= |s|
    ensures UnescapeFrom(pre + s, |pre| + i) == UnescapeFrom(s, i)
  {
    UnescapeAligned(pre + s, |pre|, s, i);
  }

  lemma {:induction false} UnescapeEscape(data: bytes)
    ensures UnescapeFrom(Escape(data), 0) == data
  {
    if data != [] {
      UnescapeEscape(data[1..]);
      MaskLaws(data[0]);
      UnescapeShift(EscapeByte(data[0]), Escape(data[1..]), 0);
      assert data == [data[0]] + data[1..];
    }
  }

  /** Decoding a whole encoded buffer returns its payload, empty payloads included. */
  lemma BufferRoundTrip(data: bytes)
    ensures Decoded(Encode(data)) == Some(data)
  {
    assert Inner(Encode(data)) == Escape(data);
    UnescapeEscape(data);
  }

  /** What a buffer decodes to, whether or not it was encoded here: a delimiter at either end may be missing, an escape
      octet changes bit 5 of the next, and one with nothing after it is kept. */
  lemma DecodedExactly(inner: bytes, flagBefore: bool, flagAfter: bool)
    requires inner != [] && inner[0] != 0x7E && inner[|inner| - 1] != 0x7E
    ensures var frame := (if flagBefore then [0x7E] else []) + inner + (if flagAfter then [0x7E] else []);
      Decoded(frame) == if |frame| < 2 then None else Some(UnescapeFrom(inner, 0))
  {
    var frame := (if flagBefore then [0x7E] else []) + inner + (if flagAfter then [0x7E] else []);
    if |frame| >= 2 {
      assert Inner(frame) == inner;
    }
  }

  lemma UnescapeExactly(b: byte, rest: bytes)
    ensures UnescapeFrom([], 0) == [] && UnescapeFrom([0x7D], 0) == [0x7D]
    ensures b != 0x7D ==> UnescapeFrom([b] + rest, 0) == [b] + UnescapeFrom(rest, 0)
    ensures UnescapeFrom([0x7D, b] + rest, 0) ==
      [if b / 32 % 2 == 0 then b + 32 else b - 32] + UnescapeFrom(rest, 0)
  {
    assert UnescapeFrom([0x7D], 0) == [0x7D] + UnescapeFrom([0x7D], 1) == [0x7D];
    UnescapeShift([b], rest, 0);
    UnescapeShift([0x7D, b], rest, 0);
  }

  // ---------- The streaming decoder ----------

  datatype State = WaitFlag | InFrame | Escaped

  datatype Serial = Serial(state: State, buf: bytes)

  function FeedSerial(d: Serial, b: byte): (Serial, seq<bytes>) {
    match d.state
    case WaitFlag => (if b == FLAG then Serial(InFrame, []) else d, [])
    case InFrame =>
      if b == FLAG then
        if d.buf == [] then (Serial(WaitFlag, []), []) else (Serial(WaitFlag, []), [d.buf])
      else if b == ESC then (d.(state := Escaped), [])
      else (d.(buf := d.buf + [b]), [])
    case Escaped => (Serial(InFrame, d.buf + [Mask(b)]), [])
  }

  class SerialDecoder {
    var state: State
    var buf: bytes

    ghost function View(): Serial
      reads this
    {
      Serial(state, buf)
    }

    constructor ()
      ensures View() == Serial(WaitFlag, [])
    {
      state, buf := WaitFlag, [];
    }

    method Reset()
      modifies this
      ensures View() == Serial(WaitFlag, [])
    {
      state, buf := WaitFlag, [];
    }

    method FeedByte(b: byte) returns (frame: Option<bytes>)
      modifies this
      ensures View() == FeedSerial(old(View()), b).0
      ensures FeedSerial(old(View()), b).1 == if frame.Some? then [frame.value] else []
      ensures frame == if old(state) == InFrame && b == 0x7E && old(buf) != [] then Some(old(buf)) else None
      ensures state == match old(state)
        case WaitFlag => if b == 0x7E then InFrame else WaitFlag
        case InFrame => if b == 0x7E then WaitFlag else if b == 0x7D then Escaped else InFrame
        case Escaped => InFrame
      ensures old(state) == WaitFlag ==> buf == if b == 0x7E then [] else old(buf)
      ensures old(state) == InFrame ==>
        buf == if b == 0x7E then [] else if b == 0x7D then old(buf) else old(buf) + [b]
      ensures old(state) == Escaped ==> buf == old(buf) + [if b / 32 % 2 == 0 then b + 32 else b - 32]
    {
      frame := None;
      match state {
        case WaitFlag =>
          if b == FLAG {
            state, buf := InFrame, [];
          }
        case InFrame =>
          if b == FLAG {
            state := WaitFlag;
            if buf != [] {
              frame := Some(buf);
              buf := [];
            }
          } else if b == ESC {
            state := Escaped;
          } else {
            buf := buf + [b];
          }
        case Escaped =>
          buf := buf + [Mask(b)];
          state := InFrame;
      }
    }
  }

  /** Inside a frame, one escaped octet adds that octet to the buffer. */
  lemma SerialOctet(buf: bytes, b: byte, rest: bytes)
    ensures Run(FeedSerial, Serial(InFrame, buf), EscapeByte(b) + rest) ==
      Run(FeedSerial, Serial(InFrame, buf + [b]), rest)
  {
    var d, d' := Serial(InFrame, buf), Serial(InFrame, buf + [b]);
    MaskLaws(b);
    if Special(b) {
      assert EscapeByte(b) + rest == [ESC] + ([Mask(b)] + rest);
      RunSilent(FeedSerial, d, ESC, [Mask(b)] + rest, d.(state := Escaped));
      RunSilent(FeedSerial, d.(state := Escaped), Mask(b), rest, d');
    } else {
      RunSilent(FeedSerial, d, b, rest, d');
    }
  }

  lemma {:induction false} SerialEscaped(buf: bytes, data: bytes)
    ensures Run(FeedSerial, Serial(InFrame, buf), Escape(data)) == (Serial(InFrame, buf + data), [])
    decreases |data|
  {
    if data == [] {
      assert buf + data == buf;
    } else {
      MoveHead(buf, data);
      SerialOctet(buf, data[0], Escape(data[1..]));
      SerialEscaped(buf + [data[0]], data[1..]);
    }
  }

  function NonEmptyFrame(f: bytes): seq<bytes> { if f == [] then [] else [f] }

  /** What one encoded frame does to each kind of state. From `InFrame` its opening flag is taken for a closing one:
      the payload is skipped and the closing flag leaves the decoder in `InFrame` again. */
  lemma SerialFrame(d: Serial, data: bytes)
    ensures Run(FeedSerial, d, Encode(data)) ==
      match d.state
      case WaitFlag => (Serial(WaitFlag, []), NonEmptyFrame(data))
      case InFrame => (Serial(InFrame, []), NonEmptyFrame(d.buf))
      case Escaped => (Serial(WaitFlag, []), [d.buf + [Mask(FLAG)] + data])
  {
    var (d1, f1) := FeedSerial(d, FLAG);
    RunOne(FeedSerial, d, FLAG);
    RunConcat(FeedSerial, d, [FLAG], Escape(data));
    RunConcat(FeedSerial, d, [FLAG] + Escape(data), [FLAG]);
    if d.state == InFrame {
      EscapeHasNoFlag(data);
      RunIgnores(FeedSerial, Serial(WaitFlag, []), Escape(data));
      RunOne(FeedSerial, Serial(WaitFlag, []), FLAG);
      assert f1 + [] + [] == f1;
    } else {
      SerialEscaped(d1.buf, data);
      RunOne(FeedSerial, Serial(InFrame, d1.buf + data), FLAG);
      assert [] + data == data;
      assert f1 == [];
      assert [] + [] + NonEmptyFrame(d1.buf + data) == NonEmptyFrame(d1.buf + data);
    }
  }

  /** From between frames the decoder returns exactly the non-empty payloads. */
  lemma {:induction false} SerialStream(payloads: seq<bytes>)
    ensures Run(FeedSerial, Serial(WaitFlag, []), Stream(payloads)) == (Serial(WaitFlag, []), NonEmpty(payloads))
  {
    if payloads != [] {
      SerialFrame(Serial(WaitFlag, []), payloads[0]);
      RunConcat(FeedSerial, Serial(WaitFlag, []), Encode(payloads[0]), Stream(payloads[1..]));
      SerialStream(payloads[1..]);
    }
  }

  /** From inside a frame the decoder returns what was pending and then no payload of the stream, ever. */
  lemma {:induction false} SerialOutOfPhase(buf: bytes, payloads: seq<bytes>)
    requires payloads != []
    ensures Run(FeedSerial, Serial(InFrame, buf), Stream(payloads)) == (Serial(InFrame, []), NonEmptyFrame(buf))
    decreases |payloads|
  {
    SerialFrame(Serial(InFrame, buf), payloads[0]);
    RunConcat(FeedSerial, Serial(InFrame, buf), Encode(payloads[0]), Stream(payloads[1..]));
    if |payloads| > 1 {
      SerialOutOfPhase([], payloads[1..]);
    } else {
      assert Stream(payloads[1..]) == [];
    }
    assert NonEmptyFrame(buf) + [] == NonEmptyFrame(buf);
  }

  /** After one frame the decoder returns every later stream whole. */
  ghost predicate Recovers(d: Serial, x: bytes) {
    forall ps: seq<bytes> ::
      Run(FeedSerial, d, Encode(x) + Stream(ps)).1 == Run(FeedSerial, d, Encode(x)).1 + NonEmpty(ps)
  }

  /** One frame brings the decoder into step exactly when it was not inside a frame, or in the middle of an escape
      there. */
  lemma SerialRecoversExactly(d: Serial, x: bytes)
    ensures Recovers(d, x) <==> d.state != InFrame
  {
    SerialFrame(d, x);
    if d.state == InFrame {
      var ps: seq<bytes> := [[0]];
      RunConcat(FeedSerial, d, Encode(x), Stream(ps));
      SerialOutOfPhase([], ps);
      assert NonEmpty(ps) == [[0]] + NonEmpty(ps[1..]);
      var frames := Run(FeedSerial, d, Encode(x)).1;
      assert |Run(FeedSerial, d, Encode(x) + Stream(ps)).1| == |frames|;
      assert |frames + NonEmpty(ps)| > |frames|;
    } else {
      forall ps: seq<bytes>
        ensures Run(FeedSerial, d, Encode(x) + Stream(ps)).1 == Run(FeedSerial, d, Encode(x)).1 + NonEmpty(ps)
      {
        RunConcat(FeedSerial, d, Encode(x), Stream(ps));
        SerialStream(ps);
      }
    }
  }

  /** The two decoders, both new, agree on every stream once empty frames are dropped. */
  lemma DecodersCompared(payloads: seq<bytes>)
    ensures Run(FeedSerial, Serial(WaitFlag, []), Stream(payloads)).1 == NonEmpty(Run(Feed, IDLE, Stream(payloads)).1)
  {
    SerialStream(payloads);
    HdlcStream(payloads);
  }
}
