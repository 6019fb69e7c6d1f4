/** Reliable in-order messages over a link (crates/channel). */
module Channels {
  import opened Bytes
  import opened Packets
  import opened Links

  // ---------- Envelopes ----------

  const HEADER_LEN := 6
  const SEQ_RANGE := 0x1_0000_0000
  const WINDOW := 1000
  const USIZE := 0x1_0000_0000_0000_0000

  datatype Envelope = Envelope(kind: nat, sequence: nat, payload: bytes)

  function Pack(e: Envelope): bytes { ToBe(e.kind, 2) + ToBe(e.sequence, 4) + e.payload }

  function Unpack(data: bytes): Option<Envelope> {
    if |data| < HEADER_LEN then None
    else Some(Envelope(FromBe(data[..2]), FromBe(data[2..6]), data[6..]))
  }

  /** Envelopes whose type and sequence number fit their fields survive the wire, and only those. */
  lemma EnvelopeRoundTrip(e: Envelope)
    ensures Unpack(Pack(e)) == Some(e) <==> e.kind < 0x1_0000 && e.sequence < 0x1_0000_0000
  {
    var p := Pack(e);
    Ranges();
    assert p[..2] == ToBe(e.kind, 2) && p[2..6] == ToBe(e.sequence, 4) && p[6..] == e.payload;
    FromBeBound(p[..2]);
    FromBeBound(p[2..6]);
    if e.kind < 0x1_0000 && e.sequence < SEQ_RANGE {
      BeRoundTrip(e.kind, 2);
      BeRoundTrip(e.sequence, 4);
    }
  }

  // ---------- The receiver, on values ----------

  /** `delivered` is everything ever pushed to the ready queue; `handled` the calls of registered handlers. */
  datatype Rx = Rx(next: nat, buffer: map<nat, bytes>, delivered: seq<bytes>, handled: seq<(nat, bytes)>)

  function Bump(s: nat): nat { (s + 1) % SEQ_RANGE }

  function Drain(rx: Rx): Rx
    decreases |rx.buffer|
  {
    if rx.next in rx.buffer
    then Drain(rx.(next := Bump(rx.next), buffer := rx.buffer - {rx.next},
                   delivered := rx.delivered + [rx.buffer[rx.next]]))
    else rx
  }

  function Accept(rx: Rx, handlers: set<nat>, e: Envelope): Rx {
    if e.kind in handlers then rx.(handled := rx.handled + [(e.kind, e.payload)])
    else if e.sequence == rx.next then Drain(rx.(next := Bump(rx.next), delivered := rx.delivered + [e.payload]))
    else if e.sequence > rx.next && e.sequence - rx.next < WINDOW then rx.(buffer := rx.buffer[e.sequence := e.payload])
    else rx
  }

  /** Process link messages in turn; a malformed one stops the pass. Returns what is left. */
  function AcceptAll(rx: Rx, handlers: set<nat>, inbound: seq<bytes>): (Rx, seq<bytes>, bool)
    decreases |inbound|
  {
    if inbound == [] then (rx, [], true)
    else
      match Unpack(inbound[0])
      case None => (rx, inbound[1..], false)
      case Some(e) => AcceptAll(Accept(rx, handlers, e), handlers, inbound[1..])
  }

  /** The receiver after these envelopes, one by one. */
  function AcceptEach(rx: Rx, handlers: set<nat>, es: seq<Envelope>): Rx {
    if es == [] then rx else Accept(AcceptEach(rx, handlers, es[..|es| - 1]), handlers, es[|es| - 1])
  }

  /** An octet string is an envelope if and only if it has the six octets of a header: the type and the sequence number,
      each most significant octet first. */
  lemma UnpackExactly(data: bytes)
    ensures Unpack(data).None? <==> |data| < 6
    ensures Unpack(data).Some? ==>
      var e := Unpack(data).value;
      && e.kind == data[0] as int * 0x100 + data[1] as int
      && e.sequence == data[2] as int * 0x100_0000 + data[3] as int * 0x1_0000 + data[4] as int * 0x100 + data[5] as int
      && e.payload == data[6..]
  {
    if |data| >= 6 {
      TwoOctets(data[..2]);
      FourOctets(data[2..6]);
    }
  }

  lemma TwoOctets(s: bytes)
    requires |s| == 2
    ensures FromBe(s) == s[0] as int * 0x100 + s[1] as int
  {
    assert FromBe(s[..1]) == FromBe(s[..1][..0]) * 256 + s[..1][0] as int;
  }

  lemma FourOctets(s: bytes)
    requires |s| == 4
    ensures FromBe(s) == s[0] as int * 0x100_0000 + s[1] as int * 0x1_0000 + s[2] as int * 0x100 + s[3] as int
  {
    TwoOctets(s[..2]);
    assert FromBe(s[..3]) == FromBe(s[..3][..2]) * 256 + s[2] as int && s[..3][..2] == s[..2];
  }

  /** One pass over the messages of the link, exactly: those before the first that is too short are accepted one by one;
      that one is dropped and ends the pass with an error, and those after it stay for the next pass. */
  lemma {:induction false} PassExactly(rx: Rx, handlers: set<nat>, inbound: seq<bytes>, n: nat, es: seq<Envelope>)
    requires n <= |inbound| && (n < |inbound| ==> |inbound[n]| < 6)
    requires |es| == n && forall i :: 0 <= i < n ==> Unpack(inbound[i]) == Some(es[i])
    ensures AcceptAll(rx, handlers, inbound) ==
      if n < |inbound| then (AcceptEach(rx, handlers, es), inbound[n + 1..], false)
      else (AcceptEach(rx, handlers, es), [], true)
    decreases n
  {
    if n > 0 {
      PassExactly(Accept(rx, handlers, es[0]), handlers, inbound[1..], n - 1, es[1..]);
      EachFromFront(rx, handlers, es);
      assert n < |inbound| ==> inbound[1..][n..] == inbound[n + 1..];
    }
  }

  lemma {:induction false} EachFromFront(rx: Rx, handlers: set<nat>, es: seq<Envelope>)
    requires es != []
    ensures AcceptEach(rx, handlers, es) == AcceptEach(Accept(rx, handlers, es[0]), handlers, es[1..])
  {
    if |es| == 1 {
      assert es[..0] == [] && es[1..] == [];
    } else {
      EachFromFront(rx, handlers, es[..|es| - 1]);
      assert es[..|es| - 1][1..] == es[1..][..|es| - 2];
    }
  }

  // ---------- The channel ----------

  datatype ChannelError = MessageTooLarge(size: nat, mdu: nat) | Transport(error: TransportError) | BadEnvelope

  /** MTU less the envelope header, in 64-bit arithmetic. */
  function Mdu(mtu: nat): nat { if mtu >= HEADER_LEN then mtu - HEADER_LEN else USIZE + mtu - HEADER_LEN }

  ghost function SendOutcome(c: Cipher, l: LinkView, outgoing: nat, kind: nat, payload: bytes, random: bytes)
    : Result<Packet, ChannelError>
    requires c.Laws()
  {
    if |payload| > Mdu(l.mtu) then Err(MessageTooLarge(|payload|, Mdu(l.mtu)))
    else
      match SendResult(c, l, Pack(Envelope(kind, outgoing, payload)), random)
      case Ok(p) => Ok(p)
      case Err(e) => Err(Transport(e))
  }

  class Channel {
    const link: Link
    var outgoingSeq: nat
    var incomingSeq: nat
    var reorderBuffer: map<nat, bytes>
    var ready: seq<bytes>
    var handlers: set<nat>
    ghost var delivered: seq<bytes>
    ghost var handled: seq<(nat, bytes)>

    ghost predicate Valid()
      reads this
    {
      && link.cipher.Laws()
      && outgoingSeq < SEQ_RANGE && incomingSeq < SEQ_RANGE
      && |ready| <= |delivered| && ready == delivered[|delivered| - |ready|..]
    }

    ghost function Receiver(): Rx
      reads this
    {
      Rx(incomingSeq, reorderBuffer, delivered, handled)
    }

    constructor (link: Link)
      requires link.cipher.Laws()
      ensures Valid() && this.link == link && outgoingSeq == 0 && handlers == {} && ready == []
      ensures Receiver() == Rx(0, map[], [], [])
    {
      this.link := link;
      outgoingSeq, incomingSeq, reorderBuffer, ready, handlers := 0, 0, map[], [], {};
      delivered, handled := [], [];
    }

    /** A sequence number is used up as soon as the size check passes, whether or not the link sends. */
    method SendTyped(kind: nat, payload: bytes, random: bytes) returns (r: Result<Packet, ChannelError>)
      requires Valid() && kind < 0x1_0000
      modifies this`outgoingSeq, link`outbound
      ensures Valid()
      ensures r == SendOutcome(link.cipher, old(link.View()), old(outgoingSeq), kind, payload, random)
      ensures outgoingSeq == if r.Err? && r.error.MessageTooLarge? then old(outgoingSeq) else Bump(old(outgoingSeq))
      ensures link.outbound == old(link.outbound) + (if r.Ok? then [r.value] else [])
    {
      var mdu := Mdu(link.mtu);
      if |payload| > mdu {
        return Err(MessageTooLarge(|payload|, mdu));
      }
      var sequence := outgoingSeq;
      outgoingSeq := Bump(outgoingSeq);
      var sent := link.Send(Pack(Envelope(kind, sequence, payload)), random);
      match sent {
        case Ok(p) => r := Ok(p);
        case Err(e) => r := Err(Transport(e));
      }
    }

    method Deliver(packet: Packet) returns (r: Result<(), ChannelError>)
      requires Valid()
      modifies this`incomingSeq, this`reorderBuffer, this`ready, this`delivered, this`handled, link`inbound
      ensures Valid()
      ensures var d := DeliverResult(link.cipher, link.secret, old(link.View()), packet);
        match d
        case Err(e) => r == Err(Transport(e)) && Receiver() == old(Receiver()) && link.inbound == old(link.inbound)
        case Ok(m) =>
          && (Receiver(), link.inbound, r.Ok?) == AcceptAll(old(Receiver()), handlers, old(link.inbound) + [m])
          && (r.Err? ==> r.error == BadEnvelope)
      ensures old(delivered) <= delivered && ready == old(ready) + delivered[|old(delivered)|..]
    {
      var d := link.Deliver(packet);
      if d.Err? {
        return Err(Transport(d.error));
      }
      var ok := AcceptInbound();
      return if ok then Ok(()) else Err(BadEnvelope);
    }

    /** Take every message the link holds; a malformed one stops the pass. */
    method AcceptInbound() returns (ok: bool)
      requires Valid()
      modifies this`incomingSeq, this`reorderBuffer, this`ready, this`delivered, this`handled, link`inbound
      ensures Valid()
      ensures (Receiver(), link.inbound, ok) == AcceptAll(old(Receiver()), handlers, old(link.inbound))
      ensures old(delivered) <= delivered && ready == old(ready) + delivered[|old(delivered)|..]
    {
      ghost var added: seq<bytes> := [];
      while link.inbound != []
        invariant Valid()
        invariant AcceptAll(Receiver(), handlers, link.inbound) ==
          AcceptAll(old(Receiver()), handlers, old(link.inbound))
        invariant delivered == old(delivered) + added && ready == old(ready) + added
        decreases |link.inbound|
      {
        ghost var rx, inbound := Receiver(), link.inbound;
        var data := link.Recv();
        assert data.value == inbound[0] && link.inbound == inbound[1..] && Receiver() == rx;
        match Unpack(data.value) {
          case None =>
            return false;
          case Some(e) =>
            var more := AcceptEnvelope(e);
            added := added + more;
        }
      }
      return true;
    }

    method AcceptEnvelope(e: Envelope) returns (ghost added: seq<bytes>)
      requires Valid()
      modifies this`incomingSeq, this`reorderBuffer, this`ready, this`delivered, this`handled
      ensures Valid()
      ensures Receiver() == Accept(old(Receiver()), handlers, e)
      ensures delivered == old(delivered) + added && ready == old(ready) + added
    {
      added := [];
      if e.kind in handlers {
        handled := handled + [(e.kind, e.payload)];
      } else if e.sequence == incomingSeq {
        Push(e.payload);
        var more := DrainBuffer();
        added := [e.payload] + more;
      } else if e.sequence > incomingSeq && e.sequence - incomingSeq < WINDOW {
        reorderBuffer := reorderBuffer[e.sequence := e.payload];
      }
    }

    method Push(payload: bytes)
      requires Valid()
      modifies this`incomingSeq, this`ready, this`delivered
      ensures Valid()
      ensures ready == old(ready) + [payload] && delivered == old(delivered) + [payload]
      ensures incomingSeq == Bump(old(incomingSeq))
    {
      ready := ready + [payload];
      delivered := delivered + [payload];
      incomingSeq := Bump(incomingSeq);
    }

    method DrainBuffer() returns (ghost added: seq<bytes>)
      requires Valid()
      modifies this`incomingSeq, this`reorderBuffer, this`ready, this`delivered
      ensures Valid()
      ensures Receiver() == Drain(old(Receiver()))
      ensures delivered == old(delivered) + added && ready == old(ready) + added
    {
      added := [];
      while incomingSeq in reorderBuffer
        invariant Valid()
        invariant Drain(Receiver()) == Drain(old(Receiver()))
        invariant delivered == old(delivered) + added && ready == old(ready) + added
        decreases |reorderBuffer|
      {
        var payload := reorderBuffer[incomingSeq];
        reorderBuffer := reorderBuffer - {incomingSeq};
        Push(payload);
        added := added + [payload];
      }
    }

    method Recv() returns (r: Option<bytes>)
      requires Valid()
      modifies this`ready
      ensures Valid()
      ensures old(ready) == [] ==> r == None && ready == []
      ensures old(ready) != [] ==> r == Some(old(ready)[0]) && ready == old(ready)[1..]
    {
      if ready == [] {
        return None;
      }
      r := Some(ready[0]);
      ready := ready[1..];
    }
  }

  // ---------- What is sent ----------

  /** Over any link, exactly: a payload of more than mtu - 6 octets, in 64-bit arithmetic, is refused before the link is
      asked; otherwise the answer is the link's for type, sequence number and payload in that order. */
  lemma SendsEnvelope(c: Cipher, l: LinkView, outgoing: nat, kind: nat, payload: bytes, random: bytes)
    requires c.Laws()
    ensures var r := SendOutcome(c, l, outgoing, kind, payload, random);
      var sent := SendResult(c, l, ToBe(kind, 2) + ToBe(outgoing, 4) + payload, random);
      var limit := if l.mtu >= 6 then l.mtu - 6 else 0x1_0000_0000_0000_0000 + l.mtu - 6;
      r == if |payload| > limit then Err(MessageTooLarge(|payload|, limit))
           else if sent.Ok? then Ok(sent.value) else Err(Transport(sent.error))
  {
  }

  // ---------- Size of a message ----------

  /** Over an established link with a shared key, a message of `n` octets is sent exactly when the padded envelope
      and its HMAC fit the MTU; at the default MTU of 500 that is `n <= 457`. */
  lemma EncryptedSendBound(c: Cipher, l: LinkView, outgoing: nat, kind: nat, payload: bytes, random: bytes)
    requires c.Laws() && l.state == Established && l.sharedKey.Some?
    ensures SendOutcome(c, l, outgoing, kind, payload, random).Ok? <==>
      |payload| <= l.mtu - 6 && 16 * ((|payload| + 6) / 16 + 1) + 32 <= l.mtu
    ensures l.mtu == 500 ==> (SendOutcome(c, l, outgoing, kind, payload, random).Ok? <==> |payload| <= 457)
  {
    var packed := Pack(Envelope(kind, outgoing, payload));
    assert |Seal(c, l.sharedKey.value, l.linkId, packed)| == Padded(|payload| + 6) + 32;
  }
}
