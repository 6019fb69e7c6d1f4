/** Key rotation on an established link (the RATCHET packets of crates/daemon/src/lib.rs).

    `RatchetLink` is the code of one end. `Session` runs the two ends over a network that loses, reorders and
    duplicates packets; the number of duplications bounds how far the two ends drift apart. */
module Ratchet {
  import opened Bytes
  import opened Handshake
  import opened Hkdf

  const LABEL: bytes := [0x72, 0x61, 0x74, 0x63, 0x68, 0x65, 0x74]

  function ToLe(v: nat, k: nat): (s: bytes)
    ensures |s| == k
  {
    if k == 0 then [] else [(v % 256) as byte] + ToLe(v / 256, k - 1)
  }

  datatype End = End(
    sharedKey: Option<bytes>,
    ratchetPriv: Option<bytes>,
    peerRatchetKey: Option<bytes>,
    sequence: nat,
    pendingSend: bool)

  /** The next shared key: HKDF of the current one, salted with the exchanged ratchet secret. */
  ghost function Rotate(hmac: Hmac, key: bytes, secret: bytes): bytes {
    Derived(hmac, 32, key, Some(secret), Some(LABEL))
  }

  function Sends(e: End): bool { e.pendingSend && e.ratchetPriv.Some? }

  function RatchetData(c: Crypto, e: End): bytes
    requires Sends(e)
  {
    c.publicOf(e.ratchetPriv.value) + ToLe(e.sequence, 4)
  }

  function AfterSend(e: End): End {
    if Sends(e) then e.(pendingSend := false, sequence := (e.sequence + 1) % 0x1_0000_0000) else e
  }

  ghost function AfterReceive(c: Crypto, hmac: Hmac, e: End, data: bytes): End {
    if |data| < 36 then e
    else
      var key := if e.ratchetPriv.Some? && e.sharedKey.Some?
                 then Some(Rotate(hmac, e.sharedKey.value, c.dh(e.ratchetPriv.value, data[..32])))
                 else e.sharedKey;
      e.(peerRatchetKey := Some(data[..32]), sharedKey := key, pendingSend := true)
  }

  class RatchetLink {
    const crypto: Crypto
    const hmac: Hmac
    var sharedKey: Option<bytes>
    var ratchetPriv: Option<bytes>
    var peerRatchetKey: Option<bytes>
    var sequence: nat
    var pendingSend: bool

    ghost function View(): End
      reads this
    {
      End(sharedKey, ratchetPriv, peerRatchetKey, sequence, pendingSend)
    }

    /** The state in which both handshake branches leave a link. */
    constructor (crypto: Crypto, hmac: Hmac, sharedKey: bytes, ratchetPriv: bytes)
      ensures this.crypto == crypto && this.hmac == hmac
      ensures View() == FreshEnd(sharedKey, ratchetPriv)
    {
      this.crypto, this.hmac := crypto, hmac;
      this.sharedKey, this.ratchetPriv, this.peerRatchetKey := Some(sharedKey), Some(ratchetPriv), None;
      sequence, pendingSend := 0, true;
    }

    /** One pass of the run loop over this link. */
    method SendPending() returns (packet: Option<bytes>)
      modifies this`pendingSend, this`sequence
      ensures View() == AfterSend(old(View()))
      ensures packet == if Sends(old(View())) then Some(RatchetData(crypto, old(View()))) else None
      ensures packet.Some? <==> old(pendingSend) && ratchetPriv.Some?
      ensures packet.Some? ==> !pendingSend && sequence == (old(sequence) + 1) % 0x1_0000_0000
      ensures packet.None? ==> View() == old(View())
    {
      packet := None;
      if pendingSend {
        match ratchetPriv {
          case Some(secret) =>
            packet := Some(crypto.publicOf(secret) + ToLe(sequence, 4));
            pendingSend := false;
            sequence := (sequence + 1) % 0x1_0000_0000;
          case None =>
        }
      }
    }

    method Receive(data: bytes)
      requires IsHmac(hmac)
      modifies this`sharedKey, this`peerRatchetKey, this`pendingSend
      ensures View() == AfterReceive(crypto, hmac, old(View()), data)
      ensures |data| < 36 ==> View() == old(View())
      ensures |data| >= 36 ==> peerRatchetKey == Some(data[..32]) && pendingSend
      ensures |data| >= 36 && ratchetPriv.Some? && old(sharedKey).Some? ==>
        var x := crypto.dh(ratchetPriv.value, data[..32]);
        sharedKey == Some(hmac(hmac(if x != [] then x else seq(32, _ => 0), old(sharedKey).value),
                               [0x72, 0x61, 0x74, 0x63, 0x68, 0x65, 0x74] + [1]))
      ensures ratchetPriv.None? || old(sharedKey).None? ==> sharedKey == old(sharedKey)
    {
      if |data| < 36 {
        return;
      }
      var peer := data[..32];
      peerRatchetKey := Some(peer);
      match ratchetPriv {
        case Some(secret) =>
          var exchanged := crypto.dh(secret, peer);
          match sharedKey {
            case Some(key) =>
              var rotated := HkdfSha256(hmac, 32, key, Some(exchanged), Some(LABEL));
              DerivedBlock(hmac, key, exchanged, LABEL);
              sharedKey := Some(rotated);
            case None =>
          }
        case None =>
      }
      pendingSend := true;
    }
  }

  // ---------- One session ----------

  function FreshEnd(key: bytes, priv: bytes): End { End(Some(key), Some(priv), None, 0, true) }

  /** The initiator `a` joins when its LRPROOF arrives; `toA` and `toB` are the packets in flight; the counters
      are the packets each end accepted and the duplications of the network. */
  datatype Session = Session(a: Option<End>, b: End, toA: seq<bytes>, toB: seq<bytes>, acceptedA: nat, acceptedB: nat,
                             duplicated: nat)

  datatype Setup = Setup(key: bytes, privA: bytes, privB: bytes)

  datatype Event = EstablishA | SendA | SendB | DeliverA(i: nat) | DeliverB(i: nat) | LoseA(i: nat) | LoseB(i: nat)
                 | DuplicateA(i: nat) | DuplicateB(i: nat)

  function Start(u: Setup): Session { Session(None, FreshEnd(u.key, u.privB), [], [], 0, 0, 0) }

  function Without(s: seq<bytes>, i: nat): seq<bytes>
    requires i < |s|
  {
    s[..i] + s[i + 1..]
  }

  /** One event; an event that cannot happen changes nothing. A packet for an initiator that is not established
      yet is dropped. */
  ghost function Next(c: Crypto, hmac: Hmac, u: Setup, s: Session, e: Event): Session {
    match e
    case EstablishA => if s.a.None? then s.(a := Some(FreshEnd(u.key, u.privA))) else s
    case SendA => if s.a.Some? && Sends(s.a.value)
      then s.(a := Some(AfterSend(s.a.value)), toB := s.toB + [RatchetData(c, s.a.value)]) else s
    case SendB => if Sends(s.b) then s.(b := AfterSend(s.b), toA := s.toA + [RatchetData(c, s.b)]) else s
    case DeliverA(i) => if i >= |s.toA| then s
      else if s.a.None? then s.(toA := Without(s.toA, i))
      else s.(toA := Without(s.toA, i), a := Some(AfterReceive(c, hmac, s.a.value, s.toA[i])),
              acceptedA := s.acceptedA + 1)
    case DeliverB(i) => if i >= |s.toB| then s
      else s.(toB := Without(s.toB, i), b := AfterReceive(c, hmac, s.b, s.toB[i]), acceptedB := s.acceptedB + 1)
    case LoseA(i) => if i < |s.toA| then s.(toA := Without(s.toA, i)) else s
    case LoseB(i) => if i < |s.toB| then s.(toB := Without(s.toB, i)) else s
    case DuplicateA(i) => if i < |s.toA| then s.(toA := s.toA + [s.toA[i]], duplicated := s.duplicated + 1) else s
    case DuplicateB(i) => if i < |s.toB| then s.(toB := s.toB + [s.toB[i]], duplicated := s.duplicated + 1) else s
  }

  ghost function Run(c: Crypto, hmac: Hmac, u: Setup, es: seq<Event>): Session {
    if es == [] then Start(u) else Next(c, hmac, u, Run(c, hmac, u, es[..|es| - 1]), es[|es| - 1])
  }

  /** The handshake key after `n` rotations with the one secret the two ratchet keys give. */
  ghost function Epoch(c: Crypto, hmac: Hmac, u: Setup, n: nat): bytes {
    if n == 0 then u.key else Rotate(hmac, Epoch(c, hmac, u, n - 1), c.dh(u.privA, c.publicOf(u.privB)))
  }

  /** Each epoch is HKDF of the one before it, salted with the exchanged ratchet secret, under the label "ratchet". */
  lemma EpochIsHkdf(c: Crypto, hmac: Hmac, u: Setup, n: nat)
    requires IsHmac(hmac)
    ensures Epoch(c, hmac, u, 0) == u.key
    ensures var x := c.dh(u.privA, c.publicOf(u.privB));
      Epoch(c, hmac, u, n + 1) ==
      hmac(hmac(if x != [] then x else seq(32, _ => 0), Epoch(c, hmac, u, n)),
           [0x72, 0x61, 0x74, 0x63, 0x68, 0x65, 0x74] + [1])
  {
    DerivedBlock(hmac, Epoch(c, hmac, u, n), c.dh(u.privA, c.publicOf(u.privB)), LABEL);
  }

  predicate Carries(s: seq<bytes>, pub: bytes) {
    forall i :: 0 <= i < |s| ==> |s[i]| >= 36 && s[i][..32] == pub
  }

  function Bit(b: bool): nat { if b then 1 else 0 }

  /** Every packet accepted, in flight or owed by an end was paid for by a packet that end accepted, by its first
      send, or by a duplication. */
  ghost predicate Credit(s: Session) {
    && s.acceptedA + |s.toA| + Bit(s.b.pendingSend) <= 1 + s.acceptedB + s.duplicated
    && if s.a.Some? then s.acceptedB + |s.toB| + Bit(s.a.value.pendingSend) <= 1 + s.acceptedA + s.duplicated
       else s.acceptedA == s.acceptedB == |s.toB| == 0
  }

  ghost predicate InStep(c: Crypto, hmac: Hmac, u: Setup, s: Session) {
    && s.b.sharedKey == Some(Epoch(c, hmac, u, s.acceptedB)) && s.b.ratchetPriv == Some(u.privB)
    && (s.a.Some? ==>
          s.a.value.sharedKey == Some(Epoch(c, hmac, u, s.acceptedA)) && s.a.value.ratchetPriv == Some(u.privA))
    && Carries(s.toA, c.publicOf(u.privB)) && Carries(s.toB, c.publicOf(u.privA))
  }

  /** A RATCHET packet is the sender's public ratchet key and its sequence number, least significant octet first. */
  lemma RatchetDataCarries(c: Crypto, e: End)
    requires c.Laws() && Sends(e)
    ensures |RatchetData(c, e)| == 36 && RatchetData(c, e)[..32] == c.publicOf(e.ratchetPriv.value)
    ensures e.sequence < 0x1_0000_0000 ==>
      var d := RatchetData(c, e);
      d[32] as int + 0x100 * (d[33] as int) + 0x1_0000 * (d[34] as int) + 0x100_0000 * (d[35] as int) == e.sequence
  {
    var d, s := RatchetData(c, e), e.sequence;
    assert forall i :: 0 <= i < 4 ==> d[32 + i] == ToLe(s, 4)[i];
    if s < 0x1_0000_0000 {
      FourOctets(s);
    }
  }

  lemma FourOctets(s: nat)
    requires s < 0x1_0000_0000
    ensures var l := ToLe(s, 4);
      l[0] as int + 0x100 * (l[1] as int) + 0x1_0000 * (l[2] as int) + 0x100_0000 * (l[3] as int) == s
  {
    var l, a, b, c := ToLe(s, 4), s / 256, s / 256 / 256, s / 256 / 256 / 256;
    assert ToLe(a, 3) == l[1..] && ToLe(b, 2) == ToLe(a, 3)[1..] && ToLe(c, 1) == ToLe(b, 2)[1..];
    assert l[0] as int == s % 256 && l[1] == ToLe(a, 3)[0] && l[2] == ToLe(b, 2)[0] && l[3] == ToLe(c, 1)[0];
  }

  /** Accepting the peer's packet rotates the key once, with the secret both ends compute. */
  lemma ReceiveRotates(c: Crypto, hmac: Hmac, u: Setup, e: End, own: bytes, peer: bytes, n: nat, data: bytes)
    requires c.Laws() && |data| >= 36 && data[..32] == c.publicOf(peer)
    requires (own, peer) == (u.privA, u.privB) || (own, peer) == (u.privB, u.privA)
    requires e.sharedKey == Some(Epoch(c, hmac, u, n)) && e.ratchetPriv == Some(own)
    ensures AfterReceive(c, hmac, e, data).sharedKey == Some(Epoch(c, hmac, u, n + 1))
    ensures AfterReceive(c, hmac, e, data).ratchetPriv == Some(own)
  {
    assert c.dh(own, c.publicOf(peer)) == c.dh(u.privA, c.publicOf(u.privB));
  }

  lemma CarriesEdits(s: seq<bytes>, pub: bytes)
    requires Carries(s, pub)
    ensures forall i :: 0 <= i < |s| ==> Carries(Without(s, i), pub) && Carries(s + [s[i]], pub)
  {
  }

  lemma SendKeepsStep(c: Crypto, hmac: Hmac, u: Setup, s: Session, e: Event)
    requires c.Laws() && InStep(c, hmac, u, s) && (e.SendA? || e.SendB?)
    ensures InStep(c, hmac, u, Next(c, hmac, u, s, e))
  {
    if e.SendA? && s.a.Some? && Sends(s.a.value) {
      RatchetDataCarries(c, s.a.value);
    } else if e.SendB? && Sends(s.b) {
      RatchetDataCarries(c, s.b);
    }
  }

  lemma DeliverKeepsStep(c: Crypto, hmac: Hmac, u: Setup, s: Session, e: Event)
    requires c.Laws() && InStep(c, hmac, u, s) && (s.a.None? ==> s.acceptedA == 0) && (e.DeliverA? || e.DeliverB?)
    ensures InStep(c, hmac, u, Next(c, hmac, u, s, e))
  {
    if e.DeliverA? {
      CarriesEdits(s.toA, c.publicOf(u.privB));
      if e.i < |s.toA| && s.a.Some? {
        ReceiveRotates(c, hmac, u, s.a.value, u.privA, u.privB, s.acceptedA, s.toA[e.i]);
      }
    } else {
      CarriesEdits(s.toB, c.publicOf(u.privA));
      if e.i < |s.toB| {
        ReceiveRotates(c, hmac, u, s.b, u.privB, u.privA, s.acceptedB, s.toB[e.i]);
      }
    }
  }

  lemma NextKeepsStep(c: Crypto, hmac: Hmac, u: Setup, s: Session, e: Event)
    requires c.Laws() && InStep(c, hmac, u, s) && (s.a.None? ==> s.acceptedA == 0)
    ensures InStep(c, hmac, u, Next(c, hmac, u, s, e))
  {
    if e.SendA? || e.SendB? {
      SendKeepsStep(c, hmac, u, s, e);
    } else if e.DeliverA? || e.DeliverB? {
      DeliverKeepsStep(c, hmac, u, s, e);
    } else {
      CarriesEdits(s.toA, c.publicOf(u.privB));
      CarriesEdits(s.toB, c.publicOf(u.privA));
    }
  }

  lemma NextKeepsCredit(c: Crypto, hmac: Hmac, u: Setup, s: Session, e: Event)
    requires c.Laws() && InStep(c, hmac, u, s) && Credit(s)
    ensures Credit(Next(c, hmac, u, s, e))
  {
  }

  lemma {:induction false} RunInvariant(c: Crypto, hmac: Hmac, u: Setup, es: seq<Event>)
    requires c.Laws()
    ensures InStep(c, hmac, u, Run(c, hmac, u, es)) && Credit(Run(c, hmac, u, es))
  {
    if es != [] {
      RunInvariant(c, hmac, u, es[..|es| - 1]);
      NextKeepsStep(c, hmac, u, Run(c, hmac, u, es[..|es| - 1]), es[|es| - 1]);
      NextKeepsCredit(c, hmac, u, Run(c, hmac, u, es[..|es| - 1]), es[|es| - 1]);
    }
  }

  /** Ratchet epochs: in every run each end's key is the handshake key rotated once per packet it accepted, equal
      counts give equal keys, and the counts differ by at most one more than the network's duplications. */
  lemma EpochsStayInStep(c: Crypto, hmac: Hmac, u: Setup, es: seq<Event>)
    requires c.Laws()
    ensures var s := Run(c, hmac, u, es);
      && s.b.sharedKey == Some(Epoch(c, hmac, u, s.acceptedB))
      && (s.a.Some? ==> s.a.value.sharedKey == Some(Epoch(c, hmac, u, s.acceptedA)))
      && -1 - s.duplicated <= s.acceptedA - s.acceptedB <= 1 + s.duplicated
      && (s.a.Some? && s.acceptedA == s.acceptedB ==> s.a.value.sharedKey == s.b.sharedKey)
  {
    RunInvariant(c, hmac, u, es);
  }

  /** The bound is reached at both ends, for every number of duplications: a run with the initiator ahead and a run with
      the responder ahead. */
  lemma SkewIsTight(c: Crypto, hmac: Hmac, u: Setup, d: nat) returns (aheadA: seq<Event>, aheadB: seq<Event>)
    requires c.Laws()
    ensures var s := Run(c, hmac, u, aheadA); s.duplicated == d && s.acceptedA - s.acceptedB == 1 + d
    ensures var s := Run(c, hmac, u, aheadB); s.duplicated == d && s.acceptedA - s.acceptedB == -1 - d
  {
    aheadA, aheadB := DuplicatedSend(c, hmac, u, d);
    aheadA := DrainToA(c, hmac, u, aheadA, d + 1);
    aheadB := DrainToB(c, hmac, u, aheadB, d + 1);
  }

  /** One packet to either end, duplicated `d` times. */
  lemma {:induction false} DuplicatedSend(c: Crypto, hmac: Hmac, u: Setup, d: nat)
    returns (toA: seq<Event>, toB: seq<Event>)
    requires c.Laws()
    ensures var s := Run(c, hmac, u, toA);
      s.a.Some? && s.duplicated == d && |s.toA| == d + 1 && s.acceptedA == s.acceptedB == 0
    ensures var s := Run(c, hmac, u, toB);
      s.a.Some? && s.duplicated == d && |s.toB| == d + 1 && s.acceptedA == s.acceptedB == 0
  {
    if d == 0 {
      RunSnoc(c, hmac, u, [], EstablishA);
      assert [] + [EstablishA] == [EstablishA];
      RunSnoc(c, hmac, u, [EstablishA], SendB);
      RunSnoc(c, hmac, u, [EstablishA], SendA);
      toA, toB := [EstablishA] + [SendB], [EstablishA] + [SendA];
    } else {
      var priorA, priorB := DuplicatedSend(c, hmac, u, d - 1);
      RunSnoc(c, hmac, u, priorA, DuplicateA(0));
      RunSnoc(c, hmac, u, priorB, DuplicateB(0));
      toA, toB := priorA + [DuplicateA(0)], priorB + [DuplicateB(0)];
    }
  }

  lemma {:induction false} DrainToA(c: Crypto, hmac: Hmac, u: Setup, es: seq<Event>, n: nat) returns (es': seq<Event>)
    requires c.Laws()
    requires var s := Run(c, hmac, u, es); s.a.Some? && |s.toA| == n
    ensures var s, s' := Run(c, hmac, u, es), Run(c, hmac, u, es');
      s'.duplicated == s.duplicated && s'.acceptedA == s.acceptedA + n && s'.acceptedB == s.acceptedB
    decreases n
  {
    if n == 0 {
      es' := es;
    } else {
      RunSnoc(c, hmac, u, es, DeliverA(0));
      es' := DrainToA(c, hmac, u, es + [DeliverA(0)], n - 1);
    }
  }

  lemma {:induction false} DrainToB(c: Crypto, hmac: Hmac, u: Setup, es: seq<Event>, n: nat) returns (es': seq<Event>)
    requires c.Laws()
    requires |Run(c, hmac, u, es).toB| == n
    ensures var s, s' := Run(c, hmac, u, es), Run(c, hmac, u, es');
      s'.duplicated == s.duplicated && s'.acceptedB == s.acceptedB + n && s'.acceptedA == s.acceptedA
    decreases n
  {
    if n == 0 {
      es' := es;
    } else {
      RunSnoc(c, hmac, u, es, DeliverB(0));
      es' := DrainToB(c, hmac, u, es + [DeliverB(0)], n - 1);
    }
  }

  lemma RunSnoc(c: Crypto, hmac: Hmac, u: Setup, es: seq<Event>, e: Event)
    ensures Run(c, hmac, u, es + [e]) == Next(c, hmac, u, Run(c, hmac, u, es), e)
  {
    assert (es + [e])[..|es|] == es;
  }
}
