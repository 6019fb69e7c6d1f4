/** The LINKREQUEST / LRPROOF handshake of the daemon (crates/daemon/src/lib.rs).

    `Daemon` follows the handlers over their maps; `Connected`, `Answered` and `Proved` are the same
    steps on values, and `World` runs any number of daemons against a network that may deliver any
    packet to anyone, in any order, any number of times. */
module Handshake {
  import opened Bytes
  import opened Packets

  /** The cryptographic libraries, seen only through their interfaces. A signature key is written as its
      public half; `sign(k, m)` is what the holder of `k` produces. */
  datatype Crypto = Crypto(
    publicOf: bytes -> bytes,
    dh: (bytes, bytes) -> bytes,
    sign: (bytes, bytes) -> bytes,
    verify: (bytes, bytes, bytes) -> bool,
    sha256: bytes -> bytes)
  {
    /** Sizes, commutativity of the key exchange, and acceptance of genuine signatures. */
    ghost predicate Laws() {
      && (forall s :: |publicOf(s)| == 32)
      && (forall a, b :: dh(a, publicOf(b)) == dh(b, publicOf(a)))
      && (forall k, m :: |sign(k, m)| == 64 && verify(k, m, sign(k, m)))
      && (forall m :: |sha256(m)| == 32)
    }
  }

  type Key = k: bytes | |k| == 32 witness seq(32, _ => 0)

  datatype LinkState = Closed | Handshaking | Established

  /** The fields of a link that the handshake sets; `Links.Link` has those its data path uses. */
  datatype Link = Link(
    remote: Hash,
    linkId: Hash,
    initiator: bool,
    state: LinkState,
    sharedKey: Option<bytes>,
    remoteSigningKey: Option<Key>,
    ratchetPriv: Option<bytes>,
    ratchetPending: bool)

  datatype Pending = Pending(linkId: Hash, ephemeralPriv: bytes)

  datatype Node = Node(
    identityKey: Key,
    channels: map<Hash, Link>,
    pendingChannels: map<Hash, Link>,
    pendingLinks: map<Hash, Pending>,
    peerKeys: map<Hash, Key>)

  function LinkId(c: Crypto, p: Packet): Hash
    requires |c.sha256(LinkHashable(p))| == 32
  {
    c.sha256(LinkHashable(p))[..16]
  }

  // ---------- The handlers, on values ----------

  /** Three octets packing the MTU and the cipher mode. */
  const SIGNALLING: bytes := [0x20, 0x02, 0x00]

  function RequestPacket(c: Crypto, remote: Hash, destHash: Option<Hash>, eph: bytes, sigPub: Key): Packet {
    Packet(HEADER_1, 0, 1, 0, LINKREQUEST, MAX_HOPS, if destHash.Some? then destHash.value else remote, None, NONE,
           c.publicOf(eph) + sigPub + SIGNALLING)
  }

  ghost function Connected(c: Crypto, n: Node, remote: Hash, destHash: Option<Hash>, eph: bytes, sigPub: Key): Node
    requires c.Laws()
  {
    if remote in n.channels || remote in n.pendingChannels then n
    else
      var id := LinkId(c, RequestPacket(c, remote, destHash, eph, sigPub));
      n.(pendingChannels := n.pendingChannels[remote := Link(remote, id, true, Handshaking, None, None, None, false)],
         pendingLinks := n.pendingLinks[remote := Pending(id, eph)])
  }

  /** The three octets at `at`, or zeros when the packet stops short. */
  function SignallingAt(data: bytes, at: nat): (s: bytes)
    ensures |s| == 3
  {
    if |data| >= at + 3 then data[at..at + 3] else [0, 0, 0]
  }

  function SignedData(linkId: Hash, eph: Key, identity: Key, signalling: bytes): bytes {
    linkId + eph + identity + signalling
  }

  predicate Answerable(n: Node, from: Hash, p: Packet) {
    |p.data| >= 64 && from in n.peerKeys
  }

  ghost function Answered(c: Crypto, n: Node, from: Hash, p: Packet, eph: bytes, ratchet: bytes): Node
    requires c.Laws()
  {
    if !Answerable(n, from, p) then n
    else n.(channels := n.channels[from :=
              Link(from, LinkId(c, p), false, Established, Some(c.dh(eph, p.data[..32])), Some(n.peerKeys[from]),
                   Some(ratchet), true)])
  }

  ghost function ProofPacket(c: Crypto, n: Node, p: Packet, eph: bytes): Packet
    requires c.Laws() && |p.data| >= 64
  {
    var signalling := SignallingAt(p.data, 64);
    Packet(HEADER_1, 0, 1, 0, PROOF, 0, LinkId(c, p), None, LRPROOF,
           c.sign(n.identityKey, SignedData(LinkId(c, p), c.publicOf(eph), n.identityKey, signalling))
           + c.publicOf(eph) + signalling)
  }

  /** A lookup that tries the sender's address and then scans for the link identifier, in any order. */
  predicate Finds(ids: map<Hash, Hash>, from: Hash, id: Hash, found: Option<Hash>) {
    match found
    case Some(k) => if from in ids then k == from else k in ids && ids[k] == id
    case None => from !in ids && forall k :: k in ids ==> ids[k] != id
  }

  function ChannelIds(m: map<Hash, Link>): map<Hash, Hash> { map k | k in m :: m[k].linkId }

  function PendingIds(m: map<Hash, Pending>): map<Hash, Hash> { map k | k in m :: m[k].linkId }

  predicate Lookups(n: Node, from: Hash, p: Packet, ck: Option<Hash>, pk: Option<Hash>) {
    && Finds(ChannelIds(n.pendingChannels), from, p.destinationHash, ck)
    && (ck.Some? ==> Finds(PendingIds(n.pendingLinks), from, p.destinationHash, pk))
  }

  predicate ProofHolds(c: Crypto, linkId: Hash, remoteKey: Key, data: bytes) {
    && |data| >= 96
    && c.verify(remoteKey, SignedData(linkId, data[64..96], remoteKey, SignallingAt(data, 96)), data[..64])
  }

  /** The LRPROOF branch, for the keys `ck` and `pk` the two lookups returned. */
  function Proved(c: Crypto, n: Node, from: Hash, p: Packet, ck: Option<Hash>, pk: Option<Hash>, ratchet: bytes): Node
    requires Lookups(n, from, p, ck, pk)
  {
    if ck.None? then n
    else
      var k := ck.value;
      var channel := n.pendingChannels[k];
      var others := n.pendingChannels - {k};
      if pk.None? then n.(pendingChannels := others[from := channel])
      else
        var pending := n.pendingLinks[pk.value];
        var rest := n.pendingLinks - {pk.value};
        if k !in n.peerKeys then n.(pendingLinks := rest)
        else if !ProofHolds(c, pending.linkId, n.peerKeys[k], p.data) then
          n.(pendingChannels := others, pendingLinks := rest)
        else
          n.(pendingChannels := others, pendingLinks := rest,
             channels := n.channels[k :=
               channel.(sharedKey := Some(c.dh(pending.ephemeralPriv, p.data[64..96])),
                        remoteSigningKey := Some(n.peerKeys[k]), state := Established,
                        ratchetPriv := Some(ratchet), ratchetPending := true)])
  }

  /** What an LRPROOF does, for each outcome of the two lookups: the sender's own entry comes first, then any entry that
      the packet names; a lost pending key moves the channel to the sender's address, an unknown peer costs the pending
      key, a proof that does not verify costs both entries, and only a proof that verifies establishes the link. */
  lemma LrproofOutcomes(c: Crypto, n: Node, from: Hash, p: Packet, ck: Option<Hash>, pk: Option<Hash>, ratchet: bytes)
    requires Lookups(n, from, p, ck, pk)
    ensures ck.None? <==>
      from !in n.pendingChannels && forall k :: k in n.pendingChannels ==> n.pendingChannels[k].linkId != p.destinationHash
    ensures ck.Some? ==>
      && ck.value in n.pendingChannels
      && (ck.value == from || (from !in n.pendingChannels && n.pendingChannels[ck.value].linkId == p.destinationHash))
      && (pk.None? <==>
            from !in n.pendingLinks && forall k :: k in n.pendingLinks ==> n.pendingLinks[k].linkId != p.destinationHash)
      && (pk.Some? ==>
            && pk.value in n.pendingLinks
            && (pk.value == from || (from !in n.pendingLinks && n.pendingLinks[pk.value].linkId == p.destinationHash)))
    ensures var n' := Proved(c, n, from, p, ck, pk, ratchet);
      && n'.identityKey == n.identityKey && n'.peerKeys == n.peerKeys
      && (ck.None? ==> n' == n)
      && (ck.Some? && pk.None? ==>
            && n'.channels == n.channels && n'.pendingLinks == n.pendingLinks
            && n'.pendingChannels == (n.pendingChannels - {ck.value})[from := n.pendingChannels[ck.value]])
      && (ck.Some? && pk.Some? ==>
            && n'.pendingLinks == n.pendingLinks - {pk.value}
            && n'.pendingChannels == (if ck.value in n.peerKeys then n.pendingChannels - {ck.value} else n.pendingChannels)
            && (ck.value !in n.peerKeys ==> n'.channels == n.channels))
  {
    assert forall k :: k in n.pendingChannels ==>
      k in ChannelIds(n.pendingChannels) && ChannelIds(n.pendingChannels)[k] == n.pendingChannels[k].linkId;
    assert forall k :: k in n.pendingLinks ==>
      k in PendingIds(n.pendingLinks) && PendingIds(n.pendingLinks)[k] == n.pendingLinks[k].linkId;
  }

  /** The signature check: when both lookups succeed and the peer's key is known, a link is established if and only if
      the signature over identifier, ephemeral key, peer key and signalling verifies under the peer's key. The link is the
      pending one with the exchanged secret, the peer's key and the new ratchet key; no other channel changes. */
  lemma EstablishedExactly(c: Crypto, n: Node, from: Hash, p: Packet, ck: Option<Hash>, pk: Option<Hash>, ratchet: bytes)
    requires Lookups(n, from, p, ck, pk) && ck.Some? && pk.Some? && ck.value in n.peerKeys
    ensures var a, pending := ck.value, n.pendingLinks[pk.value];
      var key, channels := n.peerKeys[a], Proved(c, n, from, p, ck, pk, ratchet).channels;
      if |p.data| >= 96
         && c.verify(key,
                     pending.linkId + p.data[64..96] + key + (if |p.data| >= 99 then p.data[96..99] else [0, 0, 0]),
                     p.data[..64])
      then channels == n.channels[a :=
             n.pendingChannels[a].(sharedKey := Some(c.dh(pending.ephemeralPriv, p.data[64..96])),
                                   remoteSigningKey := Some(key), state := Established, ratchetPriv := Some(ratchet),
                                   ratchetPending := true)]
      else channels == n.channels
  {
  }

  /** So whatever an LRPROOF brings, a channel that is new or changed afterwards rests on a signature that verifies. */
  lemma NewLinkIsVerified(c: Crypto, n: Node, from: Hash, p: Packet, ck: Option<Hash>, pk: Option<Hash>, ratchet: bytes,
                          a: Hash)
    requires Lookups(n, from, p, ck, pk)
    requires var channels := Proved(c, n, from, p, ck, pk, ratchet).channels;
      a in channels && !(a in n.channels && channels[a] == n.channels[a])
    ensures ck == Some(a) && pk.Some? && pk.value in n.pendingLinks && a in n.peerKeys && |p.data| >= 96
    ensures c.verify(n.peerKeys[a],
                     n.pendingLinks[pk.value].linkId + p.data[64..96] + n.peerKeys[a]
                       + (if |p.data| >= 99 then p.data[96..99] else [0, 0, 0]),
                     p.data[..64])
    ensures var l := Proved(c, n, from, p, ck, pk, ratchet).channels[a];
      && l.remoteSigningKey == Some(n.peerKeys[a]) && l.state == Established
      && l.sharedKey == Some(c.dh(n.pendingLinks[pk.value].ephemeralPriv, p.data[64..96]))
  {
    LrproofOutcomes(c, n, from, p, ck, pk, ratchet);
    if ck.Some? && pk.Some? && ck.value in n.peerKeys {
      EstablishedExactly(c, n, from, p, ck, pk, ratchet);
    }
  }

  /** The LRPROOF establishes a link. */
  predicate Establishes(c: Crypto, n: Node, from: Hash, p: Packet, ck: Option<Hash>, pk: Option<Hash>)
    requires Lookups(n, from, p, ck, pk)
  {
    && ck.Some? && pk.Some? && ck.value in n.peerKeys
    && ProofHolds(c, n.pendingLinks[pk.value].linkId, n.peerKeys[ck.value], p.data)
  }

  // ---------- The handlers, in place ----------

  class Daemon {
    const crypto: Crypto
    const identityKey: Key
    var channels: map<Hash, Link>
    var pendingChannels: map<Hash, Link>
    var pendingLinks: map<Hash, Pending>
    var peerKeys: map<Hash, Key>

    ghost function View(): Node
      reads this
    {
      Node(identityKey, channels, pendingChannels, pendingLinks, peerKeys)
    }

    constructor (crypto: Crypto, identityKey: Key)
      ensures this.crypto == crypto
      ensures View() == Node(identityKey, map[], map[], map[], map[])
    {
      this.crypto, this.identityKey := crypto, identityKey;
      channels, pendingChannels, pendingLinks, peerKeys := map[], map[], map[], map[];
    }

    method RegisterPeer(addr: Hash, key: Key)
      modifies this`peerKeys
      ensures View() == old(View()).(peerKeys := old(peerKeys)[addr := key])
    {
      peerKeys := peerKeys[addr := key];
    }

    method Connect(remote: Hash, destHash: Option<Hash>, eph: bytes, sigPub: Key) returns (request: Option<Packet>)
      requires crypto.Laws()
      modifies this`pendingChannels, this`pendingLinks
      ensures View() == Connected(crypto, old(View()), remote, destHash, eph, sigPub)
      ensures request.None? <==> remote in old(channels) || remote in old(pendingChannels)
      ensures request.Some? ==> request.value == RequestPacket(crypto, remote, destHash, eph, sigPub)
      ensures request.None? ==> View() == old(View())
    {
      if remote in channels || remote in pendingChannels {
        return None;
      }
      var packet := RequestPacket(crypto, remote, destHash, eph, sigPub);
      var linkId := LinkId(crypto, packet);
      pendingChannels := pendingChannels[remote := Link(remote, linkId, true, Handshaking, None, None, None, false)];
      pendingLinks := pendingLinks[remote := Pending(linkId, eph)];
      return Some(packet);
    }

    method HandleLinkRequest(from: Hash, packet: Packet, eph: bytes, ratchet: bytes) returns (proof: Option<Packet>)
      requires crypto.Laws()
      modifies this`channels
      ensures View() == Answered(crypto, old(View()), from, packet, eph, ratchet)
      ensures proof.Some? <==> |packet.data| >= 64 && from in old(peerKeys)
      ensures proof.Some? ==> proof.value == ProofPacket(crypto, old(View()), packet, eph)
      ensures proof.Some? ==>
        var id, ours := crypto.sha256(LinkHashable(packet))[..16], crypto.publicOf(eph);
        var signalling := if |packet.data| >= 67 then packet.data[64..67] else [0, 0, 0];
        && proof.value.data == crypto.sign(identityKey, id + ours + identityKey + signalling) + ours + signalling
        && channels == old(channels)[from :=
             Link(from, id, false, Established, Some(crypto.dh(eph, packet.data[..32])), Some(peerKeys[from]),
                  Some(ratchet), true)]
    {
      if |packet.data| < 64 || from !in peerKeys {
        return None;
      }
      var signalling := SignallingAt(packet.data, 64);
      var linkId := LinkId(crypto, packet);
      var ours := crypto.publicOf(eph);
      var sharedKey := crypto.dh(eph, packet.data[..32]);
      var signature := crypto.sign(identityKey, SignedData(linkId, ours, identityKey, signalling));
      var link := Link(from, linkId, false, Established, Some(sharedKey), Some(peerKeys[from]), Some(ratchet), true);
      channels := channels[from := link];
      return Some(Packet(HEADER_1, 0, 1, 0, PROOF, 0, linkId, None, LRPROOF, signature + ours + signalling));
    }

    method HandleLrproof(from: Hash, packet: Packet, ratchet: bytes)
      returns (ghost ck: Option<Hash>, ghost pk: Option<Hash>)
      modifies this`channels, this`pendingChannels, this`pendingLinks
      ensures Lookups(old(View()), from, packet, ck, pk)
      ensures View() == Proved(crypto, old(View()), from, packet, ck, pk, ratchet)
    {
      var id := packet.destinationHash;
      ck, pk := None, None;
      var identity := from;
      if from !in pendingChannels {
        if !exists k :: k in pendingChannels && pendingChannels[k].linkId == id {
          return;
        }
        identity :| identity in pendingChannels && pendingChannels[identity].linkId == id;
      }
      ck := Some(identity);
      var channel := pendingChannels[identity];
      pendingChannels := pendingChannels - {identity};

      var slot := from;
      if from !in pendingLinks {
        if !exists k :: k in pendingLinks && pendingLinks[k].linkId == id {
          pendingChannels := pendingChannels[from := channel];
          return;
        }
        slot :| slot in pendingLinks && pendingLinks[slot].linkId == id;
      }
      pk := Some(slot);
      var pending := pendingLinks[slot];
      pendingLinks := pendingLinks - {slot};

      if identity !in peerKeys {
        pendingChannels := pendingChannels[identity := channel];
        assert pendingChannels == old(pendingChannels);
        return;
      }
      var remoteKey := peerKeys[identity];
      if |packet.data| < 96 {
        return;
      }
      var signature, theirs := packet.data[..64], packet.data[64..96];
      var signed := SignedData(pending.linkId, theirs, remoteKey, SignallingAt(packet.data, 96));
      if !crypto.verify(remoteKey, signed, signature) {
        return;
      }
      channel := channel.(sharedKey := Some(crypto.dh(pending.ephemeralPriv, theirs)),
                          remoteSigningKey := Some(remoteKey), state := Established,
                          ratchetPriv := Some(ratchet), ratchetPending := true);
      channels := channels[identity := channel];
    }
  }
}
