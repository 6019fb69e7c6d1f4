/** Links (crates/transport/src/link.rs): link encryption, transport identifiers, and the data path. */
module Links {
  import opened Bytes
  import opened Packets
  import opened Hkdf

  /** The cryptographic libraries. `cbcEncrypt` and `cbcDecrypt` take key, IV and whole blocks; `sealFor` is
      `Keys::encrypt_for` with its randomness explicit, `openFrom` is `Keys::decrypt_from`. */
  datatype Cipher = Cipher(
    hmac: Hmac,
    cbcEncrypt: (bytes, bytes, bytes) -> bytes,
    cbcDecrypt: (bytes, bytes, bytes) -> bytes,
    sealFor: (bytes, bytes, bytes, bytes) -> bytes,
    openFrom: (bytes, bytes) -> Option<bytes>)
  {
    ghost predicate Laws() {
      && IsHmac(hmac)
      && (forall k, iv, m :: |m| % BLOCK == 0 ==>
            |cbcEncrypt(k, iv, m)| == |m| && cbcDecrypt(k, iv, cbcEncrypt(k, iv, m)) == m)
      && (forall k, a, r, m :: |sealFor(k, a, r, m)| == 80 + Padded(|m|))
    }
  }

  /** The laws can be met. */
  lemma LawsAreConsistent() returns (c: Cipher)
    ensures c.Laws()
  {
    c := Cipher((_, _) => Zeros(32), (_, _, m) => m, (_, _, m) => m, (_, _, _, m) => Zeros(80 + Padded(|m|)),
                (_, _) => None);
  }

  const BLOCK := 16

  /** Length after padding per section 6.3 of RFC 5652. */
  function Padded(n: nat): nat { BLOCK * (n / BLOCK + 1) }

  function Pad(m: bytes): (r: bytes)
    ensures |r| == Padded(|m|)
  {
    var n := BLOCK - |m| % BLOCK;
    m + seq(n, _ => n as byte)
  }

  function Unpad(m: bytes): Option<bytes> {
    if m == [] || |m| % BLOCK != 0 then None
    else
      var n := m[|m| - 1] as int;
      if n == 0 || n > BLOCK || exists i :: |m| - n <= i < |m| && m[i] as int != n then None
      else Some(m[..|m| - n])
  }

  lemma UnpadPad(m: bytes)
    ensures Unpad(Pad(m)) == Some(m)
  {
    assert Pad(m)[..|m|] == m;
  }

  // ---------- Link encryption ----------

  /** "ReticulumLinkKey" */
  const LINK_LABEL: bytes :=
    [0x52, 0x65, 0x74, 0x69, 0x63, 0x75, 0x6c, 0x75, 0x6d, 0x4c, 0x69, 0x6e, 0x6b, 0x4b, 0x65, 0x79]

  ghost function LinkKeys(c: Cipher, key: bytes, linkId: Hash): (k: bytes)
    requires c.Laws()
    ensures |k| == 32
  {
    DerivedIsRfc5869(c.hmac, 32, key, Some(linkId), Some(LINK_LABEL));
    Derived(c.hmac, 32, key, Some(linkId), Some(LINK_LABEL))
  }

  /** Ciphertext followed by its HMAC. */
  ghost function Seal(c: Cipher, key: bytes, linkId: Hash, plain: bytes): (r: bytes)
    requires c.Laws()
    ensures |r| == Padded(|plain|) + 32
  {
    var k := LinkKeys(c, key, linkId);
    var ct := c.cbcEncrypt(k[..16], k[16..], Pad(plain));
    ct + c.hmac(k[..16], ct)
  }

  ghost function Open(c: Cipher, key: bytes, linkId: Hash, sealed: bytes): Option<bytes>
    requires c.Laws()
  {
    if |sealed| < 32 then None
    else
      var k := LinkKeys(c, key, linkId);
      var ct := sealed[..|sealed| - 32];
      if c.hmac(k[..16], ct) != sealed[|sealed| - 32..] then None
      else if |ct| % BLOCK != 0 then None
      else Unpad(c.cbcDecrypt(k[..16], k[16..], ct))
  }

  lemma OpenSeal(c: Cipher, key: bytes, linkId: Hash, plain: bytes)
    requires c.Laws()
    ensures Open(c, key, linkId, Seal(c, key, linkId, plain)) == Some(plain)
  {
    var k := LinkKeys(c, key, linkId);
    var ct := c.cbcEncrypt(k[..16], k[16..], Pad(plain));
    var sealed := Seal(c, key, linkId, plain);
    assert sealed[..|sealed| - 32] == ct && sealed[|sealed| - 32..] == c.hmac(k[..16], ct);
    UnpadPad(plain);
  }

  /** The cipher key and the IV: the halves of HKDF of the shared key, salted with the link identifier, under the label
      "ReticulumLinkKey". */
  lemma LinkKeysAreHkdf(c: Cipher, key: bytes, linkId: Hash)
    requires c.Laws()
    ensures LinkKeys(c, key, linkId) ==
      c.hmac(c.hmac(linkId, key),
             [0x52, 0x65, 0x74, 0x69, 0x63, 0x75, 0x6c, 0x75, 0x6d, 0x4c, 0x69, 0x6e, 0x6b, 0x4b, 0x65, 0x79] + [1])
  {
    DerivedBlock(c.hmac, key, linkId, LINK_LABEL);
  }

  /** The message with its padding: one to sixteen octets, each of which is their number, up to a multiple of
      sixteen. */
  predicate IsPadded(padded: bytes, m: bytes, n: nat) {
    1 <= n <= 16 && |padded| % 16 == 0 && padded == m + seq(n, _ => n as byte)
  }

  /** What is sent: the padded message encrypted under those keys, and then the tag of the ciphertext. */
  lemma SealExactly(c: Cipher, key: bytes, linkId: Hash, plain: bytes)
    requires c.Laws()
    ensures var k := LinkKeys(c, key, linkId);
      var padded := Pad(plain);
      var ct := c.cbcEncrypt(k[..16], k[16..], padded);
      IsPadded(padded, plain, 16 - |plain| % 16) && Seal(c, key, linkId, plain) == ct + c.hmac(k[..16], ct)
  {
  }

  /** What is accepted: octets open to a message if and only if they end in the tag of what comes before, that is a whole
      number of blocks, and it decrypts to the message with its padding. A wrong tag is always refused. */
  lemma OpenExactly(c: Cipher, key: bytes, linkId: Hash, sealed: bytes, plain: bytes)
    requires c.Laws()
    ensures var k := LinkKeys(c, key, linkId);
      Open(c, key, linkId, sealed) == Some(plain) <==>
        && |sealed| >= 32
        && var ct := sealed[..|sealed| - 32];
        && sealed[|sealed| - 32..] == c.hmac(k[..16], ct) && |ct| % 16 == 0
        && exists n: nat :: IsPadded(c.cbcDecrypt(k[..16], k[16..], ct), plain, n)
  {
    if |sealed| >= 32 {
      var k := LinkKeys(c, key, linkId);
      UnpadExactly(c.cbcDecrypt(k[..16], k[16..], sealed[..|sealed| - 32]), plain);
    }
  }

  lemma UnpadExactly(padded: bytes, m: bytes)
    ensures Unpad(padded) == Some(m) <==> exists n: nat :: IsPadded(padded, m, n)
  {
    if Unpad(padded) == Some(m) {
      var n := padded[|padded| - 1] as int;
      assert padded == m + seq(n, _ => n as byte);
      assert IsPadded(padded, m, n);
    }
    if n: nat :| IsPadded(padded, m, n) {
      assert padded[|padded| - 1] == n as byte && padded[..|padded| - n] == m;
    }
  }

  method EncryptLinkData(c: Cipher, plain: bytes, key: bytes, linkId: Hash) returns (sealed: bytes)
    requires c.Laws()
    ensures sealed == Seal(c, key, linkId, plain)
  {
    var derived := HkdfSha256(c.hmac, 32, key, Some(linkId), Some(LINK_LABEL));
    assert derived == LinkKeys(c, key, linkId);
    var ct := c.cbcEncrypt(derived[..16], derived[16..32], Pad(plain));
    assert derived[16..32] == derived[16..];
    sealed := ct + c.hmac(derived[..16], ct);
  }

  method DecryptLinkData(c: Cipher, sealed: bytes, key: bytes, linkId: Hash) returns (plain: Option<bytes>)
    requires c.Laws()
    ensures plain == Open(c, key, linkId, sealed)
  {
    if |sealed| < 32 {
      return None;
    }
    var ct, tag := sealed[..|sealed| - 32], sealed[|sealed| - 32..];
    var derived := HkdfSha256(c.hmac, 32, key, Some(linkId), Some(LINK_LABEL));
    assert derived == LinkKeys(c, key, linkId);
    if c.hmac(derived[..16], ct) != tag || |ct| % BLOCK != 0 {
      return None;
    }
    assert derived[16..32] == derived[16..];
    plain := Unpad(c.cbcDecrypt(derived[..16], derived[16..32], ct));
  }

  // ---------- Transport identifiers ----------

  function Pow2(k: nat): nat { if k == 0 then 1 else 2 * Pow2(k - 1) }

  /** The exclusive or of the low `k` bits. */
  function XorBits(a: nat, b: nat, k: nat): (r: nat)
    ensures r < Pow2(k)
  {
    if k == 0 then 0 else (a + b) % 2 + 2 * XorBits(a / 2, b / 2, k - 1)
  }

  function Xor(a: byte, b: byte): byte {
    assert Pow2(8) == 256;
    XorBits(a as int, b as int, 8) as byte
  }

  function XorHash(a: Hash, b: Hash): Hash { seq(HASH_LENGTH, i requires 0 <= i < HASH_LENGTH => Xor(a[i], b[i])) }

  method DeriveTransportId(local: Hash, remote: Hash) returns (id: Hash)
    ensures id == XorHash(local, remote)
  {
    var a := new byte[HASH_LENGTH](_ => 0);
    for i := 0 to HASH_LENGTH
      invariant a.Length == HASH_LENGTH
      invariant forall j :: 0 <= j < i ==> a[j] == Xor(local[j], remote[j])
    {
      a[i] := Xor(local[i], remote[i]);
    }
    id := a[..];
  }

  /** Bit `j` of the exclusive or is set when exactly one of the two has it set. */
  lemma {:induction false} XorBit(a: nat, b: nat, k: nat, j: nat)
    requires j < k
    ensures Bit(XorBits(a, b, k), j) == (Bit(a, j) + Bit(b, j)) % 2
  {
    var rest := XorBits(a / 2, b / 2, k - 1);
    assert XorBits(a, b, k) == (a + b) % 2 + 2 * rest;
    if j == 0 {
      ParityOfSum(a, b);
    } else {
      assert XorBits(a, b, k) / 2 == rest;
      XorBit(a / 2, b / 2, k - 1, j - 1);
    }
  }

  lemma ParityOfSum(a: nat, b: nat)
    ensures (a + b) % 2 == (a % 2 + b % 2) % 2
  {
    assert a + b == 2 * (a / 2 + b / 2) + (a % 2 + b % 2);
  }

  /** The identifier of a link is the exclusive or of the two addresses, bit by bit. */
  lemma TransportIdIsXor(a: Hash, b: Hash, i: nat, j: nat)
    requires i < 16 && j < 8
    ensures Bit(XorHash(a, b)[i] as int, j) == (Bit(a[i] as int, j) + Bit(b[i] as int, j)) % 2
  {
    XorBit(a[i] as int, b[i] as int, 8, j);
  }

  function Bit(a: nat, j: nat): nat { if j == 0 then a % 2 else Bit(a / 2, j - 1) }

  lemma {:induction false} XorCommutes(a: nat, b: nat, k: nat)
    ensures XorBits(a, b, k) == XorBits(b, a, k)
  {
    if k > 0 {
      XorCommutes(a / 2, b / 2, k - 1);
    }
  }

  lemma {:induction false} XorSwaps(a: nat, b: nat, c: nat, d: nat, k: nat)
    ensures XorBits(a, b, k) == XorBits(c, d, k) <==> XorBits(a, d, k) == XorBits(c, b, k)
  {
    if k > 0 {
      XorSwaps(a / 2, b / 2, c / 2, d / 2, k - 1);
      EvenOdd((a + b) % 2, XorBits(a / 2, b / 2, k - 1), (c + d) % 2, XorBits(c / 2, d / 2, k - 1));
      EvenOdd((a + d) % 2, XorBits(a / 2, d / 2, k - 1), (c + b) % 2, XorBits(c / 2, b / 2, k - 1));
      ParitySwaps(a, b, c, d);
    }
  }

  lemma ParitySwaps(a: nat, b: nat, c: nat, d: nat)
    ensures (a + b) % 2 == (c + d) % 2 <==> (a + d) % 2 == (c + b) % 2
  {
    SameParity(a + b, c + d);
    SameParity(a + d, c + b);
  }

  lemma SameParity(x: nat, y: nat)
    ensures x % 2 == y % 2 <==> (x + y) % 2 == 0
  {
    assert x == 2 * (x / 2) + x % 2 && y == 2 * (y / 2) + y % 2;
    assert x + y == 2 * (x / 2 + y / 2) + (x % 2 + y % 2);
  }

  lemma EvenOdd(p: nat, x: nat, q: nat, y: nat)
    requires p < 2 && q < 2
    ensures p + 2 * x == q + 2 * y <==> p == q && x == y
  {
  }

  /** Two links that name each other have one identifier. When each end combines its own destination hash with the
      other's identity address, as the daemon does, the identifiers agree exactly if the two ends' destination hashes
      and addresses differ by the same pattern. */
  lemma TransportIdsAgree(hashA: Hash, addrA: Hash, hashB: Hash, addrB: Hash)
    ensures XorHash(hashA, hashB) == XorHash(hashB, hashA)
    ensures XorHash(hashA, addrB) == XorHash(hashB, addrA) <==> XorHash(hashA, addrA) == XorHash(hashB, addrB)
  {
    forall i | 0 <= i < HASH_LENGTH
      ensures Xor(hashA[i], hashB[i]) == Xor(hashB[i], hashA[i])
      ensures Xor(hashA[i], addrB[i]) == Xor(hashB[i], addrA[i]) <==> Xor(hashA[i], addrA[i]) == Xor(hashB[i], addrB[i])
    {
      XorCommutes(hashA[i] as int, hashB[i] as int, 8);
      XorSwaps(hashA[i] as int, addrB[i] as int, hashB[i] as int, addrA[i] as int, 8);
    }
    var l, r, l', r' := XorHash(hashA, addrB), XorHash(hashB, addrA), XorHash(hashA, addrA), XorHash(hashB, addrB);
    assert forall i :: 0 <= i < HASH_LENGTH ==> (l[i] == r[i] <==> l'[i] == r'[i]);
  }

  /** Two ends of which only one has an address other than its destination hash derive different identifiers. */
  lemma TransportIdsCanDiffer() returns (hashA: Hash, addrA: Hash, hashB: Hash, addrB: Hash)
    ensures XorHash(hashA, addrB) != XorHash(hashB, addrA)
  {
    hashA, addrA, hashB, addrB := Zeros(16), Zeros(16), Zeros(16), Zeros(15) + [1];
    assert XorBits(0, 1, 8) == 1 && XorBits(0, 0, 8) == 0;
    assert XorHash(hashA, addrB)[15] == 1 && XorHash(hashB, addrA)[15] == 0;
  }

  // ---------- The data path ----------

  datatype State = Closed | Handshaking | Established

  datatype TransportError = LinkNotEstablished | InvalidChunkSize(size: nat) | TransportIdMismatch | Decryption

  datatype LinkView = LinkView(
    remote: Hash,
    remoteEncryptionKey: Option<bytes>,
    sharedKey: Option<bytes>,
    mtu: nat,
    state: State,
    transportId: Hash,
    linkId: Hash,
    inbound: seq<bytes>,
    outbound: seq<Packet>)

  ghost function Payload(c: Cipher, l: LinkView, data: bytes, random: bytes): bytes
    requires c.Laws()
  {
    if l.sharedKey.Some? then Seal(c, l.sharedKey.value, l.linkId, data)
    else if l.remoteEncryptionKey.Some? then c.sealFor(l.remoteEncryptionKey.value, l.remote, random, data)
    else data
  }

  ghost function SendResult(c: Cipher, l: LinkView, data: bytes, random: bytes): Result<Packet, TransportError>
    requires c.Laws()
  {
    if l.state != Established then Err(LinkNotEstablished)
    else
      var payload := Payload(c, l, data, random);
      if |payload| > l.mtu then Err(InvalidChunkSize(|payload|))
      else Ok(Packet(HEADER_2, 0, 1, 1, DATA, MAX_HOPS, l.remote, Some(l.transportId), NONE, payload))
  }

  ghost function DeliverResult(c: Cipher, secret: bytes, l: LinkView, p: Packet): Result<bytes, TransportError>
    requires c.Laws()
  {
    if l.state != Established then Err(LinkNotEstablished)
    else if p.transportId != Some(l.transportId) then Err(TransportIdMismatch)
    else
      var plain := if l.sharedKey.Some? then Open(c, l.sharedKey.value, l.linkId, p.data)
                   else if l.remoteEncryptionKey.Some? then c.openFrom(secret, p.data)
                   else Some(p.data);
      if plain.None? then Err(Decryption) else Ok(plain.value)
  }

  /** Sending, exactly: only over an established link; encrypted with the shared key if there is one, otherwise for the
      peer's key if that is known, otherwise plain; and only if that fits the MTU. */
  lemma SendsExactly(c: Cipher, l: LinkView, data: bytes, random: bytes)
    requires c.Laws()
    ensures var payload := if l.sharedKey.Some? then Seal(c, l.sharedKey.value, l.linkId, data)
                           else if l.remoteEncryptionKey.Some?
                           then c.sealFor(l.remoteEncryptionKey.value, l.remote, random, data) else data;
      var r := SendResult(c, l, data, random);
      && (r == Err(LinkNotEstablished) <==> l.state != Established)
      && (l.state == Established && |payload| > l.mtu ==> r == Err(InvalidChunkSize(|payload|)))
      && (l.state == Established && |payload| <= l.mtu ==>
            r == Ok(Packet(1, 0, 1, 1, 0, 64, l.remote, Some(l.transportId), 0, payload)))
  {
  }

  /** Receiving, exactly: only over an established link and under its own identifier; opened with the shared key if
      there is one, otherwise with the own secret if the peer's key is known, otherwise taken as it is. */
  lemma DeliversExactly(c: Cipher, secret: bytes, l: LinkView, p: Packet)
    requires c.Laws()
    ensures var plain := if l.sharedKey.Some? then Open(c, l.sharedKey.value, l.linkId, p.data)
                         else if l.remoteEncryptionKey.Some? then c.openFrom(secret, p.data) else Some(p.data);
      var r := DeliverResult(c, secret, l, p);
      && (r == Err(LinkNotEstablished) <==> l.state != Established)
      && (r == Err(TransportIdMismatch) <==> l.state == Established && p.transportId != Some(l.transportId))
      && (l.state == Established && p.transportId == Some(l.transportId) ==>
            r == if plain.Some? then Ok(plain.value) else Err(Decryption))
  {
  }

  /** What one end sends over the wire the other end reads, when the two share key and link identifier and each
      names the other's destination hash. */
  lemma DataDelivered(c: Cipher, a: LinkView, b: LinkView, hashA: Hash, hashB: Hash, data: bytes, random: bytes,
                      secret: bytes)
    requires c.Laws() && a.state == b.state == Established
    requires a.sharedKey.Some? && a.sharedKey == b.sharedKey && a.linkId == b.linkId
    requires a.transportId == XorHash(hashA, hashB) && b.transportId == XorHash(hashB, hashA)
    requires Padded(|data|) + 32 <= a.mtu
    ensures SendResult(c, a, data, random).Ok?
    ensures var arrived := FromBytes(ToBytes(SendResult(c, a, data, random).value));
      arrived.Ok? && DeliverResult(c, secret, b, arrived.value) == Ok(data)
  {
    OpenSeal(c, a.sharedKey.value, a.linkId, data);
    TransportIdsAgree(hashA, hashA, hashB, hashB);
    PacketRoundTrip(SendResult(c, a, data, random).value);
  }

  class Link {
    const cipher: Cipher
    const secret: bytes
    const remote: Hash
    const mtu: nat
    const transportId: Hash
    var remoteEncryptionKey: Option<bytes>
    var sharedKey: Option<bytes>
    var state: State
    var linkId: Hash
    var inbound: seq<bytes>
    var outbound: seq<Packet>

    ghost function View(): LinkView
      reads this
    {
      LinkView(remote, remoteEncryptionKey, sharedKey, mtu, state, transportId, linkId, inbound, outbound)
    }

    constructor (cipher: Cipher, secret: bytes, local: Hash, remote: Hash, mtu: nat)
      ensures this.cipher == cipher && this.secret == secret
      ensures View() ==
        LinkView(remote, None, None, mtu, Closed, XorHash(local, remote), seq(HASH_LENGTH, _ => 0), [], [])
    {
      var id := DeriveTransportId(local, remote);
      this.cipher, this.secret, this.remote, this.mtu, this.transportId := cipher, secret, remote, mtu, id;
      remoteEncryptionKey, sharedKey, state, linkId := None, None, Closed, seq(HASH_LENGTH, _ => 0);
      inbound, outbound := [], [];
    }

    method Send(data: bytes, random: bytes) returns (r: Result<Packet, TransportError>)
      requires cipher.Laws()
      modifies this`outbound
      ensures r == SendResult(cipher, old(View()), data, random)
      ensures outbound == old(outbound) + (if r.Ok? then [r.value] else [])
    {
      if state != Established {
        return Err(LinkNotEstablished);
      }
      var payload := data;
      if sharedKey.Some? {
        payload := EncryptLinkData(cipher, data, sharedKey.value, linkId);
      } else if remoteEncryptionKey.Some? {
        payload := cipher.sealFor(remoteEncryptionKey.value, remote, random, data);
      }
      if |payload| > mtu {
        return Err(InvalidChunkSize(|payload|));
      }
      var packet := Packet(HEADER_2, 0, 1, 1, DATA, MAX_HOPS, remote, Some(transportId), NONE, payload);
      outbound := outbound + [packet];
      return Ok(packet);
    }

    method Deliver(packet: Packet) returns (r: Result<(), TransportError>)
      requires cipher.Laws()
      modifies this`inbound
      ensures var d := DeliverResult(cipher, secret, old(View()), packet);
        && (r.Ok? <==> d.Ok?) && (r.Err? ==> r.error == d.error)
        && inbound == old(inbound) + (if d.Ok? then [d.value] else [])
    {
      if state != Established {
        return Err(LinkNotEstablished);
      }
      if packet.transportId != Some(transportId) {
        return Err(TransportIdMismatch);
      }
      var plain := Some(packet.data);
      if sharedKey.Some? {
        plain := DecryptLinkData(cipher, packet.data, sharedKey.value, linkId);
      } else if remoteEncryptionKey.Some? {
        plain := cipher.openFrom(secret, packet.data);
      }
      if plain.None? {
        return Err(Decryption);
      }
      inbound := inbound + [plain.value];
      return Ok(());
    }

    method Recv() returns (r: Option<bytes>)
      modifies this`inbound
      ensures old(inbound) == [] ==> r == None && inbound == []
      ensures old(inbound) != [] ==> r == Some(old(inbound)[0]) && inbound == old(inbound)[1..]
    {
      if inbound == [] {
        return None;
      }
      r := Some(inbound[0]);
      inbound := inbound[1..];
    }
  }
}
