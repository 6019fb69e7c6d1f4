/** The RNS packet header (crates/packet) and the link identifier that the daemon
    computes from a LINKREQUEST packet. */
module Packets {
  import opened Bytes

  const HASH_LENGTH := 16
  const HEADER_1: byte := 0
  const HEADER_2: byte := 1
  const DATA: byte := 0
  const LINKREQUEST: byte := 2
  const PROOF: byte := 3
  const NONE: byte := 0x00
  const RESOURCE: byte := 0x01
  const LRPROOF: byte := 0xFF
  const MAX_HOPS: byte := 64

  type Hash = h: bytes | |h| == HASH_LENGTH witness seq(HASH_LENGTH, _ => 0)

  datatype Packet = Packet(
    headerType: byte,
    contextFlag: byte,
    transportType: byte,
    destinationType: byte,
    packetType: byte,
    hops: byte,
    destinationHash: Hash,
    transportId: Option<Hash>,
    context: byte,
    data: bytes)

  datatype PacketError = TooShort | Header1TooShort | Header2TooShort

  /** The packet `Packet::new_data` builds. */
  function NewData(destination: Hash, data: bytes): Packet {
    Packet(HEADER_1, 0, 0, 0, DATA, MAX_HOPS, destination, None, NONE, data)
  }

  /** Bits 7-6 header type, 5 context flag, 4 transport type, 3-2 destination type,
      1-0 packet type; wider arguments are masked. */
  function PackFlags(header: byte, ctx: byte, transport: byte, dest: byte, kind: byte): byte {
    (header as int % 4 * 64 + ctx as int % 2 * 32 + transport as int % 2 * 16 + dest as int % 4 * 4 + kind as int % 4)
    as byte
  }

  datatype Flags = Flags(headerType: byte, contextFlag: byte, transportType: byte, destinationType: byte,
                         packetType: byte)

  function UnpackFlags(f: byte): Flags {
    var n := f as int;
    Flags((n / 64 % 4) as byte, (n / 32 % 2) as byte, (n / 16 % 2) as byte, (n / 4 % 4) as byte, (n % 4) as byte)
  }

  /** Unpacking returns the masked fields. */
  lemma FlagsRoundTrip(h: byte, c: byte, t: byte, d: byte, k: byte)
    ensures UnpackFlags(PackFlags(h, c, t, d, k)) == Flags(h % 4, c % 2, t % 2, d % 4, k % 4)
    ensures PackFlags(h, c, t, d, k) % 16 == (d % 4) * 4 + k % 4
  {
    FieldsOf((h % 4) as int, (c % 2) as int, (t % 2) as int, (d % 4) as int, (k % 4) as int);
  }

  lemma FieldsOf(h: nat, c: nat, t: nat, d: nat, k: nat)
    requires h < 4 && c < 2 && t < 2 && d < 4 && k < 4
    ensures var f := h * 64 + c * 32 + t * 16 + d * 4 + k;
      && f / 64 == h && f / 32 % 2 == c && f / 16 % 2 == t && f / 4 % 4 == d && f % 4 == k
      && f % 16 == d * 4 + k
  {
    var f := h * 64 + c * 32 + t * 16 + d * 4 + k;
    assert f / 4 == h * 16 + c * 8 + t * 4 + d;
    assert f / 16 == h * 4 + c * 2 + t;
    assert f / 32 == h * 2 + c;
  }

  /** Every octet is the packing of its own fields. */
  lemma FlagsCanonical(f: byte)
    ensures var u := UnpackFlags(f);
      PackFlags(u.headerType, u.contextFlag, u.transportType, u.destinationType, u.packetType) == f
  {
    var n := f as int;
    OctetOfFields(n, n / 64 % 4, n / 32 % 2, n / 16 % 2, n / 4 % 4, n % 4);
  }

  lemma OctetOfFields(n: nat, h: nat, c: nat, t: nat, d: nat, k: nat)
    requires n < 256 && h == n / 64 % 4 && c == n / 32 % 2 && t == n / 16 % 2 && d == n / 4 % 4 && k == n % 4
    ensures h % 4 * 64 + c % 2 * 32 + t % 2 * 16 + d % 4 * 4 + k % 4 == n
  {
    NestedQuotients(n);
    var q4, q16, q32 := n / 4, n / 16, n / 32;
    assert n == 4 * q4 + k && q4 == 4 * q16 + d && q16 == 2 * q32 + t && q32 == 2 * h + c;
    Small(h, c, t, d, k);
  }

  lemma Small(h: nat, c: nat, t: nat, d: nat, k: nat)
    requires h < 4 && c < 2 && t < 2 && d < 4 && k < 4
    ensures h % 4 == h && c % 2 == c && t % 2 == t && d % 4 == d && k % 4 == k
  {
  }

  lemma NestedQuotients(n: nat)
    requires n < 256
    ensures n / 16 == n / 4 / 4 && n / 32 == n / 16 / 2 && n / 64 == n / 32 / 2 && n / 64 < 4 && n / 64 % 4 == n / 64
  {
  }

  function PacketFlags(p: Packet): byte {
    PackFlags(p.headerType, p.contextFlag, p.transportType, p.destinationType, p.packetType)
  }

  /** The address part of the header: the transport identifier is written for the two-address header only. */
  function Addresses(p: Packet): bytes {
    (if p.headerType == HEADER_2 && p.transportId.Some? then p.transportId.value else []) + p.destinationHash
  }

  function ToBytes(p: Packet): bytes {
    [PacketFlags(p), p.hops] + Addresses(p) + [p.context] + p.data
  }

  function FromBytes(raw: bytes): Result<Packet, PacketError> {
    if |raw| < 3 then Err(TooShort)
    else
      var f := UnpackFlags(raw[0]);
      if f.headerType == HEADER_2 then
        if |raw| < 2 + HASH_LENGTH + HASH_LENGTH + 1 then Err(Header2TooShort)
        else Ok(Parsed(f, raw[1], Some(raw[2..18]), raw[18..34], raw[34], raw[35..]))
      else if |raw| < 2 + HASH_LENGTH + 1 then Err(Header1TooShort)
      else Ok(Parsed(f, raw[1], None, raw[2..18], raw[18], raw[19..]))
  }

  function Parsed(f: Flags, hops: byte, transportId: Option<Hash>, destination: Hash, context: byte, data: bytes)
    : Packet
  {
    Packet(f.headerType, f.contextFlag, f.transportType, f.destinationType, f.packetType, hops, destination,
           transportId, context, data)
  }

  /** The packets the wire can carry: every field fits its bits, and a transport
      identifier is present exactly in the two-address header. */
  predicate Wire(p: Packet) {
    && p.headerType < 4 && p.contextFlag < 2 && p.transportType < 2
    && p.destinationType < 4 && p.packetType < 4
    && (p.transportId.Some? <==> p.headerType == HEADER_2)
  }

  lemma PacketParses(p: Packet)
    requires Wire(p)
    ensures FromBytes(ToBytes(p)) == Ok(p)
  {
    var raw := ToBytes(p);
    FlagsRoundTrip(p.headerType, p.contextFlag, p.transportType, p.destinationType, p.packetType);
    assert UnpackFlags(raw[0]).headerType == p.headerType;
    if p.headerType == HEADER_2 {
      assert raw[2..18] == p.transportId.value;
      assert raw[18..34] == p.destinationHash;
      assert raw[35..] == p.data;
    } else {
      assert raw[2..18] == p.destinationHash;
      assert raw[19..] == p.data;
    }
  }

  lemma ParsedIsWire(raw: bytes)
    requires FromBytes(raw).Ok?
    ensures Wire(FromBytes(raw).value)
  {
  }

  /** Parsing undoes serialising for exactly the packets the wire can carry. */
  lemma PacketRoundTrip(p: Packet)
    ensures FromBytes(ToBytes(p)) == Ok(p) <==> Wire(p)
  {
    if Wire(p) {
      PacketParses(p);
    } else if FromBytes(ToBytes(p)) == Ok(p) {
      ParsedIsWire(ToBytes(p));
      assert false;
    }
  }

  /** Serialising undoes parsing for every octet string that parses. */
  lemma PacketCanonical(raw: bytes)
    requires FromBytes(raw).Ok?
    ensures ToBytes(FromBytes(raw).value) == raw
  {
    var p := FromBytes(raw).value;
    FlagsCanonical(raw[0]);
    assert PacketFlags(p) == raw[0];
    if p.headerType == HEADER_2 {
      assert Addresses(p) == raw[2..18] + raw[18..34];
      Adjacent(raw);
      HeaderAndData(raw, 34);
    } else {
      assert Addresses(p) == [] + raw[2..18] == raw[2..18];
      HeaderAndData(raw, 18);
    }
  }

  lemma Adjacent(raw: bytes)
    requires |raw| >= 34
    ensures raw[2..18] + raw[18..34] == raw[2..34]
  {
  }

  lemma HeaderAndData(raw: bytes, n: nat)
    requires 2 <= n < |raw|
    ensures [raw[0], raw[1]] + raw[2..n] + [raw[n]] + raw[n + 1..] == raw
  {
  }

  /** The fields of an octet, by their place values. */
  lemma FlagsWeigh(f: byte)
    ensures var u := UnpackFlags(f);
      && f as int == 64 * u.headerType as int + 32 * u.contextFlag as int + 16 * u.transportType as int
                     + 4 * u.destinationType as int + u.packetType as int
      && u.headerType < 4 && u.contextFlag < 2 && u.transportType < 2 && u.destinationType < 4 && u.packetType < 4
  {
    var n := f as int;
    OctetOfFields(n, n / 64 % 4, n / 32 % 2, n / 16 % 2, n / 4 % 4, n % 4);
    Small(n / 64 % 4, n / 32 % 2, n / 16 % 2, n / 4 % 4, n % 4);
  }

  /** Where each field of a packet stands on the wire. */
  lemma PacketLayout(p: Packet)
    requires Wire(p)
    ensures var raw := ToBytes(p);
      && |raw| == (if p.headerType == 1 then 35 else 19) + |p.data|
      && raw[0] as int == 64 * p.headerType as int + 32 * p.contextFlag as int + 16 * p.transportType as int
                          + 4 * p.destinationType as int + p.packetType as int
      && raw[1] == p.hops
      && if p.headerType == 1
         then p.transportId == Some(raw[2..18]) && p.destinationHash == raw[18..34] && p.context == raw[34]
              && p.data == raw[35..]
         else p.transportId == None && p.destinationHash == raw[2..18] && p.context == raw[18] && p.data == raw[19..]
  {
    var raw := ToBytes(p);
    FlagsRoundTrip(p.headerType, p.contextFlag, p.transportType, p.destinationType, p.packetType);
    FlagsWeigh(raw[0]);
    PacketParses(p);
    assert UnpackFlags(raw[0]).headerType == p.headerType;
  }

  /** Which octet strings parse, and what is reported for the others. */
  lemma ParsesExactly(raw: bytes)
    ensures FromBytes(raw) == Err(TooShort) <==> |raw| < 3
    ensures FromBytes(raw) == Err(Header2TooShort) <==> 3 <= |raw| < 35 && 64 <= raw[0] < 128
    ensures FromBytes(raw) == Err(Header1TooShort) <==> 3 <= |raw| < 19 && !(64 <= raw[0] < 128)
  {
    if |raw| >= 3 {
      FlagsWeigh(raw[0]);
    }
  }

  // ---------- Link identifier ----------

  const ECPUBSIZE := 64

  /** What the daemon hashes to name a link: the masked flags octet and everything after the
      hop count, with any data beyond the 64 octets of key material cut off. */
  function LinkHashable(p: Packet): bytes {
    var raw := ToBytes(p);
    var hashable := [raw[0] % 16] + raw[2..];
    var excess := if |p.data| > ECPUBSIZE then |p.data| - ECPUBSIZE else 0;
    hashable[..|hashable| - excess]
  }

  function KeyMaterial(data: bytes): bytes {
    if |data| > ECPUBSIZE then data[..ECPUBSIZE] else data
  }

  /** The hashed octets are the low flag nibble, the addresses, the context and the key material. */
  lemma LinkHashableParts(p: Packet)
    ensures LinkHashable(p) ==
      [(p.destinationType % 4) * 4 + p.packetType % 4] + Addresses(p) + [p.context] + KeyMaterial(p.data)
  {
    var raw := ToBytes(p);
    FlagsRoundTrip(p.headerType, p.contextFlag, p.transportType, p.destinationType, p.packetType);
    assert raw[0] % 16 == (p.destinationType % 4) * 4 + p.packetType % 4;
    var head := [raw[0] % 16] + Addresses(p) + [p.context];
    assert [raw[0] % 16] + raw[2..] == head + p.data;
    if |p.data| > ECPUBSIZE {
      assert (head + p.data)[..|head| + ECPUBSIZE] == head + p.data[..ECPUBSIZE];
    } else {
      assert (head + p.data)[..|head| + |p.data|] == head + p.data;
    }
  }

  /** The same, field by field, for a packet the wire can carry. */
  lemma LinkHashableExactly(p: Packet)
    requires Wire(p)
    ensures LinkHashable(p) ==
      [4 * p.destinationType + p.packetType]
      + (if p.headerType == 1 then p.transportId.value + p.destinationHash else p.destinationHash)
      + [p.context] + (if |p.data| > 64 then p.data[..64] else p.data)
  {
    LinkHashableParts(p);
    HashedOctets(p, LinkHashable(p));
  }

  lemma HashedOctets(p: Packet, h: bytes)
    requires Wire(p)
    requires h == [(p.destinationType % 4) * 4 + p.packetType % 4] + Addresses(p) + [p.context] + KeyMaterial(p.data)
    ensures h ==
      [4 * p.destinationType + p.packetType]
      + (if p.headerType == 1 then p.transportId.value + p.destinationHash else p.destinationHash)
      + [p.context] + (if |p.data| > 64 then p.data[..64] else p.data)
  {
    LowNibble(p.destinationType, p.packetType);
    if p.headerType != 1 {
      assert Addresses(p) == p.destinationHash;
    }
  }

  lemma LowNibble(d: byte, k: byte)
    requires d < 4 && k < 4
    ensures (d % 4) * 4 + k % 4 == 4 * d + k
  {
  }

  /** A relay that rewrites the hop count, the context or transport flag, or the signalling after the
      key material leaves the hashed octets alone: what arrives names the same link. */
  lemma LinkHashableStable(p: Packet, hops: byte, contextFlag: byte, transportType: byte, data: bytes)
    requires Wire(p) && contextFlag < 2 && transportType < 2
    requires KeyMaterial(data) == KeyMaterial(p.data)
    ensures var q := p.(hops := hops, contextFlag := contextFlag, transportType := transportType, data := data);
      && FromBytes(ToBytes(q)) == Ok(q)
      && LinkHashable(FromBytes(ToBytes(q)).value) == LinkHashable(p)
  {
    var q := p.(hops := hops, contextFlag := contextFlag, transportType := transportType, data := data);
    PacketRoundTrip(q);
    LinkHashableParts(p);
    LinkHashableParts(q);
  }

  /** Two requests that carry full key material and hash the same octets carry the same key material. */
  lemma LinkHashableBindsKeys(p: Packet, q: Packet)
    requires Wire(p) && Wire(q)
    requires |p.data| >= ECPUBSIZE && |q.data| >= ECPUBSIZE
    requires LinkHashable(p) == LinkHashable(q)
    ensures p.data[..ECPUBSIZE] == q.data[..ECPUBSIZE]
    ensures p.destinationHash == q.destinationHash && p.context == q.context
    ensures p.destinationType == q.destinationType && p.packetType == q.packetType
    ensures p.transportId == q.transportId
  {
    SplitHashable(p);
    SplitHashable(q);
    NibbleFields(p.destinationType, p.packetType, q.destinationType, q.packetType);
    AddressesBind(p, q);
  }

  lemma AddressesBind(p: Packet, q: Packet)
    requires Wire(p) && Wire(q) && Addresses(p) == Addresses(q)
    ensures p.destinationHash == q.destinationHash && p.transportId == q.transportId
  {
    var a := Addresses(p);
    assert a[|a| - 16..] == p.destinationHash;
    assert a[|a| - 16..] == q.destinationHash;
    if |a| == 32 {
      assert a[..16] == p.transportId.value;
      assert a[..16] == q.transportId.value;
    }
  }

  lemma SplitHashable(p: Packet)
    requires |p.data| >= ECPUBSIZE
    ensures var h := LinkHashable(p);
      var n := |Addresses(p)|;
      && |h| == n + 66
      && h[0] == (p.destinationType % 4) * 4 + p.packetType % 4
      && h[1..1 + n] == Addresses(p) && h[1 + n] == p.context && h[2 + n..] == p.data[..ECPUBSIZE]
  {
    LinkHashableParts(p);
  }

  lemma NibbleFields(d: byte, k: byte, d': byte, k': byte)
    requires d < 4 && k < 4 && d' < 4 && k' < 4
    ensures (d % 4) * 4 + k % 4 == (d' % 4) * 4 + k' % 4 ==> d == d' && k == k'
  {
  }
}
