/** Fragmentation and reassembly (crates/transport/src/packet_transport.rs). */
module Fragments {
  import opened Bytes
  import opened Packets

  /** Room for data after the largest header. */
  function MaxPayload(mtu: nat): nat { if mtu >= 35 then mtu - 35 else 0 }

  /** `data.chunks(n)`. */
  function Chunks(data: bytes, n: nat): seq<bytes>
    requires n > 0
    decreases |data|
  {
    if data == [] then [] else if |data| <= n then [data] else [data[..n]] + Chunks(data[n..], n)
  }

  function Concat(chunks: seq<bytes>): bytes { if chunks == [] then [] else chunks[0] + Concat(chunks[1..]) }

  lemma {:induction false} ConcatChunks(data: bytes, n: nat)
    requires n > 0
    ensures Concat(Chunks(data, n)) == data
    decreases |data|
  {
    var cs := Chunks(data, n);
    if |data| > n {
      var rest := Chunks(data[n..], n);
      ConcatChunks(data[n..], n);
      assert cs == [data[..n]] + rest;
      assert cs[1..] == rest;
      assert Concat(cs) == data[..n] + Concat(rest) == data[..n] + data[n..] == data;
    } else if data != [] {
      assert cs == [data] && cs[1..] == [];
      assert Concat(cs) == data + [] == data;
    }
  }

  lemma {:induction false} ChunkSizes(data: bytes, n: nat)
    requires n > 0
    ensures forall i :: 0 <= i < |Chunks(data, n)| ==> 0 < |Chunks(data, n)[i]| <= n
    decreases |data|
  {
    if |data| > n {
      ChunkSizes(data[n..], n);
    }
  }

  lemma {:induction false} ChunkCount(data: bytes, n: nat)
    requires n > 0
    ensures |Chunks(data, n)| == (|data| + n - 1) / n
    decreases |data|
  {
    if data == [] {
      DivIs(n - 1, n, 0, n - 1);
    } else if |data| <= n {
      DivIs(|data| + n - 1, n, 1, |data| - 1);
    } else {
      ChunkCount(data[n..], n);
      var q, r := (|data| - 1) / n, (|data| - 1) % n;
      DivIs(|data| + n - 1, n, q + 1, r);
    }
  }

  lemma DivIs(x: nat, n: nat, q: nat, r: nat)
    requires n > 0 && r < n && x == n * q + r
    ensures x / n == q
  {
    var p, s := x / n, x % n;
    assert x == n * p + s;
    if p > q { Above(n, p, q); } else if p < q { Above(n, q, p); }
  }

  lemma Above(n: nat, p: nat, q: nat)
    requires p > q
    ensures n * p >= n * q + n
  {
    assert n * p == n * q + n * (p - q);
    assert n * (p - q) == n + n * (p - q - 1);
  }

  // ---------- Sending ----------

  function FragmentData(id: nat, index: nat, total: nat, chunk: bytes): bytes {
    ToBe(id, 8) + ToBe(index, 2) + ToBe(total, 2) + chunk
  }

  function FragmentPacket(dest: Hash, id: nat, index: nat, total: nat, chunk: bytes): Packet {
    NewData(dest, FragmentData(id, index, total, chunk)).(context := RESOURCE)
  }

  function SentPackets(dest: Hash, data: bytes, mtu: nat, id: nat): seq<Packet>
    requires MaxPayload(mtu) > 0 || data == []
  {
    if |data| <= MaxPayload(mtu) then [NewData(dest, data)]
    else
      var cs := Chunks(data, MaxPayload(mtu));
      seq(|cs|, i requires 0 <= i < |cs| => FragmentPacket(dest, id, i, |cs| % 0x1_0000, cs[i]))
  }

  /** A message of at most mtu - 35 octets goes out as one packet with exactly that data, which arrives as it was sent
      and is not taken for a fragment. */
  lemma SingleIsSent(dest: Hash, data: bytes, mtu: nat, id: nat)
    requires |data| + 35 <= mtu || data == []
    ensures MaxPayload(mtu) > 0 || data == []
    ensures |SentPackets(dest, data, mtu, id)| == 1
    ensures var p := SentPackets(dest, data, mtu, id)[0];
      && p.destinationHash == dest && p.data == data && p.context != RESOURCE && p.hops == 64 && p.packetType == DATA
      && FromBytes(ToBytes(p)) == Ok(p)
  {
    PacketRoundTrip(NewData(dest, data));
  }

  /** A longer one is cut every mtu - 35 octets. Packet `i` carries the identifier, its index and the number of
      packets, each most significant octet first, and then its part of the message. */
  lemma FragmentsAreSent(dest: Hash, data: bytes, mtu: nat, id: nat, i: nat)
    requires mtu >= 36 && |data| > mtu - 35 && i < |SentPackets(dest, data, mtu, id)|
    ensures var n, p := mtu - 35, SentPackets(dest, data, mtu, id)[i];
      var total := (|data| + n - 1) / n;
      && |SentPackets(dest, data, mtu, id)| == total
      && p.destinationHash == dest && p.context == RESOURCE && p.hops == 64 && p.packetType == DATA
      && FromBytes(ToBytes(p)) == Ok(p)
      && 0 <= i * n < |data| && (i < total - 1 <==> (i + 1) * n < |data|)
      && p.data == ToBe(id, 8) + ToBe(i, 2) + ToBe(total % 0x1_0000, 2)
                   + (if (i + 1) * n < |data| then data[i * n..(i + 1) * n] else data[i * n..])
  {
    var n := mtu - 35;
    var cs := Chunks(data, n);
    ChunkCount(data, n);
    ChunkAt(data, n, i);
    FragmentArrives(dest, id, i, |cs| % 0x1_0000, cs[i]);
  }

  lemma FragmentArrives(dest: Hash, id: nat, i: nat, total: nat, chunk: bytes)
    ensures var p := FragmentPacket(dest, id, i, total, chunk);
      && p.destinationHash == dest && p.context == RESOURCE && p.hops == 64 && p.packetType == DATA
      && p.data == ToBe(id, 8) + ToBe(i, 2) + ToBe(total, 2) + chunk
      && FromBytes(ToBytes(p)) == Ok(p)
  {
    PacketRoundTrip(FragmentPacket(dest, id, i, total, chunk));
  }

  /** Chunk `i` of `n` octets. */
  lemma {:induction false} ChunkAt(data: bytes, n: nat, i: nat)
    requires n > 0 && i < |Chunks(data, n)|
    ensures 0 <= i * n < |data| && (i < |Chunks(data, n)| - 1 <==> (i + 1) * n < |data|)
    ensures Chunks(data, n)[i] == if (i + 1) * n < |data| then data[i * n..(i + 1) * n] else data[i * n..]
    decreases |data|
  {
    if |data| > n {
      if i == 0 {
        ChunkSizes(data[n..], n);
        assert Chunks(data[n..], n) != [];
        assert 1 * n == n && 0 * n == 0;
      } else {
        ChunkAt(data[n..], n, i - 1);
        ShiftedSlice(data, n, i);
      }
    } else {
      assert i == 0 && 0 * n == 0 && 1 * n == n;
    }
  }

  lemma ShiftedSlice(data: bytes, n: nat, i: nat)
    requires i > 0 && n <= |data| && 0 <= (i - 1) * n < |data| - n
    ensures (i - 1) * n + n == i * n && i * n + n == (i + 1) * n
    ensures data[n..][(i - 1) * n..] == data[i * n..]
    ensures (i + 1) * n < |data| ==> data[n..][(i - 1) * n..i * n] == data[i * n..(i + 1) * n]
  {
    assert (i - 1) * n + n == i * n && i * n + n == (i + 1) * n;
  }

  /** Every packet fits the MTU once serialised. */
  lemma PacketsFit(dest: Hash, data: bytes, mtu: nat, id: nat, i: nat)
    requires mtu >= 36 && i < |SentPackets(dest, data, mtu, id)|
    ensures |ToBytes(SentPackets(dest, data, mtu, id)[i])| <= mtu
  {
    ChunkSizes(data, MaxPayload(mtu));
  }

  // ---------- Receiving ----------

  datatype Buffer = Buffer(total: nat, fragments: map<nat, bytes>, dataLen: nat)

  type Buffers = map<nat, Buffer>

  datatype Error = InvalidChunkSize(size: nat) | TotalMismatch | SegmentOrder(expected: nat)

  /** Concatenate the fragments from `i` on; the first missing index if there is one. */
  function Assemble(fragments: map<nat, bytes>, i: nat, total: nat): Result<bytes, nat>
    requires i <= total
    decreases total - i
  {
    if i == total then Ok([])
    else if i !in fragments then Err(i)
    else
      match Assemble(fragments, i + 1, total)
      case Ok(rest) => Ok(fragments[i] + rest)
      case Err(k) => Err(k)
  }

  predicate IsBelow(k: nat, i: nat) { k < i }

  function Below(i: nat): set<nat> { set k: nat | 0 <= k < i && IsBelow(k, i) }

  datatype Fragment = Fragment(id: nat, index: nat, total: nat, chunk: bytes)

  function ParseFragment(data: bytes): Fragment
    requires |data| >= 12
  {
    Fragment(FromBe(data[..8]), FromBe(data[8..10]), FromBe(data[10..12]), data[12..])
  }

  function WithFragment(m: Buffers, f: Fragment): Buffer {
    var buf := if f.id in m then m[f.id] else Buffer(f.total, map[], 0);
    Buffer(buf.total, buf.fragments[f.index := f.chunk], buf.dataLen + |f.chunk|)
  }

  /** The buffers and the result after one fragment. A gap found while assembling leaves the buffer without the
      fragments before the gap. */
  function Added(m: Buffers, f: Fragment): (Buffers, Result<Option<bytes>, Error>) {
    var buf := WithFragment(m, f);
    if buf.total != f.total then (m, Err(TotalMismatch))
    else if |buf.fragments| != f.total then (m[f.id := buf], Ok(None))
    else
      match Assemble(buf.fragments, 0, f.total)
      case Ok(all) => (m - {f.id}, Ok(Some(all)))
      case Err(k) => (m[f.id := buf.(fragments := buf.fragments - Below(k))], Err(SegmentOrder(k)))
  }

  /** What is stored of a message once the fragment has arrived. */
  function Stored(m: Buffers, f: Fragment): map<nat, bytes> {
    (if f.id in m then m[f.id].fragments else map[])[f.index := f.chunk]
  }

  /** A fragment, exactly: one that disagrees on the number of fragments is refused and changes nothing; otherwise it
      is stored under its index, replacing what was there, and nothing is returned until as many indices are stored as
      there are fragments. Other messages are never touched. */
  lemma AddedOutcomes(m: Buffers, f: Fragment)
    ensures var (m', r) := Added(m, f);
      && m' - {f.id} == m - {f.id}
      && (r == Err(TotalMismatch) <==> f.id in m && m[f.id].total != f.total)
      && (r == Err(TotalMismatch) ==> m' == m)
      && (r == Ok(None) <==> r != Err(TotalMismatch) && |Stored(m, f)| != f.total)
      && (r == Ok(None) ==>
            && f.id in m' && m'[f.id].total == f.total && m'[f.id].fragments == Stored(m, f)
            && m'[f.id].dataLen == (if f.id in m then m[f.id].dataLen else 0) + |f.chunk|)
  {
  }

  /** Then the message is all of them in order, and forgotten, if every index is there; otherwise the first one missing
      is reported. */
  lemma AddedCompletes(m: Buffers, f: Fragment)
    requires f.id in m ==> m[f.id].total == f.total
    requires |Stored(m, f)| == f.total
    ensures var (m', r) := Added(m, f);
      if forall k :: 0 <= k < f.total ==> k in Stored(m, f)
      then r == Ok(Some(Concat(InOrder(Stored(m, f), f.total)))) && f.id !in m'
      else
        && r.Err? && r.error.SegmentOrder?
        && r.error.expected < f.total && r.error.expected !in Stored(m, f)
        && forall k :: 0 <= k < r.error.expected ==> k in Stored(m, f)
  {
    AssembleExactly(Stored(m, f), 0, f.total);
    assert WithFragment(m, f).fragments == Stored(m, f) && WithFragment(m, f).total == f.total;
    assert InOrder(Stored(m, f), f.total)[0..] == InOrder(Stored(m, f), f.total);
  }

  /** And what came before that one is lost. */
  lemma AddedGap(m: Buffers, f: Fragment, k: nat)
    requires Added(m, f).1 == Err(SegmentOrder(k))
    ensures var m' := Added(m, f).0;
      && f.id in m' && m'[f.id].total == f.total
      && (forall j :: j in m'[f.id].fragments <==> j in Stored(m, f) && k <= j)
      && (forall j :: j in m'[f.id].fragments ==> m'[f.id].fragments[j] == Stored(m, f)[j])
  {
    assert WithFragment(m, f).fragments == Stored(m, f);
    assert forall j: nat :: j in Below(k) <==> IsBelow(j, k);
  }

  /** The fragments by index. */
  function InOrder(fragments: map<nat, bytes>, total: nat): seq<bytes> {
    seq(total, k requires 0 <= k < total => if k in fragments then fragments[k] else [])
  }

  /** Assembling concatenates from `i` on, or finds the first index missing. */
  lemma {:induction false} AssembleExactly(fragments: map<nat, bytes>, i: nat, total: nat)
    requires i <= total
    ensures match Assemble(fragments, i, total)
      case Ok(all) =>
        (forall k :: i <= k < total ==> k in fragments) && all == Concat(InOrder(fragments, total)[i..])
      case Err(k) => i <= k < total && k !in fragments && forall j :: i <= j < k ==> j in fragments
    decreases total - i
  {
    if i < total {
      AssembleExactly(fragments, i + 1, total);
      assert InOrder(fragments, total)[i..][1..] == InOrder(fragments, total)[i + 1..];
    }
  }

  function Reassembled(m: Buffers, data: bytes): (Buffers, Result<Option<bytes>, Error>) {
    if |data| < 12 then (m, Err(InvalidChunkSize(|data|))) else Added(m, ParseFragment(data))
  }

  class PacketTransport {
    const mtu: nat
    var inbound: seq<Packet>
    var outbound: seq<Packet>
    var reassembly: Buffers

    constructor (mtu: nat)
      ensures this.mtu == mtu && inbound == [] && outbound == [] && reassembly == map[]
    {
      this.mtu := mtu;
      inbound, outbound, reassembly := [], [], map[];
    }

    /** `id` is the random fragment identifier. */
    method SendPacket(dest: Hash, data: bytes, id: nat) returns (packets: seq<Packet>)
      requires MaxPayload(mtu) > 0 || data == []
      modifies this`outbound
      ensures packets == SentPackets(dest, data, mtu, id)
      ensures outbound == old(outbound) + packets
    {
      var max := MaxPayload(mtu);
      if |data| <= max {
        packets := [NewData(dest, data)];
        outbound := outbound + packets;
        return;
      }
      var total := (|data| + max - 1) / max % 0x1_0000;
      ghost var cs := Chunks(data, max);
      ChunkCount(data, max);
      packets := [];
      var rest := data;
      var i := 0;
      while rest != []
        invariant i <= |cs| && Chunks(rest, max) == cs[i..]
        invariant packets == seq(i, k requires 0 <= k < i => FragmentPacket(dest, id, k, total, cs[k]))
        invariant outbound == old(outbound) + packets
        decreases |rest|
      {
        var n := if |rest| <= max then |rest| else max;
        var chunk := rest[..n];
        assert chunk == cs[i] && Chunks(rest[n..], max) == cs[i + 1..];
        var packet := NewData(dest, ToBe(id, 8) + ToBe(i, 2) + ToBe(total, 2) + chunk).(context := RESOURCE);
        outbound := outbound + [packet];
        packets := packets + [packet];
        rest, i := rest[n..], i + 1;
      }
    }

    method RecvPacket(packet: Packet) returns (r: Result<Option<bytes>, Error>)
      modifies this`inbound, this`reassembly
      ensures packet.context == RESOURCE ==>
        (reassembly, r) == Reassembled(old(reassembly), packet.data) && inbound == old(inbound)
      ensures packet.context == RESOURCE && |packet.data| < 12 ==>
        r == Err(InvalidChunkSize(|packet.data|)) && reassembly == old(reassembly)
      ensures packet.context != RESOURCE ==>
        r == Ok(Some(packet.data)) && inbound == old(inbound) + [packet] && reassembly == old(reassembly)
    {
      if packet.context == RESOURCE {
        r := ReassembleFragment(packet.data);
      } else {
        inbound := inbound + [packet];
        r := Ok(Some(packet.data));
      }
    }

    method ReassembleFragment(data: bytes) returns (r: Result<Option<bytes>, Error>)
      modifies this`reassembly
      ensures (reassembly, r) == Reassembled(old(reassembly), data)
    {
      if |data| < 12 {
        return Err(InvalidChunkSize(|data|));
      }
      r := AddFragment(ParseFragment(data));
    }

    method AddFragment(f: Fragment) returns (r: Result<Option<bytes>, Error>)
      modifies this`reassembly
      ensures (reassembly, r) == Added(old(reassembly), f)
    {
      if f.id in reassembly && reassembly[f.id].total != f.total {
        return Err(TotalMismatch);
      }
      if f.id !in reassembly {
        reassembly := reassembly[f.id := Buffer(f.total, map[], 0)];
      }
      var buf := reassembly[f.id];
      buf := buf.(dataLen := buf.dataLen + |f.chunk|, fragments := buf.fragments[f.index := f.chunk]);
      assert buf == WithFragment(old(reassembly), f);
      reassembly := reassembly[f.id := buf];
      Overwrites(old(reassembly), f.id, Buffer(f.total, map[], 0), buf);
      if |buf.fragments| != f.total {
        return Ok(None);
      }
      var all, left := TakeInOrder(buf.fragments, f.total);
      match all {
        case Ok(assembled) =>
          reassembly := reassembly - {f.id};
          Overwrites(old(reassembly), f.id, buf, buf);
          r := Ok(Some(assembled));
        case Err(k) =>
          reassembly := reassembly[f.id := buf.(fragments := left)];
          Overwrites(old(reassembly), f.id, buf, buf.(fragments := left));
          r := Err(SegmentOrder(k));
      }
    }
  }

  /** The assembly loop: remove the fragments in order until one is missing. */
  method TakeInOrder(fragments: map<nat, bytes>, total: nat) returns (r: Result<bytes, nat>, left: map<nat, bytes>)
    ensures r == Assemble(fragments, 0, total)
    ensures r.Err? ==> left == fragments - Below(r.error)
  {
    var assembled: bytes := [];
    left := fragments;
    var i := 0;
    if Assemble(fragments, 0, total).Ok? {
      assert [] + Assemble(fragments, 0, total).value == Assemble(fragments, 0, total).value;
    }
    while i < total
      invariant i <= total && left == fragments - Below(i)
      invariant match Assemble(fragments, i, total)
        case Ok(rest) => Assemble(fragments, 0, total) == Ok(assembled + rest)
        case Err(k) => Assemble(fragments, 0, total) == Err(k)
    {
      if i !in left {
        return Err(i), left;
      }
      AssembleStep(fragments, i, total, assembled);
      assembled := assembled + left[i];
      left := left - {i};
      assert left == fragments - Below(i + 1);
      i := i + 1;
    }
    assert assembled + [] == assembled;
    r := Ok(assembled);
  }

  lemma Overwrites(m: Buffers, id: nat, a: Buffer, b: Buffer)
    ensures m[id := a][id := b] == m[id := b] && m[id := a] - {id} == m - {id}
  {
  }

  lemma AssembleStep(fragments: map<nat, bytes>, i: nat, total: nat, done: bytes)
    requires i < total && i in fragments
    ensures match Assemble(fragments, i, total)
      case Ok(rest) =>
        && Assemble(fragments, i + 1, total).Ok?
        && done + rest == (done + fragments[i]) + Assemble(fragments, i + 1, total).value
      case Err(k) => Assemble(fragments, i + 1, total) == Err(k)
  {
  }
}
