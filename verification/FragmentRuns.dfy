/** Reassembly of interleaved messages from fragments in any order, with repetitions. */
module FragmentRuns {
  import opened Bytes
  import opened Packets
  import opened Fragments

  /** The chunks of every message, by fragment identifier. */
  type Messages = map<nat, seq<bytes>>

  datatype Delivery = Delivery(id: nat, index: nat)

  predicate Sendable(ms: Messages) {
    forall id :: id in ms ==> id < 0x1_0000_0000_0000_0000 && 0 < |ms[id]| < 0x1_0000
  }

  predicate Known(ms: Messages, d: Delivery) { d.id in ms && d.index < |ms[d.id]| }

  function FragmentOf(ms: Messages, d: Delivery): Fragment
    requires Known(ms, d)
  {
    Fragment(d.id, d.index, |ms[d.id]|, ms[d.id][d.index])
  }

  /** The octets of a sent fragment parse back to that fragment. */
  lemma FragmentParses(f: Fragment)
    requires f.id < 0x1_0000_0000_0000_0000 && f.index < 0x1_0000 && f.total < 0x1_0000
    ensures |FragmentData(f.id, f.index, f.total, f.chunk)| >= 12
    ensures ParseFragment(FragmentData(f.id, f.index, f.total, f.chunk)) == f
  {
    var data := FragmentData(f.id, f.index, f.total, f.chunk);
    Ranges();
    assert data[..8] == ToBe(f.id, 8) && data[8..10] == ToBe(f.index, 2) && data[10..12] == ToBe(f.total, 2);
    assert data[12..] == f.chunk;
    BeRoundTrip(f.id, 8);
    BeRoundTrip(f.index, 2);
    BeRoundTrip(f.total, 2);
  }

  // ---------- What reassembly should do ----------

  /** The indices received of each message since it was last returned. */
  type Progress = map<nat, set<nat>>

  function Got(g: Progress, id: nat): set<nat> { if id in g then g[id] else {} }

  /** One more index; the message is returned, and forgotten, when that was the last one missing. */
  function Advance(ms: Messages, g: Progress, d: Delivery): (Progress, Option<bytes>)
    requires Known(ms, d)
  {
    var got := Got(g, d.id) + {d.index};
    if got == Below(|ms[d.id]|) then (g - {d.id}, Some(Concat(ms[d.id]))) else (g[d.id := got], None)
  }

  /** The buffers hold exactly the chunks received. */
  ghost predicate Holds(ms: Messages, g: Progress, m: Buffers) {
    && m.Keys == g.Keys
    && forall id :: id in m ==>
         && id in ms && g[id] < Below(|ms[id]|)
         && m[id].total == |ms[id]| && m[id].fragments == Chosen(ms[id], g[id])
  }

  function Chosen(chunks: seq<bytes>, got: set<nat>): map<nat, bytes> {
    map i | i in got && i < |chunks| :: chunks[i]
  }

  lemma {:induction false} BelowSize(n: nat)
    ensures |Below(n)| == n
  {
    if n > 0 {
      BelowSize(n - 1);
      assert Below(n) == Below(n - 1) + {n - 1};
    }
  }

  lemma SubsetBySize(a: set<nat>, b: set<nat>)
    requires a <= b
    ensures |a| == |b| <==> a == b
  {
    assert b == a + (b - a);
    if a != b {
      var x :| x in b - a;
      assert |b - a| > 0;
    }
  }

  lemma {:induction false} AssembleAll(chunks: seq<bytes>, i: nat)
    requires i <= |chunks|
    ensures Assemble(Chosen(chunks, Below(|chunks|)), i, |chunks|) == Ok(Concat(chunks[i..]))
    decreases |chunks| - i
  {
    if i < |chunks| {
      AssembleAll(chunks, i + 1);
      assert chunks[i..][1..] == chunks[i + 1..];
    }
  }

  /** The buffer a fragment leads to. */
  lemma WithFragmentHolds(ms: Messages, g: Progress, m: Buffers, d: Delivery)
    requires Known(ms, d) && Holds(ms, g, m)
    ensures var buf, got := WithFragment(m, FragmentOf(ms, d)), Got(g, d.id) + {d.index};
      && buf.total == |ms[d.id]| && got <= Below(|ms[d.id]|)
      && buf.fragments == Chosen(ms[d.id], got) && |buf.fragments| == |got|
  {
    var buf, got := WithFragment(m, FragmentOf(ms, d)), Got(g, d.id) + {d.index};
    assert buf.fragments == Chosen(ms[d.id], got);
    assert buf.fragments.Keys == got;
  }

  /** One fragment: the code returns and keeps exactly what it should. */
  lemma AddRefines(ms: Messages, g: Progress, m: Buffers, d: Delivery)
    requires Known(ms, d) && Holds(ms, g, m)
    ensures var r := Added(m, FragmentOf(ms, d));
      r.1 == Ok(Advance(ms, g, d).1) && Holds(ms, Advance(ms, g, d).0, r.0)
  {
    var n, got := |ms[d.id]|, Got(g, d.id) + {d.index};
    WithFragmentHolds(ms, g, m, d);
    BelowSize(n);
    SubsetBySize(got, Below(n));
    if got == Below(n) {
      AssembleAll(ms[d.id], 0);
      assert ms[d.id][0..] == ms[d.id];
    }
  }

  // ---------- Whole runs ----------

  function WireData(ms: Messages, d: Delivery): bytes
    requires Known(ms, d)
  {
    var f := FragmentOf(ms, d);
    FragmentData(f.id, f.index, f.total, f.chunk)
  }

  function BuffersAfter(ms: Messages, ds: seq<Delivery>): Buffers
    requires forall d :: d in ds ==> Known(ms, d)
  {
    if ds == [] then map[] else Reassembled(BuffersAfter(ms, ds[..|ds| - 1]), WireData(ms, ds[|ds| - 1])).0
  }

  /** What the code answers to delivery `p` of the run. */
  function ResultOf(ms: Messages, ds: seq<Delivery>, p: nat): Result<Option<bytes>, Error>
    requires (forall d :: d in ds ==> Known(ms, d)) && p < |ds|
  {
    Reassembled(BuffersAfter(ms, ds[..p]), WireData(ms, ds[p])).1
  }

  function ProgressAfter(ms: Messages, ds: seq<Delivery>): Progress
    requires forall d :: d in ds ==> Known(ms, d)
  {
    if ds == [] then map[] else Advance(ms, ProgressAfter(ms, ds[..|ds| - 1]), ds[|ds| - 1]).0
  }

  lemma StepRefines(ms: Messages, g: Progress, m: Buffers, d: Delivery)
    requires Sendable(ms) && Known(ms, d) && Holds(ms, g, m)
    ensures Holds(ms, Advance(ms, g, d).0, Reassembled(m, WireData(ms, d)).0)
    ensures Reassembled(m, WireData(ms, d)).1 == Ok(Advance(ms, g, d).1)
  {
    FragmentParses(FragmentOf(ms, d));
    AddRefines(ms, g, m, d);
  }

  lemma {:induction false} BuffersHoldProgress(ms: Messages, ds: seq<Delivery>)
    requires Sendable(ms) && forall d :: d in ds ==> Known(ms, d)
    ensures Holds(ms, ProgressAfter(ms, ds), BuffersAfter(ms, ds))
  {
    if ds != [] {
      BuffersHoldProgress(ms, ds[..|ds| - 1]);
      StepRefines(ms, ProgressAfter(ms, ds[..|ds| - 1]), BuffersAfter(ms, ds[..|ds| - 1]), ds[|ds| - 1]);
    }
  }

  /** Fragment reassembly: in every run the result of each delivery is the message when that fragment was the last one
      missing since the message was last returned, and nothing otherwise; no delivery fails. */
  lemma ReassemblyRefines(ms: Messages, ds: seq<Delivery>, p: nat)
    requires Sendable(ms) && (forall d :: d in ds ==> Known(ms, d)) && p < |ds|
    ensures ResultOf(ms, ds, p) == Ok(Advance(ms, ProgressAfter(ms, ds[..p]), ds[p]).1)
  {
    BuffersHoldProgress(ms, ds[..p]);
    StepRefines(ms, ProgressAfter(ms, ds[..p]), BuffersAfter(ms, ds[..p]), ds[p]);
  }

  /** The indices of message `id` among the deliveries. */
  function Arrived(ds: seq<Delivery>, id: nat): set<nat> {
    if ds == [] then {}
    else Arrived(ds[..|ds| - 1], id) + (if ds[|ds| - 1].id == id then {ds[|ds| - 1].index} else {})
  }

  lemma {:induction false} ArrivedGrows(ds: seq<Delivery>, n: nat, id: nat)
    requires n <= |ds|
    ensures Arrived(ds[..n], id) <= Arrived(ds, id)
  {
    if n < |ds| {
      ArrivedGrows(ds[..|ds| - 1], n, id);
      assert ds[..|ds| - 1][..n] == ds[..n];
    } else {
      assert ds[..n] == ds;
    }
  }

  /** From a point where nothing of a message is held, its progress is everything that arrives, until it is complete. */
  lemma {:induction false} ProgressIsArrived(ms: Messages, ds: seq<Delivery>, s: nat, id: nat)
    requires s <= |ds| && id in ms && forall d :: d in ds ==> Known(ms, d)
    requires Got(ProgressAfter(ms, ds[..s]), id) == {} && Arrived(ds[s..], id) != Below(|ms[id]|)
    ensures Got(ProgressAfter(ms, ds), id) == Arrived(ds[s..], id)
    decreases |ds|
  {
    if s < |ds| {
      var before := ds[..|ds| - 1];
      assert before[..s] == ds[..s] && before[s..] == ds[s..][..|ds[s..]| - 1];
      ArrivedGrows(ds[s..], |ds[s..]| - 1, id);
      ArrivedWithin(ms, ds[s..], id);
      ProgressIsArrived(ms, before, s, id);
    } else {
      assert ds[..s] == ds;
    }
  }

  lemma {:induction false} ArrivedWithin(ms: Messages, ds: seq<Delivery>, id: nat)
    requires id in ms && forall d :: d in ds ==> Known(ms, d)
    ensures Arrived(ds, id) <= Below(|ms[id]|)
  {
    if ds != [] {
      ArrivedWithin(ms, ds[..|ds| - 1], id);
      assert Known(ms, ds[|ds| - 1]);
    }
  }

  /** What a delivery answers, counted from a point where nothing of its message was held. */
  lemma ResultSince(ms: Messages, ds: seq<Delivery>, s: nat, q: nat)
    requires Sendable(ms) && (forall d :: d in ds ==> Known(ms, d)) && s <= q < |ds| && ds[q].id in ms
    requires Got(ProgressAfter(ms, ds[..s]), ds[q].id) == {}
    requires Arrived(ds[s..q], ds[q].id) != Below(|ms[ds[q].id]|)
    ensures ResultOf(ms, ds, q) ==
      Ok(if Arrived(ds[s..q + 1], ds[q].id) == Below(|ms[ds[q].id]|) then Some(Concat(ms[ds[q].id])) else None)
  {
    var id := ds[q].id;
    PrefixSlices(ds, s, q);
    ProgressIsArrived(ms, ds[..q], s, id);
    ArrivedSnoc(ds, s, q);
    ReassemblyRefines(ms, ds, q);
    AdvanceAnswers(ms, ProgressAfter(ms, ds[..q]), ds[q]);
  }

  lemma PrefixSlices(ds: seq<Delivery>, s: nat, q: nat)
    requires s <= q <= |ds|
    ensures ds[..q][..s] == ds[..s] && ds[..q][s..] == ds[s..q]
  {
  }

  lemma ArrivedSnoc(ds: seq<Delivery>, s: nat, q: nat)
    requires s <= q < |ds|
    ensures Arrived(ds[s..q + 1], ds[q].id) == Arrived(ds[s..q], ds[q].id) + {ds[q].index}
  {
    var run := ds[s..q + 1];
    assert run[..|run| - 1] == ds[s..q] && run[|run| - 1] == ds[q];
  }

  lemma AdvanceAnswers(ms: Messages, g: Progress, d: Delivery)
    requires Known(ms, d)
    ensures Advance(ms, g, d).1 ==
      if Got(g, d.id) + {d.index} == Below(|ms[d.id]|) then Some(Concat(ms[d.id])) else None
  {
  }

  /** Each message exactly once: whatever the interleaving, order and repetitions, the delivery that brings the last
      missing fragment returns the original message and no delivery of the message before it returns anything. After
      it, repetitions return nothing until every fragment has arrived a second time; that returns the message again. */
  lemma ReturnedExactlyOnce(ms: Messages, ds: seq<Delivery>, id: nat, data: bytes, size: nat, p: nat)
    requires Sendable(ms) && (forall d :: d in ds ==> Known(ms, d)) && id in ms
    requires size > 0 && ms[id] == Chunks(data, size)
    requires p < |ds| && ds[p].id == id
    requires Arrived(ds[..p], id) != Below(|ms[id]|) && Arrived(ds[..p + 1], id) == Below(|ms[id]|)
    ensures ResultOf(ms, ds, p) == Ok(Some(data))
    ensures forall q :: 0 <= q < p && ds[q].id == id ==> ResultOf(ms, ds, q) == Ok(None)
    ensures forall q :: p < q < |ds| && ds[q].id == id && Arrived(ds[p + 1..q], id) != Below(|ms[id]|) ==>
      ResultOf(ms, ds, q) == Ok(if Arrived(ds[p + 1..q + 1], id) == Below(|ms[id]|) then Some(data) else None)
  {
    ConcatChunks(data, size);
    assert ds[0..p] == ds[..p] && ds[0..p + 1] == ds[..p + 1] && ds[..0] == [];
    ResultSince(ms, ds, 0, p);
    forall q | 0 <= q < p && ds[q].id == id ensures ResultOf(ms, ds, q) == Ok(None) {
      StillPartial(ms, ds, id, p, q);
      StillPartial(ms, ds, id, p, q + 1);
      assert ds[0..q] == ds[..q] && ds[0..q + 1] == ds[..q + 1];
      ResultSince(ms, ds, 0, q);
    }
    ReturnForgets(ms, ds, p);
    forall q | p < q < |ds| && ds[q].id == id && Arrived(ds[p + 1..q], id) != Below(|ms[id]|)
      ensures ResultOf(ms, ds, q) == Ok(if Arrived(ds[p + 1..q + 1], id) == Below(|ms[id]|) then Some(data) else None)
    {
      ResultSince(ms, ds, p + 1, q);
    }
  }

  /** Once a message is returned nothing of it is held. */
  lemma ReturnForgets(ms: Messages, ds: seq<Delivery>, p: nat)
    requires Sendable(ms) && (forall d :: d in ds ==> Known(ms, d)) && p < |ds|
    requires ResultOf(ms, ds, p).Ok? && ResultOf(ms, ds, p).value.Some?
    ensures Got(ProgressAfter(ms, ds[..p + 1]), ds[p].id) == {}
  {
    ReassemblyRefines(ms, ds, p);
    AdvanceForgets(ms, ProgressAfter(ms, ds[..p]), ds[p]);
    ProgressSnoc(ms, ds, p);
  }

  lemma AdvanceForgets(ms: Messages, g: Progress, d: Delivery)
    requires Known(ms, d) && Advance(ms, g, d).1.Some?
    ensures Got(Advance(ms, g, d).0, d.id) == {}
  {
  }

  lemma ProgressSnoc(ms: Messages, ds: seq<Delivery>, p: nat)
    requires (forall d :: d in ds ==> Known(ms, d)) && p < |ds|
    ensures ProgressAfter(ms, ds[..p + 1]) == Advance(ms, ProgressAfter(ms, ds[..p]), ds[p]).0
  {
    assert ds[..p + 1][..p] == ds[..p] && ds[..p + 1][p] == ds[p];
  }

  lemma StillPartial(ms: Messages, ds: seq<Delivery>, id: nat, p: nat, n: nat)
    requires (forall d :: d in ds ==> Known(ms, d)) && id in ms && n <= p <= |ds|
    requires Arrived(ds[..p], id) != Below(|ms[id]|)
    ensures Arrived(ds[..n], id) != Below(|ms[id]|)
  {
    assert ds[..p][..n] == ds[..n];
    ArrivedGrows(ds[..p], n, id);
    ArrivedWithin(ms, ds[..p], id);
  }

  /** The fragments a transport sends are the fragments of its chunks. */
  lemma SentFragments(dest: Hash, data: bytes, mtu: nat, id: nat, ms: Messages, i: nat)
    requires mtu >= 36 && |data| > MaxPayload(mtu) && (|data| + MaxPayload(mtu) - 1) / MaxPayload(mtu) < 0x1_0000
    requires id in ms && ms[id] == Chunks(data, MaxPayload(mtu)) && i < |ms[id]|
    ensures |SentPackets(dest, data, mtu, id)| == |ms[id]|
    ensures var p, f := SentPackets(dest, data, mtu, id)[i], FragmentOf(ms, Delivery(id, i));
      p.context == RESOURCE && p.data == FragmentData(f.id, f.index, f.total, f.chunk)
  {
    var cs := Chunks(data, MaxPayload(mtu));
    ChunkCount(data, MaxPayload(mtu));
    assert |cs| % 0x1_0000 == |cs|;
    assert SentPackets(dest, data, mtu, id)[i] == FragmentPacket(dest, id, i, |cs|, cs[i]);
  }
}
