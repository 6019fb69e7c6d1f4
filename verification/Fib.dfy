/** The forwarding table (crates/icn/src/fib.rs). */
module Fibs {
  import opened Bytes
  import opened IcnNames

  datatype Hop = Hop(face: nat, cost: byte)

  datatype Entry = Entry(prefix: Name, faces: seq<Hop>)

  // ---------- Stable sorting by cost ----------

  /** Put `x` before the first hop that costs at least as much. */
  function Place(x: Hop, s: seq<Hop>): seq<Hop> {
    if s == [] then [x] else if x.cost <= s[0].cost then [x] + s else [s[0]] + Place(x, s[1..])
  }

  function SortByCost(s: seq<Hop>): seq<Hop> { if s == [] then [] else Place(s[0], SortByCost(s[1..])) }

  predicate Sorted(s: seq<Hop>) { forall i, j :: 0 <= i < j < |s| ==> s[i].cost <= s[j].cost }

  function OfCost(s: seq<Hop>, c: byte): seq<Hop> {
    if s == [] then [] else (if s[0].cost == c then [s[0]] else []) + OfCost(s[1..], c)
  }

  lemma {:induction false} PlaceKeepsHops(x: Hop, s: seq<Hop>)
    ensures multiset(Place(x, s)) == multiset(s) + multiset{x}
  {
    if s != [] {
      PlaceKeepsHops(x, s[1..]);
      assert s == [s[0]] + s[1..];
    }
  }

  lemma ConsSorts(h: Hop, s: seq<Hop>)
    requires Sorted(s) && forall g :: g in s ==> h.cost <= g.cost
    ensures Sorted([h] + s)
  {
  }

  lemma {:induction false} PlaceSorts(x: Hop, s: seq<Hop>)
    requires Sorted(s)
    ensures Sorted(Place(x, s))
  {
    if s != [] && x.cost > s[0].cost {
      var t := Place(x, s[1..]);
      PlaceSorts(x, s[1..]);
      PlaceKeepsHops(x, s[1..]);
      forall g | g in t ensures s[0].cost <= g.cost {
        assert g in multiset(t);
        assert g == x || g in s[1..];
      }
      ConsSorts(s[0], t);
    }
  }

  lemma ConsOfCost(h: Hop, s: seq<Hop>, c: byte)
    ensures OfCost([h] + s, c) == (if h.cost == c then [h] else []) + OfCost(s, c)
  {
    assert ([h] + s)[1..] == s;
  }

  lemma {:induction false} PlaceIsStable(x: Hop, s: seq<Hop>, c: byte)
    requires Sorted(s)
    ensures OfCost(Place(x, s), c) == OfCost([x] + s, c)
  {
    if s == [] {
      assert [x] + s == [x];
    } else if x.cost > s[0].cost {
      PlaceIsStable(x, s[1..], c);
      ConsOfCost(x, s, c);
      ConsOfCost(x, s[1..], c);
      ConsOfCost(s[0], Place(x, s[1..]), c);
      if x.cost == c {
        assert OfCost(s, c) == OfCost(s[1..], c);
      }
    }
  }

  /** The result is sorted, has the same hops, and keeps the order of hops of equal cost. */
  lemma {:induction false} SortByCostSorts(s: seq<Hop>)
    ensures Sorted(SortByCost(s)) && multiset(SortByCost(s)) == multiset(s)
    ensures forall c :: OfCost(SortByCost(s), c) == OfCost(s, c)
  {
    if s != [] {
      SortByCostSorts(s[1..]);
      PlaceSorts(s[0], SortByCost(s[1..]));
      PlaceKeepsHops(s[0], SortByCost(s[1..]));
      assert s == [s[0]] + s[1..];
      forall c ensures OfCost(SortByCost(s), c) == OfCost(s, c) {
        PlaceIsStable(s[0], SortByCost(s[1..]), c);
        assert ([s[0]] + SortByCost(s[1..]))[1..] == SortByCost(s[1..]);
      }
    }
  }

  predicate Unique(s: seq<Hop>) { forall i, j :: 0 <= i < j < |s| ==> s[i].face != s[j].face }

  predicate HasFace(s: seq<Hop>, face: nat) { exists i :: 0 <= i < |s| && s[i].face == face }

  lemma {:induction false} PlaceUnique(x: Hop, s: seq<Hop>)
    requires Unique(s) && !HasFace(s, x.face)
    ensures Unique(Place(x, s))
    ensures forall f :: HasFace(Place(x, s), f) <==> f == x.face || HasFace(s, f)
  {
    if s == [] || x.cost <= s[0].cost {
      ConsFaces(x, s);
      assert s == [] ==> [x] == [x] + s;
    } else {
      TailFaces(s);
      PlaceUnique(x, s[1..]);
      ConsFaces(s[0], Place(x, s[1..]));
    }
  }

  lemma ConsFaces(x: Hop, s: seq<Hop>)
    ensures forall f :: HasFace([x] + s, f) <==> f == x.face || HasFace(s, f)
    ensures Unique(s) && !HasFace(s, x.face) ==> Unique([x] + s)
  {
    var t := [x] + s;
    forall f ensures HasFace(t, f) <==> f == x.face || HasFace(s, f) {
      assert t[0] == x;
      if HasFace(s, f) {
        var i :| 0 <= i < |s| && s[i].face == f;
        assert t[i + 1] == s[i];
      }
      if HasFace(t, f) {
        var i :| 0 <= i < |t| && t[i].face == f;
        assert i > 0 ==> s[i - 1] == t[i];
      }
    }
  }

  lemma TailFaces(s: seq<Hop>)
    requires s != []
    ensures forall f :: HasFace(s, f) <==> f == s[0].face || HasFace(s[1..], f)
    ensures Unique(s) ==> Unique(s[1..]) && !HasFace(s[1..], s[0].face)
  {
    ConsFaces(s[0], s[1..]);
    assert s == [s[0]] + s[1..];
  }

  lemma {:induction false} SortUnique(s: seq<Hop>)
    requires Unique(s)
    ensures Unique(SortByCost(s)) && forall f :: HasFace(SortByCost(s), f) <==> HasFace(s, f)
  {
    if s != [] {
      TailFaces(s);
      SortUnique(s[1..]);
      PlaceUnique(s[0], SortByCost(s[1..]));
    }
  }

  // ---------- The table, on values ----------

  /** Set the cost of a face, or add it at the end. */
  function WithHop(s: seq<Hop>, face: nat, cost: byte): seq<Hop> {
    if s == [] then [Hop(face, cost)]
    else if s[0].face == face then [Hop(face, cost)] + s[1..]
    else [s[0]] + WithHop(s[1..], face, cost)
  }

  function Inserted(es: seq<Entry>, prefix: Name, face: nat, cost: byte): seq<Entry> {
    if es == [] then [Entry(prefix, [Hop(face, cost)])]
    else if es[0].prefix == prefix then [es[0].(faces := SortByCost(WithHop(es[0].faces, face, cost)))] + es[1..]
    else [es[0]] + Inserted(es[1..], prefix, face, cost)
  }

  function WithoutFace(s: seq<Hop>, face: nat): seq<Hop> {
    if s == [] then [] else (if s[0].face == face then [] else [s[0]]) + WithoutFace(s[1..], face)
  }

  predicate Related(a: Name, b: Name) { StartsWith(a, b) || StartsWith(b, a) }

  /** Related names agree as far as the shorter one goes. */
  lemma RelatedExactly(a: Name, b: Name)
    ensures Related(a, b) <==>
      forall i :: 0 <= i < |a.components| && i < |b.components| ==> a.components[i] == b.components[i]
  {
    StartsWithExactly(a, b);
    StartsWithExactly(b, a);
  }

  function FaceRemoved(es: seq<Entry>, prefix: Name, face: nat): seq<Entry> {
    if es == [] then []
    else
      var rest := FaceRemoved(es[1..], prefix, face);
      if !Related(es[0].prefix, prefix) then [es[0]] + rest
      else
        var left := WithoutFace(es[0].faces, face);
        if left == [] then rest else [es[0].(faces := left)] + rest
  }

  function PrefixRemoved(es: seq<Entry>, prefix: Name): seq<Entry> {
    if es == [] then []
    else (if StartsWith(es[0].prefix, prefix) then [] else [es[0]]) + PrefixRemoved(es[1..], prefix)
  }

  predicate GoodFaces(s: seq<Hop>) { s != [] && Unique(s) && Sorted(s) }

  predicate Listed(es: seq<Entry>, prefix: Name) { exists i :: 0 <= i < |es| && es[i].prefix == prefix }

  /** Prefixes are distinct; the faces of each are non-empty, unique and in order of cost. */
  predicate GoodTable(es: seq<Entry>) {
    && (forall i :: 0 <= i < |es| ==> GoodFaces(es[i].faces))
    && (forall i, j :: 0 <= i < j < |es| ==> es[i].prefix != es[j].prefix)
  }

  lemma ConsTable(e: Entry, es: seq<Entry>)
    ensures GoodTable(es) && GoodFaces(e.faces) && !Listed(es, e.prefix) ==> GoodTable([e] + es)
    ensures forall p :: Listed([e] + es, p) <==> p == e.prefix || Listed(es, p)
  {
    var t := [e] + es;
    forall p ensures Listed(t, p) <==> p == e.prefix || Listed(es, p) {
      assert t[0] == e;
      if Listed(es, p) {
        var i :| 0 <= i < |es| && es[i].prefix == p;
        assert t[i + 1] == es[i];
      }
      if Listed(t, p) {
        var i :| 0 <= i < |t| && t[i].prefix == p;
        assert i > 0 ==> es[i - 1] == t[i];
      }
    }
  }

  lemma TailTable(es: seq<Entry>)
    requires es != [] && GoodTable(es)
    ensures GoodTable(es[1..]) && GoodFaces(es[0].faces) && !Listed(es[1..], es[0].prefix)
  {
    forall i | 0 <= i < |es| - 1 ensures es[1..][i].prefix != es[0].prefix {
      assert es[i + 1] == es[1..][i];
    }
  }

  lemma {:induction false} WithHopUnique(s: seq<Hop>, face: nat, cost: byte)
    requires Unique(s)
    ensures Unique(WithHop(s, face, cost)) && WithHop(s, face, cost) != []
    ensures forall f :: HasFace(WithHop(s, face, cost), f) <==> f == face || HasFace(s, f)
  {
    if s == [] {
      ConsFaces(Hop(face, cost), []);
      assert [Hop(face, cost)] + [] == [Hop(face, cost)];
    } else {
      TailFaces(s);
      if s[0].face == face {
        ConsFaces(Hop(face, cost), s[1..]);
      } else {
        WithHopUnique(s[1..], face, cost);
        ConsFaces(s[0], WithHop(s[1..], face, cost));
      }
    }
  }

  lemma FacesAfterInsert(s: seq<Hop>, face: nat, cost: byte)
    requires Unique(s)
    ensures GoodFaces(SortByCost(WithHop(s, face, cost)))
  {
    var t := WithHop(s, face, cost);
    WithHopUnique(s, face, cost);
    SortUnique(t);
    SortByCostSorts(t);
    assert t[0] in multiset(SortByCost(t));
  }

  lemma {:induction false} InsertKeepsTable(es: seq<Entry>, prefix: Name, face: nat, cost: byte)
    requires GoodTable(es)
    ensures GoodTable(Inserted(es, prefix, face, cost))
    ensures forall p :: Listed(Inserted(es, prefix, face, cost), p) <==> p == prefix || Listed(es, p)
  {
    if es == [] {
      ConsTable(Entry(prefix, [Hop(face, cost)]), []);
      assert [Entry(prefix, [Hop(face, cost)])] + [] == [Entry(prefix, [Hop(face, cost)])];
    } else {
      TailTable(es);
      ConsTable(es[0], es[1..]);
      assert es == [es[0]] + es[1..];
      if es[0].prefix == prefix {
        FacesAfterInsert(es[0].faces, face, cost);
        ConsTable(es[0].(faces := SortByCost(WithHop(es[0].faces, face, cost))), es[1..]);
      } else {
        InsertKeepsTable(es[1..], prefix, face, cost);
        ConsTable(es[0], Inserted(es[1..], prefix, face, cost));
      }
    }
  }

  lemma {:induction false} WithoutFaceExactly(s: seq<Hop>, face: nat)
    ensures forall h :: h in WithoutFace(s, face) <==> h in s && h.face != face
  {
    if s != [] {
      WithoutFaceExactly(s[1..], face);
      assert s == [s[0]] + s[1..];
    }
  }

  lemma {:induction false} WithoutFaceKeeps(s: seq<Hop>, face: nat)
    requires Unique(s) && Sorted(s)
    ensures Unique(WithoutFace(s, face)) && Sorted(WithoutFace(s, face))
  {
    if s != [] {
      TailFaces(s);
      WithoutFaceKeeps(s[1..], face);
      WithoutFaceExactly(s[1..], face);
      var t := WithoutFace(s[1..], face);
      forall i | 0 <= i < |t| ensures t[i].face != s[0].face && s[0].cost <= t[i].cost {
        assert t[i] in s[1..];
        var k :| 0 <= k < |s| - 1 && s[1..][k] == t[i];
        assert s[k + 1] == t[i];
      }
      if s[0].face == face {
        assert WithoutFace(s, face) == t;
      } else {
        assert WithoutFace(s, face) == [s[0]] + t;
        assert !HasFace(t, s[0].face);
        ConsFaces(s[0], t);
      }
    }
  }

  lemma {:induction false} RemoveFaceKeepsTable(es: seq<Entry>, prefix: Name, face: nat)
    requires GoodTable(es)
    ensures GoodTable(FaceRemoved(es, prefix, face))
    ensures forall p :: Listed(FaceRemoved(es, prefix, face), p) ==> Listed(es, p)
  {
    if es != [] {
      TailTable(es);
      RemoveFaceKeepsTable(es[1..], prefix, face);
      WithoutFaceKeeps(es[0].faces, face);
      ConsTable(es[0], es[1..]);
      assert es == [es[0]] + es[1..];
      var rest := FaceRemoved(es[1..], prefix, face);
      ConsTable(es[0], rest);
      ConsTable(es[0].(faces := WithoutFace(es[0].faces, face)), rest);
    }
  }

  lemma {:induction false} RemovePrefixKeepsTable(es: seq<Entry>, prefix: Name)
    requires GoodTable(es)
    ensures GoodTable(PrefixRemoved(es, prefix))
    ensures forall p :: Listed(PrefixRemoved(es, prefix), p) <==> Listed(es, p) && !StartsWith(p, prefix)
  {
    if es != [] {
      TailTable(es);
      RemovePrefixKeepsTable(es[1..], prefix);
      ConsTable(es[0], es[1..]);
      ConsTable(es[0], PrefixRemoved(es[1..], prefix));
      assert es == [es[0]] + es[1..];
      assert [] + PrefixRemoved(es[1..], prefix) == PrefixRemoved(es[1..], prefix);
    }
  }

  // ---------- The table, in place ----------

  /** `i` is the first-inserted entry among the longest prefixes of `name`. */
  predicate LongestMatch(es: seq<Entry>, name: Name, i: nat)
    requires i < |es|
  {
    && StartsWith(name, es[i].prefix)
    && (forall j :: 0 <= j < |es| && StartsWith(name, es[j].prefix) ==>
          |es[j].prefix.components| <= |es[i].prefix.components|)
    && (forall j :: 0 <= j < i && StartsWith(name, es[j].prefix) ==>
          |es[j].prefix.components| < |es[i].prefix.components|)
  }

  /** The entry the scan of `lookup` has chosen after `k` entries. */
  function BestEntry(es: seq<Entry>, name: Name, k: nat): (best: Option<nat>)
    requires k <= |es|
    ensures best.Some? ==> best.value < k
  {
    if k == 0 then None
    else
      var best, prefix := BestEntry(es, name, k - 1), es[k - 1].prefix;
      if StartsWith(name, prefix) && (best.None? || |prefix.components| > |es[best.value].prefix.components|)
      then Some(k - 1) else best
  }

  /** The scan is longest-prefix match; among equally long prefixes, which can differ in content hash only, it takes the
      first inserted. */
  lemma {:induction false} ScanIsLongestMatch(es: seq<Entry>, name: Name, k: nat)
    requires k <= |es|
    ensures BestEntry(es, name, k).None? <==> forall i :: 0 <= i < k ==> !StartsWith(name, es[i].prefix)
    ensures BestEntry(es, name, k).Some? ==> LongestMatch(es[..k], name, BestEntry(es, name, k).value)
  {
    if k > 0 {
      ScanIsLongestMatch(es, name, k - 1);
    }
  }

  class Fib {
    var entries: seq<Entry>

    ghost predicate Valid()
      reads this
    {
      GoodTable(entries)
    }

    constructor ()
      ensures Valid() && entries == []
    {
      entries := [];
    }

    method Insert(prefix: Name, face: nat, cost: byte)
      requires Valid()
      modifies this
      ensures Valid()
      ensures entries == Inserted(old(entries), prefix, face, cost)
    {
      InsertKeepsTable(entries, prefix, face, cost);
      var i := 0;
      while i < |entries|
        invariant 0 <= i <= |entries| && entries == old(entries)
        invariant forall k :: 0 <= k < i ==> entries[k].prefix != prefix
        invariant Inserted(entries, prefix, face, cost) == entries[..i] + Inserted(entries[i..], prefix, face, cost)
      {
        if entries[i].prefix == prefix {
          var faces := SortByCost(WithHop(entries[i].faces, face, cost));
          InsertFinds(entries, i, prefix, face, cost);
          entries := entries[i := entries[i].(faces := faces)];
          return;
        }
        InsertSkips(entries, i, prefix, face, cost);
        i := i + 1;
      }
      assert entries[..i] == entries && entries[i..] == [];
      entries := entries + [Entry(prefix, [Hop(face, cost)])];
    }

    method RemoveFace(prefix: Name, face: nat)
      requires Valid()
      modifies this
      ensures Valid()
      ensures entries == FaceRemoved(old(entries), prefix, face)
    {
      RemoveFaceKeepsTable(entries, prefix, face);
      entries := FaceRemoved(entries, prefix, face);
    }

    method RemovePrefix(prefix: Name)
      requires Valid()
      modifies this
      ensures Valid()
      ensures entries == PrefixRemoved(old(entries), prefix)
    {
      RemovePrefixKeepsTable(entries, prefix);
      entries := PrefixRemoved(entries, prefix);
    }

    method Lookup(name: Name) returns (r: Option<seq<Hop>>)
      ensures r == match BestEntry(entries, name, |entries|) case Some(i) => Some(entries[i].faces) case None => None
      ensures r.None? <==> forall i :: 0 <= i < |entries| ==> !StartsWith(name, entries[i].prefix)
      ensures r.Some? ==>
        exists i :: 0 <= i < |entries| && LongestMatch(entries, name, i) && r.value == entries[i].faces
    {
      var best: Option<nat> := None;
      for i := 0 to |entries|
        invariant best == BestEntry(entries, name, i)
      {
        var entry := entries[i];
        if StartsWith(name, entry.prefix) {
          if best.None? || |entry.prefix.components| > |entries[best.value].prefix.components| {
            best := Some(i);
          }
        }
      }
      ScanIsLongestMatch(entries, name, |entries|);
      assert entries[..|entries|] == entries;
      if best.None? {
        return None;
      }
      return Some(entries[best.value].faces);
    }
  }

  lemma InsertFinds(es: seq<Entry>, i: nat, prefix: Name, face: nat, cost: byte)
    requires i < |es| && es[i].prefix == prefix
    ensures es[..i] + Inserted(es[i..], prefix, face, cost)
      == es[i := es[i].(faces := SortByCost(WithHop(es[i].faces, face, cost)))]
  {
    assert es[i..][1..] == es[i + 1..];
  }

  lemma InsertSkips(es: seq<Entry>, i: nat, prefix: Name, face: nat, cost: byte)
    requires i < |es| && es[i].prefix != prefix
    ensures es[..i] + Inserted(es[i..], prefix, face, cost) == es[..i + 1] + Inserted(es[i + 1..], prefix, face, cost)
  {
    assert es[i..][1..] == es[i + 1..];
    assert es[..i + 1] == es[..i] + [es[i]];
  }

  // ---------- The table as a mapping ----------

  function FaceCost(s: seq<Hop>, face: nat): Option<byte> {
    if s == [] then None else if s[0].face == face then Some(s[0].cost) else FaceCost(s[1..], face)
  }

  /** The cost at which the table sends `prefix` to `face`. */
  function CostOf(es: seq<Entry>, prefix: Name, face: nat): Option<byte> {
    if es == [] then None
    else if es[0].prefix == prefix then FaceCost(es[0].faces, face)
    else CostOf(es[1..], prefix, face)
  }

  lemma ConsCost(x: Hop, s: seq<Hop>, f: nat)
    ensures FaceCost([x] + s, f) == if f == x.face then Some(x.cost) else FaceCost(s, f)
  {
    assert ([x] + s)[1..] == s;
  }

  lemma ConsCostOf(e: Entry, es: seq<Entry>, p: Name, f: nat)
    ensures CostOf([e] + es, p, f) == if p == e.prefix then FaceCost(e.faces, f) else CostOf(es, p, f)
  {
    assert ([e] + es)[1..] == es;
  }

  lemma {:induction false} PlaceCost(x: Hop, s: seq<Hop>, f: nat)
    requires !HasFace(s, x.face)
    ensures FaceCost(Place(x, s), f) == if f == x.face then Some(x.cost) else FaceCost(s, f)
  {
    if s == [] || x.cost <= s[0].cost {
      ConsCost(x, s, f);
      assert s == [] ==> [x] == [x] + s;
    } else {
      TailFaces(s);
      PlaceCost(x, s[1..], f);
      ConsCost(s[0], Place(x, s[1..]), f);
    }
  }

  lemma {:induction false} SortCost(s: seq<Hop>, f: nat)
    requires Unique(s)
    ensures FaceCost(SortByCost(s), f) == FaceCost(s, f)
  {
    if s != [] {
      TailFaces(s);
      SortUnique(s[1..]);
      SortCost(s[1..], f);
      PlaceCost(s[0], SortByCost(s[1..]), f);
    }
  }

  lemma {:induction false} WithHopCost(s: seq<Hop>, face: nat, cost: byte, f: nat)
    ensures FaceCost(WithHop(s, face, cost), f) == if f == face then Some(cost) else FaceCost(s, f)
  {
    if s != [] {
      if s[0].face == face {
        ConsCost(Hop(face, cost), s[1..], f);
      } else {
        WithHopCost(s[1..], face, cost, f);
        ConsCost(s[0], WithHop(s[1..], face, cost), f);
      }
    }
  }

  /** Inserting sets one cost and changes no other. */
  lemma {:induction false} InsertSetsCost(es: seq<Entry>, prefix: Name, face: nat, cost: byte, p: Name, f: nat)
    requires GoodTable(es)
    ensures CostOf(Inserted(es, prefix, face, cost), p, f) ==
      if p == prefix && f == face then Some(cost) else CostOf(es, p, f)
  {
    if es == [] {
      var h := Hop(face, cost);
      ConsCost(h, [], f);
      ConsCostOf(Entry(prefix, [h]), [], p, f);
      assert [h] + [] == [h] && [Entry(prefix, [h])] + [] == [Entry(prefix, [h])];
    } else {
      TailTable(es);
      var faces := es[0].faces;
      if es[0].prefix == prefix {
        WithHopUnique(faces, face, cost);
        SortCost(WithHop(faces, face, cost), f);
        WithHopCost(faces, face, cost, f);
        ConsCostOf(es[0].(faces := SortByCost(WithHop(faces, face, cost))), es[1..], p, f);
      } else {
        InsertSetsCost(es[1..], prefix, face, cost, p, f);
        ConsCostOf(es[0], Inserted(es[1..], prefix, face, cost), p, f);
      }
    }
  }

  lemma {:induction false} UnlistedCost(es: seq<Entry>, p: Name, f: nat)
    requires !Listed(es, p)
    ensures CostOf(es, p, f) == None
  {
    if es != [] {
      ConsTable(es[0], es[1..]);
      assert es == [es[0]] + es[1..];
      UnlistedCost(es[1..], p, f);
    }
  }

  lemma {:induction false} WithoutFaceCost(s: seq<Hop>, face: nat, f: nat)
    requires Unique(s)
    ensures FaceCost(WithoutFace(s, face), f) == if f == face then None else FaceCost(s, f)
  {
    if s != [] {
      TailFaces(s);
      WithoutFaceCost(s[1..], face, f);
      if s[0].face == face {
        assert WithoutFace(s, face) == WithoutFace(s[1..], face);
      } else {
        ConsCost(s[0], WithoutFace(s[1..], face), f);
      }
    }
  }

  /** Removing a face drops it from every prefix above or below the given one, and changes nothing else. */
  lemma {:induction false} RemoveFaceDropsCost(es: seq<Entry>, prefix: Name, face: nat, p: Name, f: nat)
    requires GoodTable(es)
    ensures CostOf(FaceRemoved(es, prefix, face), p, f) ==
      if Related(p, prefix) && f == face then None else CostOf(es, p, f)
  {
    if es != [] {
      TailTable(es);
      var rest, left := FaceRemoved(es[1..], prefix, face), WithoutFace(es[0].faces, face);
      RemoveFaceDropsCost(es[1..], prefix, face, p, f);
      WithoutFaceCost(es[0].faces, face, f);
      ConsCostOf(es[0], rest, p, f);
      ConsCostOf(es[0].(faces := left), rest, p, f);
      if p == es[0].prefix {
        RemoveFaceKeepsTable(es[1..], prefix, face);
        UnlistedCost(rest, p, f);
      }
    }
  }

  /** Removing a prefix drops every prefix that extends it, and changes nothing else. */
  lemma {:induction false} RemovePrefixDropsCost(es: seq<Entry>, prefix: Name, p: Name, f: nat)
    requires GoodTable(es)
    ensures CostOf(PrefixRemoved(es, prefix), p, f) == if StartsWith(p, prefix) then None else CostOf(es, p, f)
  {
    if es != [] {
      TailTable(es);
      var rest := PrefixRemoved(es[1..], prefix);
      RemovePrefixDropsCost(es[1..], prefix, p, f);
      ConsCostOf(es[0], rest, p, f);
      if StartsWith(es[0].prefix, prefix) {
        assert PrefixRemoved(es, prefix) == rest;
      }
    }
  }

  // ---------- Order of insertion ----------

  /** Prefix `p` stands before prefix `q` in the table. */
  predicate Before(es: seq<Entry>, p: Name, q: Name) {
    exists i, j :: 0 <= i < j < |es| && es[i].prefix == p && es[j].prefix == q
  }

  lemma ConsBefore(e: Entry, es: seq<Entry>, p: Name, q: Name)
    ensures Before([e] + es, p, q) <==> (e.prefix == p && Listed(es, q)) || Before(es, p, q)
  {
    var t := [e] + es;
    if Before(t, p, q) {
      var i, j :| 0 <= i < j < |t| && t[i].prefix == p && t[j].prefix == q;
      assert t[j] == es[j - 1] && (i > 0 ==> t[i] == es[i - 1]);
    }
    if e.prefix == p && Listed(es, q) {
      var j :| 0 <= j < |es| && es[j].prefix == q;
      assert t[0].prefix == p && t[j + 1].prefix == q;
    }
    if Before(es, p, q) {
      var i, j :| 0 <= i < j < |es| && es[i].prefix == p && es[j].prefix == q;
      assert t[i + 1] == es[i] && t[j + 1] == es[j];
    }
  }

  /** A new prefix goes behind all others, and one that is there keeps its place. */
  lemma {:induction false} InsertKeepsOrder(es: seq<Entry>, prefix: Name, face: nat, cost: byte, p: Name, q: Name)
    requires GoodTable(es)
    ensures Before(Inserted(es, prefix, face, cost), p, q) <==>
      Before(es, p, q) || (Listed(es, p) && q == prefix && !Listed(es, prefix))
  {
    if es != [] {
      TailTable(es);
      ConsBefore(es[0], es[1..], p, q);
      ConsTable(es[0], es[1..]);
      assert es == [es[0]] + es[1..];
      if es[0].prefix == prefix {
        ConsBefore(es[0].(faces := SortByCost(WithHop(es[0].faces, face, cost))), es[1..], p, q);
      } else {
        InsertKeepsOrder(es[1..], prefix, face, cost, p, q);
        InsertKeepsTable(es[1..], prefix, face, cost);
        ConsBefore(es[0], Inserted(es[1..], prefix, face, cost), p, q);
      }
    }
  }

  /** Removing a face keeps the order of what is left. */
  lemma {:induction false} RemoveFaceKeepsOrder(es: seq<Entry>, prefix: Name, face: nat, p: Name, q: Name)
    requires GoodTable(es)
    ensures var t := FaceRemoved(es, prefix, face); Before(t, p, q) <==> Before(es, p, q) && Listed(t, p) && Listed(t, q)
  {
    if es != [] {
      TailTable(es);
      RemoveFaceKeepsOrder(es[1..], prefix, face, p, q);
      RemoveFaceKeepsTable(es[1..], prefix, face);
      var rest := FaceRemoved(es[1..], prefix, face);
      HeadKept(es[0], es[0], es[1..], rest, p, q);
      HeadKept(es[0], es[0].(faces := WithoutFace(es[0].faces, face)), es[1..], rest, p, q);
      assert es == [es[0]] + es[1..];
    }
  }

  /** So does removing a prefix. */
  lemma {:induction false} RemovePrefixKeepsOrder(es: seq<Entry>, prefix: Name, p: Name, q: Name)
    requires GoodTable(es)
    ensures var t := PrefixRemoved(es, prefix); Before(t, p, q) <==> Before(es, p, q) && Listed(t, p) && Listed(t, q)
  {
    if es != [] {
      TailTable(es);
      RemovePrefixKeepsOrder(es[1..], prefix, p, q);
      RemovePrefixKeepsTable(es[1..], prefix);
      var rest := PrefixRemoved(es[1..], prefix);
      HeadKept(es[0], es[0], es[1..], rest, p, q);
      assert es == [es[0]] + es[1..];
      if StartsWith(es[0].prefix, prefix) {
        assert PrefixRemoved(es, prefix) == rest;
      } else {
        assert PrefixRemoved(es, prefix) == [es[0]] + rest;
      }
    }
  }

  /** The step: what holds of the tails holds with the first entry kept, changed in its faces, or dropped. */
  lemma HeadKept(e: Entry, e': Entry, es: seq<Entry>, t: seq<Entry>, p: Name, q: Name)
    requires e'.prefix == e.prefix && !Listed(es, e.prefix) && forall n :: Listed(t, n) ==> Listed(es, n)
    requires Before(t, p, q) <==> Before(es, p, q) && Listed(t, p) && Listed(t, q)
    ensures Before([e'] + t, p, q) <==> Before([e] + es, p, q) && Listed([e'] + t, p) && Listed([e'] + t, q)
    ensures Before(t, p, q) <==> Before([e] + es, p, q) && Listed(t, p) && Listed(t, q)
  {
    ConsBefore(e, es, p, q);
    ConsBefore(e', t, p, q);
    ConsTable(e, es);
    ConsTable(e', t);
    if Before(es, p, q) {
      var i, j :| 0 <= i < j < |es| && es[i].prefix == p && es[j].prefix == q;
      assert Listed(es, p) && Listed(es, q);
    }
  }

  // ---------- Unregistering a face ----------

  /** The name `unregister_face` passes to `remove_face`. */
  const DUMMY := Name([Zeros(32)], None)

  /** No entry of the table sends anything to the face. */
  ghost predicate Unused(es: seq<Entry>, face: nat) { forall p :: CostOf(es, p, face) == None }

  ghost predicate OnlyDummyRoutes(es: seq<Entry>, face: nat) {
    forall p :: CostOf(es, p, face).Some? ==> p.components == [] || p.components[0] == Zeros(32)
  }

  /** Unregistering a face is meant to drop all its routes. It does exactly when the face has routes only for the empty
      prefix and for names of the all-zero producer. */
  lemma UnregisterDropsExactly(es: seq<Entry>, face: nat)
    requires GoodTable(es)
    ensures Unused(FaceRemoved(es, DUMMY, face), face) <==> OnlyDummyRoutes(es, face)
  {
    var removed := FaceRemoved(es, DUMMY, face);
    forall p ensures CostOf(removed, p, face) ==
      if p.components == [] || p.components[0] == Zeros(32) then None else CostOf(es, p, face)
    {
      RemoveFaceDropsCost(es, DUMMY, face, p, face);
      RelatedToDummy(p);
    }
    if Unused(removed, face) {
      forall p | CostOf(es, p, face).Some? ensures p.components == [] || p.components[0] == Zeros(32) {
        assert CostOf(removed, p, face) == None;
      }
    }
  }

  /** A face with one ordinary route keeps it. */
  lemma UnregisterKeepsRoute(producer: Digest, face: nat, cost: byte)
    requires producer != Zeros(32)
    ensures var es := Inserted([], Name([producer], None), face, cost);
      GoodTable(es) && CostOf(FaceRemoved(es, DUMMY, face), Name([producer], None), face) == Some(cost)
  {
    var p := Name([producer], None);
    InsertKeepsTable([], p, face, cost);
    InsertSetsCost([], p, face, cost, p, face);
    RemoveFaceDropsCost(Inserted([], p, face, cost), DUMMY, face, p, face);
    RelatedToDummy(p);
  }

  lemma RelatedToDummy(p: Name)
    ensures Related(p, DUMMY) <==> p.components == [] || p.components[0] == Zeros(32)
  {
    if p.components != [] && p.components[0] == Zeros(32) {
      assert p.components[..1] == [Zeros(32)];
    }
  }
}
