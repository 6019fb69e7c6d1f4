/** Octets, the optional and failing results shared by every component, and
    fixed-width big-endian integers (`to_be_bytes` / `from_be_bytes`). */
module Bytes {

  newtype byte = b: int | 0 <= b < 256

  type bytes = seq<byte>

  datatype Option<+T> = None | Some(value: T)

  datatype Result<+T, +E> = Ok(value: T) | Err(error: E)

  function Zeros(n: nat): bytes { seq(n, _ => 0) }

  /** Number of values of a k-octet unsigned integer. */
  function Range(k: nat): (r: nat)
    ensures r > 0
  {
    if k == 0 then 1 else 256 * Range(k - 1)
  }

  /** The low `k` octets of `v`, most significant first. */
  function ToBe(v: nat, k: nat): (s: bytes)
    ensures |s| == k
  {
    if k == 0 then [] else ToBe(v / 256, k - 1) + [(v % 256) as byte]
  }

  function FromBe(s: bytes): (v: nat)
  {
    if s == [] then 0 else FromBe(s[..|s| - 1]) * 256 + s[|s| - 1] as int
  }

  /** A value that fits in `k` octets survives the wire. */
  lemma {:induction false} BeRoundTrip(v: nat, k: nat)
    requires v < Range(k)
    ensures FromBe(ToBe(v, k)) == v
  {
    if k > 0 {
      BeRoundTrip(v / 256, k - 1);
      assert ToBe(v, k)[..k - 1] == ToBe(v / 256, k - 1);
    }
  }

  /** The first octet counts most. */
  lemma {:induction false} FirstCountsMost(s: bytes)
    requires s != []
    ensures FromBe(s) == s[0] as int * Range(|s| - 1) + FromBe(s[1..])
  {
    var last := |s| - 1;
    if last == 0 {
      assert s[..0] == [] && s[1..] == [];
      assert FromBe(s) == FromBe(s[..0]) * 256 + s[0] as int;
    } else {
      FirstCountsMost(s[..last]);
      assert s[..last][1..] == s[1..][..last - 1];
      assert s[0] as int * Range(last - 1) * 256 == s[0] as int * Range(last);
    }
  }

  /** `FromBe` of `k` octets is below `256^k`. */
  lemma {:induction false} FromBeBound(s: bytes)
    ensures FromBe(s) < Range(|s|)
  {
    if s != [] {
      FromBeBound(s[..|s| - 1]);
    }
  }

  /** A slice of a slice is a slice. */
  lemma SubSlice<T>(s: seq<T>, a: nat, b: nat, i: nat, j: nat)
    requires a <= b <= |s| && i <= j <= b - a
    ensures s[a..b][i..j] == s[a + i..a + j]
  {
    var t, l, r := s[a..b], s[a..b][i..j], s[a + i..a + j];
    assert forall k :: 0 <= k < |l| ==> l[k] == t[i + k] == s[a + (i + k)] == r[k];
  }

  /** Extending a sequence keeps its slices. */
  lemma PrefixSlice<T>(a: seq<T>, b: seq<T>, i: nat, j: nat)
    requires a <= b && i <= j <= |a|
    ensures a[i..j] == b[i..j]
  {
    assert b[..|a|] == a;
    SubSlice(b, 0, |a|, i, j);
  }

  lemma Ranges()
    ensures Range(1) == 0x100 && Range(2) == 0x1_0000
    ensures Range(4) == 0x1_0000_0000 && Range(8) == 0x1_0000_0000_0000_0000
  {
    assert Range(1) == 256 * Range(0);
    assert Range(2) == 256 * Range(1);
    assert Range(3) == 256 * Range(2);
    assert Range(4) == 256 * Range(3);
    assert Range(5) == 256 * Range(4);
    assert Range(6) == 256 * Range(5);
    assert Range(7) == 256 * Range(6);
    assert Range(8) == 256 * Range(7);
  }
}
