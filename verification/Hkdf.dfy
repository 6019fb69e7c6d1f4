/** HKDF-SHA256 (crates/crypto/src/hkdf.rs) over an abstract HMAC, against section 2 of RFC 5869. */
module Hkdf {
  import opened Bytes

  const HASH_LEN := 32

  type Hmac = (bytes, bytes) -> bytes

  ghost predicate IsHmac(hmac: Hmac) {
    forall k, m :: |hmac(k, m)| == HASH_LEN
  }

  // ---------- Section 2 of RFC 5869 ----------

  function Extract(hmac: Hmac, salt: Option<bytes>, ikm: bytes): bytes {
    hmac(if salt.Some? && salt.value != [] then salt.value else seq(HASH_LEN, _ => 0), ikm)
  }

  /** T(0) is empty; T(i) = HMAC(PRK, T(i-1) | info | i). */
  function T(hmac: Hmac, prk: bytes, info: bytes, i: nat): bytes
    requires i < 256
  {
    if i == 0 then [] else hmac(prk, T(hmac, prk, info, i - 1) + info + [i as byte])
  }

  /** T(1) | T(2) | ... | T(n). */
  function Blocks(hmac: Hmac, prk: bytes, info: bytes, n: nat): bytes
    requires n < 256
  {
    if n == 0 then [] else Blocks(hmac, prk, info, n - 1) + T(hmac, prk, info, n)
  }

  function CeilDiv(n: nat, d: nat): nat
    requires d > 0
  {
    (n + d - 1) / d
  }

  lemma {:induction false} BlocksLength(hmac: Hmac, prk: bytes, info: bytes, n: nat)
    requires IsHmac(hmac) && n < 256
    ensures |Blocks(hmac, prk, info, n)| == HASH_LEN * n
  {
    if n > 0 {
      BlocksLength(hmac, prk, info, n - 1);
    }
  }

  /** Octet `j` of the stream is octet `j % 32` of T(j / 32 + 1). */
  lemma {:induction false} BlocksOctet(hmac: Hmac, prk: bytes, info: bytes, n: nat, j: nat)
    requires IsHmac(hmac) && n < 256 && j < HASH_LEN * n
    ensures |Blocks(hmac, prk, info, n)| == HASH_LEN * n
    ensures Blocks(hmac, prk, info, n)[j] == T(hmac, prk, info, j / HASH_LEN + 1)[j % HASH_LEN]
  {
    BlocksLength(hmac, prk, info, n);
    BlocksLength(hmac, prk, info, n - 1);
    if j < HASH_LEN * (n - 1) {
      BlocksOctet(hmac, prk, info, n - 1, j);
    } else {
      assert j / HASH_LEN == n - 1 && j % HASH_LEN == j - HASH_LEN * (n - 1);
    }
  }

  // ---------- The code ----------

  /** What the code returns: the block counter is an octet, so the loop runs `n mod 256` times. */
  ghost function Derived(hmac: Hmac, length: nat, ikm: bytes, salt: Option<bytes>, context: Option<bytes>): bytes {
    var info := if context.Some? then context.value else [];
    var okm := Blocks(hmac, Extract(hmac, salt, ikm), info, CeilDiv(length, HASH_LEN) % 256);
    if |okm| > length then okm[..length] else okm
  }

  method HkdfSha256(hmac: Hmac, length: nat, ikm: bytes, salt: Option<bytes>, context: Option<bytes>)
    returns (output: bytes)
    requires IsHmac(hmac)
    ensures output == Derived(hmac, length, ikm, salt, context)
  {
    var key := if salt.Some? && salt.value != [] then salt.value else seq(HASH_LEN, _ => 0);
    var info := if context.Some? then context.value else [];
    var prk := hmac(key, ikm);
    var n := CeilDiv(length, HASH_LEN) % 256;
    output := [];
    var prev := [];
    for i := 1 to n + 1
      invariant prev == T(hmac, prk, info, i - 1)
      invariant output == Blocks(hmac, prk, info, i - 1)
    {
      prev := hmac(prk, prev + info + [i as byte]);
      output := output + prev;
    }
    if |output| > length {
      output := output[..length];
    }
  }

  /** The code is HKDF-Expand, octet by octet and in length, for exactly the lengths the RFC allows. */
  lemma DerivedIsRfc5869(hmac: Hmac, length: nat, ikm: bytes, salt: Option<bytes>, context: Option<bytes>)
    requires IsHmac(hmac)
    ensures |Derived(hmac, length, ikm, salt, context)| == length <==> length <= 255 * HASH_LEN
    ensures length <= 255 * HASH_LEN ==> forall j :: 0 <= j < length ==>
      Derived(hmac, length, ikm, salt, context)[j] ==
      T(hmac, Extract(hmac, salt, ikm), if context.Some? then context.value else [], j / HASH_LEN + 1)[j % HASH_LEN]
  {
    var prk, info := Extract(hmac, salt, ikm), if context.Some? then context.value else [];
    var n := CeilDiv(length, HASH_LEN);
    BlocksLength(hmac, prk, info, n % 256);
    if length <= 255 * HASH_LEN {
      assert n <= 255 && length <= HASH_LEN * n;
      forall j | 0 <= j < length
        ensures Derived(hmac, length, ikm, salt, context)[j] == T(hmac, prk, info, j / HASH_LEN + 1)[j % HASH_LEN]
      {
        BlocksOctet(hmac, prk, info, n, j);
      }
    }
  }

  /** A shorter output is a prefix of a longer one. */
  lemma ShorterIsPrefix(hmac: Hmac, short: nat, long: nat, ikm: bytes, salt: Option<bytes>, context: Option<bytes>)
    requires IsHmac(hmac) && short <= long <= 255 * HASH_LEN
    ensures Derived(hmac, short, ikm, salt, context) <= Derived(hmac, long, ikm, salt, context)
  {
    DerivedIsRfc5869(hmac, short, ikm, salt, context);
    DerivedIsRfc5869(hmac, long, ikm, salt, context);
  }

  lemma {:induction false} BlockAt(hmac: Hmac, prk: bytes, info: bytes, n: nat, k: nat)
    requires IsHmac(hmac) && k < n < 256
    ensures |Blocks(hmac, prk, info, n)| == HASH_LEN * n
    ensures Blocks(hmac, prk, info, n)[HASH_LEN * k..HASH_LEN * k + HASH_LEN] == T(hmac, prk, info, k + 1)
  {
    BlocksLength(hmac, prk, info, n);
    BlocksLength(hmac, prk, info, n - 1);
    var all, before := Blocks(hmac, prk, info, n), Blocks(hmac, prk, info, n - 1);
    if k < n - 1 {
      BlockAt(hmac, prk, info, n - 1, k);
      PrefixSlice(before, all, HASH_LEN * k, HASH_LEN * k + HASH_LEN);
    }
  }

  /** The output as a chain: each block of 32 octets is the HMAC, under the HMAC of the keying material with the salt (32
      zeros when it is missing or empty), of the block before it, the context, and the number of the block. */
  lemma DerivedChains(hmac: Hmac, n: nat, ikm: bytes, salt: Option<bytes>, context: Option<bytes>)
    requires IsHmac(hmac) && n <= 255
    ensures var d := Derived(hmac, 32 * n, ikm, salt, context);
      var prk := hmac(if salt.Some? && salt.value != [] then salt.value else seq(32, _ => 0), ikm);
      var info := if context.Some? then context.value else [];
      && |d| == 32 * n
      && forall k :: 0 <= k < n ==>
           d[32 * k..32 * k + 32] == hmac(prk, (if k == 0 then [] else d[32 * k - 32..32 * k]) + info + [(k + 1) as byte])
  {
    var d := Derived(hmac, 32 * n, ikm, salt, context);
    var prk, info := Extract(hmac, salt, ikm), if context.Some? then context.value else [];
    assert CeilDiv(32 * n, HASH_LEN) == n;
    BlocksLength(hmac, prk, info, n);
    assert d == Blocks(hmac, prk, info, n);
    forall k | 0 <= k < n
      ensures d[32 * k..32 * k + 32] == hmac(prk, (if k == 0 then [] else d[32 * k - 32..32 * k]) + info + [(k + 1) as byte])
    {
      BlockAt(hmac, prk, info, n, k);
      if k > 0 {
        BlockAt(hmac, prk, info, n, k - 1);
        assert HASH_LEN * (k - 1) == 32 * k - 32;
      }
    }
  }

  /** One block. */
  lemma DerivedBlock(hmac: Hmac, ikm: bytes, salt: bytes, context: bytes)
    requires IsHmac(hmac)
    ensures Derived(hmac, 32, ikm, Some(salt), Some(context)) ==
      hmac(hmac(if salt != [] then salt else seq(32, _ => 0), ikm), context + [1])
  {
    DerivedChains(hmac, 1, ikm, Some(salt), Some(context));
    var d := Derived(hmac, 32 * 1, ikm, Some(salt), Some(context));
    assert d[32 * 0..32 * 0 + 32] == d;
    assert [] + context + [1] == context + [1];
  }
}
