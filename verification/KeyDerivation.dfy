/** HKDF over an abstract HMAC: extract, then expand block by block. */
module KeyDerivation {
  import opened Prelude

  type Byte = b: int | 0 <= b < 256
  type Bytes = seq<Byte>

  const SHA256_SIZE: nat := 32
  const MAX_BLOCKS: nat := 255

  /** HMAC under one hash function: key, then message. */
  ghost predicate IsHmac(hmac: (Bytes, Bytes) -> Bytes, size: nat) {
    size > 0 && forall key, message :: |hmac(key, message)| == size
  }

  function BlocksFor(length: nat, size: nat): nat
    requires size > 0
  {
    (length + size - 1) / size
  }

  // ---- The standard -------------------------------------------------------------------------

  /** T(i) of section 2.3 of RFC 5869; the counter is one octet, so i is at most 255. */
  function T(hmac: (Bytes, Bytes) -> Bytes, prk: Bytes, info: Bytes, i: nat): Bytes
    requires i <= MAX_BLOCKS
  {
    if i == 0 then [] else hmac(prk, T(hmac, prk, info, i - 1) + info + [i])
  }

  /** T(1) | T(2) | ... | T(n). */
  function Concatenated(hmac: (Bytes, Bytes) -> Bytes, prk: Bytes, info: Bytes, n: nat): Bytes
    requires n <= MAX_BLOCKS
  {
    if n == 0 then [] else Concatenated(hmac, prk, info, n - 1) + T(hmac, prk, info, n)
  }

  // ---- The code -----------------------------------------------------------------------------

  /** The counter octet wraps around, as a byte conversion does. */
  function Octet(i: nat): Byte { i % 256 }

  function Block(hmac: (Bytes, Bytes) -> Bytes, prk: Bytes, info: Bytes, i: nat): Bytes {
    if i == 0 then [] else hmac(prk, Block(hmac, prk, info, i - 1) + info + [Octet(i)])
  }

  function Stream(hmac: (Bytes, Bytes) -> Bytes, prk: Bytes, info: Bytes, n: nat): Bytes {
    if n == 0 then [] else Stream(hmac, prk, info, n - 1) + Block(hmac, prk, info, n)
  }

  lemma {:induction false} StreamLength(hmac: (Bytes, Bytes) -> Bytes, size: nat, prk: Bytes, info: Bytes, n: nat)
    requires IsHmac(hmac, size)
    ensures |Stream(hmac, prk, info, n)| == n * size
  {
    if n > 0 {
      StreamLength(hmac, size, prk, info, n - 1);
      assert n * size == (n - 1) * size + size;
    }
  }

  lemma EnoughBlocks(length: nat, size: nat)
    requires size > 0
    ensures BlocksFor(length, size) * size >= length
    ensures BlocksFor(length, size) <= MAX_BLOCKS <==> length <= MAX_BLOCKS * size
  {
    var n := BlocksFor(length, size);
    assert length + size - 1 == n * size + (length + size - 1) % size;
    if n > MAX_BLOCKS { assert n * size >= (MAX_BLOCKS + 1) * size; } else { assert n * size <= MAX_BLOCKS * size; }
  }

  function Expanded(hmac: (Bytes, Bytes) -> Bytes, size: nat, prk: Bytes, info: Bytes, length: nat): (out: Bytes)
    requires IsHmac(hmac, size)
    ensures |out| == length
  {
    StreamLength(hmac, size, prk, info, BlocksFor(length, size));
    EnoughBlocks(length, size);
    Stream(hmac, prk, info, BlocksFor(length, size))[..length]
  }

  method HkdfExpand(hmac: (Bytes, Bytes) -> Bytes, size: nat, prk: Bytes, info: Bytes, length: nat) returns (out: Bytes)
    requires IsHmac(hmac, size)
    ensures out == Expanded(hmac, size, prk, info, length)
  {
    var n := (length + size - 1) / size;
    var t: Bytes := [];
    out := [];
    for i := 1 to n + 1
      invariant t == Block(hmac, prk, info, i - 1)
      invariant out == Stream(hmac, prk, info, i - 1)
    {
      t := hmac(prk, t + info + [Octet(i)]);
      out := out + t;
    }
    StreamLength(hmac, size, prk, info, n);
    EnoughBlocks(length, size);
    out := out[..length];
  }

  /** None when more is asked for than the counter can number. */
  method HkdfSHA256(hmac: (Bytes, Bytes) -> Bytes, secret: Bytes, salt: Option<Bytes>, info: Bytes, length: nat)
    returns (out: Option<Bytes>)
    requires IsHmac(hmac, SHA256_SIZE)
    ensures out.None? <==> length > MAX_BLOCKS * SHA256_SIZE
    ensures out.Some? ==>
              var prk := hmac(if salt.Some? then salt.value else Zeros(SHA256_SIZE), secret);
              BlocksFor(length, SHA256_SIZE) <= MAX_BLOCKS && |out.value| == length
              && out.value <= Concatenated(hmac, prk, info, BlocksFor(length, SHA256_SIZE))
  {
    if length > 255 * SHA256_SIZE { return None; }
    var key := if salt.None? then Zeros(SHA256_SIZE) else salt.value;
    var prk := hmac(key, secret);
    EnoughBlocks(length, SHA256_SIZE);
    FollowsStandard(hmac, SHA256_SIZE, prk, info, length);
    var bytes := HkdfExpand(hmac, SHA256_SIZE, prk, info, length);
    return Some(bytes);
  }

  function Zeros(n: nat): (z: Bytes)
    ensures |z| == n && forall i :: 0 <= i < n ==> z[i] == 0
  {
    seq(n, _ => 0)
  }

  // ---- What expansion promises --------------------------------------------------------------

  /** The counter octet is the block number, for every block needed, exactly up to the limit. */
  lemma CounterNeverWrapsIff(length: nat, size: nat)
    requires size > 0
    ensures (forall i :: 0 <= i <= BlocksFor(length, size) ==> Octet(i) == i) <==> length <= MAX_BLOCKS * size
  {
    EnoughBlocks(length, size);
    if BlocksFor(length, size) > MAX_BLOCKS {
      assert Octet(MAX_BLOCKS + 1) != MAX_BLOCKS + 1;
    }
  }

  lemma {:induction false} BlockIsT(hmac: (Bytes, Bytes) -> Bytes, prk: Bytes, info: Bytes, i: nat)
    requires i <= MAX_BLOCKS
    ensures Block(hmac, prk, info, i) == T(hmac, prk, info, i)
  {
    if i > 0 { BlockIsT(hmac, prk, info, i - 1); }
  }

  lemma {:induction false} StreamIsConcatenated(hmac: (Bytes, Bytes) -> Bytes, prk: Bytes, info: Bytes, n: nat)
    requires n <= MAX_BLOCKS
    ensures Stream(hmac, prk, info, n) == Concatenated(hmac, prk, info, n)
  {
    if n > 0 {
      StreamIsConcatenated(hmac, prk, info, n - 1);
      BlockIsT(hmac, prk, info, n);
    }
  }

  /** Up to 255 blocks the output is the first `length` octets of T(1) | T(2) | ... */
  lemma FollowsStandard(hmac: (Bytes, Bytes) -> Bytes, size: nat, prk: Bytes, info: Bytes, length: nat)
    requires IsHmac(hmac, size) && length <= MAX_BLOCKS * size
    ensures BlocksFor(length, size) <= MAX_BLOCKS
    ensures Expanded(hmac, size, prk, info, length) <= Concatenated(hmac, prk, info, BlocksFor(length, size))
  {
    EnoughBlocks(length, size);
    StreamLength(hmac, size, prk, info, BlocksFor(length, size));
    StreamIsConcatenated(hmac, prk, info, BlocksFor(length, size));
  }

  lemma {:induction false} StreamGrows(hmac: (Bytes, Bytes) -> Bytes, prk: Bytes, info: Bytes, m: nat, n: nat)
    requires m <= n
    ensures Stream(hmac, prk, info, m) <= Stream(hmac, prk, info, n)
  {
    if m < n { StreamGrows(hmac, prk, info, m, n - 1); }
  }

  /** A shorter output is a prefix of a longer one. */
  lemma ShorterIsPrefix(hmac: (Bytes, Bytes) -> Bytes, size: nat, prk: Bytes, info: Bytes, short: nat, long: nat)
    requires IsHmac(hmac, size) && short <= long
    ensures Expanded(hmac, size, prk, info, short) <= Expanded(hmac, size, prk, info, long)
  {
    var m, n := BlocksFor(short, size), BlocksFor(long, size);
    EnoughBlocks(short, size);
    EnoughBlocks(long, size);
    StreamLength(hmac, size, prk, info, m);
    StreamLength(hmac, size, prk, info, n);
    if m <= n { StreamGrows(hmac, prk, info, m, n); } else { StreamGrows(hmac, prk, info, n, m); }
  }
}
