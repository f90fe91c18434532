/** PBKDF2 (crypto/crypto.go:21-78) against section 5.2 of RFC 2898. */
module Pbkdf2 {
  import opened Bytes

  /** The keyed pseudo-random function: HMAC with the password, over all that was written to it. */
  type Prf = seq<byte> -> seq<byte>

  ghost predicate HasSize(prf: Prf, size: nat) {
    forall x :: |prf(x)| == size
  }

  // ----- the specification of RFC 2898 -----

  /** a ^ b */
  function XorByte(a: byte, b: byte): byte {
    assert Pow2(8) == 256;
    XorBits(a, b, 8)
  }

  /** Bit k of the exclusive or is the sum without carry of the two bits. */
  lemma XorByteAt(a: byte, b: byte, k: nat)
    requires k < 8
    ensures Bit(XorByte(a, b), k) == (Bit(a, k) + Bit(b, k)) % 2
  {
    XorBitsAt(a, b, 8, k);
  }

  function Xor(a: seq<byte>, b: seq<byte>): (c: seq<byte>)
    requires |a| == |b|
    ensures |c| == |a|
    ensures forall j :: 0 <= j < |c| ==> c[j] == XorByte(a[j], b[j])
  {
    seq(|a|, j requires 0 <= j < |a| => XorByte(a[j], b[j]))
  }

  /** U_j of block i: U_1 = PRF(S || INT(i)), U_j = PRF(U_{j-1}). */
  function U(prf: Prf, salt: seq<byte>, i: nat, j: nat): seq<byte>
    requires j >= 1
  {
    if j == 1 then prf(salt + ToBigEndian(i)) else prf(U(prf, salt, i, j - 1))
  }

  /** T_i = U_1 xor ... xor U_c */
  function T(prf: Prf, size: nat, salt: seq<byte>, i: nat, c: nat): (t: seq<byte>)
    requires HasSize(prf, size) && c >= 1
    ensures |t| == size
  {
    if c == 1 then U(prf, salt, i, 1) else Xor(T(prf, size, salt, i, c - 1), U(prf, salt, i, c))
  }

  /** T_1 || ... || T_n */
  function Blocks(prf: Prf, size: nat, salt: seq<byte>, c: nat, n: nat): (b: seq<byte>)
    requires HasSize(prf, size) && size > 0 && c >= 1
    ensures |b| >= n
  {
    if n == 0 then [] else Blocks(prf, size, salt, c, n - 1) + T(prf, size, salt, n, c)
  }

  /** DK: the first keylen bytes of T_1 || T_2 || ...; keylen blocks are always enough of them. */
  function Key(prf: Prf, size: nat, salt: seq<byte>, c: nat, keylen: nat): (dk: seq<byte>)
    requires HasSize(prf, size) && size > 0 && c >= 1
    ensures |dk| == keylen
  {
    Blocks(prf, size, salt, c, keylen)[..keylen]
  }

  /** The code runs U_1 whatever the iteration count is. */
  function Count(iterations: int): (c: nat)
    ensures c >= 1
  {
    if iterations < 1 then 1 else iterations
  }

  // ----- properties -----

  lemma {:induction false} BlocksPrefix(prf: Prf, size: nat, salt: seq<byte>, c: nat, n: nat, m: nat)
    requires HasSize(prf, size) && size > 0 && c >= 1 && n <= m
    ensures Blocks(prf, size, salt, c, n) <= Blocks(prf, size, salt, c, m)
    decreases m
  {
    hide HasSize, T;
    if n < m {
      BlocksPrefix(prf, size, salt, c, n, m - 1);
    }
  }

  lemma {:induction false} BlocksSize(prf: Prf, size: nat, salt: seq<byte>, c: nat, n: nat)
    requires HasSize(prf, size) && size > 0 && c >= 1
    ensures |Blocks(prf, size, salt, c, n)| == n * size
  {
    hide HasSize, T;
    if n > 0 {
      BlocksSize(prf, size, salt, c, n - 1);
      assert (n - 1) * size + size == n * size;
    }
  }

  /** Any number of blocks that is enough gives the same key; in particular the least one. */
  lemma EnoughBlocks(prf: Prf, size: nat, salt: seq<byte>, c: nat, keylen: nat, n: nat)
    requires HasSize(prf, size) && size > 0 && c >= 1 && |Blocks(prf, size, salt, c, n)| >= keylen
    ensures Blocks(prf, size, salt, c, n)[..keylen] == Key(prf, size, salt, c, keylen)
  {
    hide HasSize, Blocks;
    if n <= keylen {
      BlocksPrefix(prf, size, salt, c, n, keylen);
    } else {
      BlocksPrefix(prf, size, salt, c, keylen, n);
    }
  }

  /** A shorter key is a prefix of a longer one. */
  lemma ShorterKeyIsPrefix(prf: Prf, size: nat, salt: seq<byte>, c: nat, keylen: nat, longer: nat)
    requires HasSize(prf, size) && size > 0 && c >= 1 && keylen <= longer
    ensures Key(prf, size, salt, c, keylen) == Key(prf, size, salt, c, longer)[..keylen]
  {
    hide HasSize, Blocks;
    EnoughBlocks(prf, size, salt, c, keylen, longer);
  }

  /** Byte by byte: position r of block b + 1 is the xor over all iterations of U, in which the block
      number stands in big-endian. */
  lemma KeyByte(prf: Prf, size: nat, salt: seq<byte>, c: nat, keylen: nat, b: nat, r: nat)
    requires HasSize(prf, size) && c >= 1 && r < size && b * size + r < keylen
    ensures Key(prf, size, salt, c, keylen)[b * size + r] == T(prf, size, salt, b + 1, c)[r]
    ensures BigEndian(ToBigEndian(b + 1)) == (b + 1) % 0x1_0000_0000
  {
    hide HasSize, T;
    BigEndianRoundTrip(b + 1);
    BlocksSize(prf, size, salt, c, b);
    var n := if b + 1 < keylen then keylen else b + 1;
    BlocksPrefix(prf, size, salt, c, b + 1, n);
    BlocksPrefix(prf, size, salt, c, keylen, n);
    assert Blocks(prf, size, salt, c, b + 1)[b * size + r] == T(prf, size, salt, b + 1, c)[r];
  }

  /** How many of the digests have bit k of byte r set. */
  function SetBits(us: seq<seq<byte>>, r: nat, k: nat): nat
    requires k < 8 && forall j :: 0 <= j < |us| ==> r < |us[j]|
  {
    if us == [] then 0 else SetBits(us[..|us| - 1], r, k) + Bit(us[|us| - 1][r], k)
  }

  /** The digests of one block: the first of the salt and the four bytes of the block number, most
      significant first, each other one of the digest before it. */
  ghost predicate DigestChain(prf: Prf, salt: seq<byte>, i: nat, us: seq<seq<byte>>) {
    && (us != [] ==> us[0] == prf(salt + [i / 16777216 % 256, i / 65536 % 256, i / 256 % 256, i % 256]))
    && forall j :: 0 < j < |us| ==> us[j] == prf(us[j - 1])
  }

  lemma {:induction false} DigestChainIsU(prf: Prf, salt: seq<byte>, i: nat, us: seq<seq<byte>>, j: nat)
    requires DigestChain(prf, salt, i, us) && j < |us|
    ensures us[j] == U(prf, salt, i, j + 1)
    ensures forall size: nat :: HasSize(prf, size) ==> |us[j]| == size
  {
    if j > 0 {
      DigestChainIsU(prf, salt, i, us, j - 1);
    }
  }

  lemma {:induction false} BitOfT(prf: Prf, size: nat, salt: seq<byte>, i: nat, us: seq<seq<byte>>, r: nat, k: nat)
    requires HasSize(prf, size) && us != [] && DigestChain(prf, salt, i, us) && r < size && k < 8
    ensures forall j :: 0 <= j < |us| ==> |us[j]| == size
    ensures Bit(T(prf, size, salt, i, |us|)[r], k) == SetBits(us, r, k) % 2
  {
    hide U, Bit, XorByte;
    var c := |us|;
    DigestChainIsU(prf, salt, i, us, c - 1);
    var h := us[..c - 1];
    forall j | 0 <= j < c ensures |us[j]| == size {
      DigestChainIsU(prf, salt, i, us, j);
    }
    var last := Bit(us[c - 1][r], k);
    Parity(SetBits(h, r, k), last);
    if c == 1 {
      assert h == [];
    } else {
      BitOfT(prf, size, salt, i, h, r, k);
      XorByteAt(T(prf, size, salt, i, c - 1)[r], us[c - 1][r], k);
      Parity(Bit(T(prf, size, salt, i, c - 1)[r], k), last);
    }
  }

  /** Bit by bit: bit k of byte r of block b + 1 of the key says whether the number of digests of that
      block with this bit set is odd. */
  lemma KeyBit(prf: Prf, size: nat, salt: seq<byte>, us: seq<seq<byte>>, keylen: nat, b: nat, r: nat, k: nat)
    requires HasSize(prf, size) && us != [] && DigestChain(prf, salt, b + 1, us)
    requires r < size && k < 8 && b * size + r < keylen
    ensures forall j :: 0 <= j < |us| ==> |us[j]| == size
    ensures Bit(Key(prf, size, salt, |us|, keylen)[b * size + r], k) == SetBits(us, r, k) % 2
  {
    hide T, Key, SetBits, Bit, DigestChain;
    BitOfT(prf, size, salt, b + 1, us, r, k);
    KeyByte(prf, size, salt, |us|, keylen, b, r);
  }

  /** There is such a chain of every length, so the above speaks of every key. */
  lemma {:induction false} DigestChainExists(prf: Prf, salt: seq<byte>, i: nat, c: nat) returns (us: seq<seq<byte>>)
    ensures |us| == c && DigestChain(prf, salt, i, us)
  {
    us := [];
    if c > 0 {
      us := DigestChainExists(prf, salt, i, c - 1);
      us := us + [if c == 1 then prf(salt + [i / 16777216 % 256, i / 65536 % 256, i / 256 % 256, i % 256]) else prf(us[c - 2])];
    }
  }

  // ----- the loops -----

  /** hash.Hash as hmac.New(hashfunc, password) returns it. */
  class Hmac {
    var written: seq<byte>
    const prf: Prf
    const size: nat

    ghost predicate Valid()
      reads this
    {
      HasSize(prf, size)
    }

    constructor (prf: Prf, size: nat)
      requires HasSize(prf, size)
      ensures Valid() && written == [] && this.prf == prf && this.size == size
    {
      written, this.prf, this.size := [], prf, size;
    }

    method Write(p: seq<byte>)
      modifies this
      ensures written == old(written) + p
    {
      written := written + p;
    }

    /** Sum leaves the state alone. */
    method Sum() returns (digest: seq<byte>)
      ensures digest == prf(written)
    {
      digest := prf(written);
    }

    method Reset()
      modifies this
      ensures written == []
    {
      written := [];
    }
  }

  /** crypto/crypto.go:58-60 */
  method CopyInto(key: array<byte>, at: nat, digest: seq<byte>, length: nat)
    requires at + length <= key.Length && length <= |digest|
    modifies key
    ensures key[..at] == old(key[..at]) && key[at..at + length] == digest[..length]
  {
    for j := 0 to length
      invariant key[..at] == old(key[..at]) && key[at..at + j] == digest[..j]
    {
      key[at + j] := digest[j];
      assert key[at..at + j + 1] == key[at..at + j] + [digest[j]];
    }
  }

  /** The first j bytes are done. */
  ghost function XorUpTo(was: seq<byte>, digest: seq<byte>, j: nat): (r: seq<byte>)
    requires j <= |was| <= |digest|
    ensures |r| == |was|
  {
    Xor(was[..j], digest[..j]) + was[j..]
  }

  lemma XorUpToNext(was: seq<byte>, digest: seq<byte>, j: nat)
    requires j < |was| <= |digest|
    ensures XorUpTo(was, digest, j)[j] == was[j]
    ensures XorUpTo(was, digest, j + 1) == XorUpTo(was, digest, j)[j := XorByte(was[j], digest[j])]
  {
  }

  lemma XorUpToEnds(was: seq<byte>, digest: seq<byte>)
    requires |was| <= |digest|
    ensures XorUpTo(was, digest, 0) == was
    ensures XorUpTo(was, digest, |was|) == Xor(was, digest[..|was|])
  {
    assert was[..|was|] == was;
  }

  /** crypto/crypto.go:65-67 */
  method XorInto(key: array<byte>, at: nat, digest: seq<byte>, length: nat)
    requires at + length <= key.Length && length <= |digest|
    modifies key
    ensures key[..at] == old(key[..at])
    ensures key[at..at + length] == Xor(old(key[at..at + length]), digest[..length])
  {
    hide XorUpTo, Xor, XorByte;
    ghost var was := key[at..at + length];
    XorUpToEnds(was, digest);
    for j := 0 to length
      invariant key[..at] == old(key[..at])
      invariant key[at..at + length] == XorUpTo(was, digest, j)
    {
      XorUpToNext(was, digest, j);
      assert key[at + j] == key[at..at + length][j];
      ghost var now := key[at..at + length];
      key[at + j] := XorByte(key[at + j], digest[j]);
      assert key[at..at + length] == now[j := XorByte(was[j], digest[j])];
    }
  }

  /** crypto/crypto.go:63-68 */
  method Iterate(hash: Hmac, digest: seq<byte>, key: array<byte>, at: nat, length: nat) returns (digest': seq<byte>)
    requires hash.Valid() && hash.written == [] && length <= hash.size && at + length <= key.Length
    modifies hash, key
    ensures hash.Valid() && hash.written == [] && digest' == hash.prf(digest) && length <= |digest'|
    ensures key[..at] == old(key[..at])
    ensures key[at..at + length] == Xor(old(key[at..at + length]), digest'[..length])
  {
    hide Xor;
    hash.Write(digest);
    assert [] + digest == digest;
    digest' := hash.Sum();
    XorInto(key, at, digest', length);
    hash.Reset();
  }

  /** One block, crypto/crypto.go:45-69: T_i cut to length, at position `at`. */
  method FillBlock(hash: Hmac, salt: seq<byte>, i: nat, iterations: int, key: array<byte>, at: nat, length: nat)
    requires hash.Valid() && hash.written == [] && length <= hash.size && at + length <= key.Length
    modifies hash, key
    ensures hash.Valid() && hash.written == []
    ensures key[..at] == old(key[..at])
    ensures key[at..at + length] == T(hash.prf, hash.size, salt, i, Count(iterations))[..length]
  {
    hide HasSize, T, U, Xor;
    hash.Write(salt);
    hash.Write(ToBigEndian(i));
    var digest := hash.Sum();
    hash.Reset();
    assert [] + salt + ToBigEndian(i) == salt + ToBigEndian(i);
    FirstRound(hash.prf, hash.size, salt, i);
    CopyInto(key, at, digest, length);
    var k := 1;
    while k < iterations
      invariant 1 <= k <= Count(iterations) && hash.Valid() && hash.written == []
      invariant digest == U(hash.prf, salt, i, k)
      invariant key[..at] == old(key[..at])
      invariant key[at..at + length] == T(hash.prf, hash.size, salt, i, k)[..length]
    {
      digest := Iterate(hash, digest, key, at, length);
      NextRound(hash.prf, hash.size, salt, i, k, length);
      k := k + 1;
    }
  }

  lemma FirstRound(prf: Prf, size: nat, salt: seq<byte>, i: nat)
    requires HasSize(prf, size)
    ensures U(prf, salt, i, 1) == T(prf, size, salt, i, 1) == prf(salt + ToBigEndian(i))
  {
  }

  lemma NextRound(prf: Prf, size: nat, salt: seq<byte>, i: nat, k: nat, n: nat)
    requires HasSize(prf, size) && k >= 1 && n <= size
    ensures U(prf, salt, i, k + 1) == prf(U(prf, salt, i, k)) && |U(prf, salt, i, k + 1)| == size
    ensures T(prf, size, salt, i, k + 1)[..n] == Xor(T(prf, size, salt, i, k)[..n], U(prf, salt, i, k + 1)[..n])
  {
  }

  method PBKDF2(prf: Prf, hashlen: nat, salt: seq<byte>, iterations: int, keylen: nat) returns (r: seq<byte>)
    requires HasSize(prf, hashlen) && hashlen > 0
    ensures r == Key(prf, hashlen, salt, Count(iterations), keylen)
  {
    hide HasSize, T;
    var key := new byte[keylen](_ => 0);
    var hash := new Hmac(prf, hashlen);
    var left, at, i := keylen, 0, 0;
    assert key[..0] == [];
    while left > 0
      invariant at + left == keylen && 0 <= left && hash.Valid() && hash.written == [] && hash.prf == prf && hash.size == hashlen
      invariant at <= |Blocks(prf, hashlen, salt, Count(iterations), i)|
      invariant left > 0 ==> at == |Blocks(prf, hashlen, salt, Count(iterations), i)|
      invariant key[..at] == Blocks(prf, hashlen, salt, Count(iterations), i)[..at]
      decreases left
    {
      var length := if hashlen > left then left else hashlen;
      i := i + 1;
      FillBlock(hash, salt, i, iterations, key, at, length);
      assert key[..at + length] == key[..at] + key[at..at + length];
      left := left - length;
      at := at + length;
    }
    assert key[..at] == key[..];
    EnoughBlocks(prf, hashlen, salt, Count(iterations), keylen, i);
    r := key[..];
  }
}
