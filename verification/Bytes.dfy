/** Machine-sized values shared by the models of the Go packages. */
module Bytes {

  type byte = x: int | 0 <= x < 0x100

  type u32 = x: int | 0 <= x < 0x1_0000_0000

  datatype Option<+T> = None | Some(value: T)

  function Zeros(n: nat): (z: seq<byte>)
    ensures |z| == n
    ensures forall i :: 0 <= i < n ==> z[i] == 0
  {
    seq(n, _ => 0)
  }

  /** The big-endian 32-bit number in the first four bytes. */
  function BigEndian(s: seq<byte>): (v: u32)
    requires |s| >= 4
  {
    var a: int, b: int, c: int := s[0], s[1], s[2];
    a * 0x100_0000 + b * 0x1_0000 + c * 0x100 + s[3]
  }

  /** byte(v >> 24), byte(v >> 16), byte(v >> 8), byte(v): keeps only the low 32 bits. */
  function ToBigEndian(v: nat): (s: seq<byte>)
    ensures |s| == 4
  {
    [v / 0x100_0000 % 0x100, v / 0x1_0000 % 0x100, v / 0x100 % 0x100, v % 0x100]
  }

  lemma BigEndianRoundTrip(v: nat)
    ensures BigEndian(ToBigEndian(v)) == v % 0x1_0000_0000
  {
    var a, b, c, d := v / 0x100, v / 0x1_0000, v / 0x100_0000, v / 0x1_0000_0000;
    assert v == a * 0x100 + v % 0x100;
    assert a == b * 0x100 + a % 0x100;
    assert b == c * 0x100 + b % 0x100;
    assert c == d * 0x100 + c % 0x100;
    assert v == d * 0x1_0000_0000 + v % 0x1_0000_0000;
  }

  /** A list without duplicates has as many elements as its set. */
  lemma {:induction false} SetSize<T>(s: seq<T>)
    requires forall i, j :: 0 <= i < j < |s| ==> s[i] != s[j]
    ensures |set x | x in s| == |s|
  {
    if s != [] {
      SetSize(s[1..]);
      assert (set x | x in s) == {s[0]} + set x | x in s[1..];
    }
  }

  // ----- bits -----

  function Pow2(k: nat): (p: nat)
    ensures p > 0
  {
    if k == 0 then 1 else 2 * Pow2(k - 1)
  }

  /** Bitwise or of the low k bits. */
  function OrBits(a: nat, b: nat, k: nat): (r: nat)
    ensures r < Pow2(k)
  {
    if k == 0 then 0 else 2 * OrBits(a / 2, b / 2, k - 1) + if a % 2 == 1 || b % 2 == 1 then 1 else 0
  }

  lemma {:induction false} OrSelf(a: nat, k: nat)
    requires a < Pow2(k)
    ensures OrBits(a, a, k) == a
  {
    if k > 0 {
      OrSelf(a / 2, k - 1);
    }
  }

  /** Bitwise exclusive or of the low k bits. */
  function XorBits(a: nat, b: nat, k: nat): (r: nat)
    ensures r < Pow2(k)
  {
    if k == 0 then 0 else 2 * XorBits(a / 2, b / 2, k - 1) + (a + b) % 2
  }

  /** Bit k of x. */
  function Bit(x: nat, k: nat): (b: nat)
    ensures b < 2
  {
    if k == 0 then x % 2 else Bit(x / 2, k - 1)
  }

  lemma Pow2Values()
    ensures Pow2(0) == 1 && Pow2(1) == 2 && Pow2(2) == 4 && Pow2(3) == 8
    ensures Pow2(4) == 16 && Pow2(5) == 32 && Pow2(6) == 64 && Pow2(7) == 128 && Pow2(8) == 256
  {
  }

  lemma Halves(x: nat)
    ensures x / 2 / 1 == x / 2 && x / 2 / 2 == x / 4 && x / 2 / 4 == x / 8 && x / 2 / 8 == x / 16
    ensures x / 2 / 16 == x / 32 && x / 2 / 32 == x / 64 && x / 2 / 64 == x / 128
  {
  }

  /** The usual definition: the quotient by 2 to the k, odd or even. */
  lemma {:induction false} BitIsQuotient(x: nat, k: nat)
    requires k < 8
    ensures Bit(x, k) == x / Pow2(k) % 2
  {
    Pow2Values();
    if k > 0 {
      BitIsQuotient(x / 2, k - 1);
      hide Bit, Pow2;
      HalvePow2(x, k);
    }
  }

  lemma HalvePow2(x: nat, k: nat)
    requires 0 < k < 8
    ensures x / 2 / Pow2(k - 1) == x / Pow2(k)
  {
    hide Pow2;
    Pow2Values();
    Halves(x);
  }

  lemma DoubleAndAdd(y: nat, b: nat)
    requires b < 2
    ensures (2 * y + b) / 2 == y && (2 * y + b) % 2 == b
  {
  }

  lemma Parity(a: nat, b: nat)
    ensures (a + b) % 2 == (a % 2 + b % 2) % 2 < 2
  {
  }

  lemma {:induction false} OrBitsAt(a: nat, b: nat, n: nat, k: nat)
    requires k < n
    ensures Bit(OrBits(a, b, n), k) == if Bit(a, k) == 1 || Bit(b, k) == 1 then 1 else 0
  {
    DoubleAndAdd(OrBits(a / 2, b / 2, n - 1), if a % 2 == 1 || b % 2 == 1 then 1 else 0);
    if k > 0 { OrBitsAt(a / 2, b / 2, n - 1, k - 1); }
  }

  lemma {:induction false} XorBitsAt(a: nat, b: nat, n: nat, k: nat)
    requires k < n
    ensures Bit(XorBits(a, b, n), k) == (Bit(a, k) + Bit(b, k)) % 2
  {
    Parity(a, b);
    DoubleAndAdd(XorBits(a / 2, b / 2, n - 1), (a + b) % 2);
    if k > 0 { XorBitsAt(a / 2, b / 2, n - 1, k - 1); }
  }
}
