/** Raw memory: bytes, little-endian loads and stores, and the bit operations the kernel applies to
    addresses.  A memory image is a sequence of bytes whose index is the physical address. */
module Bytes {
  type byte = x: int | 0 <= x < 256

  datatype Option<+T> = None | Some(value: T)

  const U32: nat := 0x1_0000_0000
  const U64: nat := 0x1_0000_0000_0000_0000

  function Pow256(n: nat): (p: nat)
    ensures p > 0
  {
    if n == 0 then 1 else 256 * Pow256(n - 1)
  }

  lemma Widths()
    ensures Pow256(2) == 0x1_0000 && Pow256(4) == U32 && Pow256(8) == U64
  {
    assert Pow256(4) == 256 * (256 * (256 * (256 * Pow256(0))));
    assert Pow256(8) == 256 * (256 * (256 * (256 * Pow256(4))));
  }

  /** The unsigned little-endian number in the `n` bytes at address `a`. */
  function LoadLE(m: seq<byte>, a: nat, n: nat): (v: nat)
    requires a + n <= |m|
    ensures v < Pow256(n)
    decreases n, |m|
  {
    if n == 0 then 0 else m[a] + 256 * LoadLE(m, a + 1, n - 1)
  }

  /** Memory after the low `n` bytes of `v` are stored at `a`, lowest byte first. */
  function StoreLE(m: seq<byte>, a: nat, n: nat, v: nat): (r: seq<byte>)
    requires a + n <= |m|
    ensures |r| == |m|
    ensures forall k :: 0 <= k < |m| && !(a <= k < a + n) ==> r[k] == m[k]
    decreases n, |m|
  {
    if n == 0 then m else StoreLE(m[a := v % 256], a + 1, n - 1, v / 256)
  }

  // Numbers as the bytes that spell them, lowest first.

  predicate Spells2(m: seq<byte>, a: nat, v: nat) {
    v < 0x1_0000 && a + 2 <= |m| && m[a] == v % 0x100 && m[a + 1] == v / 0x100
  }

  predicate Spells4(m: seq<byte>, a: nat, v: nat) {
    && v < U32 && a + 4 <= |m|
    && m[a] == v % 0x100 && m[a + 1] == v / 0x100 % 0x100
    && m[a + 2] == v / 0x1_0000 % 0x100 && m[a + 3] == v / 0x100_0000
  }

  predicate Spells8(m: seq<byte>, a: nat, v: nat) {
    Spells4(m, a, v % U32) && Spells4(m, a + 4, v / U32)
  }

  function FromBytes(b0: nat, b1: nat, b2: nat, b3: nat): nat {
    b0 + 0x100 * b1 + 0x1_0000 * b2 + 0x100_0000 * b3
  }

  lemma LoadTwo(m: seq<byte>, a: nat)
    requires a + 2 <= |m|
    ensures LoadLE(m, a, 2) == FromBytes(m[a], m[a + 1], 0, 0)
  {
    assert LoadLE(m, a + 1, 1) == m[a + 1] + 256 * LoadLE(m, a + 2, 0);
  }

  lemma LoadFour(m: seq<byte>, a: nat)
    requires a + 4 <= |m|
    ensures LoadLE(m, a, 4) == FromBytes(m[a], m[a + 1], m[a + 2], m[a + 3])
  {
    assert LoadLE(m, a + 3, 1) == m[a + 3] + 256 * LoadLE(m, a + 4, 0);
    assert LoadLE(m, a + 2, 2) == m[a + 2] + 256 * LoadLE(m, a + 3, 1);
    assert LoadLE(m, a + 1, 3) == m[a + 1] + 256 * LoadLE(m, a + 2, 2);
  }

  lemma LoadEight(m: seq<byte>, a: nat)
    requires a + 8 <= |m|
    ensures LoadLE(m, a, 8) == LoadLE(m, a, 4) + U32 * LoadLE(m, a + 4, 4)
  {
    LoadFour(m, a);
    assert LoadLE(m, a + 3, 5) == m[a + 3] + 256 * LoadLE(m, a + 4, 4);
    assert LoadLE(m, a + 2, 6) == m[a + 2] + 256 * LoadLE(m, a + 3, 5);
    assert LoadLE(m, a + 1, 7) == m[a + 1] + 256 * LoadLE(m, a + 2, 6);
    assert LoadLE(m, a, 8) == m[a] + 256 * LoadLE(m, a + 1, 7);
  }

  lemma Load2Spelt(m: seq<byte>, a: nat, v: nat)
    requires Spells2(m, a, v)
    ensures LoadLE(m, a, 2) == v
  {
    LoadTwo(m, a);
  }

  lemma FourDigits(v: nat)
    ensures FromBytes(v % 0x100, v / 0x100 % 0x100, v / 0x1_0000 % 0x100, v / 0x100_0000) == v
  {
    var q := v / 0x100;
    var r := q / 0x100;
    assert r == v / 0x1_0000 && r / 0x100 == v / 0x100_0000;
    assert v == 0x100 * q + v % 0x100 && q == 0x100 * r + q % 0x100 && r == 0x100 * (r / 0x100) + r % 0x100;
  }

  /** What is spelt is what is loaded: the lowest byte comes first. */
  lemma Load4Spelt(m: seq<byte>, a: nat, v: nat)
    requires Spells4(m, a, v)
    ensures LoadLE(m, a, 4) == v
  {
    LoadFour(m, a);
    FourDigits(v);
  }

  lemma Load8Spelt(m: seq<byte>, a: nat, v: nat)
    requires Spells8(m, a, v)
    ensures LoadLE(m, a, 8) == v
  {
    LoadEight(m, a);
    Load4Spelt(m, a, v % U32);
    Load4Spelt(m, a + 4, v / U32);
  }

  predicate Agree(m: seq<byte>, m': seq<byte>, lo: int, hi: int) {
    forall k :: lo <= k < hi && 0 <= k < |m| && k < |m'| ==> m[k] == m'[k]
  }

  /** A load sees only the bytes of its own range, wherever that range lies. */
  lemma {:induction false} LoadMoved(m: seq<byte>, a: nat, m': seq<byte>, b: nat, n: nat)
    requires a + n <= |m| && b + n <= |m'|
    requires m[a..a + n] == m'[b..b + n]
    ensures LoadLE(m, a, n) == LoadLE(m', b, n)
    decreases n, |m|
  {
    if n == 0 {
    } else {
      assert m[a] == m[a..a + n][0] == m'[b];
      assert m[a + 1..a + n] == m[a..a + n][1..] == m'[b + 1..b + n];
      LoadMoved(m, a + 1, m', b + 1, n - 1);
    }
  }

  lemma LoadAgree(m: seq<byte>, m': seq<byte>, a: nat, n: nat)
    requires a + n <= |m| && |m| == |m'| && Agree(m, m', a, a + n)
    ensures LoadLE(m, a, n) == LoadLE(m', a, n)
  {
    assert m[a..a + n] == m'[a..a + n];
    LoadMoved(m, a, m', a, n);
  }

  /** What is stored is what is loaded, for every value that fits the width. */
  lemma {:induction false} LoadStored(m: seq<byte>, a: nat, n: nat, v: nat)
    requires a + n <= |m| && v < Pow256(n)
    ensures LoadLE(StoreLE(m, a, n, v), a, n) == v
    decreases n, |m|
  {
    if n == 0 {
    } else {
      var m1 := m[a := v % 256];
      LoadStored(m1, a + 1, n - 1, v / 256);
      assert StoreLE(m1, a + 1, n - 1, v / 256)[a] == v % 256;
    }
  }

  lemma LoadOther(m: seq<byte>, a: nat, n: nat, v: nat, b: nat, k: nat)
    requires a + n <= |m| && b + k <= |m| && (a + n <= b || b + k <= a)
    ensures LoadLE(StoreLE(m, a, n, v), b, k) == LoadLE(m, b, k)
  {
    LoadAgree(m, StoreLE(m, a, n, v), b, k);
  }

  /** A C store of `n` bytes through a pointer. */
  method Store(mem: array<byte>, a: nat, n: nat, v: nat)
    requires a + n <= mem.Length
    modifies mem
    ensures mem[..] == StoreLE(old(mem[..]), a, n, v)
    decreases n
  {
    if n > 0 {
      mem[a] := v % 256;
      assert mem[..] == old(mem[..])[a := v % 256];
      Store(mem, a + 1, n - 1, v / 256);
    }
  }
}
