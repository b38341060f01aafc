/** Fixed-width integers of the C sources as subset types over `int`: an assignment to a
    variable of such a type is checked not to overflow, and a wrap-around is written out. */
module MachineInts {
  import opened Arith

  const TWO32 := 0x1_0000_0000
  const TWO62 := 0x4000_0000_0000_0000
  const TWO63 := 0x8000_0000_0000_0000
  const TWO64 := 0x1_0000_0000_0000_0000
  const TWO127 := 0x8000_0000_0000_0000_0000_0000_0000_0000

  type int64 = x: int | -TWO63 <= x < TWO63
  type uint64 = x: int | 0 <= x < TWO64
  type uint32 = x: int | 0 <= x < TWO32
  type int128 = x: int | -TWO127 <= x < TWO127

  /** Unsigned arithmetic of the C code happens modulo 2^64 (modulo 2^32). */
  function U64(x: int): uint64 { x % TWO64 }

  function U32(x: int): uint32 { x % TWO32 }

  /** The cast of a 64-bit pattern to a signed word. */
  function S64(x: uint64): int64 { if x < TWO63 then x else x - TWO64 }

  lemma PowersOfTwo()
    ensures Pow2(32) == TWO32 && Pow2(62) == TWO62 && Pow2(63) == TWO63 && Pow2(64) == TWO64
  {
    assert Pow2(8) == 0x100;
    Pow2Add(8, 8);
    Pow2Add(16, 16);
    Pow2Add(32, 30);
    Pow2Add(32, 31);
    Pow2Add(32, 32);
    assert Pow2(30) == 0x4000_0000;
    assert Pow2(31) == 0x8000_0000;
  }

  lemma U64Cong(x: int, j: nat)
    requires j <= 64
    ensures U64(x) % Pow2(j) == x % Pow2(j)
  {
    PowersOfTwo();
    ModTwice(x, TWO64);
    CongPow2(U64(x), x, 64, j);
  }

  lemma U32Cong(x: int, j: nat)
    requires j <= 32
    ensures U32(x) % Pow2(j) == x % Pow2(j)
  {
    PowersOfTwo();
    ModTwice(x, TWO32);
    CongPow2(U32(x), x, 32, j);
  }

  lemma SignedOfWrapped(x: int)
    requires -TWO63 <= x < TWO63
    ensures S64(U64(x)) == x
  {
  }

  /** Bitwise OR of non-negative integers. */
  function BitOr(x: nat, y: nat): nat
    decreases x + y
  {
    if x == 0 && y == 0 then 0
    else 2 * BitOr(x / 2, y / 2) + (if x % 2 == 1 || y % 2 == 1 then 1 else 0)
  }

  /** The number of trailing zero bits. */
  function Ctz(x: nat): nat
    requires x > 0
  {
    if x % 2 == 1 then 0 else 1 + Ctz(x / 2)
  }

  lemma {:induction false} OrWithZero(x: nat)
    ensures BitOr(x, 0) == x && BitOr(0, x) == x
  {
    if x > 0 { OrWithZero(x / 2); }
  }

  /** OR with a number whose bits all lie above those of y is addition. */
  lemma {:induction false} OrIsAdd(x: nat, y: nat, k: nat)
    requires y < Pow2(k)
    ensures BitOr(x * Pow2(k), y) == x * Pow2(k) + y
  {
    if k == 0 {
      OrWithZero(x);
    } else {
      var p := Pow2(k - 1);
      assert x * (2 * p) == 2 * (x * p);
      OrIsAdd(x, y / 2, k - 1);
      if x * p == 0 && y == 0 { } else {
        assert (x * Pow2(k)) / 2 == x * p && (x * Pow2(k)) % 2 == 0;
      }
    }
  }

  lemma OrCommutes(x: nat, y: nat)
    ensures BitOr(x, y) == BitOr(y, x)
    decreases x + y
  {
    if x != 0 || y != 0 { OrCommutes(x / 2, y / 2); }
  }

  /** z is the number of trailing zero bits of g, counted up to i. */
  ghost predicate TrailingZeros(z: nat, g: nat, i: nat)
  {
    z <= i && g % Pow2(z) == 0 && (z < i ==> (g / Pow2(z)) % 2 == 1)
  }

  lemma TrailingZerosDouble(z: nat, g: nat, i: nat)
    requires i > 0 && g % 2 == 0 && TrailingZeros(z, g / 2, i - 1)
    ensures TrailingZeros(z + 1, g, i)
  {
    var p := Pow2(z);
    var y := (g / 2) / p;
    assert g / 2 == y * p;
    assert g == y * (2 * p);
    DivModUnique(g, y, 0, 2 * p);
  }

  lemma HalfOfDifference(a: int, b: int)
    ensures (2 * a - 2 * b) % 2 == 0 && (2 * a - 2 * b) / 2 == a - b && (2 * a - 1) % 2 == 1
  {
    DivModUnique(2 * a - 2 * b, a - b, 0, 2);
    DivModUnique(2 * a - 1, a - 1, 1, 2);
  }

  lemma SentinelMask(i: nat, w: nat)
    requires i < w
    ensures Pow2(i) < Pow2(w)
    ensures i == 0 ==> (Pow2(w) - Pow2(i)) % 2 == 1
    ensures i > 0 ==> (Pow2(w) - Pow2(i)) % 2 == 0 && (Pow2(w) - Pow2(i)) / 2 == Pow2(w - 1) - Pow2(i - 1)
  {
    Pow2Mono(i, w - 1);
    HalfOfDifference(Pow2(w - 1), if i == 0 then 0 else Pow2(i - 1));
  }

  lemma OrStep(x: nat, y: nat)
    requires y > 0
    ensures BitOr(x, y) == 2 * BitOr(x / 2, y / 2) + (if x % 2 == 1 || y % 2 == 1 then 1 else 0)
  {
  }

  lemma CtzStep(x: nat)
    requires x > 0
    ensures Ctz(2 * x) == Ctz(x) + 1
  {
  }

  lemma CtzOdd(x: nat)
    requires x % 2 == 1
    ensures Ctz(x) == 0
  {
  }

  lemma TrailingZerosNone(g: nat, i: nat)
    requires i == 0 || g % 2 == 1
    ensures TrailingZeros(0, g, i)
  {
    assert Pow2(0) == 1;
  }

  lemma TrailingZerosOr(g: nat, m: nat, i: nat)
    requires m > 0 && BitOr(g / 2, m / 2) > 0 && m % 2 == 0 && g % 2 == 0 && i > 0
    requires TrailingZeros(Ctz(BitOr(g / 2, m / 2)), g / 2, i - 1)
    ensures BitOr(g, m) > 0 && TrailingZeros(Ctz(BitOr(g, m)), g, i)
  {
    hide BitOr, Ctz, TrailingZeros;
    OrStep(g, m);
    var o := BitOr(g / 2, m / 2);
    CtzStep(o);
    TrailingZerosDouble(Ctz(o), g, i);
  }

  /** The sentinel mask `UINT64_MAX << i` stops the count of trailing zeros at i. */
  lemma {:induction false} CtzSentinel(g: nat, i: nat, w: nat)
    requires i < w
    ensures Pow2(i) < Pow2(w) && BitOr(g, Pow2(w) - Pow2(i)) > 0
    ensures TrailingZeros(Ctz(BitOr(g, Pow2(w) - Pow2(i))), g, i)
  {
    hide TrailingZeros, Pow2, BitOr, Ctz;
    SentinelMask(i, w);
    var m := Pow2(w) - Pow2(i);
    if i > 0 && g % 2 == 0 {
      CtzSentinel(g / 2, i - 1, w - 1);
      TrailingZerosOr(g, m, i);
    } else {
      OrStep(g, m);
      CtzOdd(BitOr(g, m));
      TrailingZerosNone(g, i);
    }
  }
}
