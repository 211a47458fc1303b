/** Machine words as integers modulo 2^64 and 2^32, with the bit operations yalin uses. */
module Words {

  const TWO64: int := 0x1_0000_0000_0000_0000

  /** An unsigned 64-bit result. */
  function Wrap64(x: int): (r: nat)
    ensures r < TWO64
  {
    x % TWO64
  }

  /** The signed reading of a 64-bit word. */
  function Signed64(x: nat): int
    requires x < TWO64
  {
    if x < TWO64 / 2 then x else x - TWO64
  }

  const TWO32: int := 0x1_0000_0000

  /** An unsigned 32-bit result. */
  function Wrap32(x: int): (r: nat)
    ensures r < TWO32
  {
    x % TWO32
  }

  /** The signed reading of a 32-bit word. */
  function Signed32(x: nat): int
    requires x < TWO32
  {
    if x < TWO32 / 2 then x else x - TWO32
  }

  /** Complement of a 64-bit word. */
  function Not64(x: nat): nat
    requires x < TWO64
  {
    TWO64 - 1 - x
  }

  /** Bitwise and. */
  function And(x: nat, y: nat): nat {
    if x == 0 || y == 0 then 0 else (x % 2) * (y % 2) + 2 * And(x / 2, y / 2)
  }

  function Pow2(n: nat): (r: nat)
    ensures r >= 1
  {
    if n == 0 then 1 else 2 * Pow2(n - 1)
  }

  lemma {:induction false} Pow2Monotone(m: nat, n: nat)
    requires m <= n
    ensures Pow2(m) <= Pow2(n) && Pow2(n) % Pow2(m) == 0
    decreases n
  {
    if m == n {
    } else {
      Pow2Monotone(m, n - 1);
      var q := Pow2(n - 1) / Pow2(m);
      assert Pow2(n) == Pow2(m) * (2 * q);
      MultipleMod(2 * q, Pow2(m));
    }
  }

  lemma Pow2Is64()
    ensures Pow2(64) == TWO64
  {
    assert Pow2(8) == 256;
    assert Pow2(16) == 256 * Pow2(8);
    assert Pow2(24) == 256 * Pow2(16);
    assert Pow2(32) == 256 * Pow2(24);
    assert Pow2(40) == 256 * Pow2(32);
    assert Pow2(48) == 256 * Pow2(40);
    assert Pow2(56) == 256 * Pow2(48);
    assert Pow2(64) == 256 * Pow2(56);
  }

  lemma MultipleMod(q: int, m: int)
    requires m > 0
    ensures (q * m) % m == 0 && (m * q) % m == 0
  {
    ModUnique(m * q, m, q, 0);
  }

  lemma ModUnique(x: int, m: int, q: int, r: int)
    requires m > 0 && x == m * q + r && 0 <= r < m
    ensures x / m == q && x % m == r
  {
    var d := x / m - q;
    assert x == m * (x / m) + x % m;
    assert m * d == r - x % m by {
      assert m * d == m * (x / m) - m * q;
    }
    assert d > 0 ==> m * d >= m;
    assert d < 0 ==> m * d <= -m;
  }

  /** Halving: quotient and remainder modulo 2m from those of the half modulo m. */
  lemma HalfMod(x: nat, m: nat)
    requires m > 0
    ensures x / (2 * m) == (x / 2) / m && x % (2 * m) == 2 * ((x / 2) % m) + x % 2
  {
    var h := x / 2;
    var q, r := h / m, h % m;
    assert h == m * q + r;
    assert (2 * m) * q == 2 * (m * q);
    ModUnique(x, 2 * m, q, 2 * r + x % 2);
  }

  lemma AndUnfold(x: nat, y: nat)
    ensures And(x, y) == (x % 2) * (y % 2) + 2 * And(x / 2, y / 2)
  {
  }

  /** And with a mask given by its half and its lowest bit. */
  lemma AndTwice(x: nat, half: nat, low: nat)
    requires low < 2
    ensures And(x, 2 * half + low) == (x % 2) * low + 2 * And(x / 2, half)
  {
    AndUnfold(x, 2 * half + low);
  }

  /** From a mask for the half to the mask for the whole. */
  lemma AndMaskStep(x: nat, p: nat, q: nat)
    requires 0 < p <= q && And(x / 2, q - p) == x / 2 - (x / 2) % p
    ensures And(x, 2 * q - 2 * p) == x - x % (2 * p)
  {
    hide And;
    HalfMod(x, p);
    AndTwice(x, q - p, 0);
  }

  /** And with all bits below 2^n. */
  lemma {:induction false} AndAll(x: nat, n: nat)
    requires x < Pow2(n)
    ensures And(x, Pow2(n) - 1) == x
    decreases n
  {
    if n == 0 {
    } else {
      AndAll(x / 2, n - 1);
      AndTwice(x, Pow2(n - 1) - 1, 1);
      assert Pow2(n) - 1 == 2 * (Pow2(n - 1) - 1) + 1;
    }
  }

  /** Powers of two, one at a time. */
  lemma Pow2Double(n: nat)
    ensures Pow2(n) == if n == 0 then 1 else 2 * Pow2(n - 1)
  {
  }

  /** And with the mask that has bits k .. n-1 set rounds down to a multiple of 2^k. */
  lemma {:induction false} AndHighMask(x: nat, k: nat, n: nat)
    requires k <= n && x < Pow2(n)
    ensures Pow2(k) <= Pow2(n)
    ensures And(x, Pow2(n) - Pow2(k)) == x - x % Pow2(k)
    decreases n
  {
    hide And, Pow2;
    Pow2Monotone(k, n);
    Pow2Double(k);
    if k == 0 {
      AndAll(x, n);
    } else {
      Pow2Double(n);
      AndHighMask(x / 2, k - 1, n - 1);
      AndMaskStep(x, Pow2(k - 1), Pow2(n - 1));
    }
  }

  lemma AndOne(x: nat)
    ensures And(x, 1) == x % 2
  {
    AndUnfold(x, 1);
    assert And(x / 2, 0) == 0;
  }

  /** From a bit of the half to the next bit of the whole. */
  lemma AndBitStep(x: nat, p: nat, bit: nat)
    requires p > 0 && bit == (x / 2 / p) % 2 && And(x / 2, p) == p * bit
    ensures And(x, 2 * p) == (2 * p) * bit && bit == (x / (2 * p)) % 2
  {
    hide And;
    HalfMod(x, p);
    AndTwice(x, p, 0);
    assert 2 * (p * bit) == (2 * p) * bit;
  }

  /** And with a single bit isolates it. */
  lemma {:induction false} AndBit(x: nat, k: nat)
    ensures And(x, Pow2(k)) == Pow2(k) * ((x / Pow2(k)) % 2)
    decreases k
  {
    hide And, Pow2;
    Pow2Double(k);
    if k == 0 {
      AndOne(x);
    } else {
      AndBit(x / 2, k - 1);
      AndBitStep(x, Pow2(k - 1), (x / 2 / Pow2(k - 1)) % 2);
    }
  }

  /** A signed number survives its storage in a word. */
  lemma SignedRoundTrip(x: int)
    ensures -(TWO64 / 2) <= x < TWO64 / 2 ==> Signed64(Wrap64(x)) == x
    ensures -(TWO32 / 2) <= x < TWO32 / 2 ==> Signed32(Wrap32(x)) == x
  {
    if 0 <= x {
      if x < TWO64 { ModUnique(x, TWO64, 0, x); }
      if x < TWO32 { ModUnique(x, TWO32, 0, x); }
    } else {
      if -TWO64 <= x { ModUnique(x, TWO64, -1, x + TWO64); }
      if -TWO32 <= x { ModUnique(x, TWO32, -1, x + TWO32); }
    }
  }
}
