/** Machine words and the bit operations the codec is written in, as arithmetic on natural numbers. */
module Bits {
  type u8 = x: int | 0 <= x < 0x100
  type u16 = x: int | 0 <= x < 0x1_0000
  type u64 = x: int | 0 <= x < 0x1_0000_0000_0000_0000

  const TWO_64: nat := 0x1_0000_0000_0000_0000
  const TWO_80: nat := 0x1_0000_0000_0000_0000_0000

  function Pow(base: nat, e: nat): (r: nat)
    ensures base > 0 ==> r > 0
  {
    if e == 0 then 1 else base * Pow(base, e - 1)
  }

  lemma {:induction false} PowAdd(base: nat, m: nat, n: nat)
    ensures Pow(base, m + n) == Pow(base, m) * Pow(base, n)
  {
    if m > 0 {
      PowAdd(base, m - 1, n);
      MulAssociative(base, Pow(base, m - 1), Pow(base, n));
    }
  }

  lemma {:induction false} MulAssociative(x: int, y: int, z: int)
    ensures x * (y * z) == x * y * z
  {
  }

  lemma {:induction false} PowMonotone(base: nat, m: nat, n: nat)
    requires base > 0 && m <= n
    ensures Pow(base, m) <= Pow(base, n)
    decreases n
  {
    if m < n {
      PowMonotone(base, m, n - 1);
      assert base * Pow(base, n - 1) >= Pow(base, n - 1);
    }
  }

  /** Bitwise AND, one bit at a time. */
  function And(a: nat, b: nat): (r: nat)
    ensures r <= a && r <= b
  {
    if a == 0 || b == 0 then 0 else (a % 2) * (b % 2) + 2 * And(a / 2, b / 2)
  }

  /** Bitwise OR, one bit at a time. */
  function Or(a: nat, b: nat): (r: nat)
    ensures r <= a + b
  {
    if a == 0 then b else if b == 0 then a
    else (if a % 2 + b % 2 == 0 then 0 else 1) + 2 * Or(a / 2, b / 2)
  }

  /** Left and right shift, one place at a time; a machine shift keeps what fits its word. */
  function Shl(a: nat, k: nat): nat {
    if k == 0 then a else 2 * Shl(a, k - 1)
  }

  function Shr(a: nat, k: nat): (r: nat)
    ensures r <= a
  {
    if k == 0 then a else Shr(a / 2, k - 1)
  }

  lemma {:induction false} ShlIsMul(a: nat, k: nat)
    ensures Shl(a, k) == a * Pow(2, k)
  {
    if k > 0 {
      ShlIsMul(a, k - 1);
    }
  }

  lemma {:induction false} ShrIsDiv(a: nat, k: nat)
    ensures Shr(a, k) == a / Pow(2, k)
  {
    if k > 0 {
      ShrIsDiv(a / 2, k - 1);
      DivDouble(a, Pow(2, k - 1));
    }
  }

  /** An OR of two values below a power of two stays below it. */
  lemma {:induction false} OrBound(a: nat, b: nat, k: nat)
    requires a < Pow(2, k) && b < Pow(2, k)
    ensures Or(a, b) < Pow(2, k)
  {
    if a != 0 && b != 0 {
      OrBound(a / 2, b / 2, k - 1);
    }
  }

  /** A low mask keeps the remainder. */
  lemma {:induction false} AndLowMask(a: nat, k: nat)
    ensures And(a, Pow(2, k) - 1) == a % Pow(2, k)
  {
    if k > 0 {
      var p := Pow(2, k - 1);
      assert (2 * p - 1) / 2 == p - 1 && (2 * p - 1) % 2 == 1;
      AndLowMask(a / 2, k - 1);
      ModDouble(a, p);
    }
  }

  lemma {:induction false} ModDouble(a: nat, p: nat)
    requires p > 0
    ensures a % (2 * p) == 2 * (a / 2 % p) + a % 2
  {
    var q, r := a / 2 / p, a / 2 % p;
    assert a == 2 * (q * p + r) + a % 2;
    DivModUnique(a, 2 * p, q, 2 * r + a % 2);
  }

  lemma {:induction false} DivModUnique(a: int, d: int, q: int, r: int)
    requires d > 0 && a == q * d + r && 0 <= r < d
    ensures a / d == q && a % d == r
  {
    var q', r' := a / d, a % d;
    assert (q' - q) * d == r - r';
    MulAtLeast(q' - q, d);
  }

  lemma {:induction false} DivModRange(v: nat, base: nat)
    requires base > 0
    ensures v / base >= 0 && 0 <= v % base < base
    ensures v == v / base * base + v % base
  {
    MulAtLeast(v / base, base);
  }

  lemma {:induction false} QuotientBound(v: nat, base: nat, p: nat)
    requires base > 0 && v < base * p
    ensures v / base < p
  {
    var q := v / base;
    DivModRange(v, base);
    MulAtLeast(q - p + 1, base);
    assert (q - p + 1) * base == q * base - p * base + base;
  }

  lemma {:induction false} MulAtLeast(x: int, d: int)
    requires d > 0
    ensures x >= 1 ==> x * d >= d
    ensures x <= -1 ==> x * d <= -d
  {
    if x >= 1 {
      assert (x - 1) * d >= 0;
    } else if x <= -1 {
      assert (-1 - x) * d >= 0;
    }
  }

  /** OR of values whose bits do not meet is their sum. */
  lemma {:induction false} OrDisjoint(hi: nat, lo: nat, k: nat)
    requires lo < Pow(2, k)
    ensures Or(Shl(hi, k), lo) == Shl(hi, k) + lo
  {
    if k > 0 {
      OrDisjoint(hi, lo / 2, k - 1);
    }
  }

  /** Masking a field in place reads that field. */
  lemma {:induction false} AndField(a: nat, m: nat, k: nat)
    ensures And(a, Shl(m, k)) == Shl(And(Shr(a, k), m), k)
  {
    if k > 0 {
      AndField(a / 2, m, k - 1);
      AndDouble(a, Shl(m, k - 1));
    }
  }

  lemma {:induction false} AndDouble(a: nat, b: nat)
    ensures And(a, 2 * b) == 2 * And(a / 2, b)
  {
    if a != 0 && b != 0 {
      var c := 2 * b;
      assert c != 0 && c % 2 == 0 && c / 2 == b;
      assert And(a, c) == (a % 2) * (c % 2) + 2 * And(a / 2, c / 2);
    }
  }

  lemma {:induction false} DivDouble(a: nat, p: nat)
    requires p > 0
    ensures a / (2 * p) == a / 2 / p
  {
    var q, r := a / 2 / p, a / 2 % p;
    assert a == 2 * (q * p + r) + a % 2;
    DivModUnique(a, 2 * p, q, 2 * r + a % 2);
  }

  /** The byte-wide operators: what leaves the byte is lost. */
  function Shl8(a: u8, k: nat): u8 {
    Shl(a, k) % 256
  }

  function Or8(a: u8, b: u8): u8 {
    assert Pow(2, 8) == 256;
    OrBound(a, b, 8);
    Or(a, b)
  }

  lemma {:induction false} ShrOfShl(a: nat, k: nat)
    ensures Shr(Shl(a, k), k) == a
  {
    if k > 0 {
      ShrOfShl(a, k - 1);
    }
  }

  /** `(b & mask) >> k`, for a mask of `j` ones starting at bit `k`. */
  lemma {:induction false} ReadField(b: u8, k: nat, j: nat, p: nat, q: nat, mask: nat)
    requires p == Pow(2, k) && q == Pow(2, j) && mask == Shl(q - 1, k)
    ensures Shr(And(b, mask), k) == b / p % q
  {
    AndField(b, q - 1, k);
    ShrOfShl(And(Shr(b, k), q - 1), k);
    AndLowMask(Shr(b, k), j);
    ShrIsDiv(b, k);
  }

  /** `(x << k) | y` in a byte, when `y` fits the low `k` bits. */
  lemma {:induction false} JoinLow(x: u8, k: nat, y: nat, p: nat, q: nat)
    requires p == Pow(2, k) && q > 0 && q * p == 256 && y < p
    ensures Shl8(x, k) == x % q * p
    ensures Or(Shl8(x, k), y) == x % q * p + y
  {
    ShlIsMul(x, k);
    ModScale(x, q, p);
    ShlIsMul(x % q, k);
    OrDisjoint(x % q, y, k);
  }

  lemma {:induction false} ModScale(x: nat, q: nat, p: nat)
    requires q > 0 && p > 0
    ensures q * p > 0
    ensures x * p % (q * p) == x % q * p
  {
    var h, r := x / q, x % q;
    DivModRange(x, q);
    MulAtLeast(q, p);
    Distribute(h * q, r, p);
    MulAssociative(h, q, p);
    MulAtLeast(q - r, p);
    Distribute(q, -r, p);
    DivModUnique(x * p, q * p, h, r * p);
  }

  lemma {:induction false} Distribute(x: int, y: int, p: int)
    ensures (x + y) * p == x * p + y * p
  {
  }

  lemma {:induction false} MulMonotone(x: nat, y: nat, p: nat)
    requires x <= y
    ensures x * p <= y * p
  {
  }

  lemma {:induction false} ModSmall(a: nat, t: nat)
    requires a < t
    ensures a % t == a && a / t == 0
  {
    DivModUnique(a, t, 0, a);
  }

  lemma {:induction false} WordPowers()
    ensures Pow(2, 8) == 256 && Pow(2, 16) == 0x1_0000 && Pow(2, 32) == 0x1_0000_0000 && Pow(2, 64) == TWO_64
    ensures Pow(256, 2) == 0x1_0000 && Pow(256, 8) == TWO_64 && Pow(256, 10) == TWO_80
  {
    assert Pow(2, 8) == 256;
    assert Pow(256, 2) == 0x1_0000 && Pow(256, 4) == 0x1_0000_0000;
    PowAdd(2, 8, 8);
    PowAdd(2, 16, 16);
    PowAdd(2, 32, 32);
    PowAdd(256, 4, 4);
    PowAdd(256, 8, 2);
    hide Pow;
  }
}
