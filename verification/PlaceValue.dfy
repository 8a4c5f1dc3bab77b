/** Digit strings: the numbers they denote, and the order a byte-wise comparison gives them. */
module PlaceValue {
  import opened Bits

  ghost predicate Below(ds: seq<nat>, base: nat) {
    forall i :: 0 <= i < |ds| ==> ds[i] < base
  }

  /** Value of a digit string, most significant digit first. */
  function Num(ds: seq<nat>, base: nat): nat {
    if |ds| == 0 then 0 else Num(ds[..|ds| - 1], base) * base + ds[|ds| - 1]
  }

  /** Value of a digit string, least significant digit first. */
  function NumLE(ds: seq<nat>, base: nat): nat {
    if |ds| == 0 then 0 else ds[0] + base * NumLE(ds[1..], base)
  }

  /** The byte-wise order of `bytes.Compare` and of Rust's derived `Ord` on slices: a proper prefix is less. */
  predicate LexLess(a: seq<nat>, b: seq<nat>) {
    |b| > 0 && (|a| == 0 || a[0] < b[0] || (a[0] == b[0] && LexLess(a[1..], b[1..])))
  }

  lemma {:induction false} HornerStep(x: nat, p: nat, y: nat, base: nat)
    ensures (x * p + y) * base == x * (base * p) + y * base
  {
  }

  lemma {:induction false} DigitGap(a: nat, b: nat, p: nat, r: nat, s: nat)
    requires a < b && r < p
    ensures a * p + r < b * p + s
  {
    assert (b - a) * p >= p by { MulAtLeast(b - a, p); }
    assert (b - a) * p == b * p - a * p;
  }

  lemma {:induction false} NumConcat(a: seq<nat>, b: seq<nat>, base: nat)
    ensures Num(a + b, base) == Num(a, base) * Pow(base, |b|) + Num(b, base)
  {
    if |b| == 0 {
      assert a + b == a;
    } else {
      var n := |b| - 1;
      assert (a + b)[..|a + b| - 1] == a + b[..n];
      NumConcat(a, b[..n], base);
      HornerStep(Num(a, base), Pow(base, n), Num(b[..n], base), base);
    }
  }

  lemma {:induction false} NumBound(ds: seq<nat>, base: nat)
    requires Below(ds, base)
    ensures Num(ds, base) < Pow(base, |ds|)
  {
    if |ds| > 0 {
      NumBound(ds[..|ds| - 1], base);
      DigitGap(Num(ds[..|ds| - 1], base), Pow(base, |ds| - 1), base, ds[|ds| - 1], 0);
    }
  }

  lemma {:induction false} NumAppend(ds: seq<nat>, d: nat, base: nat)
    ensures Num(ds + [d], base) == Num(ds, base) * base + d
  {
  }

  /** The leading digit decides between strings of one length. */
  lemma {:induction false} LeadingDigit(a: seq<nat>, b: seq<nat>, base: nat)
    requires |a| == |b| > 0 && Below(a, base) && Below(b, base)
    ensures a[0] < b[0] ==> Num(a, base) < Num(b, base)
    ensures a[0] == b[0] ==> Num(a, base) - Num(b, base) == Num(a[1..], base) - Num(b[1..], base)
  {
    var p := Pow(base, |a| - 1);
    SplitFirst(a, base);
    SplitFirst(b, base);
    NumBound(a[1..], base);
    if a[0] < b[0] {
      DigitGap(a[0], b[0], p, Num(a[1..], base), Num(b[1..], base));
    }
  }

  lemma {:induction false} SplitFirst(a: seq<nat>, base: nat)
    requires |a| > 0
    ensures Num(a, base) == a[0] * Pow(base, |a| - 1) + Num(a[1..], base)
  {
    assert a == [a[0]] + a[1..];
    NumConcat([a[0]], a[1..], base);
    assert [a[0]][..0] == [];
    assert Num([a[0]], base) == a[0];
  }

  /** Byte-wise order of equal-length digit strings is numeric order. */
  lemma {:induction false} LexIsNumeric(a: seq<nat>, b: seq<nat>, base: nat)
    requires |a| == |b| && Below(a, base) && Below(b, base)
    ensures LexLess(a, b) <==> Num(a, base) < Num(b, base)
  {
    if |a| > 0 {
      LexIsNumeric(a[1..], b[1..], base);
      LeadingDigit(a, b, base);
      LeadingDigit(b, a, base);
    }
  }

  lemma {:induction false} NumInjective(a: seq<nat>, b: seq<nat>, base: nat)
    requires |a| == |b| && Below(a, base) && Below(b, base)
    requires Num(a, base) == Num(b, base)
    ensures a == b
  {
    if |a| > 0 {
      LeadingDigit(a, b, base);
      LeadingDigit(b, a, base);
      NumInjective(a[1..], b[1..], base);
      assert a == [a[0]] + a[1..] && b == [b[0]] + b[1..];
    }
  }

  /** A common prefix does not affect the order. */
  lemma {:induction false} LexPrefix(p: seq<nat>, a: seq<nat>, b: seq<nat>)
    ensures LexLess(p + a, p + b) <==> LexLess(a, b)
  {
    if |p| == 0 {
      assert p + a == a && p + b == b;
    } else {
      assert (p + a)[1..] == p[1..] + a && (p + b)[1..] == p[1..] + b;
      LexPrefix(p[1..], a, b);
    }
  }

  /** Fields of one length are compared first; what follows matters only when they are equal. */
  lemma {:induction false} LexFields(a: seq<nat>, a': seq<nat>, b: seq<nat>, b': seq<nat>)
    requires |a| == |b|
    ensures LexLess(a + a', b + b') <==> LexLess(a, b) || (a == b && LexLess(a', b'))
  {
    if |a| == 0 {
      assert a + a' == a' && b + b' == b';
    } else {
      assert (a + a')[1..] == a[1..] + a' && (b + b')[1..] == b[1..] + b';
      LexFields(a[1..], a', b[1..], b');
      assert a == [a[0]] + a[1..] && b == [b[0]] + b[1..];
    }
  }

  /** Relabelling digits by an increasing code keeps the order. */
  lemma {:induction false} LexMap(a: seq<nat>, b: seq<nat>, c: seq<nat>, d: seq<nat>, code: seq<nat>)
    requires |a| == |b| == |c| == |d| && Below(a, |code|) && Below(b, |code|)
    requires forall i, j :: 0 <= i < j < |code| ==> code[i] < code[j]
    requires forall i :: 0 <= i < |a| ==> c[i] == code[a[i]] && d[i] == code[b[i]]
    ensures LexLess(c, d) <==> LexLess(a, b)
  {
    if |a| > 0 {
      LexMap(a[1..], b[1..], c[1..], d[1..], code);
    }
  }

  lemma {:induction false} LexIrreflexive(a: seq<nat>)
    ensures !LexLess(a, a)
  {
    if |a| > 0 {
      LexIrreflexive(a[1..]);
    }
  }

  /** The last `n` digits of `v` in a base. */
  function ToDigits(v: nat, base: nat, n: nat): (ds: seq<nat>)
    requires base > 0
    ensures |ds| == n && Below(ds, base)
    decreases n
  {
    if n == 0 then []
    else
      DivModRange(v, base);
      ToDigits(v / base, base, n - 1) + [v % base]
  }

  lemma {:induction false} DigitsNum(v: nat, base: nat, n: nat)
    requires base > 0 && v < Pow(base, n)
    ensures Num(ToDigits(v, base, n), base) == v
    decreases n
  {
    if n > 0 {
      QuotientBound(v, base, Pow(base, n - 1));
      DivModRange(v, base);
      DigitsNum(v / base, base, n - 1);
      var ds := ToDigits(v, base, n);
      assert ds[..|ds| - 1] == ToDigits(v / base, base, n - 1);
    }
  }

  /** Every digit string is the digits of the number it denotes: the representation is unique. */
  lemma {:induction false} DigitsOfNum(ds: seq<nat>, base: nat)
    requires base > 0 && Below(ds, base)
    ensures Num(ds, base) < Pow(base, |ds|)
    ensures ToDigits(Num(ds, base), base, |ds|) == ds
  {
    NumBound(ds, base);
    DigitsNum(Num(ds, base), base, |ds|);
    NumInjective(ToDigits(Num(ds, base), base, |ds|), ds, base);
  }

  /** Digits split at any boundary. */
  lemma {:induction false} DigitsSplit(hi: nat, lo: nat, base: nat, m: nat, n: nat)
    requires base > 0 && hi < Pow(base, m) && lo < Pow(base, n)
    ensures ToDigits(hi * Pow(base, n) + lo, base, m + n) == ToDigits(hi, base, m) + ToDigits(lo, base, n)
  {
    DigitsNum(hi, base, m);
    DigitsNum(lo, base, n);
    NumConcat(ToDigits(hi, base, m), ToDigits(lo, base, n), base);
    DigitsOfNum(ToDigits(hi, base, m) + ToDigits(lo, base, n), base);
  }

  /** The digits of two numbers compare as the numbers do. */
  lemma {:induction false} DigitsOrder(v: nat, w: nat, base: nat, n: nat)
    requires base > 0 && v < Pow(base, n) && w < Pow(base, n)
    ensures LexLess(ToDigits(v, base, n), ToDigits(w, base, n)) <==> v < w
    ensures ToDigits(v, base, n) == ToDigits(w, base, n) <==> v == w
  {
    DigitsNum(v, base, n);
    DigitsNum(w, base, n);
    LexIsNumeric(ToDigits(v, base, n), ToDigits(w, base, n), base);
  }

  /** The `n` big-endian bytes of `v`. */
  function ToBE(v: nat, n: nat): (bs: seq<u8>)
    ensures |bs| == n
  {
    ToDigits(v, 256, n)
  }

  /** A buffer with `bs` written over it from `at`. */
  function Splice(buffer: seq<u8>, at: nat, bs: seq<u8>): (r: seq<u8>)
    requires at + |bs| <= |buffer|
    ensures |r| == |buffer|
  {
    buffer[..at] + bs + buffer[at + |bs|..]
  }

  lemma {:induction false} SpliceAt(buffer: seq<u8>, at: nat, bs: seq<u8>)
    requires at + |bs| <= |buffer|
    ensures forall i :: 0 <= i < |buffer| ==>
              Splice(buffer, at, bs)[i] == if at <= i < at + |bs| then bs[i - at] else buffer[i]
    ensures forall i :: 0 <= i < |bs| ==> Splice(buffer, at, bs)[at + i] == bs[i]
  {
  }

  lemma {:induction false} SpliceTwice(buffer: seq<u8>, at: nat, a: seq<u8>, b: seq<u8>)
    requires at + |a| + |b| <= |buffer|
    ensures Splice(Splice(buffer, at, a), at + |a|, b) == Splice(buffer, at, a + b)
  {
  }

  // ---------- Little-endian ----------

  /** The `n` little-endian bytes of `v`. */
  function ToLE(v: nat, n: nat): (bs: seq<u8>)
    ensures |bs| == n
    decreases n
  {
    if n == 0 then [] else [v % 256] + ToLE(v / 256, n - 1)
  }

  lemma {:induction false} LittleEndianDigits(v: nat, n: nat)
    requires v < Pow(256, n)
    ensures NumLE(ToLE(v, n), 256) == v
    decreases n
  {
    if n > 0 {
      LittleEndianDigits(v / 256, n - 1);
      assert ToLE(v, n)[1..] == ToLE(v / 256, n - 1);
    }
  }

  lemma {:induction false} FrontBytes(v: nat, n: nat, k: nat)
    requires k <= n
    ensures ToLE(v, n)[..k] == ToLE(v, k)
    decreases n
  {
    if k > 0 {
      FrontBytes(v / 256, n - 1, k - 1);
    }
  }

  /** Little-endian bytes of a number too large for them keep it modulo their range. */
  lemma {:induction false} WrapBytes(v: nat, n: nat)
    ensures NumLE(ToLE(v, n), 256) == v % Pow(256, n)
    decreases n
  {
    if n > 0 {
      WrapBytes(v / 256, n - 1);
      assert ToLE(v, n)[1..] == ToLE(v / 256, n - 1);
      NestedRemainder(v, 256, Pow(256, n - 1));
    }
  }

  lemma {:induction false} NestedRemainder(n: nat, p: nat, q: nat)
    requires p > 0 && q > 0
    ensures p * q > 0 && n % (p * q) == n % p + p * (n / p % q)
  {
    var a, r := n / p, n % p;
    var b, s := a / q, a % q;
    DivModRange(n, p);
    DivModRange(a, q);
    Distribute(b * q, s, p);
    MulAssociative(b, q, p);
    MulMonotone(s, q - 1, p);
    Distribute(q, -1, p);
    MulAtLeast(q, p);
    DivModUnique(n, p * q, b, s * p + r);
  }

  /** Byte `i` of the little-endian bytes. */
  lemma {:induction false} LittleEndianAt(v: nat, n: nat, i: nat)
    requires i < n
    ensures Pow(256, i) > 0 && ToLE(v, n)[i] == v / Pow(256, i) % 256
    decreases n
  {
    if i > 0 {
      LittleEndianAt(v / 256, n - 1, i - 1);
      NestedQuotient(v, 256, Pow(256, i - 1));
    }
  }

  lemma {:induction false} NestedQuotient(n: nat, p: nat, q: nat)
    requires p > 0 && q > 0
    ensures p * q > 0 && n / (p * q) == n / p / q
  {
    var a, r := n / p, n % p;
    var b, s := a / q, a % q;
    DivModRange(n, p);
    DivModRange(a, q);
    Distribute(b * q, s, p);
    MulAssociative(b, q, p);
    MulMonotone(s, q - 1, p);
    Distribute(q, -1, p);
    MulAtLeast(q, p);
    DivModUnique(n, p * q, b, s * p + r);
  }
}
