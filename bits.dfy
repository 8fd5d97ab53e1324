/**
 * Python's unbounded integers, as the two ciphers use them: powers of two,
 * the bitwise `^` and `|` on non-negative integers, and the arithmetic facts
 * (division, remainder, rotation) that the cipher proofs rest on.
 *
 * Python's `x & (2**n - 1)` is `x % Pow2(n)` (also for negative `x`, because
 * Python, like Dafny's Euclidean `%`, keeps the result non-negative),
 * `x << n` is `x * Pow2(n)` and `x >> n` is `x / Pow2(n)` for `x >= 0`.
 */
module Bits {

  /** Python's `max` and `min` on two integers. */
  function Max(a: int, b: int): int
  {
    if a >= b then a else b
  }

  function Min(a: int, b: int): int
  {
    if a <= b then a else b
  }

  function Pow2(n: nat): (r: nat)
    ensures r >= 1
  {
    if n == 0 then 1 else 2 * Pow2(n - 1)
  }

  lemma {:induction false} Pow2Add(a: nat, b: nat)
    ensures Pow2(a + b) == Pow2(a) * Pow2(b)
  {
    if a > 0 {
      Pow2Add(a - 1, b);
    }
  }

  lemma Pow2Le(a: nat, b: nat)
    requires a <= b
    ensures Pow2(a) <= Pow2(b)
  {
    Pow2Add(a, b - a);
  }

  /** A byte holds eight bits. */
  lemma Pow2Byte()
    ensures Pow2(8) == 256
  {
  }

  /** The concrete powers the word widths of the two ciphers need. */
  lemma Pow2Values()
    ensures Pow2(8) == 0x100
    ensures Pow2(16) == 0x1_0000
    ensures Pow2(32) == 0x1_0000_0000
    ensures Pow2(64) == 0x1_0000_0000_0000_0000
  {
    assert Pow2(8) == 0x100;
    Pow2Add(8, 8);
    Pow2Add(16, 16);
    Pow2Add(32, 32);
  }

  // ---------------------------------------------------------------------
  // Division and remainder
  // ---------------------------------------------------------------------

  /** A positive multiple of a positive number is at least that number. */
  lemma MulAtLeast(k: int, d: int)
    requires k >= 1 && d > 0
    ensures k * d >= d
  {
  }

  /** Filling `n` up to the next multiple of `d` gives a multiple of `d`. */
  lemma RoundUp(n: int, d: int)
    requires d > 0
    ensures (n + (d - n % d)) % d == 0
    ensures (n + (d - n % d)) / d == n / d + 1
  {
    DivModUnique(n + (d - n % d), d, n / d + 1, 0);
  }

  /** `ceil(n / d)`, written `(n + d - 1) // d`, counts the multiples of `d` that `n` rounded up holds. */
  lemma CeilDiv(n: int, d: int)
    requires n >= 0 && d > 0
    ensures n % d == 0 ==> (n + d - 1) / d == n / d
    ensures n % d != 0 ==> (n + d - 1) / d == (n + (d - n % d)) / d
  {
    var q, r := n / d, n % d;
    if r == 0 {
      DivModUnique(n + d - 1, d, q, d - 1);
    } else {
      DivModUnique(n + d - 1, d, q + 1, r - 1);
      RoundUp(n, d);
    }
  }

  /** Quotient and remainder are determined by `x == q * d + r, 0 <= r < d`. */
  lemma DivModUnique(x: int, d: int, q: int, r: int)
    requires d > 0 && 0 <= r < d && x == q * d + r
    ensures x / d == q && x % d == r
  {
    var q', r' := x / d, x % d;
    assert (q' - q) * d == r - r';
    if q' > q {
      MulAtLeast(q' - q, d);
    } else if q' < q {
      MulAtLeast(q - q', d);
    }
  }

  /** Adding a multiple of `d` does not change the remainder. */
  lemma ModAddMultiple(x: int, k: int, d: int)
    requires d > 0
    ensures (x + k * d) % d == x % d
    ensures (x + k * d) / d == x / d + k
  {
    DivModUnique(x + k * d, d, x / d + k, x % d);
  }

  /** Subtracting what was added modulo `d` recovers a residue. */
  lemma ModAddSub(x: int, s: int, d: int)
    requires d > 0 && 0 <= x < d
    ensures ((x + s) % d - s) % d == x
  {
    var q := (x + s) / d;
    assert (x + s) % d - s == x + (-q) * d;
    ModAddMultiple(x, -q, d);
    DivModUnique(x, d, 0, x);
  }

  /** Adding back what was subtracted modulo `d` recovers a residue. */
  lemma ModSubAdd(x: int, s: int, d: int)
    requires d > 0 && 0 <= x < d
    ensures ((x - s) % d + s) % d == x
  {
    var q := (x - s) / d;
    assert (x - s) % d + s == x + (-q) * d;
    ModAddMultiple(x, -q, d);
    DivModUnique(x, d, 0, x);
  }

  /** The remainder of a sum depends only on the remainders of its terms. */
  lemma ModOfSum(x: int, y: int, d: int)
    requires d > 0
    ensures (x + y) % d == (x % d + y) % d
  {
    assert x + y == x % d + y + (x / d) * d;
    ModAddMultiple(x % d + y, x / d, d);
  }

  lemma MulLeMono(x: int, y: int, c: int)
    requires x <= y && c >= 0
    ensures x * c <= y * c
  {
  }

  /** `v` shifted left by the width of `a`, where `v == q * b + r`. */
  lemma MulSplit(v: int, q: int, r: int, a: int, b: int)
    requires v == q * b + r
    ensures v * a == q * (a * b) + r * a
  {
  }

  /** Shifting left by `a` bits and keeping `a + b` bits keeps the low `b` bits of `v`. */
  lemma ShiftMod(v: int, a: nat, b: nat)
    ensures (v * Pow2(a)) % Pow2(a + b) == (v % Pow2(b)) * Pow2(a)
  {
    var A, B := Pow2(a), Pow2(b);
    Pow2Add(a, b);
    var q, r := v / B, v % B;
    MulSplit(v, q, r, A, B);
    MulLeMono(r + 1, B, A);
    DivModUnique(v * A, A * B, q, r * A);
  }

  /** Keeping `a + b` low bits and then `b` low bits is keeping `b` low bits. */
  lemma ModMod(v: int, a: nat, b: nat)
    ensures (v % Pow2(a + b)) % Pow2(b) == v % Pow2(b)
  {
    Pow2Add(b, a);
    ModModCore(v, Pow2(a), Pow2(b));
  }

  lemma MulAssoc(q: int, a: int, b: int)
    ensures q * (b * a) == (q * a) * b
  {
  }

  lemma ModModCore(v: int, a: int, b: int)
    requires a > 0 && b > 0
    ensures (v % (b * a)) % b == v % b
  {
    var n := b * a;
    var q := v / n;
    MulAssoc(q, a, b);
    assert v % n == v + (-(q * a)) * b;
    ModAddMultiple(v, -(q * a), b);
  }

  /** A number below `2^(a+b)` has fewer than `b` bits left after dropping `a`. */
  lemma DivBound(x: nat, a: nat, b: nat)
    requires x < Pow2(a + b)
    ensures x / Pow2(a) < Pow2(b)
  {
    var A, B := Pow2(a), Pow2(b);
    Pow2Add(a, b);
    if x / A >= B {
      MulLeMono(B, x / A, A);
      assert false;
    }
  }

  // ---------------------------------------------------------------------
  // Rotation
  // ---------------------------------------------------------------------

  /**
   * The value of a `w`-bit word `x` rotated right by `k` bits: the high
   * `w - k` bits move down, the low `k` bits move to the top.
   */
  function RotR(w: nat, x: nat, k: nat): nat
    requires k <= w
  {
    Shr(x, k) + Shl(Mask(x, k), w - k)
  }

  /** The rotation in terms of division and remainder. */
  lemma RotRArith(w: nat, x: nat, k: nat)
    requires k <= w
    ensures RotR(w, x, k) == x / Pow2(k) + (x % Pow2(k)) * Pow2(w - k)
  {
    ShrIsDiv(x, k);
    MaskIsMod(x, k);
    ShlIsMul(Mask(x, k), w - k);
  }

  /** The bound of a rotation, stated on the two factors `k` and `h` of the word size. */
  lemma RotBoundCore(x: int, k: int, h: int)
    requires k > 0 && h > 0 && 0 <= x < k * h
    ensures x / k < h
    ensures x / k + (x % k) * h < k * h
  {
    if x / k >= h {
      MulLeMono(h, x / k, k);
      assert false;
    }
    MulLeMono(x % k + 1, k, h);
  }

  lemma RotRBound(w: nat, x: nat, k: nat)
    requires k <= w && x < Pow2(w)
    ensures RotR(w, x, k) < Pow2(w)
  {
    var K, H := Pow2(k), Pow2(w - k);
    Pow2Add(k, w - k);
    assert Pow2(w) == K * H;
    RotBoundCore(x, K, H);
    RotRArith(w, x, k);
  }

  /** Rotating the two digits of `x` in base `k`/`h` back and forth, as plain arithmetic. */
  lemma RotInverseCore(x: int, k: int, h: int)
    requires k > 0 && h > 0 && 0 <= x < k * h
    ensures var y := x / k + (x % k) * h; y / h + (y % h) * k == x
  {
    RotBoundCore(x, k, h);
    var y := x / k + (x % k) * h;
    DivModUnique(y, h, x % k, x / k);
  }

  /** Rotating right by `w - k` and then by `k` is the identity on `w`-bit words. */
  lemma RotRInverseBack(w: nat, x: nat, k: nat)
    requires k <= w && x < Pow2(w)
    ensures RotR(w, RotR(w, x, w - k), k) == x
  {
    RotRInverse(w, x, w - k);
    assert w - (w - k) == k;
  }

  /** Rotating right by `k` and then by `w - k` is the identity on `w`-bit words. */
  lemma RotRInverse(w: nat, x: nat, k: nat)
    requires k <= w && x < Pow2(w)
    ensures RotR(w, RotR(w, x, k), w - k) == x
  {
    Pow2Add(k, w - k);
    assert w - (w - k) == k;
    RotInverseCore(x, Pow2(k), Pow2(w - k));
    RotRArith(w, x, k);
    RotRArith(w, RotR(w, x, k), w - k);
  }

  // ---------------------------------------------------------------------
  // Bitwise operators on non-negative integers
  // ---------------------------------------------------------------------

  /** Python's `a ^ b` for `a, b >= 0`, bit by bit from the lowest. */
  function Xor(a: nat, b: nat): nat
    decreases a + b
  {
    if a == 0 && b == 0 then 0
    else 2 * Xor(a / 2, b / 2) + (if a % 2 == b % 2 then 0 else 1)
  }

  /** Python's `a | b` for `a, b >= 0`, bit by bit from the lowest. */
  function Or(a: nat, b: nat): nat
    decreases a + b
  {
    if a == 0 && b == 0 then 0
    else 2 * Or(a / 2, b / 2) + (if a % 2 == 1 || b % 2 == 1 then 1 else 0)
  }

  /** `x ^ y` of two `n`-bit numbers is an `n`-bit number. */
  lemma {:induction false} XorBound(a: nat, b: nat, n: nat)
    requires a < Pow2(n) && b < Pow2(n)
    ensures Xor(a, b) < Pow2(n)
    decreases n
  {
    if a == 0 && b == 0 {
    } else {
      assert n > 0;
      XorBound(a / 2, b / 2, n - 1);
    }
  }

  lemma {:induction false} XorComm(a: nat, b: nat)
    ensures Xor(a, b) == Xor(b, a)
    decreases a + b
  {
    if a != 0 || b != 0 {
      XorComm(a / 2, b / 2);
    }
  }

  /** XOR-ing twice with the same value gives the original back. */
  lemma {:induction false} XorCancel(a: nat, b: nat)
    ensures Xor(Xor(a, b), b) == a
    decreases a + b
  {
    if a != 0 || b != 0 {
      var x := Xor(a, b);
      XorCancel(a / 2, b / 2);
      assert x / 2 == Xor(a / 2, b / 2);
      assert x % 2 == (if a % 2 == b % 2 then 0 else 1);
    }
  }

  lemma {:induction false} OrZero(b: nat)
    ensures Or(0, b) == b && Or(b, 0) == b
    decreases b
  {
    if b != 0 {
      OrZero(b / 2);
    }
  }

  /**
   * `|` of two bit fields that do not overlap is their sum: `a` lives in
   * the low `k` bits and `b * 2^k` above them.
   */
  lemma {:induction false} OrDisjoint(a: nat, b: nat, k: nat)
    requires a < Pow2(k)
    ensures Or(a, b * Pow2(k)) == a + b * Pow2(k)
    ensures Or(b * Pow2(k), a) == a + b * Pow2(k)
    decreases k
  {
    if k == 0 {
      OrZero(b);
    } else {
      var c := b * Pow2(k);
      assert c == 2 * (b * Pow2(k - 1));
      OrDisjoint(a / 2, b, k - 1);
      if a != 0 || c != 0 {
        assert Or(a, c) == 2 * Or(a / 2, c / 2) + a % 2;
        assert Or(c, a) == 2 * Or(c / 2, a / 2) + a % 2;
      }
    }
  }

    /** Python's `x << k`: `x` doubled `k` times. */
  function Shl(x: int, k: nat): (r: int)
    ensures (r >= 0) == (x >= 0)
  {
    if k == 0 then x else 2 * Shl(x, k - 1)
  }

  /** Python's `x >> k` for `x >= 0`: `x` halved `k` times, rounding down. */
  function Shr(x: nat, k: nat): nat
  {
    if k == 0 then x else Shr(x / 2, k - 1)
  }

  /**
   * Python's `x & (2**n - 1)`: the low `n` bits of `x`, read off one bit at
   * a time. For negative `x` these are the bits of its two's complement,
   * because `x % 2` and `x / 2` round the way Python's `x & 1` and `x >> 1` do.
   */
  function Mask(x: int, n: nat): (r: nat)
    ensures r < Pow2(n)
    decreases n
  {
    if n == 0 then 0 else x % 2 + 2 * Mask(x / 2, n - 1)
  }

  lemma {:induction false} ShlIsMul(x: int, k: nat)
    ensures Shl(x, k) == x * Pow2(k)
  {
    if k > 0 {
      ShlIsMul(x, k - 1);
      var P := Pow2(k - 1);
      assert 2 * (x * P) == x * (2 * P);
    }
  }

  /** Dividing by `a` and then by `b` is dividing by `a * b`. */
  lemma DivDiv(x: int, a: int, b: int)
    requires x >= 0 && a > 0 && b > 0
    ensures (x / a) / b == x / (a * b)
  {
    var q1, r1 := x / a, x % a;
    var q2, r2 := q1 / b, q1 % b;
    assert x == (a * b) * q2 + (a * r2 + r1) by {
      assert x == a * q1 + r1;
      assert q1 == b * q2 + r2;
      assert a * q1 == a * (b * q2) + a * r2;
      MulAssoc(q2, a, b);
    }
    MulLeMono(r2, b - 1, a);
    assert a * (b - 1) == a * b - a;
    DivModUnique(x, a * b, q2, a * r2 + r1);
  }

  lemma {:induction false} ShrIsDiv(x: nat, k: nat)
    ensures Shr(x, k) == x / Pow2(k)
  {
    if k > 0 {
      ShrIsDiv(x / 2, k - 1);
      DivDiv(x, 2, Pow2(k - 1));
    } else {
      DivModUnique(x, 1, x, 0);
    }
  }

  /** The remainder modulo `2 * p` from the lowest bit and the remainder of the rest modulo `p`. */
  lemma ModTwiceCore(x: int, p: int)
    requires p > 0
    ensures x % (2 * p) == x % 2 + 2 * ((x / 2) % p)
  {
    var q, r := (x / 2) / p, (x / 2) % p;
    assert x == (2 * p) * q + (2 * r + x % 2) by {
      assert x / 2 == p * q + r;
      assert 2 * (p * q) == (2 * p) * q;
    }
    DivModUnique(x, 2 * p, q, 2 * r + x % 2);
  }

  lemma {:induction false} MaskIsMod(x: int, n: nat)
    ensures Mask(x, n) == x % Pow2(n)
    decreases n
  {
    if n > 0 {
      MaskIsMod(x / 2, n - 1);
      ModTwiceCore(x, Pow2(n - 1));
    } else {
      DivModUnique(x, 1, x, 0);
    }
  }

  /** Masking a number that already fits in `n` bits leaves it unchanged. */
  lemma MaskSmall(x: int, n: nat)
    requires 0 <= x < Pow2(n)
    ensures Mask(x, n) == x
  {
    MaskIsMod(x, n);
    DivModUnique(x, Pow2(n), 0, x);
  }

  /** Subtracting, modulo `2^n`, what was added modulo `2^n` gives back an `n`-bit number. */
  lemma MaskAddSub(x: int, s: int, n: nat)
    requires 0 <= x < Pow2(n)
    ensures Mask(Mask(x + s, n) - s, n) == x
  {
    var M := Pow2(n);
    var y := Mask(x + s, n);
    MaskIsMod(x + s, n);
    MaskIsMod(y - s, n);
    ModAddSub(x, s, M);
    assert y == (x + s) % M;
  }

  /** Adding, modulo `2^n`, what was subtracted modulo `2^n` gives back an `n`-bit number. */
  lemma MaskSubAdd(x: int, s: int, n: nat)
    requires 0 <= x < Pow2(n)
    ensures Mask(Mask(x - s, n) + s, n) == x
  {
    var M := Pow2(n);
    var y := Mask(x - s, n);
    MaskIsMod(x - s, n);
    MaskIsMod(y + s, n);
    ModSubAdd(x, s, M);
    assert y == (x - s) % M;
  }

  /**
   * A left rotation by `k` written the way Python masks it,
   * `((val << k) & (2**w - 1)) | ((val & (2**w - 1)) >> (w - k))`.
   */
  function MaskedRotl(val: int, w: nat, k: nat): nat
    requires k <= w
  {
    Or(Mask(Shl(val, k), w), Shr(Mask(val, w), w - k))
  }

  /**
   * A right rotation by `k` written the way Python masks it,
   * `((val & (2**w - 1)) >> k) | ((val << (w - k)) & (2**w - 1))`.
   */
  function MaskedRotr(val: int, w: nat, k: nat): nat
    requires k <= w
  {
    Or(Shr(Mask(val, w), k), Mask(Shl(val, w - k), w))
  }

  /**
   * A left rotation written the way Python masks it,
   * `((val << k) & (2**w - 1)) | ((val & (2**w - 1)) >> (w - k))`,
   * is the `w`-bit residue of `val` rotated right by `w - k`.
   */
  lemma RotlMasked(val: int, w: nat, k: nat)
    requires k <= w
    ensures MaskedRotl(val, w, k) == RotR(w, Mask(val, w), w - k)
  {
    var h := w - k;
    var v := Mask(val, w);
    var high := Mask(Shl(val, k), w);
    var low := Shr(v, h);
    ShlIsMul(val, k);
    MaskIsMod(Shl(val, k), w);
    MaskIsMod(val, w);
    ShrIsDiv(v, h);
    ShiftMod(val, k, h);
    ModMod(val, k, h);
    var b: nat := v % Pow2(h);
    assert high == b * Pow2(k);
    DivBound(v, h, k);
    OrDisjoint(low, b, k);
    RotRArith(w, v, h);
  }

  /**
   * A right rotation written the way Python masks it is the `w`-bit
   * residue of `val` rotated right by `k`.
   */
  lemma RotrMasked(val: int, w: nat, k: nat)
    requires k <= w
    ensures MaskedRotr(val, w, k) == RotR(w, Mask(val, w), k)
  {
    var h := w - k;
    var v := Mask(val, w);
    var low := Shr(v, k);
    var high := Mask(Shl(val, h), w);
    ShlIsMul(val, h);
    MaskIsMod(Shl(val, h), w);
    MaskIsMod(val, w);
    ShrIsDiv(v, k);
    ShiftMod(val, h, k);
    ModMod(val, h, k);
    var b: nat := v % Pow2(k);
    assert high == b * Pow2(h);
    DivBound(v, k, h);
    OrDisjoint(low, b, h);
    RotRArith(w, v, k);
  }
}
