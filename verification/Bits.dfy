/** Bit-level arithmetic on naturals, for the shift, mask and or of the integer codec. */
module Bits {

  function Pow2(n: nat): (p: nat)
    ensures p >= 1
  {
    if n == 0 then 1 else 2 * Pow2(n - 1)
  }

  /** 256 to the power `w`: the number of values a `w`-byte unsigned integer has. */
  function Pow256(w: nat): (p: nat)
    ensures p >= 1
    ensures w == 1 ==> p == 0x100
    ensures w == 2 ==> p == 0x1_0000
    ensures w == 3 ==> p == 0x100_0000
    ensures w == 4 ==> p == 0x1_0000_0000
    ensures w == 5 ==> p == 0x100_0000_0000
    ensures w == 6 ==> p == 0x1_0000_0000_0000
    ensures w == 7 ==> p == 0x100_0000_0000_0000
    ensures w == 8 ==> p == 0x1_0000_0000_0000_0000
  {
    if w == 0 then 1 else 256 * Pow256(w - 1)
  }

  /** The bit-by-bit `|` of C++. */
  function Or(a: nat, b: nat): nat
    decreases a + b
  {
    if a == 0 && b == 0 then 0
    else (if a % 2 == 1 || b % 2 == 1 then 1 else 0) + 2 * Or(a / 2, b / 2)
  }

  /** The bit-by-bit `&` of C++. */
  function And(a: nat, b: nat): nat
    decreases a + b
  {
    if a == 0 && b == 0 then 0
    else (if a % 2 == 1 && b % 2 == 1 then 1 else 0) + 2 * And(a / 2, b / 2)
  }

  /** `x << n` in an unsigned type of `bits` bits: what leaves the type is lost. */
  function ShiftLeft(x: nat, n: nat, bits: nat): nat {
    x * Pow2(n) % Pow2(bits)
  }

  function ShiftRight(x: nat, n: nat): nat
    decreases n
  {
    if n == 0 then x else ShiftRight(x / 2, n - 1)
  }

  lemma {:induction false} ShiftRightDivides(x: nat, n: nat)
    ensures ShiftRight(x, n) == x / Pow2(n)
    decreases n
  {
    if n > 0 {
      ShiftRightDivides(x / 2, n - 1);
      DivDiv(x, 2, Pow2(n - 1));
    }
  }

  lemma {:induction false} Pow2Bytes(i: nat)
    ensures Pow2(8 * i) == Pow256(i)
  {
    if i > 0 {
      Pow2Bytes(i - 1);
      Pow2Add(8, 8 * (i - 1));
      assert Pow2(8) == 256;
    }
  }

  lemma {:induction false} Pow2Add(m: nat, n: nat)
    ensures Pow2(m + n) == Pow2(m) * Pow2(n)
  {
    if m > 0 {
      Pow2Add(m - 1, n);
      MulAssociative(2, Pow2(m - 1), Pow2(n));
    }
  }

  lemma {:induction false} Pow256Grows(m: nat, n: nat)
    requires m <= n
    ensures Pow256(m) <= Pow256(n)
  {
    if m < n {
      Pow256Grows(m, n - 1);
    }
  }

  lemma {:induction false} OrZero(b: nat)
    ensures Or(0, b) == b
    decreases b
  {
    if b > 0 {
      OrZero(b / 2);
    }
  }

  /** Or-ing in bits above everything set so far is addition: the step of the parsing loop. */
  lemma {:induction false} OrIsAdd(a: nat, b: nat, k: nat)
    requires a < Pow2(k)
    ensures Or(a, b * Pow2(k)) == a + b * Pow2(k)
    decreases k
  {
    if k == 0 {
      OrZero(b);
    } else {
      var high := b * Pow2(k - 1);
      assert b * Pow2(k) == 2 * high;
      OrIsAdd(a / 2, b, k - 1);
    }
  }

  /** Masking with `k` low ones keeps the remainder modulo 2^k. */
  lemma {:induction false} AndMask(a: nat, k: nat)
    ensures And(a, Pow2(k) - 1) == a % Pow2(k)
    decreases k
  {
    hide And;
    if k == 0 {
      AndZero(a);
    } else {
      AndMask(a / 2, k - 1);
      AndOdd(a, Pow2(k - 1));
      ModDouble(a, Pow2(k - 1));
    }
  }

  lemma {:induction false} AndOdd(a: nat, p: nat)
    requires p > 0
    ensures And(a, 2 * p - 1) == a % 2 + 2 * And(a / 2, p - 1)
  {
    assert (2 * p - 1) / 2 == p - 1 && (2 * p - 1) % 2 == 1;
  }

  lemma {:induction false} ModDouble(a: nat, p: nat)
    requires p > 0
    ensures a % (2 * p) == 2 * (a / 2 % p) + a % 2
  {
    var q, r := a / 2 / p, a / 2 % p;
    assert a / 2 == q * p + r;
    MulAssociative(q, 2, p);
    MulAssociative(2, q, p);
    ModUnique(a, 2 * p, q, 2 * r + a % 2);
  }

  lemma {:induction false} AndZero(a: nat)
    ensures And(a, 0) == 0
    decreases a
  {
    if a > 0 {
      AndZero(a / 2);
    }
  }

  lemma {:induction false} MulAssociative(a: int, b: int, c: int)
    ensures a * b * c == a * (b * c)
  {
  }

  lemma {:induction false} MulDistributes(a: int, b: int, c: int)
    ensures (a + b) * c == a * c + b * c
  {
  }

  lemma {:induction false} MulMonotone(a: int, b: int, c: int)
    requires a <= b && 0 <= c
    ensures a * c <= b * c
  {
    MulDistributes(b - a, a, c);
  }

  /** Division with remainder is unique. */
  lemma {:induction false} ModUnique(a: int, d: int, q: int, r: int)
    requires d > 0 && 0 <= r < d && a == q * d + r
    ensures a / d == q && a % d == r
  {
    var q', r' := a / d, a % d;
    assert a == q' * d + r';
    MulDistributes(q - q', q', d);
    if q > q' {
      MulMonotone(1, q - q', d);
    } else if q < q' {
      MulMonotone(1, q' - q, d);
      MulDistributes(q - q', q' - q, d);
    }
  }

  lemma {:induction false} DivDiv(v: nat, a: nat, b: nat)
    requires a > 0 && b > 0
    ensures v / a / b == v / (a * b)
  {
    var q, r := v / a, v % a;
    var q2, r2 := q / b, q % b;
    MulDistributes(q2 * b, r2, a);
    MulAssociative(q2, b, a);
    MulMonotone(1, a, b);
    assert v == q2 * (b * a) + (r2 * a + r);
    assert r2 * a + r < b * a by {
      MulMonotone(r2 + 1, b, a);
      MulDistributes(r2, 1, a);
    }
    assert 0 <= r2 * a;
    ModUnique(v, b * a, q2, r2 * a + r);
  }

  /** The byte the writer extracts at position `i`. */
  lemma {:induction false} LowByte(v: nat, i: nat)
    ensures And(ShiftRight(v, 8 * i), 0xff) == v / Pow256(i) % 256
  {
    Pow2Bytes(i);
    Pow2Bytes(1);
    ShiftRightDivides(v, 8 * i);
    var shifted := ShiftRight(v, 8 * i);
    assert shifted == v / Pow256(i);
    AndMask(shifted, 8);
  }
}
