/**
 * The bitwise operators of JavaScript and Java on the non-negative integers
 * the codec works with. `&` and `|` are defined bit by bit; `>>`, `>>>` and `<<`
 * are division and multiplication by a power of two, which is what they compute
 * on non-negative 32-bit operands that do not overflow (every operand in this
 * model is below 2^16).
 */
module Bits {

  function Pow2(k: nat): (p: nat)
    ensures p >= 1
  {
    if k == 0 then 1 else 2 * Pow2(k - 1)
  }

  /** x & y */
  function And(x: nat, y: nat): nat
    decreases x
  {
    if x == 0 || y == 0 then 0
    else 2 * And(x / 2, y / 2) + (if x % 2 == 1 && y % 2 == 1 then 1 else 0)
  }

  /** x | y */
  function Or(x: nat, y: nat): nat
    decreases x + y
  {
    if x == 0 then y
    else if y == 0 then x
    else 2 * Or(x / 2, y / 2) + (if x % 2 == 1 || y % 2 == 1 then 1 else 0)
  }

  /** x >> k (and Java's x >>> k) for x >= 0: k halvings, each dropping the low bit. */
  function ShiftRight(x: nat, k: nat): nat
  {
    if k == 0 then x else ShiftRight(x / 2, k - 1)
  }

  /** x << k for x >= 0 when the result stays below 2^31: k doublings. */
  function ShiftLeft(x: nat, k: nat): nat
  {
    if k == 0 then x else 2 * ShiftLeft(x, k - 1)
  }

  /**
   * x & m for any integer x (a JavaScript number or a sign-extended Java byte)
   * and a mask m below 256: in two's complement only the low eight bits of x
   * take part, and they are the bits of x mod 256.
   */
  function MaskByte(x: int, m: nat): (r: nat)
    requires m < 256
  {
    And(x % 256, m)
  }

  lemma {:induction false} MulAtLeast(a: int, d: int)
    requires a >= 1 && d >= 1
    ensures a * d >= d
  {
    if a > 1 {
      MulAtLeast(a - 1, d);
      assert a * d == (a - 1) * d + d;
    }
  }

  /** A multiple of d >= 1 by a non-zero factor is at least d away from zero. */
  lemma MulSign(e: int, d: int)
    requires d >= 1
    ensures e >= 1 ==> e * d >= d
    ensures e <= -1 ==> e * d <= -d
  {
    if e >= 1 {
      MulAtLeast(e, d);
    } else if e <= -1 {
      MulAtLeast(-e, d);
      assert (-e) * d == -(e * d);
    }
  }

  /** Quotient and remainder by d are unique. */
  lemma DivModUnique(x: nat, d: nat, q: nat, r: nat)
    requires d >= 1 && x == q * d + r && r < d
    ensures x / d == q && x % d == r
  {
    var q', r' := x / d, x % d;
    assert (q' - q) * d == r - r';
    MulSign(q' - q, d);
  }

  lemma ModUnique(x: nat, d: nat, q: nat, r: nat)
    requires d >= 1 && x == q * d + r && r < d
    ensures x % d == r
  {
    DivModUnique(x, d, q, r);
  }

  lemma DivUnique(x: nat, d: nat, q: nat, r: nat)
    requires d >= 1 && x == q * d + r && r < d
    ensures x / d == q
  {
    DivModUnique(x, d, q, r);
  }

  lemma DivDouble(x: nat, p: nat)
    requires p >= 1
    ensures x / (2 * p) == (x / 2) / p
  {
    var q, r := (x / 2) / p, (x / 2) % p;
    assert x / 2 == q * p + r;
    assert x == q * (2 * p) + (2 * r + x % 2);
    DivUnique(x, 2 * p, q, 2 * r + x % 2);
  }

  /** x >> k is x divided by 2^k. */
  lemma {:induction false} ShiftRightDiv(x: nat, k: nat)
    ensures ShiftRight(x, k) == x / Pow2(k)
  {
    if k != 0 {
      ShiftRightDiv(x / 2, k - 1);
      DivDouble(x, Pow2(k - 1));
    }
  }

  /** x << k is x times 2^k. */
  lemma {:induction false} ShiftLeftMul(x: nat, k: nat)
    ensures ShiftLeft(x, k) == x * Pow2(k)
  {
    if k != 0 {
      ShiftLeftMul(x, k - 1);
      var p := Pow2(k - 1);
      assert x * (2 * p) == 2 * (x * p);
    }
  }

  /** The shifts by 6 and 12 bits the codec uses. */
  lemma Shifts(x: nat)
    ensures ShiftRight(x, 6) == x / 64 && ShiftRight(x, 12) == x / 4096
    ensures ShiftLeft(x, 6) == x * 64 && ShiftLeft(x, 12) == x * 4096
  {
    ShiftRightDiv(x, 6);
    ShiftRightDiv(x, 12);
    ShiftLeftMul(x, 6);
    ShiftLeftMul(x, 12);
    assert Pow2(6) == 64 && Pow2(12) == 4096;
  }

  lemma ModDouble(x: nat, p: nat)
    requires p >= 1
    ensures x % (2 * p) == 2 * ((x / 2) % p) + x % 2
  {
    var q, r := (x / 2) / p, (x / 2) % p;
    assert x / 2 == q * p + r;
    assert x == q * (2 * p) + (2 * r + x % 2);
    ModUnique(x, 2 * p, q, 2 * r + x % 2);
  }

  lemma {:induction false} AndSelf(x: nat)
    ensures And(x, x) == x
  {
    if x != 0 {
      AndSelf(x / 2);
    }
  }

  /** Masking with k low one-bits keeps the remainder modulo 2^k. */
  lemma {:induction false} AndLowMask(x: nat, k: nat)
    ensures And(x, Pow2(k) - 1) == x % Pow2(k)
  {
    if k == 0 {
      assert Pow2(k) == 1 && And(x, 0) == 0;
    } else {
      var h, p := Pow2(k - 1), Pow2(k);
      assert p == 2 * h && h >= 1;
      AndLowMask(x / 2, k - 1);
      AndLowMaskStep(x, h, p);
    }
  }

  /** The step of AndLowMask: from the mask of h - 1 to the mask of 2h - 1. */
  lemma AndLowMaskStep(x: nat, h: nat, p: nat)
    requires h >= 1 && p == 2 * h && And(x / 2, h - 1) == (x / 2) % h
    ensures And(x, p - 1) == x % p
  {
    AndStep(x, p - 1);
    assert (p - 1) / 2 == h - 1;
    assert (p - 1) % 2 == 1;
    ModDouble(x, h);
  }

  /** The masks of low one-bits the codec uses. */
  lemma AndLowMasks(x: nat)
    ensures And(x, 15) == x % 16 && And(x, 31) == x % 32
    ensures And(x, 63) == x % 64 && And(x, 255) == x % 256
  {
    AndLowMask(x, 4);
    AndLowMask(x, 5);
    AndLowMask(x, 6);
    AndLowMask(x, 8);
    assert Pow2(4) == 16 && Pow2(5) == 32 && Pow2(6) == 64 && Pow2(8) == 256;
  }

  /** The masks of two and three low one-bits. */
  lemma AndLowMasksSmall(x: nat)
    ensures And(x, 3) == x % 4 && And(x, 7) == x % 8
  {
    AndLowMask(x, 2);
    AndLowMask(x, 3);
    assert Pow2(2) == 4 && Pow2(3) == 8;
  }

  /** On a value that already is a byte, MaskByte is plain `&`. */
  lemma MaskByteOfByte(x: nat, m: nat)
    requires x < 256 && m < 256
    ensures MaskByte(x, m) == And(x, m)
  {
    ModUnique(x, 256, 0, x);
  }

  /** x & 0xff for any integer x is x mod 256. */
  lemma MaskByteFF(x: int)
    ensures MaskByte(x, 0xFF) == x % 256
  {
    var y := x % 256;
    AndLowMask(y, 8);
    assert Pow2(8) == 256;
    ModUnique(y, 256, 0, y);
  }

  /**
   * `&` works on the bits at and above p = 2^k and on the bits below it
   * separately: for x = a * p + r and y = b * p + t with r, t below p.
   */
  lemma {:induction false} AndSplit(x: nat, y: nat, a: nat, b: nat, r: nat, t: nat, k: nat, p: nat)
    requires p == Pow2(k) && r < p && t < p && x == a * p + r && y == b * p + t
    ensures And(x, y) == And(a, b) * p + And(r, t)
  {
    if k == 0 {
      assert p == 1 && r == 0 && t == 0 && x == a && y == b;
      assert And(r, t) == 0;
    } else {
      var h := Pow2(k - 1);
      assert p == 2 * h && r / 2 < h && t / 2 < h;
      MulDouble(a, h, p);
      MulDouble(b, h, p);
      var x', y' := a * h + r / 2, b * h + t / 2;
      AndSplit(x', y', a, b, r / 2, t / 2, k - 1, h);
      AndSplitCombine(x, y, x', y', a, b, r, t, h, p);
    }
  }

  /** From the split at h to the split at p = 2h. */
  lemma AndSplitCombine(x: nat, y: nat, x': nat, y': nat, a: nat, b: nat, r: nat, t: nat, h: nat, p: nat)
    requires p == 2 * h && x == a * p + r && y == b * p + t
    requires x' == a * h + r / 2 && y' == b * h + t / 2
    requires And(x', y') == And(a, b) * h + And(r / 2, t / 2)
    ensures And(x, y) == And(a, b) * p + And(r, t)
  {
    var c := And(a, b);
    MulDouble(a, h, p);
    MulDouble(b, h, p);
    MulDouble(c, h, p);
    AndSplitStep(x, y, x', y', r, t, c * h);
  }

  lemma MulDouble(a: nat, h: nat, p: nat)
    requires p == 2 * h
    ensures a * p == 2 * (a * h) && a * h >= 0
  {
  }

  /** The step of AndSplit: the low bit, then the rest shifted down by one. */
  lemma AndSplitStep(x: nat, y: nat, x': nat, y': nat, r: nat, t: nat, c: nat)
    requires x == 2 * (x' - r / 2) + r && y == 2 * (y' - t / 2) + t
    requires x' >= r / 2 && y' >= t / 2
    requires And(x', y') == c + And(r / 2, t / 2)
    ensures And(x, y) == 2 * c + And(r, t)
  {
    AndStep(x, y);
    AndStep(r, t);
    assert x / 2 == x' && x % 2 == r % 2;
    assert y / 2 == y' && y % 2 == t % 2;
  }

  /** A result of `&` never exceeds either operand. */
  lemma {:induction false} AndLe(x: nat, y: nat)
    ensures And(x, y) <= x && And(x, y) <= y
    decreases x
  {
    if x != 0 && y != 0 {
      AndLe(x / 2, y / 2);
    }
  }

  /** The defining step of `&`, also when an operand is zero. */
  lemma AndStep(x: nat, y: nat)
    ensures And(x, y) == 2 * And(x / 2, y / 2) + (if x % 2 == 1 && y % 2 == 1 then 1 else 0)
  {
    if x == 0 || y == 0 {
      assert And(x / 2, y / 2) == 0;
    }
  }

  lemma {:induction false} OrComm(x: nat, y: nat)
    ensures Or(x, y) == Or(y, x)
    decreases x + y
  {
    if x != 0 && y != 0 {
      OrComm(x / 2, y / 2);
    }
  }

  /** `|` of a multiple of 2^k and a number below 2^k is their sum. */
  lemma {:induction false} OrDisjoint(a: nat, y: nat, k: nat)
    requires y < Pow2(k)
    ensures Or(a * Pow2(k), y) == a * Pow2(k) + y
    ensures Or(y, a * Pow2(k)) == a * Pow2(k) + y
  {
    if k != 0 {
      var x' := a * Pow2(k - 1);
      assert a * Pow2(k) == 2 * x';
      OrDisjoint(a, y / 2, k - 1);
      OrDisjointStep(a * Pow2(k), y, x');
    }
    OrComm(a * Pow2(k), y);
  }

  /** OrDisjoint for x = a * p with p = 2^k given by value. */
  lemma OrOfDisjoint(x: nat, y: nat, a: nat, k: nat, p: nat)
    requires p == Pow2(k) && x == a * p && y < p
    ensures Or(x, y) == x + y && Or(y, x) == x + y
  {
    OrDisjoint(a, y, k);
  }

  /** The step of OrDisjoint: an even x adds no low bit of its own. */
  lemma OrDisjointStep(x: nat, y: nat, x': nat)
    requires x == 2 * x' && Or(x', y / 2) == x' + y / 2
    ensures Or(x, y) == x + y
  {
    if x != 0 && y != 0 {
      assert x / 2 == x' && x % 2 == 0;
    }
  }
}
