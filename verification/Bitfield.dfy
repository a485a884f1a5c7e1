/** Bit fields of 64-bit words (include/bitfield.h).

    A 64-bit word is a number below 2^64.  The C operators are defined one binary digit at a time,
    so that `Bit` (binary digit `i` of a word) determines each of them, and all laws about fields
    are proved through `SameBits`: two words with the same digits are the same word.
 */
module Bitfield {

  type u64 = x: int | 0 <= x < 0x1_0000_0000_0000_0000

  const U64_MAX: u64 := 0xFFFF_FFFF_FFFF_FFFF

  function Pow2(n: nat): (r: nat)
    ensures r >= 1
  {
    if n == 0 then 1 else 2 * Pow2(n - 1)
  }

  /** Binary digit `i` of `x`. */
  predicate Bit(x: nat, i: nat)
    decreases i, x
  {
    if i == 0 then x % 2 == 1 else Bit(x / 2, i - 1)
  }

  // ----- the C operators on words -----

  function And(x: nat, y: nat): (r: nat)
    ensures r <= x && r <= y
    decreases x, y
  {
    if x == 0 || y == 0 then 0
    else 2 * And(x / 2, y / 2) + if x % 2 == 1 && y % 2 == 1 then 1 else 0
  }

  function Or(x: nat, y: nat): (r: nat)
    ensures x <= r && y <= r
    decreases x, y
  {
    if x == 0 then y
    else if y == 0 then x
    else 2 * Or(x / 2, y / 2) + if x % 2 == 1 || y % 2 == 1 then 1 else 0
  }

  function Not(x: u64): u64 {
    U64_MAX - x
  }

  /** `x << n`: `n` doublings, each losing the digit that leaves the word. */
  function Shl(x: u64, n: nat): u64
    decreases n, x
  {
    if n == 0 then x else Shl(2 * x % 0x1_0000_0000_0000_0000, n - 1)
  }

  function Shr(x: nat, n: nat): (r: nat)
    ensures r <= x
    decreases n, x
  {
    if n == 0 then x else Shr(x / 2, n - 1)
  }

  // ----- include/bitfield.h -----

  function ZeroHi(x: u64, bits: nat): u64 {
    Shr(Shl(x, bits), bits)
  }

  function ZeroLo(x: u64, bits: nat): u64 {
    Shl(Shr(x, bits), bits)
  }

  function MaskRange(hi: nat, lo: nat): u64
    requires lo <= hi < 64
  {
    ZeroLo(ZeroHi(U64_MAX, 64 - hi - 1), lo)
  }

  function GetHL(x: u64, hi: nat, lo: nat): u64
    requires lo <= hi < 64
  {
    Shr(ZeroHi(x, 63 - hi), lo)
  }

  /** The C function asserts that the value fits the field, which `FitsField` turns into a bound. */
  function SetHL(x: u64, hi: nat, lo: nat, v: u64): u64
    requires lo <= hi < 64
    requires ZeroHi(v, 63 - (hi - lo)) == v
  {
    Or64(And(x, Not(MaskRange(hi, lo))), Shl(v, lo))
  }

  function GetBit(x: u64, pos: nat): bool
    requires pos < 64
  {
    Shr(And(x, MaskRange(pos, pos)), pos) != 0
  }

  function SetBit(x: u64, pos: nat, val: bool): u64
    requires pos < 64
  {
    Or64(And(x, Not(Shl(1, pos))), Shl(if val then 1 else 0, pos))
  }

  /** Copies field [hi, lo] of `src` into `dst`, moved up by `up` places. */
  function CopyBits(dst: u64, src: u64, hi: nat, lo: nat, up: nat): u64
    requires lo <= hi && hi + up < 64
  {
    GetHLFits(src, hi, lo);
    SetHL(dst, hi + up, lo + up, GetHL(src, hi, lo))
  }

  function Or64(x: u64, y: u64): u64 {
    var w := 64;
    WordSize(w);
    OrBound(x, y, w);
    Or(x, y)
  }

  // ----- digits of the operators -----

  lemma {:induction false} Pow2Add(a: nat, b: nat)
    ensures Pow2(a + b) == Pow2(a) * Pow2(b)
    decreases a
  {
    if a == 0 {
    } else {
      Pow2Add(a - 1, b);
    }
  }

  lemma WordSize(w: nat)
    requires w == 64
    ensures Pow2(w) == 0x1_0000_0000_0000_0000
  {
    var n := w / 8;
    assert Pow2(n) == 256;
    Pow2Add(n, n);
    Pow2Add(2 * n, 2 * n);
    Pow2Add(4 * n, 4 * n);
  }

  lemma {:induction false} OrBound(x: nat, y: nat, n: nat)
    requires x < Pow2(n) && y < Pow2(n)
    ensures Or(x, y) < Pow2(n)
    decreases n
  {
    if n == 0 {
    } else {
      OrBound(x / 2, y / 2, n - 1);
    }
  }

  lemma {:induction false} ZeroBits(i: nat)
    ensures !Bit(0, i)
    decreases i
  {
    if i == 0 {
    } else {
      ZeroBits(i - 1);
    }
  }

  lemma {:induction false} AndBit(x: nat, y: nat, i: nat)
    ensures Bit(And(x, y), i) <==> Bit(x, i) && Bit(y, i)
    decreases i
  {
    if x == 0 || y == 0 {
      ZeroBits(i);
    } else if i > 0 {
      AndBit(x / 2, y / 2, i - 1);
    }
  }

  lemma {:induction false} OrBit(x: nat, y: nat, i: nat)
    ensures Bit(Or(x, y), i) <==> Bit(x, i) || Bit(y, i)
    decreases i
  {
    if x == 0 || y == 0 {
      ZeroBits(i);
    } else if i > 0 {
      OrBit(x / 2, y / 2, i - 1);
    }
  }

  lemma {:induction false} ShrBit(x: nat, n: nat, i: nat)
    ensures Bit(Shr(x, n), i) <==> Bit(x, i + n)
    decreases n
  {
    if n == 0 {
    } else {
      ShrBit(x / 2, n - 1, i);
    }
  }

  /** A number below 2^w has no digit from place `w` on. */
  lemma {:induction false} HighBits(x: nat, w: nat, i: nat)
    requires x < Pow2(w) && w <= i
    ensures !Bit(x, i)
    decreases i
  {
    if w == 0 { ZeroBits(i); } else { HighBits(x / 2, w - 1, i - 1); }
  }

  lemma WordBits(x: u64, i: nat)
    ensures i >= 64 ==> !Bit(x, i)
  {
    var w := 64;
    WordSize(w);
    if i >= w { HighBits(x, w, i); }
  }

  lemma {:induction false} ModBit(x: nat, w: nat, i: nat)
    ensures Bit(x % Pow2(w), i) <==> i < w && Bit(x, i)
    decreases w
  {
    if w == 0 {
      ZeroBits(i);
    } else {
      ModHalf(x, Pow2(w - 1));
      if i > 0 { ModBit(x / 2, w - 1, i - 1); }
    }
  }

  lemma ModHalf(x: nat, p: nat)
    requires p >= 1
    ensures x % (2 * p) / 2 == x / 2 % p
    ensures x % (2 * p) % 2 == x % 2
  {
    var q, r := x / 2 / p, x / 2 % p;
    assert x == 2 * (q * p + r) + x % 2;
    ModUnique(x, 2 * p, q, 2 * r + x % 2);
  }

  lemma ModUnique(x: nat, m: nat, q: nat, r: nat)
    requires r < m && x == q * m + r
    ensures x / m == q && x % m == r
  {
    var q', r' := x / m, x % m;
    assert x == q' * m + r';
    assert (q - q') * m == r' - r;
    if q' < q { MulAtLeast(q - q', m); } else if q < q' { MulAtLeast(q' - q, m); }
  }

  lemma MulOrder(x: nat, y: nat, n: nat)
    ensures x <= y ==> x * n <= y * n && n * x <= n * y
  {
  }

  lemma MulAtLeast(a: nat, m: nat)
    requires a >= 1
    ensures a * m >= m
  {
  }

  lemma DoubleBit(x: u64, i: nat)
    requires i < 64
    ensures Bit(2 * x % 0x1_0000_0000_0000_0000, i) <==> i > 0 && Bit(x, i - 1)
  {
    var w := 64;
    WordSize(w);
    ModBit(2 * x, w, i);
    assert 2 * x / 2 == x;
  }

  lemma {:induction false} ShlBit(x: u64, n: nat, i: nat)
    ensures Bit(Shl(x, n), i) <==> n <= i < 64 && Bit(x, i - n)
    decreases n
  {
    if n == 0 {
      WordBits(x, i);
    } else {
      var y := 2 * x % 0x1_0000_0000_0000_0000;
      ShlBit(y, n - 1, i);
      if n - 1 <= i < 64 {
        DoubleBit(x, i - (n - 1));
      }
    }
  }

  lemma {:induction false} ComplementBit(x: nat, w: nat, i: nat)
    requires x < Pow2(w)
    ensures Bit(Pow2(w) - 1 - x, i) <==> i < w && !Bit(x, i)
    decreases w
  {
    var y := Pow2(w) - 1 - x;
    if w == 0 {
      ZeroBits(i);
    } else {
      assert y / 2 == Pow2(w - 1) - 1 - x / 2;
      if i > 0 { ComplementBit(x / 2, w - 1, i - 1); }
    }
  }

  lemma {:induction false} Pow2Bit(w: nat, i: nat)
    ensures Bit(Pow2(w), i) <==> i == w
  {
    if w == 0 {
      if i > 0 { HighBits(1, 1, i); }
    } else if i > 0 {
      Pow2Bit(w - 1, i - 1);
      assert Pow2(w) / 2 == Pow2(w - 1);
    }
  }

  /** The word with digits below `w` only. */
  lemma LowMaskBit(w: nat, i: nat)
    ensures Bit(Pow2(w) - 1, i) <==> i < w
  {
    ComplementBit(0, w, i);
    ZeroBits(i);
  }

  lemma NotBit(x: u64, i: nat)
    ensures Bit(Not(x), i) <==> i < 64 && !Bit(x, i)
  {
    var w := 64;
    WordSize(w);
    ComplementBit(x, w, i);
  }

  /** Words are determined by their digits. */
  lemma {:induction false} SameBits(x: nat, y: nat)
    requires forall i: nat :: Bit(x, i) <==> Bit(y, i)
    ensures x == y
    decreases x + y
  {
    if x + y == 0 {
    } else {
      assert Bit(x, 0) <==> Bit(y, 0);
      forall i: nat
        ensures Bit(x / 2, i) <==> Bit(y / 2, i)
      {
        assert Bit(x, i + 1) <==> Bit(y, i + 1);
      }
      SameBits(x / 2, y / 2);
    }
  }

  // ----- digits of the fields -----

  lemma ZeroHiBit(x: u64, bits: nat, i: nat)
    requires bits <= 64
    ensures Bit(ZeroHi(x, bits), i) <==> i < 64 - bits && Bit(x, i)
  {
    ShrBit(Shl(x, bits), bits, i);
    ShlBit(x, bits, i + bits);
  }

  lemma MaskRangeBit(hi: nat, lo: nat, i: nat)
    requires lo <= hi < 64
    ensures Bit(MaskRange(hi, lo), i) <==> lo <= i <= hi
  {
    var m := ZeroHi(U64_MAX, 63 - hi);
    ShlBit(Shr(m, lo), lo, i);
    if lo <= i {
      ShrBit(m, lo, i - lo);
      ZeroHiBit(U64_MAX, 63 - hi, i);
      NotBit(0, i);
      ZeroBits(i);
    }
  }

  /** A field read keeps digits lo..hi, moved down to place 0. */
  lemma GetHLBit(x: u64, hi: nat, lo: nat, i: nat)
    requires lo <= hi < 64
    ensures Bit(GetHL(x, hi, lo), i) <==> i <= hi - lo && Bit(x, lo + i)
  {
    ShrBit(ZeroHi(x, 63 - hi), lo, i);
    ZeroHiBit(x, 63 - hi, lo + i);
  }

  /** A field write replaces digits lo..hi and no other. */
  lemma SetHLBit(x: u64, hi: nat, lo: nat, v: u64, i: nat)
    requires lo <= hi < 64 && ZeroHi(v, 63 - (hi - lo)) == v
    ensures Bit(SetHL(x, hi, lo, v), i) <==> if lo <= i <= hi then Bit(v, i - lo) else Bit(x, i)
  {
    var m := MaskRange(hi, lo);
    OrBit(And(x, Not(m)), Shl(v, lo), i);
    AndBit(x, Not(m), i);
    NotBit(m, i);
    MaskRangeBit(hi, lo, i);
    ShlBit(v, lo, i);
    WordBits(x, i);
    if lo <= i { ZeroHiBit(v, 63 - (hi - lo), i - lo); }
  }

  lemma GetHLFits(x: u64, hi: nat, lo: nat)
    requires lo <= hi < 64
    ensures ZeroHi(GetHL(x, hi, lo), 63 - (hi - lo)) == GetHL(x, hi, lo)
  {
    var v := GetHL(x, hi, lo);
    forall i: nat
      ensures Bit(ZeroHi(v, 63 - (hi - lo)), i) <==> Bit(v, i)
    {
      ZeroHiBit(v, 63 - (hi - lo), i);
      GetHLBit(x, hi, lo, i);
    }
    SameBits(ZeroHi(v, 63 - (hi - lo)), v);
  }

  /** The assertion of BR64_SET_HL says that the value is below 2 to the width of the field. */
  lemma FitsField(v: u64, hi: nat, lo: nat)
    requires lo <= hi < 64
    ensures ZeroHi(v, 63 - (hi - lo)) == v <==> v < Pow2(hi - lo + 1)
  {
    ZeroHiValue(v, hi - lo + 1);
    if v < Pow2(hi - lo + 1) { ModUnique(v, Pow2(hi - lo + 1), 0, v); }
  }

  lemma ZeroHiValue(x: u64, w: nat)
    requires w <= 64
    ensures ZeroHi(x, 64 - w) == x % Pow2(w)
  {
    forall i: nat
      ensures Bit(ZeroHi(x, 64 - w), i) <==> Bit(x % Pow2(w), i)
    {
      ZeroHiBit(x, 64 - w, i);
      ModBit(x, w, i);
    }
    SameBits(ZeroHi(x, 64 - w), x % Pow2(w));
  }

  // ----- the laws of a field -----

  /** What was written is read back. */
  lemma GetAfterSet(x: u64, hi: nat, lo: nat, v: u64)
    requires lo <= hi < 64 && ZeroHi(v, 63 - (hi - lo)) == v
    ensures GetHL(SetHL(x, hi, lo, v), hi, lo) == v
  {
    var y := SetHL(x, hi, lo, v);
    forall i: nat
      ensures Bit(GetHL(y, hi, lo), i) <==> Bit(v, i)
    {
      GetHLBit(y, hi, lo, i);
      SetHLBit(x, hi, lo, v, lo + i);
      ZeroHiBit(v, 63 - (hi - lo), i);
    }
    SameBits(GetHL(y, hi, lo), v);
  }

  /** A field depends on its own digits only. */
  lemma GetAgrees(x: u64, y: u64, hi: nat, lo: nat)
    requires lo <= hi < 64
    requires forall i: nat | lo <= i <= hi :: Bit(x, i) <==> Bit(y, i)
    ensures GetHL(x, hi, lo) == GetHL(y, hi, lo)
  {
    forall i: nat
      ensures Bit(GetHL(x, hi, lo), i) <==> Bit(GetHL(y, hi, lo), i)
    {
      GetHLBit(x, hi, lo, i);
      GetHLBit(y, hi, lo, i);
    }
    SameBits(GetHL(x, hi, lo), GetHL(y, hi, lo));
  }

  lemma GetBitIsBit(x: u64, pos: nat)
    requires pos < 64
    ensures GetBit(x, pos) == Bit(x, pos)
  {
    var m := And(x, MaskRange(pos, pos));
    forall i: nat
      ensures Bit(Shr(m, pos), i) <==> i == 0 && Bit(x, pos)
    {
      ShrBit(m, pos, i);
      AndBit(x, MaskRange(pos, pos), i + pos);
      MaskRangeBit(pos, pos, i + pos);
    }
    if Bit(x, pos) {
      assert Bit(Shr(m, pos), 0);
      ZeroBits(0);
    } else {
      forall i: nat ensures Bit(Shr(m, pos), i) <==> Bit(0, i) { ZeroBits(i); }
      SameBits(Shr(m, pos), 0);
    }
  }

  lemma SetBitBit(x: u64, pos: nat, val: bool, i: nat)
    requires pos < 64
    ensures Bit(SetBit(x, pos, val), i) <==> if i == pos then val else Bit(x, i)
  {
    var b := if val then 1 else 0;
    OrBit(And(x, Not(Shl(1, pos))), Shl(b, pos), i);
    AndBit(x, Not(Shl(1, pos)), i);
    NotBit(Shl(1, pos), i);
    ShlBit(1, pos, i);
    ShlBit(b, pos, i);
    WordBits(x, i);
    if pos < i { HighBits(1, 1, i - pos); ZeroBits(i - pos); }
  }

  // ----- arithmetic meaning -----

  lemma {:induction false} ShrValue(x: nat, n: nat)
    ensures Shr(x, n) == x / Pow2(n)
    decreases n
  {
    if n == 0 {
    } else {
      ShrValue(x / 2, n - 1);
      DivDiv(x, 2, Pow2(n - 1), Pow2(n));
    }
  }

  /** Division with remainder by `a`, then by `b`, is division by the product `ab`. */
  lemma Regrouped(x: nat, a: nat, b: nat, ab: nat, y: nat, q: nat, r: nat, s: nat)
    requires x == a * y + s && y == q * b + r && ab == a * b && r < b && s < a
    ensures x == q * ab + (a * r + s) && a * r + s < ab
  {
    Regroup(a, b, q, r, s);
  }

  lemma DivDiv(x: nat, a: nat, b: nat, ab: nat)
    requires a >= 1 && b >= 1 && ab >= 1 && ab == a * b
    ensures x / a / b == x / ab
  {
    var y, s := x / a, x % a;
    var q, r := y / b, y % b;
    Regrouped(x, a, b, ab, y, q, r, s);
    ModUnique(x, ab, q, a * r + s);
  }

  lemma Regroup(a: nat, m: nat, q: nat, r: nat, s: nat)
    requires r < m && s < a
    ensures a * (q * m + r) + s == q * (a * m) + (a * r + s)
    ensures a * r + s < a * m
  {
    assert a * (q * m) == q * (a * m);
    MulAtLeast(m - r, a);
    assert a * m == a * r + (m - r) * a;
  }

  lemma ModDiv(x: nat, a: nat, m: nat, am: nat)
    requires a >= 1 && m >= 1 && am >= 1 && am == a * m
    ensures x % am / a == x / a % m
  {
    var y, s := x / a, x % a;
    var q, r := y / m, y % m;
    Regrouped(x, a, m, am, y, q, r, s);
    var low := a * r + s;
    ModUnique(x, am, q, low);
    ModUnique(low, a, r, s);
  }

  lemma ModMod(y: nat, n: nat, k: nat, nk: nat)
    requires n >= 1 && k >= 1 && nk >= 1 && nk == n * k
    ensures y % nk % n == y % n
  {
    var q, r := y / nk, y % nk;
    var c, d := r / n, r % n;
    Regroup(n, k, q, 0, 0);
    assert q * nk == (q * k) * n;
    var e := q * k + c;
    assert e * n == (q * k) * n + c * n;
    ModUnique(y, n, e, d);
  }

  /** The field [hi, lo] as quotient and remainder. */
  lemma GetHLValue(x: u64, hi: nat, lo: nat)
    requires lo <= hi < 64
    ensures GetHL(x, hi, lo) == x / Pow2(lo) % Pow2(hi - lo + 1)
  {
    ShrValue(x, lo);
    forall i: nat
      ensures Bit(GetHL(x, hi, lo), i) <==> Bit(Shr(x, lo) % Pow2(hi - lo + 1), i)
    {
      GetHLBit(x, hi, lo, i);
      ModBit(Shr(x, lo), hi - lo + 1, i);
      ShrBit(x, lo, i);
    }
    SameBits(GetHL(x, hi, lo), Shr(x, lo) % Pow2(hi - lo + 1));
  }

  /** Or-ing small flags into a word whose low digits are clear is addition. */
  lemma {:induction false} OrLow(x: nat, y: nat, n: nat)
    requires x % Pow2(n) == 0 && y < Pow2(n)
    ensures Or(y, x) == x + y
    decreases n
  {
    if n > 0 && x > 0 && y > 0 {
      ModHalf(x, Pow2(n - 1));
      OrLow(x / 2, y / 2, n - 1);
    }
  }
}
