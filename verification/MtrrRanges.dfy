/** Which addresses a variable-range register covers, digit by digit and as an interval, and what a list of
    registers makes of an address (section 11.11.3 of Intel SDM Volume 3A; src/shv-ept.c).
 */
module MtrrRanges {
  import opened Bitfield
  import opened Mtrr

  /** The register is valid, and base and address agree wherever the mask has a digit. */
  ghost predicate Covers(r: Range, addr: u64) {
    && Bit(r.mask, 11)
    && forall i: nat :: 12 <= i && Bit(r.mask, i) ==> (Bit(r.base, i) <==> Bit(addr, i))
  }

  /** The test of the loop is agreement at the digits of the mask. */
  lemma MatchesIffCovers(r: Range, addr: u64)
    ensures Matches(r, addr) <==> Covers(r, addr)
  {
    hide And, Bit, Not;
    ValidDigit(r.mask);
    var m := And(r.mask, Not(0xFFF));
    var x, y := And(addr, m), And(And(r.base, Not(0xFFF)), m);
    forall i: nat
      ensures Bit(x, i) <==> 12 <= i && Bit(addr, i) && Bit(r.mask, i)
      ensures Bit(y, i) <==> 12 <= i && Bit(r.base, i) && Bit(r.mask, i)
    {
      AndBit(addr, m, i);
      AndBit(And(r.base, Not(0xFFF)), m, i);
      AndBit(r.base, Not(0xFFF), i);
      AndBit(r.mask, Not(0xFFF), i);
      PageMaskBit(i);
      WordBits(r.mask, i);
    }
    if x != y && forall i: nat :: 12 <= i && Bit(r.mask, i) ==> (Bit(r.base, i) <==> Bit(addr, i)) {
      SameBits(x, y);
    } else if x == y {
      forall i: nat | 12 <= i && Bit(r.mask, i)
        ensures Bit(r.base, i) <==> Bit(addr, i)
      {
        assert Bit(x, i) <==> Bit(y, i);
      }
    }
  }

  lemma PageMaskBit(i: nat)
    ensures Bit(Not(0xFFF), i) <==> 12 <= i < 64
  {
    var w := 12;
    LowMaskBit(w, i);
    assert Pow2(w) == 0x1000;
    NotBit(0xFFF, i);
  }

  lemma ValidDigit(mask: u64)
    ensures And(mask, 0x800) != 0 <==> Bit(mask, 11)
  {
    hide And;
    var w := 11;
    assert Pow2(w) == 0x800;
    forall i: nat
      ensures Bit(And(mask, 0x800), i) <==> i == w && Bit(mask, w)
    {
      AndBit(mask, 0x800, i);
      Pow2Bit(w, i);
      ZeroBits(i);
    }
    if !Bit(mask, w) {
      forall i: nat ensures Bit(And(mask, 0x800), i) <==> Bit(0, i) { ZeroBits(i); }
      SameBits(And(mask, 0x800), 0);
    } else {
      assert Bit(And(mask, 0x800), w);
      ZeroBits(w);
    }
  }

  /** The type is the low byte of the base. */
  lemma TypeIsLowByte(r: Range)
    ensures TypeOf(r) == r.base % 0x100
  {
    hide And;
    var w := 8;
    assert Pow2(w) == 0x100;
    forall i: nat
      ensures Bit(And(r.base, 0xFF), i) <==> Bit(r.base % Pow2(w), i)
    {
      AndBit(r.base, 0xFF, i);
      LowMaskBit(w, i);
      ModBit(r.base, w, i);
    }
    SameBits(And(r.base, 0xFF), r.base % Pow2(w));
  }

  // ----- registers that describe an interval -----

  /** The base address without the type in its low digits. */
  function BaseOf(r: Range): nat {
    r.base - r.base % 0x1000
  }

  /** The mask has the digits from `k` to `m` and the valid digit, so the register stands for the 2^k bytes from
      its base. */
  ghost predicate IsInterval(r: Range, k: nat, m: nat) {
    && 12 <= k <= m < 64 && Bit(r.mask, 11)
    && (forall i: nat :: 12 <= i ==> (Bit(r.mask, i) <==> k <= i <= m))
    && BaseOf(r) % Pow2(k) == 0 && BaseOf(r) < Pow2(m + 1)
  }

  lemma BaseBit(r: Range, i: nat)
    requires 12 <= i
    ensures Bit(BaseOf(r), i) <==> Bit(r.base, i)
  {
    var w := 12;
    assert Pow2(w) == 0x1000;
    var q := r.base / 0x1000;
    ModUnique(BaseOf(r), 0x1000, q, 0);
    ShrValue(r.base, w);
    ShrValue(BaseOf(r), w);
    ShrBit(r.base, w, i - w);
    ShrBit(BaseOf(r), w, i - w);
  }

  /** An address below 2^(m + 1) is covered iff it lies in the interval. */
  lemma CoversInterval(r: Range, k: nat, m: nat, addr: u64)
    requires IsInterval(r, k, m) && addr < Pow2(m + 1)
    ensures Covers(r, addr) <==> BaseOf(r) <= addr < BaseOf(r) + Pow2(k)
  {
    hide Bit, Pow2, Shr;
    var b, p := BaseOf(r), Pow2(k);
    ShrValue(addr, k);
    ShrValue(b, k);
    assert b == b / p * p;
    if Covers(r, addr) {
      forall i: nat
        ensures Bit(Shr(addr, k), i) <==> Bit(Shr(b, k), i)
      {
        ShrBit(addr, k, i);
        ShrBit(b, k, i);
        BaseBit(r, i + k);
        if i + k > m {
          HighBits(addr, m + 1, i + k);
          HighBits(b, m + 1, i + k);
        }
      }
      SameBits(Shr(addr, k), Shr(b, k));
    } else if b <= addr < b + p {
      ModUnique(addr, p, b / p, addr - b);
      forall i: nat | 12 <= i && Bit(r.mask, i)
        ensures Bit(r.base, i) <==> Bit(addr, i)
      {
        ShrBit(addr, k, i - k);
        ShrBit(b, k, i - k);
        BaseBit(r, i);
      }
    }
  }

  // ----- lists of registers -----

  /** The types that the covering registers declare, in order. */
  ghost function Declaring(rs: seq<Range>, addr: u64): (r: seq<nat>)
    ensures forall t: nat :: t in r <==> exists i :: 0 <= i < |rs| && Covers(rs[i], addr) && rs[i].base % 0x100 == t
  {
    if rs == [] then []
    else
      var n := |rs| - 1;
      Declaring(rs[..n], addr) + if Covers(rs[n], addr) then [rs[n].base % 0x100] else []
  }

  lemma {:induction false} MatchingIsDeclaring(rs: seq<Range>, addr: u64)
    ensures Matching(rs, addr) == Declaring(rs, addr)
  {
    hide Matches, Covers, TypeOf;
    if rs == [] {
    } else {
      var n := |rs| - 1;
      MatchingIsDeclaring(rs[..n], addr);
      MatchesIffCovers(rs[n], addr);
      TypeIsLowByte(rs[n]);
    }
  }

  /** Any registers, any address: halt exactly when incompatible types come before the first UC; the default
      when no register covers the address; else the type of highest precedence among those declared. */
  lemma RegistersMean(rs: seq<Range>, addr: u64, dflt: nat)
    ensures var ts := Effective(Declaring(rs, addr));
      var r := MemType(true, rs, addr, dflt);
      && (r.Halt? <==> !Compatible(BeforeUncached(ts)))
      && (ts == [] ==> r == Type(dflt))
      && (ts != [] && r.Type? ==> Precedence(ts, r.t))
  {
    hide Fold, Matching, Declaring, Compatible;
    MatchingIsDeclaring(rs, addr);
    var ts := Effective(Declaring(rs, addr));
    FoldMeans(Declaring(rs, addr));
    var f := Fold(Declaring(rs, addr));
    if ts != [] && f == Type(RESV) {
      BeforeLast(ts, UC);
      if UC !in ts { NoReserved(ts); }
    }
  }

  /** No register covers the address: the default. */
  lemma Uncovered(rs: seq<Range>, addr: u64, dflt: nat)
    requires forall i :: 0 <= i < |rs| ==> !Covers(rs[i], addr)
    ensures MemType(true, rs, addr, dflt) == Type(dflt)
  {
    hide Covers;
    NoneDeclared(rs, addr);
    RegistersMean(rs, addr, dflt);
  }

  lemma {:induction false} NoneDeclared(rs: seq<Range>, addr: u64)
    requires forall i :: 0 <= i < |rs| ==> !Covers(rs[i], addr)
    ensures Declaring(rs, addr) == []
  {
    hide Covers;
    if rs == [] {
    } else {
      NoneDeclared(rs[..|rs| - 1], addr);
    }
  }

  /** The covering registers declare one type: that type. */
  lemma OneTypeCovers(rs: seq<Range>, addr: u64, dflt: nat, k: nat, t: nat)
    requires k < |rs| && Covers(rs[k], addr) && t != RESV
    requires forall i :: 0 <= i < |rs| && Covers(rs[i], addr) ==> rs[i].base % 0x100 == t
    ensures MemType(true, rs, addr, dflt) == Type(t)
  {
    hide Covers, MemType, Declaring;
    var ds := Declaring(rs, addr);
    var ts := Effective(ds);
    assert rs[k].base % 0x100 == t && t in ds && t in ts;
    assert Only(ts, t);
    BeforeLast(ts, UC);
    assert Only(BeforeUncached(ts), t);
    RegistersMean(rs, addr, dflt);
  }

  /** One register and any mask. */
  lemma OneRegister(r: Range, addr: u64, dflt: nat)
    ensures MemType(true, [r], addr, dflt) ==
      Type(if Covers(r, addr) && r.base % 0x100 != RESV then r.base % 0x100 else dflt)
  {
    hide Covers, MemType;
    if !Covers(r, addr) {
      Uncovered([r], addr, dflt);
    } else if r.base % 0x100 != RESV {
      OneTypeCovers([r], addr, dflt, 0, r.base % 0x100);
    } else {
      RegistersMean([r], addr, dflt);
      assert [r][..0] == [];
      assert Declaring([r], addr) == [RESV];
    }
  }

  /** One register that describes an interval: its type there, and the default elsewhere. */
  lemma OneInterval(r: Range, k: nat, m: nat, addr: u64, dflt: nat)
    requires IsInterval(r, k, m) && addr < Pow2(m + 1) && r.base % 0x100 != RESV
    ensures MemType(true, [r], addr, dflt) ==
      Type(if BaseOf(r) <= addr < BaseOf(r) + Pow2(k) then r.base % 0x100 else dflt)
  {
    hide Covers, MemType, Pow2;
    OneRegister(r, addr, dflt);
    CoversInterval(r, k, m, addr);
  }
}
