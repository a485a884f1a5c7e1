/** Entries written as flags | address, as src/paging.c and src/shv-user.c write them. */
module FlaggedEntries {
  import opened Bitfield
  import opened Hpt
  import opened PageWalk
  import opened FlatTables

  lemma {:induction false} LowDigit(x: nat, i: nat)
    requires i < 8
    ensures Bit(x, i) <==> x / [1, 2, 4, 8, 16, 32, 64, 128][i] % 2 == 1
    decreases i
  {
    if i == 0 {
    } else {
      LowDigit(x / 2, i - 1);
      var p := [1, 2, 4, 8, 16, 32, 64, 128][i - 1];
      DivDiv(x, 2, p, 2 * p);
    }
  }

  /** Digits of the flag words. */
  lemma FlagDigits(i: nat)
    ensures Bit(0x1, i) <==> i == 0
    ensures Bit(0x3, i) <==> i <= 1
    ensures Bit(0x7, i) <==> i <= 2
    ensures Bit(0x60, i) <==> i == 5 || i == 6
    ensures Bit(0x63, i) <==> i <= 1 || i == 5 || i == 6
    ensures Bit(0x83, i) <==> i <= 1 || i == 7
    ensures Bit(0xE3, i) <==> i <= 1 || 5 <= i <= 7
  {
    var w := 8;
    if i >= w {
      HighBits(0x1, w, i); HighBits(0x3, w, i); HighBits(0x7, w, i); HighBits(0x60, w, i);
      HighBits(0x63, w, i); HighBits(0x83, w, i); HighBits(0xE3, w, i);
    } else {
      LowDigit(0x1, i); LowDigit(0x3, i); LowDigit(0x7, i); LowDigit(0x60, i);
      LowDigit(0x63, i); LowDigit(0x83, i); LowDigit(0xE3, i);
    }
  }

  /** Apart from the accessed and dirty digits, which the processor sets, `e` is flags | address. */
  ghost predicate Flagged(e: u64, flags: nat, a: u64) {
    flags < 0x1000 && a % 0x1000 == 0 &&
    forall i: nat | i != 5 && i != 6 :: Bit(e, i) <==> if i < 12 then Bit(flags, i) else Bit(a, i)
  }

  lemma AlignedDigits(a: u64, w: nat, i: nat)
    requires a % Pow2(w) == 0 && i < w
    ensures !Bit(a, i)
  {
    ModBit(a, w, i);
    ZeroBits(i);
  }

  lemma OrIsFlagged(flags: nat, a: u64)
    requires flags < 0x1000 && a % 0x1000 == 0
    ensures Flagged(Or64(flags, a), flags, a)
  {
    hide Bit, Or;
    var w := 12;
    Pow2Is(w);
    forall i: nat
      ensures Bit(Or64(flags, a), i) <==> if i < w then Bit(flags, i) else Bit(a, i)
    {
      OrBit(flags, a, i);
      if i < w { AlignedDigits(a, w, i); } else { HighBits(flags, w, i); }
    }
  }

  /** What the kernel asserts of the entries that the boot code wrote. */
  lemma BootIsFlagged(e: u64, flags: nat, a: u64)
    requires flags == 0x3 || flags == 0x83
    requires a % 0x1000 == 0 && Or64(0x60, e) == Or64(0x60 + flags, a)
    ensures Flagged(e, flags, a)
  {
    hide Bit, Or;
    var w := 12;
    Pow2Is(w);
    forall i: nat | i != 5 && i != 6
      ensures Bit(e, i) <==> if i < w then Bit(flags, i) else Bit(a, i)
    {
      OrBit(0x60, e, i);
      OrBit(0x60 + flags, a, i);
      FlagDigits(i);
      if i < w { AlignedDigits(a, w, i); }
    }
  }

  // ----- entries for tables and pages -----

  /** The address fits the format. */
  ghost predicate Fits(t: HptType, a: nat) {
    a % 0x1000 == 0 && a < if t == Norm then 0x1_0000_0000 else 0x10_0000_0000_0000
  }

  lemma HighDigits(t: HptType, a: u64, i: nat)
    requires Fits(t, a)
    ensures i >= 52 || (t == Norm && i >= 32) ==> !Bit(a, i)
  {
    var w, n := 52, 32;
    Pow2Is(w);
    Pow2Is(n);
    if i >= w { HighBits(a, w, i); }
    if t == Norm && i >= n { HighBits(a, n, i); }
  }

  lemma FlaggedDigit(e: u64, flags: nat, a: u64, i: nat)
    requires Flagged(e, flags, a) && i != 5 && i != 6
    ensures Bit(e, i) <==> if i < 12 then Bit(flags, i) else Bit(a, i)
  {
  }

  /** Rights and user bit of a flagged entry. */
  lemma FlaggedRights(t: HptType, lvl: nat, e: u64, flags: nat, a: u64)
    requires LvlIsValid(t, lvl) && t != Ept && Fits(t, a) && Flagged(e, flags, a)
    requires flags == 0x3 || flags == 0x7 || flags == 0x83 || (flags == 0x1 && t == Pae && lvl == 3)
    ensures IsPresent(t, lvl, e) && GetProt(t, lvl, e) == PROT_RWX
    ensures GetUser(t, lvl, e) == (flags == 0x7 || (t == Pae && lvl == 3))
  {
    hide Bit, Flagged, GetBit;
    FlaggedDigit(e, flags, a, 0); FlagDigits(0);
    FlaggedDigit(e, flags, a, 1); FlagDigits(1);
    FlaggedDigit(e, flags, a, 2); FlagDigits(2);
    FlaggedDigit(e, flags, a, 63); HighDigits(t, a, 63);
    GetProtIsDigits(t, lvl, e);
    PresentIsDigits(t, lvl, e);
    GetBitIsBit(e, 2);
  }

  lemma FlaggedPage(t: HptType, lvl: nat, e: u64, flags: nat, a: u64)
    requires LvlIsValid(t, lvl) && t != Ept && Flagged(e, flags, a)
    requires flags == 0x1 || flags == 0x3 || flags == 0x7 || flags == 0x83
    ensures IsPage(t, lvl, e) <==> lvl == 1 || (flags == 0x83 && PageBits(t, lvl) != {})
  {
    hide Bit, Flagged, GetBit;
    FlaggedDigit(e, flags, a, 7); FlagDigits(7);
    GetBitIsBit(e, 7);
  }

  /** An entry 1, 3 or 7 | table above level 1 points to the table. */
  lemma FlaggedPointer(t: HptType, lvl: nat, e: u64, flags: nat, a: u64)
    requires LvlIsValid(t, lvl) && t != Ept && lvl > 1 && Fits(t, a) && Flagged(e, flags, a)
    requires flags == 0x3 || flags == 0x7 || (flags == 0x1 && t == Pae && lvl == 3)
    ensures PointsDown(t, lvl, e, a, flags == 0x7 || (t == Pae && lvl == 3))
  {
    hide Bit, Flagged, IsPage, IsPresent, GetProt, GetUser, GetAddress;
    FlaggedRights(t, lvl, e, flags, a);
    FlaggedPage(t, lvl, e, flags, a);
    var w := 12;
    Pow2Is(w);
    forall i: nat
      ensures Bit(GetAddress(t, lvl, e), i) <==> Bit(a, i)
    {
      GetAddressBit(t, lvl, e, i);
      FlaggedAddressDigit(t, e, flags, a, w, i);
    }
    SameBits(GetAddress(t, lvl, e), a);
  }

  /** Digits of an address aligned to 2 to the `w`, read from a flagged entry. */
  lemma FlaggedAddressDigit(t: HptType, e: u64, flags: nat, a: u64, w: nat, i: nat)
    requires Fits(t, a) && Flagged(e, flags, a) && 12 <= w <= 32 && a % Pow2(w) == 0
    ensures Bit(a, i) <==> w <= i <= AddrHi(t) && Bit(e, i)
  {
    hide Bit, Flagged;
    if i < w { AlignedDigits(a, w, i); }
    HighDigits(t, a, i);
    if i >= w { FlaggedDigit(e, flags, a, i); }
  }

  /** The address of a page entry whose address is aligned to its size. */
  lemma FlaggedPageAddress(t: HptType, lvl: nat, e: u64, flags: nat, a: u64, w: nat)
    requires LvlIsValid(t, lvl) && t != Ept && Fits(t, a) && Flagged(e, flags, a) && IsPage(t, lvl, e)
    requires 12 <= w <= 32 && a % Pow2(w) == 0
    requires if t == Norm && lvl == 2 then w == 22 && e < 0x1_0000_0000 else lvl == 1 || w >= 13
    ensures GetAddress(t, lvl, e) == a
  {
    hide Bit, Flagged, IsPage, GetAddress, Fits;
    forall i: nat
      ensures Bit(GetAddress(t, lvl, e), i) <==> Bit(a, i)
    {
      FlaggedAddressDigit(t, e, flags, a, w, i);
      if t == Norm && lvl == 2 {
        BigPageDigits(e, i);
      } else {
        GetAddressBit(t, lvl, e, i);
        if 12 <= i < w { LowAddressDigit(e, flags, a, w, i); }
      }
    }
    SameBits(GetAddress(t, lvl, e), a);
  }

  lemma LowAddressDigit(e: u64, flags: nat, a: u64, w: nat, i: nat)
    requires Flagged(e, flags, a) && a % Pow2(w) == 0 && 12 <= i < w
    ensures !Bit(e, i)
  {
    AlignedDigits(a, w, i);
  }

  /** The address of a 4 MB page of an entry of 32 bits. */
  lemma BigPageDigits(e: u64, i: nat)
    requires IsPage(Norm, 2, e) && e < 0x1_0000_0000
    ensures Bit(GetAddress(Norm, 2, e), i) <==> 22 <= i <= 31 && Bit(e, i)
  {
    hide IsPage, Bit, GetAddress;
    var w := 32;
    Pow2Is(w);
    BigPageBit(e, i);
    if 51 <= i <= 58 { HighBits(e, w, i - 19); }
  }

  /** An entry 7 | page at level 1, or 0x83 | page at level 2, for the region of its own number. */
  lemma FlaggedSelf(t: HptType, lvl: nat, e: u64, flags: nat, i: nat)
    requires t != Ept && ((lvl == 1 && flags == 0x7) || (lvl == 2 && flags == 0x83))
    requires i * Span(t, lvl) < 0x1_0000_0000_0000
    requires t == Norm ==> i * Span(t, lvl) < 0x1_0000_0000 && e < 0x1_0000_0000
    requires Flagged(e, flags, i * Span(t, lvl))
    ensures MapsSelf(t, lvl, e, i, flags == 0x7)
  {
    hide Bit, Flagged, IsPage, IsPresent, GetProt, GetUser, GetAddress, Span, Fits;
    var a: u64 := i * Span(t, lvl);
    SelfAddressFits(t, lvl, i);
    var w := IdxHi(t, lvl - 1) + 1;
    FlaggedRights(t, lvl, e, flags, a);
    FlaggedPage(t, lvl, e, flags, a);
    FlaggedPageAddress(t, lvl, e, flags, a, w);
  }

  lemma SelfAddressFits(t: HptType, lvl: nat, i: nat)
    requires t != Ept && (lvl == 1 || lvl == 2)
    requires i * Span(t, lvl) < 0x1_0000_0000_0000 && (t == Norm ==> i * Span(t, lvl) < 0x1_0000_0000)
    ensures Fits(t, i * Span(t, lvl)) && i * Span(t, lvl) % Pow2(IdxHi(t, lvl - 1) + 1) == 0
  {
    SpanIsPow2(t, lvl);
    var a := i * Span(t, lvl);
    ModUnique(a, Span(t, lvl), i, 0);
    var m := Span(t, lvl) / 0x1000;
    assert Span(t, lvl) == m * 0x1000;
    assert a == i * m * 0x1000;
    ModUnique(a, 0x1000, i * m, 0);
  }
}
