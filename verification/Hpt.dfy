/** Page-map entries of the four x86 formats (src/hpt.c, include/hpt_consts.h): 32-bit and PAE
    paging, 4-level paging and extended page tables, as laid out in sections 4.3 to 4.5 of Intel
    SDM Volume 3A and section 28.2.2 of Volume 3C.

    The functions of src/hpt.c come first; the laws relating them follow.  Every getter reads a
    fixed set of digits (`ProtBits`, `UserBits`, `PageBits`, `PmtBits`, or the address field), so
    one agreement lemma per getter and one digit lemma per setter give all the laws.
 */
module Hpt {
  import opened Bitfield

  datatype HptType = Norm | Pae | Long | Ept

  // Protection bits: read, write and execute are digits 0, 1 and 2.
  type Prot = x: int | 0 <= x < 8

  const PROT_NONE: Prot := 0
  const PROT_R: Prot := 1
  const PROT_W: Prot := 2
  const PROT_RW: Prot := 3
  const PROT_RX: Prot := 5
  const PROT_RWX: Prot := 7

  // Memory types
  const PMT_UC := 0
  const PMT_WC := 1
  const PMT_WT := 4
  const PMT_WP := 5
  const PMT_WB := 6

  function MaxLvl(t: HptType): nat {
    match t
    case Norm => 2
    case Pae => 3
    case Long => 4
    case Ept => 4
  }

  predicate LvlIsValid(t: HptType, lvl: int) {
    1 <= lvl <= MaxLvl(t)
  }

  /** Highest address digit that indexes a table of level `lvl`; level 0 stands for the page. */
  function IdxHi(t: HptType, lvl: nat): nat
    requires lvl <= MaxLvl(t)
  {
    match t
    case Norm => [11, 21, 31][lvl]
    case Pae => [11, 20, 29, 31][lvl]
    case Long => [11, 20, 29, 38, 47][lvl]
    case Ept => [11, 20, 29, 38, 47][lvl]
  }

  /** Number of entries of a table of level `lvl`. */
  function Entries(t: HptType, lvl: nat): nat {
    match t
    case Norm => 1024
    case Pae => if lvl == 3 then 4 else 512
    case Long => 512
    case Ept => 512
  }

  /** Number of bytes mapped by one entry of level `lvl`; one level above the root, all of them. */
  function Span(t: HptType, lvl: nat): (r: nat)
    requires 1 <= lvl <= MaxLvl(t) + 1
    ensures r >= 4096
  {
    match t
    case Norm => [0, 0x1000, 0x40_0000, 0x1_0000_0000][lvl]
    case Pae => [0, 0x1000, 0x20_0000, 0x4000_0000, 0x1_0000_0000][lvl]
    case Long => [0, 0x1000, 0x20_0000, 0x4000_0000, 0x80_0000_0000, 0x1_0000_0000_0000][lvl]
    case Ept => [0, 0x1000, 0x20_0000, 0x4000_0000, 0x80_0000_0000, 0x1_0000_0000_0000][lvl]
  }

  /** The region of level `lvl` that an address lies in: all index digits of the address down to
      that level, as one number.  Addresses share an entry of level `lvl` iff they share a region. */
  function Region(t: HptType, lvl: nat, va: u64): nat
    requires 1 <= lvl <= MaxLvl(t) + 1
  {
    va % Span(t, MaxLvl(t) + 1) / Span(t, lvl)
  }

  function GetPmIdx(t: HptType, lvl: nat, va: u64): (r: nat)
    requires LvlIsValid(t, lvl)
    ensures r < Entries(t, lvl)
  {
    IdxSplits(t, lvl, va);
    GetHL(va, IdxHi(t, lvl), IdxHi(t, lvl - 1) + 1)
  }

  /** Powers of two, for an exponent that is not a literal. */
  lemma Pow2Is(n: nat)
    ensures n == 2 ==> Pow2(n) == 4
    ensures n == 9 ==> Pow2(n) == 512
    ensures n == 10 ==> Pow2(n) == 1024
    ensures n == 12 ==> Pow2(n) == 0x1000
    ensures n == 13 ==> Pow2(n) == 0x2000
    ensures n == 21 ==> Pow2(n) == 0x20_0000
    ensures n == 22 ==> Pow2(n) == 0x40_0000
    ensures n == 30 ==> Pow2(n) == 0x4000_0000
    ensures n == 32 ==> Pow2(n) == 0x1_0000_0000
    ensures n == 39 ==> Pow2(n) == 0x80_0000_0000
    ensures n == 48 ==> Pow2(n) == 0x1_0000_0000_0000
    ensures n == 52 ==> Pow2(n) == 0x10_0000_0000_0000
  {
    if n == 52 {
      Pow2Is(n - 4);
      Pow2Add(n - 4, 4);
    } else if n == 22 || n == 32 || n == 12 {
      Pow2Is(n - 10);
      Pow2Add(n - 10, 10);
    } else if n >= 13 && n != 13 {
      Pow2Is(n - 9);
      Pow2Add(n - 9, 9);
    }
  }

  lemma SpanIsPow2(t: HptType, lvl: nat)
    requires 1 <= lvl <= MaxLvl(t) + 1
    ensures Span(t, lvl) == Pow2(IdxHi(t, lvl - 1) + 1)
  {
    Pow2Is(IdxHi(t, lvl - 1) + 1);
  }

  lemma EntriesIsPow2(t: HptType, lvl: nat)
    requires LvlIsValid(t, lvl)
    ensures Entries(t, lvl) == Pow2(IdxHi(t, lvl) - IdxHi(t, lvl - 1))
    ensures Span(t, lvl + 1) == Span(t, lvl) * Entries(t, lvl)
  {
    Pow2Is(IdxHi(t, lvl) - IdxHi(t, lvl - 1));
  }

  /** The index of level `lvl` is the last "digit" of the region number of that level. */
  lemma IdxSplits(t: HptType, lvl: nat, va: u64)
    requires LvlIsValid(t, lvl)
    ensures var idx := GetHL(va, IdxHi(t, lvl), IdxHi(t, lvl - 1) + 1);
      && idx < Entries(t, lvl)
      && Region(t, lvl, va) == Region(t, lvl + 1, va) * Entries(t, lvl) + idx
  {
    GetHLValue(va, IdxHi(t, lvl), IdxHi(t, lvl - 1) + 1);
    SpanIsPow2(t, lvl);
    EntriesIsPow2(t, lvl);
    RegionSplits(t, lvl, va);
  }

  lemma RegionSplits(t: HptType, lvl: nat, va: u64)
    requires LvlIsValid(t, lvl)
    ensures Region(t, lvl, va) == Region(t, lvl + 1, va) * Entries(t, lvl) + va / Span(t, lvl) % Entries(t, lvl)
  {
    EntriesIsPow2(t, lvl);
    SpansDivide(t, lvl + 1);
    var top := Span(t, MaxLvl(t) + 1);
    LastDigit(va, Span(t, lvl), Entries(t, lvl), top / Span(t, lvl + 1), Span(t, lvl + 1), top);
  }

  lemma SpansDivide(t: HptType, lvl: nat)
    requires 1 <= lvl <= MaxLvl(t) + 1
    ensures Span(t, lvl) * (Span(t, MaxLvl(t) + 1) / Span(t, lvl)) == Span(t, MaxLvl(t) + 1)
  {
  }

  lemma LastDigit(va: nat, a: nat, n: nat, k: nat, an: nat, top: nat)
    requires a >= 1 && n >= 1 && k >= 1 && an >= 1 && top >= 1
    requires an == a * n && top == an * k
    ensures va % top / a == va % top / an * n + va / a % n
  {
    var x := va % top;
    var nk := n * k;
    assert top == a * nk;
    MulAtLeast(n, k);
    DivDiv(x, a, n, an);
    ModDiv(va, a, nk, top);
    ModMod(va / a, n, k, nk);
    var y := x / a;
    assert y == y / n * n + y % n;
  }

  predicate ProtIsValid(t: HptType, lvl: nat, perms: Prot) {
    match t
    case Norm => perms == PROT_NONE || perms == PROT_RX || perms == PROT_RWX
    case Pae =>
      || perms == PROT_NONE || perms == PROT_RWX
      || (lvl != 3 && perms == PROT_R) || perms == PROT_RX || perms == PROT_RW
    case Long =>
      perms == PROT_NONE || perms == PROT_R || perms == PROT_RX || perms == PROT_RW || perms == PROT_RWX
    case Ept => true
  }

  /** `x & (1 << bit)` used as a truth value. */
  predicate Masked(x: u64, bit: nat)
    requires bit < 64
  {
    And(x, Shl(1, bit)) != 0
  }

  function ProtOf(r: bool, w: bool, x: bool): Prot {
    (if r then 1 else 0) + (if w then 2 else 0) + if x then 4 else 0
  }

  // ----- getters and setters of src/hpt.c -----

  function SetUser(t: HptType, lvl: nat, e: u64, user: bool): u64
    requires LvlIsValid(t, lvl)
    requires t == Ept || (t == Pae && lvl == 3) ==> user
  {
    match t
    case Norm => SetBit(e, 2, user)
    case Pae => if lvl == 3 then e else SetBit(e, 2, user)
    case Long => SetBit(e, 2, user)
    case Ept => e
  }

  function GetUser(t: HptType, lvl: nat, e: u64): bool
    requires LvlIsValid(t, lvl)
  {
    match t
    case Norm => GetBit(e, 2)
    case Pae => if lvl == 3 then true else GetBit(e, 2)
    case Long => GetBit(e, 2)
    case Ept => true
  }

  function SetProt(t: HptType, lvl: nat, e: u64, perms: Prot): u64
    requires LvlIsValid(t, lvl) && ProtIsValid(t, lvl, perms)
  {
    match t
    case Norm => SetBit(SetBit(e, 0, Masked(perms, 0)), 1, Masked(perms, 1))
    case Pae =>
      var rv := SetBit(e, 0, Masked(perms, 0));
      if lvl == 2 || lvl == 1 then SetBit(SetBit(rv, 1, Masked(perms, 1)), 63, !Masked(perms, 2)) else rv
    case Long =>
      SetBit(SetBit(SetBit(e, 0, Masked(perms, 0)), 1, Masked(perms, 1)), 63, !Masked(perms, 2))
    case Ept =>
      ProtFits(perms);
      SetHL(e, 2, 0, perms)
  }

  function GetProt(t: HptType, lvl: nat, e: u64): Prot
    requires LvlIsValid(t, lvl)
  {
    match t
    case Norm => var r := Masked(e, 0); ProtOf(r, Masked(e, 1), r)
    case Pae =>
      var r := Masked(e, 0);
      if lvl == 2 || lvl == 1 then ProtOf(r, Masked(e, 1), !Masked(e, 63)) else ProtOf(r, r, r)
    case Long => ProtOf(Masked(e, 0), Masked(e, 1), !Masked(e, 63))
    case Ept => ProtOf(Masked(e, 0), Masked(e, 1), Masked(e, 2))
  }

  predicate IsPresent(t: HptType, lvl: nat, e: u64)
    requires LvlIsValid(t, lvl)
  {
    if t == Ept then And(GetProt(t, lvl, e), PROT_RWX) != 0 else And(GetProt(t, lvl, e), PROT_R) != 0
  }

  function SetPage(t: HptType, lvl: nat, e: u64, isPage: bool): u64
    requires LvlIsValid(t, lvl)
    requires lvl == 1 ==> isPage
    requires PageBits(t, lvl) == {} && lvl != 1 ==> !isPage
  {
    if lvl == 1 then e
    else match t
      case Norm => SetBit(e, 7, isPage)
      case Pae => if lvl <= 2 then SetBit(e, 7, isPage) else e
      case Long => if lvl <= 3 then SetBit(e, 7, isPage) else e
      case Ept => if lvl <= 3 then SetBit(e, 7, isPage) else e
  }

  predicate IsPage(t: HptType, lvl: nat, e: u64)
    requires LvlIsValid(t, lvl)
  {
    match t
    case Norm => lvl == 1 || (lvl == 2 && GetBit(e, 7))
    case Pae => lvl == 1 || (lvl == 2 && GetBit(e, 7))
    case Long => lvl == 1 || ((lvl == 2 || lvl == 3) && GetBit(e, 7))
    case Ept => lvl == 1 || ((lvl == 2 || lvl == 3) && GetBit(e, 7))
  }

  /** A 4 MB page of 32-bit paging. */
  predicate Is4MPage(t: HptType, lvl: nat, e: u64)
    requires LvlIsValid(t, lvl)
  {
    t == Norm && lvl == 2 && IsPage(t, lvl, e)
  }

  function GetAddress(t: HptType, lvl: nat, e: u64): u64
    requires LvlIsValid(t, lvl)
  {
    match t
    case Norm =>
      if lvl == 2 then
        if IsPage(t, lvl, e) then CopyBits(CopyBits(0, e, 39, 32, 19), e, 31, 22, 0)
        else CopyBits(0, e, 31, 12, 0)
      else CopyBits(0, e, 31, 12, 0)
    case Pae =>
      if IsPage(t, lvl, e) then
        if lvl == 1 then CopyBits(0, e, 51, 12, 0) else CopyBits(0, e, 51, 13, 0)
      else CopyBits(0, e, 51, 12, 0)
    case Long =>
      if IsPage(t, lvl, e) then
        if lvl == 1 then CopyBits(0, e, 51, 12, 0) else CopyBits(0, e, 51, 13, 0)
      else CopyBits(0, e, 51, 12, 0)
    case Ept => CopyBits(0, e, 51, 12, 0)
  }

  /** The 4 MB pages of 32-bit paging are excluded: there the source shifts by a negative amount. */
  function SetAddress(t: HptType, lvl: nat, e: u64, a: u64): u64
    requires LvlIsValid(t, lvl) && !Is4MPage(t, lvl, e)
  {
    match t
    case Norm => CopyBits(e, a, 31, 12, 0)
    case Pae =>
      if IsPage(t, lvl, e) then
        if lvl == 1 then CopyBits(e, a, 51, 12, 0) else CopyBits(e, a, 51, 13, 0)
      else CopyBits(e, a, 51, 12, 0)
    case Long =>
      if IsPage(t, lvl, e) then
        if lvl == 1 then CopyBits(e, a, 51, 12, 0) else CopyBits(e, a, 51, 13, 0)
      else CopyBits(e, a, 51, 12, 0)
    case Ept => CopyBits(e, a, 51, 12, 0)
  }

  function SetPat(t: HptType, lvl: nat, e: u64, pat: bool): u64
    requires LvlIsValid(t, lvl) && t != Ept
    requires !IsPage(t, lvl, e) ==> !pat
  {
    if IsPage(t, lvl, e) && lvl == 1 then SetBit(e, 7, pat)
    else if IsPage(t, lvl, e) then SetBit(e, 12, pat)
    else e
  }

  function GetPmt(t: HptType, lvl: nat, e: u64): nat
    requires LvlIsValid(t, lvl)
    requires t == Ept ==> lvl <= 3 && IsPage(t, lvl, e)
  {
    if t == Ept then GetHL(e, 5, 3)
    else
      var pcd, pwt := GetBit(e, 4), GetBit(e, 3);
      if !pcd && !pwt then PMT_WB else if !pcd then PMT_WT else if !pwt then PMT_WC else PMT_UC
  }

  predicate PmtIsValid(t: HptType, pmt: nat) {
    if t == Ept then pmt < 8 else pmt == PMT_UC || pmt == PMT_WC || pmt == PMT_WT || pmt == PMT_WB
  }

  function SetPmt(t: HptType, lvl: nat, e: u64, pmt: nat): u64
    requires LvlIsValid(t, lvl) && PmtIsValid(t, pmt)
    requires t == Ept ==> lvl <= 3 && IsPage(t, lvl, e)
  {
    if t == Ept then
      ProtFits(pmt);
      SetHL(e, 5, 3, pmt)
    else
      var pcd := pmt == PMT_UC || pmt == PMT_WC;
      var pwt := pmt == PMT_UC || pmt == PMT_WT;
      SetBit(SetBit(SetPat(t, lvl, e, false), 4, pcd), 3, pwt)
  }

  // ----- digits read and written -----

  function ProtBits(t: HptType, lvl: nat): set<nat> {
    match t
    case Norm => {0, 1}
    case Pae => if lvl == 3 then {0} else {0, 1, 63}
    case Long => {0, 1, 63}
    case Ept => {0, 1, 2}
  }

  function UserBits(t: HptType, lvl: nat): set<nat> {
    if t == Ept || (t == Pae && lvl == 3) then {} else {2}
  }

  function PageBits(t: HptType, lvl: nat): set<nat> {
    if lvl == 2 || (lvl == 3 && (t == Long || t == Ept)) then {7} else {}
  }

  function PmtBits(t: HptType, lvl: nat, page: bool): set<nat> {
    if t == Ept then {3, 4, 5}
    else if !page then {3, 4}
    else if lvl == 1 then {3, 4, 7} else {3, 4, 12}
  }

  function AddrHi(t: HptType): nat {
    if t == Norm then 31 else 51
  }

  function AddrLo(t: HptType, lvl: nat, page: bool): nat {
    if t == Ept || !page || lvl == 1 then 12 else 13
  }

  lemma ProtFits(p: nat)
    requires p < 8
    ensures ZeroHi(p, 61) == p
  {
    FitsField(p, 2, 0);
    assert Pow2(3) == 8;
  }

  lemma MaskedIsBit(x: u64, bit: nat)
    requires bit < 64
    ensures Masked(x, bit) == Bit(x, bit)
  {
    var m := And(x, Shl(1, bit));
    forall i: nat
      ensures Bit(m, i) <==> i == bit && Bit(x, bit)
    {
      AndBit(x, Shl(1, bit), i);
      ShlBit(1, bit, i);
      WordBits(x, i);
      if bit < i { ZeroBits(i - bit); HighBits(1, 1, i - bit); }
    }
    if Bit(x, bit) {
      assert Bit(m, bit);
      ZeroBits(bit);
    } else {
      forall i: nat ensures Bit(m, i) <==> Bit(0, i) { ZeroBits(i); }
      SameBits(m, 0);
    }
  }

  lemma ProtOfBits(r: bool, w: bool, x: bool)
    ensures Bit(ProtOf(r, w, x), 0) == r && Bit(ProtOf(r, w, x), 1) == w && Bit(ProtOf(r, w, x), 2) == x
  {
    var p := ProtOf(r, w, x);
    assert Bit(p, 1) == Bit(p / 2, 0);
    assert Bit(p, 2) == Bit(p / 2, 1) == Bit(p / 2 / 2, 0);
  }

  lemma ProtDigits(p: Prot)
    ensures p == ProtOf(Bit(p, 0), Bit(p, 1), Bit(p, 2))
  {
  }

  /** The rights read from an entry, digit by digit. */
  lemma GetProtIsDigits(t: HptType, lvl: nat, e: u64)
    requires LvlIsValid(t, lvl)
    ensures GetProt(t, lvl, e) ==
            match t
            case Norm => ProtOf(Bit(e, 0), Bit(e, 1), Bit(e, 0))
            case Pae =>
              if lvl == 3 then ProtOf(Bit(e, 0), Bit(e, 0), Bit(e, 0)) else ProtOf(Bit(e, 0), Bit(e, 1), !Bit(e, 63))
            case Long => ProtOf(Bit(e, 0), Bit(e, 1), !Bit(e, 63))
            case Ept => ProtOf(Bit(e, 0), Bit(e, 1), Bit(e, 2))
  {
    MaskedIsBit(e, 0); MaskedIsBit(e, 1); MaskedIsBit(e, 2); MaskedIsBit(e, 63);
  }

  /** An entry is present iff it is readable (EPT: iff it grants any right). */
  lemma PresentIsDigits(t: HptType, lvl: nat, e: u64)
    requires LvlIsValid(t, lvl)
    ensures IsPresent(t, lvl, e) <==> Bit(e, 0) || (t == Ept && (Bit(e, 1) || Bit(e, 2)))
    ensures IsPresent(t, lvl, e) <==> if t == Ept then GetProt(t, lvl, e) != 0 else GetProt(t, lvl, e) % 2 == 1
  {
    GetProtIsDigits(t, lvl, e);
    var p := GetProt(t, lvl, e);
    ProtDigits(p);
    AndSmall(p);
  }

  lemma AndSmall(p: Prot)
    ensures And(p, 7) == p && And(p, 1) == p % 2
  {
    assert And(p / 2 / 2, 7 / 2 / 2) == p / 2 / 2;
    assert And(p / 2, 7 / 2) == p / 2;
  }

  // ----- what each setter writes -----

  lemma SetRwBit(e: u64, r: bool, w: bool, i: nat)
    ensures Bit(SetBit(SetBit(e, 0, r), 1, w), i) <==> if i == 0 then r else if i == 1 then w else Bit(e, i)
  {
    SetBitBit(e, 0, r, i);
    SetBitBit(SetBit(e, 0, r), 1, w, i);
  }

  lemma SetRwNxBit(e: u64, r: bool, w: bool, nx: bool, i: nat)
    ensures Bit(SetBit(SetBit(SetBit(e, 0, r), 1, w), 63, nx), i) <==>
            if i == 0 then r else if i == 1 then w else if i == 63 then nx else Bit(e, i)
  {
    SetRwBit(e, r, w, i);
    SetBitBit(SetBit(SetBit(e, 0, r), 1, w), 63, nx, i);
  }

  lemma SetProtBit(t: HptType, lvl: nat, e: u64, perms: Prot, i: nat)
    requires LvlIsValid(t, lvl) && ProtIsValid(t, lvl, perms)
    ensures Bit(SetProt(t, lvl, e, perms), i) <==>
            if i !in ProtBits(t, lvl) then Bit(e, i)
            else if i == 63 then !Bit(perms, 2)
            else Bit(perms, i)
  {
    if t == Ept {
      ProtFits(perms);
      SetHLBit(e, 2, 0, perms, i);
    } else {
      SetPagingProtBit(t, lvl, e, perms, i);
    }
  }

  lemma SetPagingProtBit(t: HptType, lvl: nat, e: u64, perms: Prot, i: nat)
    requires LvlIsValid(t, lvl) && ProtIsValid(t, lvl, perms) && t != Ept
    ensures Bit(SetProt(t, lvl, e, perms), i) <==>
            if i !in ProtBits(t, lvl) then Bit(e, i)
            else if i == 63 then !Bit(perms, 2)
            else Bit(perms, i)
  {
    var r, w, nx := Masked(perms, 0), Masked(perms, 1), !Masked(perms, 2);
    MaskedIsBit(perms, 0);
    if t == Pae && lvl == 3 {
      SetBitBit(e, 0, r, i);
    } else {
      MaskedIsBit(perms, 1);
      if t == Norm {
        SetRwBit(e, r, w, i);
      } else {
        MaskedIsBit(perms, 2);
        SetRwNxBit(e, r, w, nx, i);
      }
    }
  }

  lemma SetUserBit(t: HptType, lvl: nat, e: u64, user: bool, i: nat)
    requires LvlIsValid(t, lvl)
    requires t == Ept || (t == Pae && lvl == 3) ==> user
    ensures Bit(SetUser(t, lvl, e, user), i) <==> if i in UserBits(t, lvl) then user else Bit(e, i)
  {
    SetBitBit(e, 2, user, i);
  }

  lemma SetPageBit(t: HptType, lvl: nat, e: u64, isPage: bool, i: nat)
    requires LvlIsValid(t, lvl) && (lvl == 1 ==> isPage) && (PageBits(t, lvl) == {} && lvl != 1 ==> !isPage)
    ensures Bit(SetPage(t, lvl, e, isPage), i) <==> if i in PageBits(t, lvl) then isPage else Bit(e, i)
  {
    SetBitBit(e, 7, isPage, i);
  }

  lemma CopyBitsBit(dst: u64, src: u64, hi: nat, lo: nat, i: nat)
    requires lo <= hi < 64
    ensures Bit(CopyBits(dst, src, hi, lo, 0), i) <==> if lo <= i <= hi then Bit(src, i) else Bit(dst, i)
  {
    CopyBitsUpBit(dst, src, hi, lo, 0, i);
  }

  lemma CopyBitsUpBit(dst: u64, src: u64, hi: nat, lo: nat, up: nat, i: nat)
    requires lo <= hi && hi + up < 64
    ensures Bit(CopyBits(dst, src, hi, lo, up), i) <==>
            if lo + up <= i <= hi + up then Bit(src, i - up) else Bit(dst, i)
  {
    hide SetHL, GetHL, Bit;
    GetHLFits(src, hi, lo);
    SetHLBit(dst, hi + up, lo + up, GetHL(src, hi, lo), i);
    if lo + up <= i { GetHLBit(src, hi, lo, i - up - lo); }
  }

  lemma SetAddressBit(t: HptType, lvl: nat, e: u64, a: u64, i: nat)
    requires LvlIsValid(t, lvl) && !Is4MPage(t, lvl, e)
    ensures Bit(SetAddress(t, lvl, e, a), i) <==>
            if AddrLo(t, lvl, IsPage(t, lvl, e)) <= i <= AddrHi(t) then Bit(a, i) else Bit(e, i)
  {
    CopyBitsBit(e, a, 31, 12, i);
    CopyBitsBit(e, a, 51, 12, i);
    CopyBitsBit(e, a, 51, 13, i);
  }

  lemma SetCacheBit(e: u64, pcd: bool, pwt: bool, i: nat)
    ensures Bit(SetBit(SetBit(e, 4, pcd), 3, pwt), i) <==> if i == 3 then pwt else if i == 4 then pcd else Bit(e, i)
  {
    SetBitBit(e, 4, pcd, i);
    SetBitBit(SetBit(e, 4, pcd), 3, pwt, i);
  }

  lemma SetPatBit(t: HptType, lvl: nat, e: u64, i: nat)
    requires LvlIsValid(t, lvl) && t != Ept
    ensures Bit(SetPat(t, lvl, e, false), i) <==>
            Bit(e, i) && !(IsPage(t, lvl, e) && i == if lvl == 1 then 7 else 12)
  {
    SetBitBit(e, 7, false, i);
    SetBitBit(e, 12, false, i);
  }

  lemma SetPmtKeeps(t: HptType, lvl: nat, e: u64, pmt: nat, i: nat)
    requires LvlIsValid(t, lvl) && PmtIsValid(t, pmt)
    requires t == Ept ==> lvl <= 3 && IsPage(t, lvl, e)
    requires i !in PmtBits(t, lvl, IsPage(t, lvl, e))
    ensures Bit(SetPmt(t, lvl, e, pmt), i) <==> Bit(e, i)
  {
    if t == Ept {
      ProtFits(pmt);
      SetHLBit(e, 5, 3, pmt, i);
    } else {
      var pcd := pmt == PMT_UC || pmt == PMT_WC;
      var pwt := pmt == PMT_UC || pmt == PMT_WT;
      SetPatBit(t, lvl, e, i);
      SetCacheBit(SetPat(t, lvl, e, false), pcd, pwt, i);
    }
  }

  // ----- what each getter reads -----

  lemma ProtAgrees(t: HptType, lvl: nat, x: u64, y: u64)
    requires LvlIsValid(t, lvl)
    requires forall i: nat | i in ProtBits(t, lvl) :: Bit(x, i) <==> Bit(y, i)
    ensures GetProt(t, lvl, x) == GetProt(t, lvl, y)
    ensures IsPresent(t, lvl, x) == IsPresent(t, lvl, y)
  {
    assert 0 in ProtBits(t, lvl);
    assert Bit(x, 0) <==> Bit(y, 0);
    if t != Pae || lvl != 3 {
      assert 1 in ProtBits(t, lvl);
      assert Bit(x, 1) <==> Bit(y, 1);
    }
    if t == Ept { assert 2 in ProtBits(t, lvl); }
    GetProtIsDigits(t, lvl, x);
    GetProtIsDigits(t, lvl, y);
  }

  lemma UserAgrees(t: HptType, lvl: nat, x: u64, y: u64)
    requires LvlIsValid(t, lvl)
    requires forall i: nat | i in UserBits(t, lvl) :: Bit(x, i) <==> Bit(y, i)
    ensures GetUser(t, lvl, x) == GetUser(t, lvl, y)
  {
    if UserBits(t, lvl) != {} { assert 2 in UserBits(t, lvl); }
    GetBitIsBit(x, 2);
    GetBitIsBit(y, 2);
  }

  lemma PageAgrees(t: HptType, lvl: nat, x: u64, y: u64)
    requires LvlIsValid(t, lvl)
    requires forall i: nat | i in PageBits(t, lvl) :: Bit(x, i) <==> Bit(y, i)
    ensures IsPage(t, lvl, x) == IsPage(t, lvl, y)
  {
    if PageBits(t, lvl) != {} { assert 7 in PageBits(t, lvl); }
    GetBitIsBit(x, 7);
    GetBitIsBit(y, 7);
  }

  lemma PmtAgrees(t: HptType, lvl: nat, x: u64, y: u64)
    requires LvlIsValid(t, lvl)
    requires t == Ept ==> lvl <= 3 && IsPage(t, lvl, x) && IsPage(t, lvl, y)
    requires forall i: nat | 3 <= i <= (if t == Ept then 5 else 4) :: Bit(x, i) <==> Bit(y, i)
    ensures GetPmt(t, lvl, x) == GetPmt(t, lvl, y)
  {
    if t == Ept {
      GetAgrees(x, y, 5, 3);
    } else {
      GetBitIsBit(x, 3); GetBitIsBit(y, 3);
      GetBitIsBit(x, 4); GetBitIsBit(y, 4);
    }
  }

  /** The address of an entry: the digits of its address field, all others 0. */
  lemma GetAddressBit(t: HptType, lvl: nat, e: u64, i: nat)
    requires LvlIsValid(t, lvl) && !Is4MPage(t, lvl, e)
    ensures Bit(GetAddress(t, lvl, e), i) <==> AddrLo(t, lvl, IsPage(t, lvl, e)) <= i <= AddrHi(t) && Bit(e, i)
  {
    ZeroBits(i);
    CopyBitsBit(0, e, 31, 12, i);
    CopyBitsBit(0, e, 51, 12, i);
    CopyBitsBit(0, e, 51, 13, i);
  }

  /** The address of a 4 MB page, as the getter computes it. */
  lemma BigPageBit(e: u64, i: nat)
    requires IsPage(Norm, 2, e)
    ensures Bit(GetAddress(Norm, 2, e), i) <==>
            (22 <= i <= 31 && Bit(e, i)) || (51 <= i <= 58 && Bit(e, i - 19))
  {
    hide Bit, IsPage, CopyBits;
    CopyBitsBit(CopyBits(0, e, 39, 32, 19), e, 31, 22, i);
    CopyBitsUpBit(0, e, 39, 32, 19, i);
    ZeroBits(i);
  }

  /** Where the processor has user access, page size and memory type (with the default PAT). */
  lemma FlagsRead(t: HptType, lvl: nat, e: u64)
    requires LvlIsValid(t, lvl)
    ensures GetUser(t, lvl, e) <==> t == Ept || (t == Pae && lvl == 3) || Bit(e, 2)
    ensures IsPage(t, lvl, e) <==> lvl == 1 || (lvl == 2 && Bit(e, 7)) || (lvl == 3 && t != Pae && Bit(e, 7))
    ensures t != Ept ==>
      GetPmt(t, lvl, e) == if Bit(e, 4) then if Bit(e, 3) then 0 else 1 else if Bit(e, 3) then 4 else 6
    ensures t == Ept && lvl <= 3 && IsPage(t, lvl, e) ==> GetPmt(t, lvl, e) == e / 8 % 8
  {
    GetBitIsBit(e, 2);
    GetBitIsBit(e, 3);
    GetBitIsBit(e, 4);
    GetBitIsBit(e, 7);
    GetHLValue(e, 5, 3);
    assert Pow2(3) == 8;
  }

  /** Where the processor has the address, apart from 4 MB pages: from digit 12 on (but see large pages), to digit
      31 in 32-bit paging and 51 else. */
  lemma AddressRead(t: HptType, lvl: nat, e: u64, i: nat)
    requires LvlIsValid(t, lvl) && !Is4MPage(t, lvl, e)
    ensures Bit(GetAddress(t, lvl, e), i) <==>
      && Bit(e, i) && i <= (if t == Norm then 31 else 51)
      && (if (t == Pae || t == Long) && lvl >= 2 && IsPage(t, lvl, e) then 13 else 12) <= i
  {
    hide Bit, GetAddress, GetBit;
    GetAddressBit(t, lvl, e, i);
  }

  /** The address that the processor reads from the entry of a 4 MB page: entry digits 20 to 13 are
      address digits 39 to 32 (section 4.3 of Intel SDM Volume 3A). */
  function BigPageAddress(e: u64): u64 {
    CopyBits(CopyBits(0, e, 20, 13, 19), e, 31, 22, 0)
  }

  lemma BigPageAddressBit(e: u64, i: nat)
    ensures Bit(BigPageAddress(e), i) <==>
            (22 <= i <= 31 && Bit(e, i)) || (32 <= i <= 39 && Bit(e, i - 19))
  {
    hide Bit, CopyBits;
    CopyBitsBit(CopyBits(0, e, 20, 13, 19), e, 31, 22, i);
    CopyBitsUpBit(0, e, 20, 13, 19, i);
    ZeroBits(i);
  }

  /** Digits `hi` to `lo` are 0. */
  ghost predicate Clear(e: u64, hi: nat, lo: nat) {
    forall i: nat | lo <= i <= hi :: !Bit(e, i)
  }

  /** The getter gives the address of a 4 MB page iff neither the digits that hold the high part nor
      the digits it reads instead are set, for any word. */
  lemma BigPageAddressOfWord(e: u64)
    requires IsPage(Norm, 2, e)
    ensures GetAddress(Norm, 2, e) == BigPageAddress(e) <==> Clear(e, 20, 13) && Clear(e, 39, 32)
  {
    hide Bit, IsPage, GetAddress, BigPageAddress;
    var got, actual := GetAddress(Norm, 2, e), BigPageAddress(e);
    if got == actual {
      forall i: nat | 13 <= i <= 20 || 32 <= i <= 39 ensures !Bit(e, i) {
        BigPageBit(e, i + 19);
        BigPageAddressBit(e, i + 19);
      }
    } else if Clear(e, 20, 13) && Clear(e, 39, 32) {
      forall i: nat ensures Bit(got, i) <==> Bit(actual, i) {
        BigPageBit(e, i);
        BigPageAddressBit(e, i);
      }
      SameBits(got, actual);
    }
  }

  /** For an entry as it is stored, in 32 bits: iff the page lies below 4 GB. */
  lemma BigPageAddressExactly(e: u64)
    requires IsPage(Norm, 2, e) && e < 0x1_0000_0000
    ensures GetAddress(Norm, 2, e) == BigPageAddress(e) <==> Clear(e, 20, 13)
    ensures GetAddress(Norm, 2, e) == BigPageAddress(e) <==> BigPageAddress(e) < 0x1_0000_0000
  {
    hide Bit, IsPage, GetAddress, BigPageAddress;
    var w, actual := 32, BigPageAddress(e);
    Pow2Is(w);
    forall i: nat | i >= w ensures !Bit(e, i) { HighBits(e, w, i); }
    BigPageAddressOfWord(e);
    if actual < 0x1_0000_0000 {
      forall i: nat | 13 <= i <= 20 ensures !Bit(e, i) {
        HighBits(actual, w, i + 19);
        BigPageAddressBit(e, i + 19);
      }
    } else if Clear(e, 20, 13) {
      forall i: nat ensures Bit(actual, i) <==> Bit(actual % Pow2(w), i) {
        BigPageAddressBit(e, i);
        ModBit(actual, w, i);
      }
      SameBits(actual, actual % Pow2(w));
    }
  }

  /** The entry of a present 4 MB page at 4 GB; the getter says 0. */
  lemma BigPageAddressMissed()
    ensures IsPage(Norm, 2, 0x2081) && IsPresent(Norm, 2, 0x2081)
    ensures GetAddress(Norm, 2, 0x2081) == 0 && BigPageAddress(0x2081) == 0x1_0000_0000
  {
    hide IsPage, IsPresent, GetAddress, BigPageAddress, GetBit;
    var e: u64, w := 0x2081, 32;
    Pow2Is(w);
    forall i: nat ensures Bit(e, i) <==> i == 0 || i == 7 || i == 13 { SampleBits(i); }
    GetBitIsBit(e, 7);
    PageFlag(e);
    PresentIsDigits(Norm, 2, e);
    forall i: nat ensures Bit(GetAddress(Norm, 2, e), i) <==> Bit(0, i) { BigPageBit(e, i); ZeroBits(i); }
    SameBits(GetAddress(Norm, 2, e), 0);
    forall i: nat ensures Bit(BigPageAddress(e), i) <==> Bit(Pow2(w), i) { BigPageAddressBit(e, i); Pow2Bit(w, i); }
    SameBits(BigPageAddress(e), Pow2(w));
  }

  lemma PageFlag(e: u64)
    ensures IsPage(Norm, 2, e) <==> GetBit(e, 7)
  {
  }

  lemma SampleBits(i: nat)
    ensures Bit(0x2081, i) <==> i == 0 || i == 7 || i == 13
  {
    var halves := [0x2081, 0x1040, 0x820, 0x410, 0x208, 0x104, 0x82, 0x41, 0x20, 0x10, 8, 4, 2, 1, 0];
    var k := 0;
    while k < i && k < 14
      invariant k <= i && k <= 14 && Bit(0x2081, i) == Bit(halves[k], i - k)
    {
      assert Bit(halves[k], i - k) == Bit(halves[k] / 2, i - k - 1);
      assert halves[k] / 2 == halves[k + 1];
      k := k + 1;
    }
    if k == 14 { ZeroBits(i - k); }
  }

  lemma AddressAgrees(t: HptType, lvl: nat, x: u64, y: u64)
    requires LvlIsValid(t, lvl) && IsPage(t, lvl, x) == IsPage(t, lvl, y)
    requires !Is4MPage(t, lvl, x)
    requires forall i: nat | AddrLo(t, lvl, IsPage(t, lvl, x)) <= i <= AddrHi(t) :: Bit(x, i) <==> Bit(y, i)
    ensures GetAddress(t, lvl, x) == GetAddress(t, lvl, y)
  {
    forall i: nat
      ensures Bit(GetAddress(t, lvl, x), i) <==> Bit(GetAddress(t, lvl, y), i)
    {
      GetAddressBit(t, lvl, x, i);
      GetAddressBit(t, lvl, y, i);
    }
    SameBits(GetAddress(t, lvl, x), GetAddress(t, lvl, y));
  }

  /** The getter of a 4 MB page reads digits 22 to 39. */
  lemma BigAddressAgrees(x: u64, y: u64)
    requires IsPage(Norm, 2, x) && IsPage(Norm, 2, y)
    requires forall i: nat | 22 <= i <= 39 :: Bit(x, i) <==> Bit(y, i)
    ensures GetAddress(Norm, 2, x) == GetAddress(Norm, 2, y)
  {
    hide IsPage, GetAddress;
    forall i: nat
      ensures Bit(GetAddress(Norm, 2, x), i) <==> Bit(GetAddress(Norm, 2, y), i)
    {
      BigPageBit(x, i);
      BigPageBit(y, i);
    }
    SameBits(GetAddress(Norm, 2, x), GetAddress(Norm, 2, y));
  }

  // ----- the laws: each setter against every getter -----

  /** Everything the getters see, apart from rights, user bit and memory type, is the same. */
  predicate SameTarget(t: HptType, lvl: nat, x: u64, y: u64)
    requires LvlIsValid(t, lvl)
  {
    IsPage(t, lvl, x) == IsPage(t, lvl, y) && GetAddress(t, lvl, x) == GetAddress(t, lvl, y)
  }

  predicate SamePmt(t: HptType, lvl: nat, x: u64, y: u64)
    requires LvlIsValid(t, lvl) && IsPage(t, lvl, x) == IsPage(t, lvl, y)
  {
    t == Ept ==> (lvl <= 3 && IsPage(t, lvl, x) ==> GetPmt(t, lvl, x) == GetPmt(t, lvl, y))
  }

  /** Changing digits 0, 1, 2 and 63 only keeps target and memory type. */
  lemma RightsDigitsOnly(t: HptType, lvl: nat, x: u64, y: u64)
    requires LvlIsValid(t, lvl)
    requires forall i: nat | 3 <= i <= 62 :: Bit(x, i) <==> Bit(y, i)
    ensures SameTarget(t, lvl, x, y) && SamePmt(t, lvl, x, y)
    ensures t != Ept ==> GetPmt(t, lvl, x) == GetPmt(t, lvl, y)
  {
    PageAgrees(t, lvl, x, y);
    if Is4MPage(t, lvl, x) { BigAddressAgrees(x, y); } else { AddressAgrees(t, lvl, x, y); }
    if t != Ept || (lvl <= 3 && IsPage(t, lvl, x)) { PmtAgrees(t, lvl, x, y); }
  }

  /** Changing none of digits 0, 1, 2 and 63 keeps rights and user bit. */
  lemma OtherDigitsOnly(t: HptType, lvl: nat, x: u64, y: u64)
    requires LvlIsValid(t, lvl)
    requires forall i: nat | i <= 2 || i == 63 :: Bit(x, i) <==> Bit(y, i)
    ensures GetProt(t, lvl, x) == GetProt(t, lvl, y)
    ensures IsPresent(t, lvl, x) == IsPresent(t, lvl, y)
    ensures GetUser(t, lvl, x) == GetUser(t, lvl, y)
  {
    ProtAgrees(t, lvl, x, y);
    UserAgrees(t, lvl, x, y);
  }

  /** Rights written into an entry, read back. */
  lemma GetAfterSetProt(t: HptType, lvl: nat, e: u64, perms: Prot)
    requires LvlIsValid(t, lvl) && ProtIsValid(t, lvl, perms)
    ensures var y := SetProt(t, lvl, e, perms);
      && GetProt(t, lvl, y) == (if t == Pae && lvl == 3 && perms != PROT_NONE then PROT_RWX else perms)
      && IsPresent(t, lvl, y) == (perms != PROT_NONE)
  {
    var y := SetProt(t, lvl, e, perms);
    SetProtBit(t, lvl, e, perms, 0);
    SetProtBit(t, lvl, e, perms, 1);
    SetProtBit(t, lvl, e, perms, 2);
    SetProtBit(t, lvl, e, perms, 63);
    GetProtIsDigits(t, lvl, y);
    PresentIsDigits(t, lvl, y);
    ProtDigits(perms);
    ProtOfBits(Bit(perms, 0), Bit(perms, 1), Bit(perms, 2));
  }

  /** Rights read back as written, except RX and RW at level 3 of PAE, of which only the present
      digit is stored; nothing else changes. */
  lemma SetProtLaw(t: HptType, lvl: nat, e: u64, perms: Prot)
    requires LvlIsValid(t, lvl) && ProtIsValid(t, lvl, perms)
    ensures var y := SetProt(t, lvl, e, perms);
      && (GetProt(t, lvl, y) == perms <==> !(t == Pae && lvl == 3 && (perms == PROT_RX || perms == PROT_RW)))
      && IsPresent(t, lvl, y) == (perms != PROT_NONE)
      && GetUser(t, lvl, y) == GetUser(t, lvl, e)
      && SameTarget(t, lvl, e, y)
      && SamePmt(t, lvl, e, y)
      && (t != Ept ==> GetPmt(t, lvl, y) == GetPmt(t, lvl, e))
  {
    var y := SetProt(t, lvl, e, perms);
    GetAfterSetProt(t, lvl, e, perms);
    forall i: nat | i !in ProtBits(t, lvl) ensures Bit(y, i) <==> Bit(e, i) { SetProtBit(t, lvl, e, perms, i); }
    ProtDigitsOnly(t, lvl, e, y);
  }

  lemma ProtDigitsOnly(t: HptType, lvl: nat, x: u64, y: u64)
    requires LvlIsValid(t, lvl)
    requires forall i: nat | i !in ProtBits(t, lvl) :: Bit(y, i) <==> Bit(x, i)
    ensures SameTarget(t, lvl, x, y) && SamePmt(t, lvl, x, y) && GetUser(t, lvl, x) == GetUser(t, lvl, y)
    ensures t != Ept ==> GetPmt(t, lvl, x) == GetPmt(t, lvl, y)
  {
    RightsDigitsOnly(t, lvl, x, y);
    UserAgrees(t, lvl, x, y);
  }

  lemma SetUserLaw(t: HptType, lvl: nat, e: u64, user: bool)
    requires LvlIsValid(t, lvl)
    requires t == Ept || (t == Pae && lvl == 3) ==> user
    ensures var y := SetUser(t, lvl, e, user);
      && GetUser(t, lvl, y) == user
      && GetProt(t, lvl, y) == GetProt(t, lvl, e)
      && IsPresent(t, lvl, y) == IsPresent(t, lvl, e)
      && SameTarget(t, lvl, e, y)
      && SamePmt(t, lvl, e, y)
      && (t != Ept ==> GetPmt(t, lvl, y) == GetPmt(t, lvl, e))
  {
    var y := SetUser(t, lvl, e, user);
    SetUserBit(t, lvl, e, user, 2);
    GetBitIsBit(y, 2);
    forall i: nat | i !in UserBits(t, lvl) ensures Bit(y, i) <==> Bit(e, i) { SetUserBit(t, lvl, e, user, i); }
    RightsDigitsOnly(t, lvl, e, y);
    ProtAgrees(t, lvl, e, y);
  }

  /** The page flag reads back as written; it re-types the address field, so the address is not
      claimed to stay. */
  lemma SetPageLaw(t: HptType, lvl: nat, e: u64, isPage: bool)
    requires LvlIsValid(t, lvl) && (lvl == 1 ==> isPage) && (PageBits(t, lvl) == {} && lvl != 1 ==> !isPage)
    ensures var y := SetPage(t, lvl, e, isPage);
      && IsPage(t, lvl, y) == isPage
      && GetProt(t, lvl, y) == GetProt(t, lvl, e)
      && IsPresent(t, lvl, y) == IsPresent(t, lvl, e)
      && GetUser(t, lvl, y) == GetUser(t, lvl, e)
      && (t != Ept ==> GetPmt(t, lvl, y) == GetPmt(t, lvl, e))
      && (IsPage(t, lvl, e) == isPage ==> y == e)
  {
    var y := SetPage(t, lvl, e, isPage);
    forall i: nat
      ensures Bit(y, i) <==> if i in PageBits(t, lvl) then isPage else Bit(e, i)
    {
      SetPageBit(t, lvl, e, isPage, i);
    }
    GetBitIsBit(y, 7);
    GetBitIsBit(e, 7);
    ProtAgrees(t, lvl, e, y);
    UserAgrees(t, lvl, e, y);
    if t != Ept { PmtAgrees(t, lvl, e, y); }
    if IsPage(t, lvl, e) == isPage { SameBits(e, y); }
  }

  /** An address that the field of the entry can hold. */
  predicate AddressFits(t: HptType, lvl: nat, page: bool, a: u64) {
    a % Pow2(AddrLo(t, lvl, page)) == 0 && a < Pow2(AddrHi(t) + 1)
  }

  /** The address reads back masked to the field, hence exactly if it fits; nothing else changes. */
  lemma SetAddressLaw(t: HptType, lvl: nat, e: u64, a: u64)
    requires LvlIsValid(t, lvl) && !Is4MPage(t, lvl, e)
    ensures var y := SetAddress(t, lvl, e, a);
      && IsPage(t, lvl, y) == IsPage(t, lvl, e)
      && GetAddress(t, lvl, y) == CopyBits(0, a, AddrHi(t), AddrLo(t, lvl, IsPage(t, lvl, e)), 0)
      && (AddressFits(t, lvl, IsPage(t, lvl, e), a) ==> GetAddress(t, lvl, y) == a)
      && GetProt(t, lvl, y) == GetProt(t, lvl, e)
      && IsPresent(t, lvl, y) == IsPresent(t, lvl, e)
      && GetUser(t, lvl, y) == GetUser(t, lvl, e)
      && SamePmt(t, lvl, e, y)
      && (t != Ept ==> GetPmt(t, lvl, y) == GetPmt(t, lvl, e))
  {
    var y := SetAddress(t, lvl, e, a);
    var hi, lo := AddrHi(t), AddrLo(t, lvl, IsPage(t, lvl, e));
    forall i: nat
      ensures Bit(y, i) <==> if lo <= i <= hi then Bit(a, i) else Bit(e, i)
    {
      SetAddressBit(t, lvl, e, a, i);
    }
    PageAgrees(t, lvl, e, y);
    OtherDigitsOnly(t, lvl, e, y);
    if t != Ept || (lvl <= 3 && IsPage(t, lvl, e)) { PmtAgrees(t, lvl, e, y); }
    GetAfterSetAddress(t, lvl, e, a);
  }

  lemma GetAfterSetAddress(t: HptType, lvl: nat, e: u64, a: u64)
    requires LvlIsValid(t, lvl) && !Is4MPage(t, lvl, e)
    requires IsPage(t, lvl, SetAddress(t, lvl, e, a)) == IsPage(t, lvl, e)
    ensures GetAddress(t, lvl, SetAddress(t, lvl, e, a)) ==
            CopyBits(0, a, AddrHi(t), AddrLo(t, lvl, IsPage(t, lvl, e)), 0)
    ensures AddressFits(t, lvl, IsPage(t, lvl, e), a) ==> GetAddress(t, lvl, SetAddress(t, lvl, e, a)) == a
  {
    var y := SetAddress(t, lvl, e, a);
    var hi, lo := AddrHi(t), AddrLo(t, lvl, IsPage(t, lvl, e));
    var m := CopyBits(0, a, hi, lo, 0);
    forall i: nat
      ensures Bit(GetAddress(t, lvl, y), i) <==> Bit(m, i)
    {
      GetAddressBit(t, lvl, y, i);
      SetAddressBit(t, lvl, e, a, i);
      CopyBitsBit(0, a, hi, lo, i);
      ZeroBits(i);
    }
    SameBits(GetAddress(t, lvl, y), m);
    if AddressFits(t, lvl, IsPage(t, lvl, e), a) { CopyWhole(a, hi, lo); }
  }

  lemma CopyWhole(a: u64, hi: nat, lo: nat)
    requires lo <= hi < 64 && a % Pow2(lo) == 0 && a < Pow2(hi + 1)
    ensures CopyBits(0, a, hi, lo, 0) == a
  {
    forall i: nat
      ensures Bit(CopyBits(0, a, hi, lo, 0), i) <==> Bit(a, i)
    {
      CopyBitsBit(0, a, hi, lo, i);
      ZeroBits(i);
      if hi < i { HighBits(a, hi + 1, i); }
      if i < lo { ModBit(a, lo, i); }
    }
    SameBits(CopyBits(0, a, hi, lo, 0), a);
  }

  lemma SetPmtLaw(t: HptType, lvl: nat, e: u64, pmt: nat)
    requires LvlIsValid(t, lvl) && PmtIsValid(t, pmt)
    requires t == Ept ==> lvl <= 3 && IsPage(t, lvl, e)
    ensures var y := SetPmt(t, lvl, e, pmt);
      && SameTarget(t, lvl, e, y)
      && GetPmt(t, lvl, y) == pmt
      && GetProt(t, lvl, y) == GetProt(t, lvl, e)
      && IsPresent(t, lvl, y) == IsPresent(t, lvl, e)
      && GetUser(t, lvl, y) == GetUser(t, lvl, e)
  {
    var y := SetPmt(t, lvl, e, pmt);
    forall i: nat | i !in PmtBits(t, lvl, IsPage(t, lvl, e)) ensures Bit(y, i) <==> Bit(e, i) {
      SetPmtKeeps(t, lvl, e, pmt, i);
    }
    OtherDigitsOnly(t, lvl, e, y);
    CacheDigitsOnly(t, lvl, e, y);
    GetAfterSetPmt(t, lvl, e, pmt);
  }

  /** Setting the memory type writes its pair of digits and clears the PAT digit of a page; for EPT it writes the
      three digits of the type. */
  lemma SetPmtDigits(t: HptType, lvl: nat, e: u64, pmt: nat, i: nat)
    requires LvlIsValid(t, lvl) && PmtIsValid(t, pmt)
    requires t == Ept ==> lvl <= 3 && IsPage(t, lvl, e)
    ensures Bit(SetPmt(t, lvl, e, pmt), i) <==>
      if t == Ept then if 3 <= i <= 5 then Bit(pmt, i - 3) else Bit(e, i)
      else if i == 3 then pmt == 0 || pmt == 4
      else if i == 4 then pmt == 0 || pmt == 1
      else Bit(e, i) && !(IsPage(t, lvl, e) && i == if lvl == 1 then 7 else 12)
  {
    if t == Ept {
      ProtFits(pmt);
      SetHLBit(e, 5, 3, pmt, i);
    } else {
      SetPatBit(t, lvl, e, i);
      SetCacheBit(SetPat(t, lvl, e, false), pmt == PMT_UC || pmt == PMT_WC, pmt == PMT_UC || pmt == PMT_WT, i);
    }
  }

  lemma CacheDigitsOnly(t: HptType, lvl: nat, x: u64, y: u64)
    requires LvlIsValid(t, lvl)
    requires forall i: nat | i !in PmtBits(t, lvl, IsPage(t, lvl, x)) :: Bit(y, i) <==> Bit(x, i)
    ensures SameTarget(t, lvl, x, y)
  {
    PageAgrees(t, lvl, x, y);
    if Is4MPage(t, lvl, x) { BigAddressAgrees(x, y); } else { AddressAgrees(t, lvl, x, y); }
  }

  lemma GetAfterSetPmt(t: HptType, lvl: nat, e: u64, pmt: nat)
    requires LvlIsValid(t, lvl) && PmtIsValid(t, pmt)
    requires t == Ept ==> lvl <= 3 && IsPage(t, lvl, e) && IsPage(t, lvl, SetPmt(t, lvl, e, pmt))
    ensures GetPmt(t, lvl, SetPmt(t, lvl, e, pmt)) == pmt
  {
    hide SetHL, GetHL, GetBit, SetBit, SetPat, IsPage;
    if t == Ept {
      ProtFits(pmt);
      GetAfterSet(e, 5, 3, pmt);
    } else {
      CacheReadBack(SetPat(t, lvl, e, false), pmt == PMT_UC || pmt == PMT_WC, pmt == PMT_UC || pmt == PMT_WT);
    }
  }

  lemma CacheReadBack(e: u64, pcd: bool, pwt: bool)
    ensures GetBit(SetBit(SetBit(e, 4, pcd), 3, pwt), 4) == pcd
    ensures GetBit(SetBit(SetBit(e, 4, pcd), 3, pwt), 3) == pwt
  {
    hide GetBit, SetBit;
    SetCacheBit(e, pcd, pwt, 3);
    SetCacheBit(e, pcd, pwt, 4);
    GetBitIsBit(SetBit(SetBit(e, 4, pcd), 3, pwt), 3);
    GetBitIsBit(SetBit(SetBit(e, 4, pcd), 3, pwt), 4);
  }

  // ----- page-map objects (src/hpto.c) -----

  /** Offset of an address in the page or region of level `lvl`. */
  function OffsetIn(t: HptType, lvl: nat, va: u64): u64
    requires LvlIsValid(t, lvl)
  {
    And(va, MaskRange(IdxHi(t, lvl - 1), 0))
  }

  /** Physical address that a page entry gives to a virtual address. */
  function VaToPa(t: HptType, lvl: nat, e: u64, va: u64): u64
    requires LvlIsValid(t, lvl) && IsPage(t, lvl, e)
  {
    (GetAddress(t, lvl, e) + OffsetIn(t, lvl, va)) % 0x1_0000_0000_0000_0000
  }

  /** Bytes from an address to the end of its page; the source passes the physical address. */
  function RemainingOnPage(t: HptType, lvl: nat, pa: u64): (r: nat)
    requires LvlIsValid(t, lvl)
    ensures 1 <= r <= Span(t, lvl)
  {
    OffsetIsRemainder(t, lvl, pa);
    Span(t, lvl) - OffsetIn(t, lvl, pa)
  }

  lemma OffsetIsRemainder(t: HptType, lvl: nat, va: u64)
    requires LvlIsValid(t, lvl)
    ensures OffsetIn(t, lvl, va) == va % Span(t, lvl)
  {
    var hi := IdxHi(t, lvl - 1);
    SpanIsPow2(t, lvl);
    forall i: nat
      ensures Bit(And(va, MaskRange(hi, 0)), i) <==> Bit(va % Pow2(hi + 1), i)
    {
      AndBit(va, MaskRange(hi, 0), i);
      MaskRangeBit(hi, 0, i);
      ModBit(va, hi + 1, i);
    }
    SameBits(And(va, MaskRange(hi, 0)), va % Pow2(hi + 1));
  }

  /** Entries of 32-bit paging are stored in 32 bits. */
  function Stored(t: HptType, e: u64): u64 {
    if t == Norm then e % 0x1_0000_0000 else e
  }

  /** Storing an entry loses none of its fields, the high address digits of a 4 MB page aside. */
  lemma StoredLaw(t: HptType, lvl: nat, e: u64)
    requires LvlIsValid(t, lvl)
    ensures var y := Stored(t, e);
      && (if t == Norm then y < 0x1_0000_0000 else y == e)
      && IsPage(t, lvl, y) == IsPage(t, lvl, e)
      && IsPresent(t, lvl, y) == IsPresent(t, lvl, e)
      && GetProt(t, lvl, y) == GetProt(t, lvl, e)
      && GetUser(t, lvl, y) == GetUser(t, lvl, e)
      && (!Is4MPage(t, lvl, e) ==> GetAddress(t, lvl, y) == GetAddress(t, lvl, e))
      && (t != Ept ==> GetPmt(t, lvl, y) == GetPmt(t, lvl, e))
      && SamePmt(t, lvl, e, y)
  {
    if t == Norm {
      var w := 32;
      Pow2Is(w);
      var y := Stored(t, e);
      forall i: nat | i < w ensures Bit(y, i) <==> Bit(e, i) { ModBit(e, w, i); }
      PageAgrees(t, lvl, e, y);
      ProtAgrees(t, lvl, e, y);
      UserAgrees(t, lvl, e, y);
      PmtAgrees(t, lvl, e, y);
      if !Is4MPage(t, lvl, e) { AddressAgrees(t, lvl, e, y); }
    }
  }

  /** The entry that links a new table: address, all rights and user access set in `e`. */
  function TablePointer(t: HptType, lvl: nat, e: u64, table: u64): u64
    requires LvlIsValid(t, lvl) && !IsPage(t, lvl, e)
  {
    var e1 := SetAddress(t, lvl, e, table);
    SetUser(t, lvl, SetProt(t, lvl, e1, PROT_RWX), true)
  }

  lemma TablePointerLaw(t: HptType, lvl: nat, e: u64, table: u64)
    requires LvlIsValid(t, lvl) && !IsPage(t, lvl, e) && AddressFits(t, lvl, false, table)
    ensures var y := Stored(t, TablePointer(t, lvl, e, table));
      && IsPresent(t, lvl, y) && !IsPage(t, lvl, y)
      && GetAddress(t, lvl, y) == table
      && GetProt(t, lvl, y) == PROT_RWX && GetUser(t, lvl, y)
  {
    var e1 := SetAddress(t, lvl, e, table);
    SetAddressLaw(t, lvl, e, table);
    var e2 := SetProt(t, lvl, e1, PROT_RWX);
    SetProtLaw(t, lvl, e1, PROT_RWX);
    SetUserLaw(t, lvl, e2, true);
    StoredLaw(t, lvl, SetUser(t, lvl, e2, true));
  }

  /** A table full of zeros maps nothing. */
  lemma ZeroEntry(t: HptType, lvl: nat)
    requires LvlIsValid(t, lvl)
    ensures !IsPresent(t, lvl, 0) && (lvl > 1 ==> !IsPage(t, lvl, 0))
  {
    PresentIsDigits(t, lvl, 0);
    GetBitIsBit(0, 7);
    ZeroBits(0); ZeroBits(1); ZeroBits(2); ZeroBits(7);
  }
}
