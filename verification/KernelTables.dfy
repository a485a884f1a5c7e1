/** shv_page_table_init (src/paging.c) in its three builds: identity tables with large pages. */
module KernelTables {
  import opened Bitfield
  import opened Hpt
  import opened PageWalk
  import opened FlatTables
  import opened FlaggedEntries
  import opened Paging

  /** The check of the boot code's words accepts exactly flags | address, whatever the accessed and
      dirty digits are. */
  lemma BootWordExactly(e: u64, f: Fill, k: nat)
    requires (f.flags == 0x3 || f.flags == 0x83) && f.base % 0x1000 == 0 && f.step % 0x1000 == 0
    requires f.base + k * f.step < 0x1_0000_0000_0000_0000
    ensures BootWord(e, f, k) <==> Flagged(e, f.flags, f.base + k * f.step)
  {
    hide Or, Bit, BootWord;
    if BootWord(e, f, k) {
      BootWordIsFlagged(e, f, k);
    }
    if Flagged(e, f.flags, f.base + k * f.step) {
      FlaggedIsBoot(e, f, k);
    }
  }

  lemma FlaggedIsBoot(e: u64, f: Fill, k: nat)
    requires (f.flags == 0x3 || f.flags == 0x83) && f.base % 0x1000 == 0 && f.step % 0x1000 == 0
    requires f.base + k * f.step < 0x1_0000_0000_0000_0000 && Flagged(e, f.flags, f.base + k * f.step)
    ensures BootWord(e, f, k)
  {
    hide Or, Bit, Address;
    AlignedAddress(f, k);
    var w := 12;
    Pow2Is(w);
    var a, g := Address(f, k), 0x60 + f.flags;
    forall i: nat
      ensures Bit(Or(0x60, e), i) <==> Bit(Or(g, a), i)
    {
      OrBit(0x60, e, i);
      OrBit(g, a, i);
      FlagDigits(i);
      if i < w { AlignedDigits(a, w, i); }
    }
    SameBits(Or(0x60, e), Or(g, a));
  }

  /** 4-level paging: the first entries were written by the boot code. */
  class LongTables {
    const pml4t: array<u64>
    const pdpt: array<u64>
    const pdt: array<u64>
    const pml4tAt: u64
    const pdptAt: u64
    const pdtAt: u64
    const limit: nat

    constructor (pml4t: array<u64>, pdpt: array<u64>, pdt: array<u64>,
                 pml4tAt: u64, pdptAt: u64, pdtAt: u64, limit: nat)
      requires LayoutOk(Long, false, limit, [0, 0, pdtAt, pdptAt, pml4tAt])
      requires pml4t.Length == Size(Long, false, limit, 4) && pdpt.Length == Size(Long, false, limit, 3)
      requires pdt.Length == Size(Long, false, limit, 2)
      requires pml4t != pdpt && pml4t != pdt && pdpt != pdt
      ensures Valid() && this.pml4t == pml4t && this.pdpt == pdpt && this.pdt == pdt
      ensures At() == [0, 0, pdtAt, pdptAt, pml4tAt] && this.limit == limit
    {
      this.pml4t, this.pdpt, this.pdt := pml4t, pdpt, pdt;
      this.pml4tAt, this.pdptAt, this.pdtAt, this.limit := pml4tAt, pdptAt, pdtAt, limit;
    }

    ghost predicate Valid() {
      && LayoutOk(Long, false, limit, At())
      && pml4t.Length == Size(Long, false, limit, 4) && pdpt.Length == Size(Long, false, limit, 3)
      && pdt.Length == Size(Long, false, limit, 2)
      && pml4t != pdpt && pml4t != pdt && pdpt != pdt
    }

    function At(): seq<u64> {
      [0, 0, pdtAt, pdptAt, pml4tAt]
    }

    ghost function Flats(): seq<Flat>
      reads pml4t, pdpt, pdt
    {
      [Flat(0, []), Flat(0, []), Flat(pdtAt, pdt[..]), Flat(pdptAt, pdpt[..]), Flat(pml4tAt, pml4t[..])]
    }

    function Loop(l: nat): Fill
      requires 2 <= l <= 4
    {
      FillOf(Long, false, limit, At(), l)
    }

    /** The boot code wrote the first 512 GB entry, the first four 1 GB entries and the first 2048
        2 MB entries. */
    ghost predicate BootCodeRan()
      requires Valid()
      reads pml4t, pdpt, pdt
    {
      hide Count, Size;
      CountsFit(Long, false, limit, 4); CountsFit(Long, false, limit, 3); CountsFit(Long, false, limit, 2);
      Booted(pml4t[..], Loop(4), 1) && Booted(pdpt[..], Loop(3), 4) && Booted(pdt[..], Loop(2), 2048)
    }

    lemma FlatsFilled()
      requires Valid()
      requires LevelFilled(Long, false, limit, At(), 4, pml4t[..])
      requires LevelFilled(Long, false, limit, At(), 3, pdpt[..])
      requires LevelFilled(Long, false, limit, At(), 2, pdt[..])
      ensures TablesFilled(Long, false, limit, Flats())
    {
      hide LevelFilled, LayoutOk;
      assert Bases(Flats()) == At();
    }

    /** Halts, without a result, exactly when a word of the boot code is wrong. */
    method ShvPageTableInit() returns (ok: bool, cr3: u64)
      requires Valid()
      modifies pml4t, pdpt, pdt
      ensures ok <==> old(BootCodeRan())
      ensures ok ==> cr3 == pml4tAt && TablesFilled(Long, false, limit, Flats())
      ensures ok ==> Extended(old(pml4t[..]), pml4t[..], Loop(4), 1)
      ensures ok ==> Extended(old(pdpt[..]), pdpt[..], Loop(3), 4)
      ensures ok ==> Extended(old(pdt[..]), pdt[..], Loop(2), 2048)
    {
      hide Count, Size, Booted, Extended, LevelFilled, TablesFilled;
      CountsFit(Long, false, limit, 4); CountsFit(Long, false, limit, 3); CountsFit(Long, false, limit, 2);
      ghost var s4, s3, s2 := pml4t[..], pdpt[..], pdt[..];
      cr3 := 0;
      ok := FillArray(pml4t, Loop(4), 1);
      if !ok { return; }
      assert pdpt[..] == s3;
      ok := FillArray(pdpt, Loop(3), 4);
      if !ok { return; }
      assert pdt[..] == s2;
      ok := FillArray(pdt, Loop(2), 2048);
      if !ok { return; }
      ExtendedIsFilled(Long, false, limit, At(), 4, s4, pml4t[..], 1);
      ExtendedIsFilled(Long, false, limit, At(), 3, s3, pdpt[..], 4);
      ExtendedIsFilled(Long, false, limit, At(), 2, s2, pdt[..], 2048);
      FlatsFilled();
      cr3 := pml4tAt;
    }
  }

  /** PAE paging: four entries of the root, all of the 2 MB entries. */
  class PaeTables {
    const pdpt: array<u64>
    const pdt: array<u64>
    const pdptAt: u64
    const pdtAt: u64

    constructor (pdpt: array<u64>, pdt: array<u64>, pdptAt: u64, pdtAt: u64)
      requires LayoutOk(Pae, false, Span(Pae, 4), [0, 0, pdtAt, pdptAt])
      requires pdpt.Length == 4 && pdt.Length == 4 * 512 && pdpt != pdt
      ensures Valid() && this.pdpt == pdpt && this.pdt == pdt && At() == [0, 0, pdtAt, pdptAt]
    {
      this.pdpt, this.pdt, this.pdptAt, this.pdtAt := pdpt, pdt, pdptAt, pdtAt;
    }

    ghost predicate Valid() {
      && LayoutOk(Pae, false, Span(Pae, 4), At())
      && pdpt.Length == 4 && pdt.Length == 4 * 512 && pdpt != pdt
    }

    function At(): seq<u64> {
      [0, 0, pdtAt, pdptAt]
    }

    ghost function Flats(): seq<Flat>
      reads pdpt, pdt
    {
      [Flat(0, []), Flat(0, []), Flat(pdtAt, pdt[..]), Flat(pdptAt, pdpt[..])]
    }

    method ShvPageTableInit() returns (cr3: u64)
      requires Valid()
      modifies pdpt, pdt
      ensures cr3 == pdptAt && TablesFilled(Pae, false, Span(Pae, 4), Flats())
    {
      hide Booted, Extended, LevelFilled, LayoutOk;
      ghost var s3, s2 := pdpt[..], pdt[..];
      var _ := FillArray(pdpt, Fill(0x1, pdtAt, 0x1000, 4), 0);
      NothingBooted(s3, Fill(0x1, pdtAt, 0x1000, 4));
      assert pdt[..] == s2;
      var _ := FillArray(pdt, Fill(0x83, 0, SIZE_2M, 4 * 512), 0);
      NothingBooted(s2, Fill(0x83, 0, SIZE_2M, 4 * 512));
      ExtendedIsFilled(Pae, false, Span(Pae, 4), At(), 3, s3, pdpt[..], 0);
      ExtendedIsFilled(Pae, false, Span(Pae, 4), At(), 2, s2, pdt[..], 0);
      assert Bases(Flats()) == At();
      cr3 := pdptAt;
    }
  }

  /** 32-bit paging: one table of 4 MB pages; words and addresses of 32 bits. */
  class NormTables {
    const pdt: array<u32>
    const pdtAt: u64

    constructor (pdt: array<u32>, pdtAt: u64)
      requires pdt.Length == 1024
      ensures this.pdt == pdt && this.pdtAt == pdtAt
    {
      this.pdt, this.pdtAt := pdt, pdtAt;
    }

    ghost function Flats(): seq<Flat>
      reads pdt
    {
      [Flat(0, []), Flat(0, []), Flat(pdtAt, pdt[..])]
    }

    method ShvPageTableInit() returns (cr3: u64)
      requires pdt.Length == 1024
      modifies pdt
      ensures cr3 == pdtAt && TablesFilled(Norm, false, Span(Norm, 3), Flats())
    {
      hide Or, Or64;
      ghost var f := FillOf(Norm, false, Span(Norm, 3), [0, 0, pdtAt], 2);
      var i, paddr: u32 := 0, 0;
      while i < 1024
        invariant 0 <= i <= 1024 && paddr == i * SIZE_4M % 0x1_0000_0000
        invariant forall k | 0 <= k < i :: pdt[k] == Word(f, k)
      {
        Narrow(0x83, paddr);
        pdt[i] := Or64(0x83, paddr);
        i, paddr := i + 1, (paddr + SIZE_4M) % 0x1_0000_0000;
      }
      assert Bases(Flats()) == [0, 0, pdtAt];
      cr3 := pdtAt;
    }
  }
}
