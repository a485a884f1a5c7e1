/** The static memory that the table and screen code starts from: zeroed arrays, and for the kernel's
    tables the entries that the boot code writes (src/boot.S).  Every precondition of that code is met here.
 */
module StaticMemory {
  import opened Bitfield
  import opened Hpt
  import opened FlatTables
  import opened FlaggedEntries
  import opened Paging
  import opened LibcString
  import KernelTables
  import UserTables
  import opened UserLock
  import opened UserPrograms
  import VgaScreen

  // ----- the kernel's tables -----

  /** The boot code writes flags | address to the first `n` entries. */
  method WriteBootEntries(a: array<u64>, f: Fill, n: nat)
    requires f.count <= a.Length && n <= a.Length
    requires (f.flags == 0x3 || f.flags == 0x83) && f.base % 0x1000 == 0 && f.step % 0x1000 == 0
    requires f.base + n * f.step < 0x1_0000_0000_0000_0000
    modifies a
    ensures Booted(a[..], f, n)
    ensures forall k :: 0 <= k < n ==> a[k] == Word(f, k)
    ensures forall k :: n <= k < a.Length ==> a[k] == old(a[k])
  {
    hide Or64, Address, BootWord;
    var i := 0;
    while i < n
      invariant 0 <= i <= n
      invariant forall k :: 0 <= k < i ==> a[k] == Word(f, k)
      invariant forall k :: i <= k < a.Length ==> a[k] == old(a[k])
    {
      a[i] := Or64(f.flags, Address(f, i));
      i := i + 1;
    }
    forall k | 0 <= k < n
      ensures BootWord(Word(f, k), f, k)
    {
      MulOrder(k, n, f.step);
      WordIsFlagged(f, k);
      KernelTables.BootWordExactly(Word(f, k), f, k);
    }
  }

  /** 4-level paging: after the boot code, initialisation does not halt. */
  method BootLong(limit: nat, pml4tAt: u64, pdptAt: u64, pdtAt: u64) returns (tables: KernelTables.LongTables, cr3: u64)
    requires LayoutOk(Long, false, limit, [0, 0, pdtAt, pdptAt, pml4tAt]) && limit >= 0x1_0000_0000
    ensures fresh(tables) && tables.Valid() && cr3 == pml4tAt
    ensures TablesFilled(Long, false, limit, tables.Flats())
  {
    hide TablesFilled, Booted, Extended;
    var pml4t := new u64[Size(Long, false, limit, 4)](_ => 0);
    var pdpt := new u64[Size(Long, false, limit, 3)](_ => 0);
    var pdt := new u64[Size(Long, false, limit, 2)](_ => 0);
    tables := new KernelTables.LongTables(pml4t, pdpt, pdt, pml4tAt, pdptAt, pdtAt, limit);
    CountsFit(Long, false, limit, 4);
    CountsFit(Long, false, limit, 3);
    CountsFit(Long, false, limit, 2);
    WriteBootEntries(pml4t, tables.Loop(4), 1);
    WriteBootEntries(pdpt, tables.Loop(3), 4);
    WriteBootEntries(pdt, tables.Loop(2), 2048);
    var ok;
    ok, cr3 := tables.ShvPageTableInit();
    assert ok;
  }

  method BootPae(pdptAt: u64, pdtAt: u64) returns (tables: KernelTables.PaeTables, cr3: u64)
    requires LayoutOk(Pae, false, Span(Pae, 4), [0, 0, pdtAt, pdptAt])
    ensures fresh(tables) && tables.Valid() && cr3 == pdptAt
    ensures TablesFilled(Pae, false, Span(Pae, 4), tables.Flats())
  {
    hide TablesFilled, LayoutOk;
    var pdpt, pdt := new u64[4](_ => 0), new u64[4 * 512](_ => 0);
    tables := new KernelTables.PaeTables(pdpt, pdt, pdptAt, pdtAt);
    cr3 := tables.ShvPageTableInit();
  }

  method BootNorm(pdtAt: u64) returns (tables: KernelTables.NormTables, cr3: u64)
    ensures fresh(tables) && cr3 == pdtAt && TablesFilled(Norm, false, Span(Norm, 3), tables.Flats())
  {
    hide TablesFilled;
    var pdt := new u32[1024](_ => 0);
    tables := new KernelTables.NormTables(pdt, pdtAt);
    cr3 := tables.ShvPageTableInit();
  }

  // ----- the tables of user mode -----

  method UserLong(limit: nat, pml4tAt: u64, pdptAt: u64, pdtAt: u64, ptAt: u64)
    returns (tables: UserTables.LongTables, cr3: u64)
    requires PlanOk(Plan(Long, limit, [0, ptAt, pdtAt, pdptAt, pml4tAt]))
    ensures fresh(tables) && tables.Valid() && cr3 == pml4tAt && tables.Filled()
  {
    hide PlanOk;
    var pml4t := new u64[Size(Long, true, limit, 4)](_ => 0);
    var pdpt := new u64[Size(Long, true, limit, 3)](_ => 0);
    var pdt := new u64[Size(Long, true, limit, 2)](_ => 0);
    var pt := new u64[Size(Long, true, limit, 1)](_ => 0);
    tables := new UserTables.LongTables(pml4t, pdpt, pdt, pt, pml4tAt, pdptAt, pdtAt, ptAt, limit);
    cr3 := tables.SetUserModePageTable();
  }

  method UserPae(pdptAt: u64, pdtAt: u64, ptAt: u64) returns (tables: UserTables.PaeTables, cr3: u64)
    requires PlanOk(Plan(Pae, 0x1_0000_0000, [0, ptAt, pdtAt, pdptAt]))
    ensures fresh(tables) && tables.Valid() && cr3 == pdptAt && tables.Filled()
  {
    hide PlanOk;
    var pdpt, pdt, pt := new u64[4](_ => 0), new u64[4 * 512](_ => 0), new u64[4 * 512 * 512](_ => 0);
    tables := new UserTables.PaeTables(pdpt, pdt, pt, pdptAt, pdtAt, ptAt);
    cr3 := tables.SetUserModePageTable();
  }

  method UserNorm(pdtAt: u64, ptAt: u64) returns (tables: UserTables.NormTables, cr3: u64)
    requires PlanOk(Plan(Norm, 0x1_0000_0000, [0, ptAt, pdtAt]))
    ensures fresh(tables) && tables.Valid() && cr3 == pdtAt && tables.Filled()
  {
    hide PlanOk;
    var pdt, pt := new u32[1024](_ => 0), new u32[1024 * 1024](_ => 0);
    tables := new UserTables.NormTables(pdt, pt, pdtAt, ptAt);
    cr3 := tables.SetUserModePageTable();
  }

  /** Such layouts exist: the tables one after the other from 16 MB on. */
  lemma LongLayoutExists()
    ensures LayoutOk(Long, false, 0x1_0000_0000, [0, 0, 0x100_2000, 0x100_1000, 0x100_0000])
  {
    assert Count(Long, false, 0x1_0000_0000, 4) == 1;
    assert Count(Long, false, 0x1_0000_0000, 3) == 4;
  }

  lemma PaeLayoutExists()
    ensures LayoutOk(Pae, false, Span(Pae, 4), [0, 0, 0x100_1000, 0x100_0000])
  {
  }

  lemma UserLongPlanExists()
    ensures PlanOk(Plan(Long, 0x1_0000_0000, [0, 0x200_0000, 0x100_2000, 0x100_1000, 0x100_0000]))
  {
    assert Count(Long, true, 0x1_0000_0000, 4) == 1;
    assert Count(Long, true, 0x1_0000_0000, 3) == 4;
    assert Count(Long, true, 0x1_0000_0000, 2) == 2048;
  }

  lemma UserPaePlanExists()
    ensures PlanOk(Plan(Pae, 0x1_0000_0000, [0, 0x200_0000, 0x100_1000, 0x100_0000]))
  {
    assert Count(Pae, true, 0x1_0000_0000, 3) == 4;
    assert Count(Pae, true, 0x1_0000_0000, 2) == 2048;
  }

  lemma UserNormPlanExists()
    ensures PlanOk(Plan(Norm, 0x1_0000_0000, [0, 0x200_0000, 0x100_0000]))
  {
    assert Count(Norm, true, 0x1_0000_0000, 2) == 1024;
  }

  // ----- the screen -----

  /** Video memory with anything in it: after initialisation and a string, the screen shows the string. */
  method ShowText(vidmem: array<byte>, text: seq<byte>) returns (screen: VgaScreen.Screen)
    requires vidmem.Length == VgaScreen.ROWS * VgaScreen.ROW
    modifies vidmem
    ensures fresh(screen) && screen.vidmem == vidmem && screen.Shows(text)
  {
    screen := new VgaScreen.Screen(vidmem);
    screen.Init();
    screen.Putstr(text, []);
    assert [] + text == text;
  }
}
