/** The static memory of the EPT builder at boot (src/shv-ept.c): zeroed roots and pools, nothing
    allocated, nothing built.  Every run of the builder starts here.
 */
module EptBoot {
  import opened Bitfield
  import opened Hpt
  import opened PageWalk
  import opened Pool
  import opened EptSpec
  import opened Hptw
  import opened LibcString
  import opened ShvEpt
  import Mtrr

  /** Page `i` of an array of pages. */
  function PageAt(base: nat, i: nat): nat {
    base + i * 0x1000
  }

  /** `n` zeroed pages, each at its address; page 0 is the root. */
  ghost predicate ZeroedPages(base: nat, n: nat, tables: map<u64, array<u64>>)
    reads set p | p in tables :: tables[p]
  {
    && (forall p :: p in tables <==> exists i: nat :: i < n && p == PageAt(base, i))
    && (forall p | p in tables :: tables[p].Length == 512 && forall k :: 0 <= k < 512 ==> tables[p][k] == 0)
    && (forall p, q | p in tables && q in tables && p != q :: tables[p] != tables[q])
  }

  method AllocatePages(base: nat, n: nat) returns (tables: map<u64, array<u64>>)
    requires base % 0x1000 == 0 && PageAt(base, n) <= 0x10_0000_0000_0000
    ensures ZeroedPages(base, n, tables)
    ensures forall p | p in tables :: fresh(tables[p])
  {
    tables := map[];
    var i := 0;
    while i < n
      invariant 0 <= i <= n && ZeroedPages(base, i, tables)
      invariant forall p | p in tables :: fresh(tables[p])
    {
      var page := new u64[512](_ => 0);
      var at: u64 := PageAt(base, i);
      assert forall p | p in tables :: p != at && tables[p] != page;
      tables := tables[at := page];
      i := i + 1;
    }
  }

  function PoolPages(base: nat): (pool: seq<u64>)
    requires PageAt(base, 129) <= 0x10_0000_0000_0000
    ensures |pool| == 128 && forall i :: 0 <= i < 128 ==> pool[i] == PageAt(base, i + 1)
  {
    seq(128, (i: nat) requires i < 128 => PageAt(base, i + 1) as u64)
  }

  /** Root and pool are distinct pages that entries can point to. */
  lemma PoolOk(base: u64)
    requires base % 0x1000 == 0 && PageAt(base, 129) <= 0x10_0000_0000_0000
    ensures ConfigOk(Config(Ept, base, PoolPages(base)))
  {
    var lo, hi := 12, 52;
    Pow2Is(lo);
    Pow2Is(hi);
    forall i | 0 <= i < 128
      ensures AddressFits(Ept, MaxLvl(Ept), false, PoolPages(base)[i])
    {
      ModUnique(PageAt(base, i + 1), 0x1000, base / 0x1000 + i + 1, 0);
    }
  }

  /** ept_root, ept_pool and ept_alloc of one root, as the loader leaves them. */
  method ZeroedContext(base: u64) returns (ctx: Context)
    requires base % 0x1000 == 0 && PageAt(base, 129) <= 0x10_0000_0000_0000
    ensures EmptyRoot(ctx) && ctx.root == base
    ensures fresh(ctx.Footprint())
  {
    hide AddressFits, ConfigOk, IsTree;
    var tables := AllocatePages(base, 129);
    var pool, alloc := PoolPages(base), new bool[128](_ => false);
    PoolOk(base);
    assert base == PageAt(base, 0);
    forall i | 0 <= i < |pool|
      ensures pool[i] in tables && Zeroed(Ept, tables[pool[i]][..])
    {
      assert pool[i] == PageAt(base, i + 1);
    }
    ctx := new Context(Ept, base, pool, tables, alloc);
  }

  /** ept_get_mem_type of a CPU as a function of the address; where the machine halts there is no type, and
      no entry is made with the one given here. */
  function MemTypeFrom(enabled: bool, ranges: seq<Mtrr.Range>, dflt: nat): u64 -> nat {
    a => match Mtrr.MemType(enabled, ranges, a, dflt)
      case Halt => Mtrr.UC
      case Type(t) => t
  }

  /** Registers that declare types of three digits meet what a layout demands of memory types. */
  lemma RegistersFit(enabled: bool, ranges: seq<Mtrr.Range>, dflt: nat)
    requires Mtrr.Declared(ranges) && dflt < 8
    ensures MemTypeOk(MemTypeFrom(enabled, ranges, dflt))
  {
    hide Mtrr.MemType;
    forall a ensures MemTypeFrom(enabled, ranges, dflt)(a) < 8 {
      Mtrr.MemTypeFits(enabled, ranges, a, dflt);
    }
  }

  /** The builder of a CPU before its first build: such states exist for every layout. */
  method Boot(base0: u64, base1: u64, layout: Layout, ram: array<byte>) returns (cpu: EptCpu)
    requires base0 % 0x1000 == 0 && PageAt(base0, 129) <= 0x10_0000_0000_0000
    requires base1 % 0x1000 == 0 && PageAt(base1, 129) <= 0x10_0000_0000_0000
    requires LayoutOk(layout) && layout.high <= ram.Length
    requires layout.bigOn ==> layout.targets + 256 * PAGE_4K <= layout.big0 || layout.big1 + PAGE_2M <= layout.targets
    ensures fresh(cpu) && cpu.Valid() && cpu.history == [] && cpu.layout == layout
    ensures fresh(cpu.ctx0.Footprint()) && fresh(cpu.ctx1.Footprint())
  {
    hide IsTree, Empty, LayoutOk, EmptyRoot, Context.Tabs, Context.Separate, Context.Snap, Context.Valid;
    hide EptCpu.Valid;
    var ctx0 := ZeroedContext(base0);
    var ctx1 := ZeroedContext(base1);
    var valid := new bool[2](_ => false);
    cpu := new EptCpu(ctx0, ctx1, valid, ram, layout);
  }
}
