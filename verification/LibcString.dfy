/** Byte loops of src/libc_string.c on a flat memory; pointers are indices. */
module LibcString {

  type byte = x: int | 0 <= x < 256

  /** Bytes copied one after the other from addresses `srcs` to addresses `dsts`: what any sequence
      of byte copies does, whether or not the addresses overlap. */
  function Move(mem: seq<byte>, dsts: seq<nat>, srcs: seq<nat>): (r: seq<byte>)
    requires |dsts| == |srcs| && InRange(mem, dsts) && InRange(mem, srcs)
    ensures |r| == |mem|
    decreases |dsts|
  {
    if dsts == [] then mem
    else
      var n := |dsts| - 1;
      var before := Move(mem, dsts[..n], srcs[..n]);
      before[dsts[n] := before[srcs[n]]]
  }

  predicate InRange(mem: seq<byte>, addrs: seq<nat>) {
    forall i :: 0 <= i < |addrs| ==> addrs[i] < |mem|
  }

  /** The addresses p, p + 1, ..., p + n - 1. */
  function Range(p: nat, n: nat): (r: seq<nat>)
    ensures |r| == n && forall i :: 0 <= i < n ==> r[i] == p + i
  {
    seq(n, i requires 0 <= i < n => p + i)
  }

  /** Copies in two batches are copies in one. */
  lemma {:induction false} MoveTwice(mem: seq<byte>, d1: seq<nat>, s1: seq<nat>, d2: seq<nat>, s2: seq<nat>)
    requires |d1| == |s1| && |d2| == |s2|
    requires InRange(mem, d1) && InRange(mem, s1) && InRange(mem, d2) && InRange(mem, s2)
    ensures InRange(mem, d1 + d2) && InRange(mem, s1 + s2)
    ensures Move(mem, d1 + d2, s1 + s2) == Move(Move(mem, d1, s1), d2, s2)
    decreases |d2|
  {
    if d2 == [] {
      assert d1 + d2 == d1 && s1 + s2 == s1;
    } else {
      var n := |d2| - 1;
      MoveTwice(mem, d1, s1, d2[..n], s2[..n]);
      assert (d1 + d2)[..|d1| + n] == d1 + d2[..n];
      assert (s1 + s2)[..|s1| + n] == s1 + s2[..n];
    }
  }

  /** With distinct destinations that are no sources, every destination gets the old byte of its
      source and nothing else changes. */
  lemma {:induction false} MoveDisjoint(mem: seq<byte>, dsts: seq<nat>, srcs: seq<nat>, p: nat)
    requires |dsts| == |srcs| && InRange(mem, dsts) && InRange(mem, srcs) && p < |mem|
    requires forall i, j :: 0 <= i < j < |dsts| ==> dsts[i] != dsts[j]
    requires forall i, j :: 0 <= i < |dsts| && 0 <= j < |dsts| ==> dsts[i] != srcs[j]
    ensures forall i :: 0 <= i < |dsts| && dsts[i] == p ==> Move(mem, dsts, srcs)[p] == mem[srcs[i]]
    ensures p !in dsts ==> Move(mem, dsts, srcs)[p] == mem[p]
    decreases |dsts|
  {
    if dsts == [] {
    } else {
      var n := |dsts| - 1;
      MoveDisjoint(mem, dsts[..n], srcs[..n], p);
      MoveDisjoint(mem, dsts[..n], srcs[..n], srcs[n]);
    }
  }

  /** memcpy copies upwards, byte by byte. */
  method Memcpy(mem: array<byte>, to: nat, from: nat, n: nat)
    requires to + n <= mem.Length && from + n <= mem.Length
    modifies mem
    ensures mem[..] == Move(old(mem[..]), Range(to, n), Range(from, n))
  {
    var i := 0;
    while i < n
      invariant 0 <= i <= n
      invariant mem[..] == Move(old(mem[..]), Range(to, i), Range(from, i))
    {
      assert Range(to, i + 1)[..i] == Range(to, i) && Range(from, i + 1)[..i] == Range(from, i);
      mem[to + i] := mem[from + i];
      i := i + 1;
    }
  }

  /** `mem` with the bytes at [p, p + n) set to `c`. */
  function Filled(mem: seq<byte>, p: nat, n: nat, c: byte): seq<byte>
    requires p + n <= |mem|
  {
    mem[..p] + seq(n, _ => c) + mem[p + n..]
  }

  method Memset(mem: array<byte>, p: nat, c: byte, len: nat)
    requires p + len <= mem.Length
    modifies mem
    ensures mem[..] == Filled(old(mem[..]), p, len, c)
  {
    var i := 0;
    while i < len
      invariant 0 <= i <= len
      invariant mem[..] == Filled(old(mem[..]), p, i, c)
    {
      mem[p + i] := c;
      i := i + 1;
    }
  }

  /** The byte that memmove leaves at `p` when places [lo, hi) get the bytes `d` further on. */
  function MovedByte(was: seq<byte>, d: int, lo: nat, hi: nat, p: nat): byte
    requires p < |was| && (lo <= p < hi ==> 0 <= p + d < |was|)
  {
    if lo <= p < hi then was[p + d] else was[p]
  }

  method CopyDown(mem: array<byte>, dst: nat, src: nat, length: nat)
    requires src < dst && dst + length <= mem.Length
    modifies mem
    ensures forall p :: 0 <= p < mem.Length ==> mem[p] == MovedByte(old(mem[..]), src - dst, dst, dst + length, p)
  {
    ghost var was := mem[..];
    var n := length;
    while n > 0
      invariant 0 <= n <= length
      invariant forall p :: 0 <= p < mem.Length ==> mem[p] == MovedByte(was, src - dst, dst + n, dst + length, p)
    {
      n := n - 1;
      mem[dst + n] := mem[src + n];
    }
  }

  method CopyUp(mem: array<byte>, dst: nat, src: nat, length: nat)
    requires !(src < dst < src + length) && dst + length <= mem.Length && src + length <= mem.Length
    modifies mem
    ensures forall p :: 0 <= p < mem.Length ==> mem[p] == MovedByte(old(mem[..]), src - dst, dst, dst + length, p)
  {
    ghost var was := mem[..];
    var i := 0;
    while i < length
      invariant 0 <= i <= length
      invariant forall p :: 0 <= p < mem.Length ==> mem[p] == MovedByte(was, src - dst, dst, dst + i, p)
    {
      mem[dst + i] := mem[src + i];
      i := i + 1;
    }
  }

  /** memmove: the destination gets the old source bytes for every overlap. */
  method Memmove(mem: array<byte>, dst: nat, src: nat, length: nat)
    requires dst + length <= mem.Length && src + length <= mem.Length
    modifies mem
    ensures mem[..] == old(mem[..])[..dst] + old(mem[..])[src..src + length] + old(mem[..])[dst + length..]
  {
    ghost var was := mem[..];
    if src < dst < src + length {
      CopyDown(mem, dst, src, length);
    } else {
      CopyUp(mem, dst, src, length);
    }
    ghost var goal := was[..dst] + was[src..src + length] + was[dst + length..];
    forall p | 0 <= p < mem.Length ensures mem[p] == goal[p] {
      assert mem[p] == MovedByte(was, src - dst, dst, dst + length, p);
    }
    assert mem[..] == goal;
  }
}
