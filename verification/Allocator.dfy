/** The bump allocator `page_alloc` / `page_alloc_n` as the code has it, including what it
    does when no free block is left. */
module Allocator {
  import opened PagedLayout

  /** A run of `n` blocks from byte offset `off`. */
  datatype Extent = Extent(off: nat, n: nat)

  /** A request for `n` blocks; `extendable` is what `xxfs_os_file_extend` would answer. */
  datatype Request = Request(n: nat, extendable: bool)

  /** The superblock fields an allocation reads and writes. */
  datatype Counters = Counters(dataOff: nat, blockCount: nat, freeBlocks: nat)

  /** `s_data_off + (s_free_blocks > 0 ? (s_block_count - s_free_blocks) * BLOCK_SIZE : 0)`. */
  function NextOff(c: Counters): nat
    requires c.freeBlocks <= c.blockCount
  {
    c.dataOff + (if c.freeBlocks > 0 then (c.blockCount - c.freeBlocks) * BLOCK_SIZE else 0)
  }

  /** `page_alloc` on the counters: the offset, or 0, and the new counters. */
  function AllocOne(c: Counters, extendable: bool): (r: (nat, Counters))
    requires c.freeBlocks <= c.blockCount
  {
    if c.freeBlocks > 0 then (NextOff(c), c.(freeBlocks := c.freeBlocks - 1))
    else if extendable then (NextOff(c), c.(blockCount := c.blockCount + 1))
    else (0, c)
  }

  /** `page_alloc_n` on the counters. */
  function AllocMany(c: Counters, n: nat, extendable: bool): (r: (nat, Counters))
    requires c.freeBlocks <= c.blockCount
  {
    if n == 0 then (0, c)
    else if n == 1 then AllocOne(c, extendable)
    else if c.freeBlocks >= n then (NextOff(c), c.(freeBlocks := c.freeBlocks - n))
    else if extendable then (NextOff(c), c.(blockCount := c.blockCount + (n - c.freeBlocks), freeBlocks := 0))
    else (0, c)
  }

  // ---- allocations in a row ----

  /** The counters, and how often `xxfs_os_file_extend` was asked; `grows(i)` is its answer
      to request number `i`. */
  datatype Ledger = Ledger(c: Counters, asked: nat)

  /** Is the next block granted, out of the free ones or by extending the file? */
  predicate Grants(grows: nat -> bool, l: Ledger) {
    || l.c.freeBlocks > 0
    || (grows(l.asked) && l.c.dataOff + (l.c.blockCount + 1) * BLOCK_SIZE <= FILE_LIMIT)
  }

  /** After asking for one block. */
  function AfterOne(grows: nat -> bool, l: Ledger): (r: Ledger)
    ensures r.c.dataOff == l.c.dataOff
  {
    if l.c.freeBlocks > 0 then l.(c := l.c.(freeBlocks := l.c.freeBlocks - 1))
    else if Grants(grows, l) then Ledger(l.c.(blockCount := l.c.blockCount + 1), l.asked + 1)
    else l.(asked := l.asked + 1)
  }

  /** Are the next `n` blocks granted? */
  predicate Affords(grows: nat -> bool, l: Ledger, n: nat)
    decreases n
  {
    n == 0 || (Grants(grows, l) && Affords(grows, AfterOne(grows, l), n - 1))
  }

  /** After asking for `n` blocks. */
  function Spend(grows: nat -> bool, l: Ledger, n: nat): Ledger
    decreases n
  {
    if n == 0 then l else Spend(grows, AfterOne(grows, l), n - 1)
  }

  /** `n` free blocks fewer, and nothing else. */
  function Less(l: Ledger, n: nat): Ledger
    requires l.c.freeBlocks >= n
  {
    l.(c := l.c.(freeBlocks := l.c.freeBlocks - n))
  }

  lemma {:induction false} SpendMore(grows: nat -> bool, l: Ledger, m: nat, n: nat)
    ensures Affords(grows, l, m + n) <==> Affords(grows, l, m) && Affords(grows, Spend(grows, l, m), n)
    ensures Spend(grows, l, m + n) == Spend(grows, Spend(grows, l, m), n)
    decreases m
  {
    if m > 0 { SpendMore(grows, AfterOne(grows, l), m - 1, n); }
  }

  /** As many blocks as are free are granted: the free count falls by just that number, and
      nothing else changes. */
  lemma {:induction false} SpendFree(grows: nat -> bool, l: Ledger, n: nat)
    requires l.c.freeBlocks >= n
    ensures Affords(grows, l, n) && Spend(grows, l, n) == Less(l, n)
    decreases n
  {
    if n > 0 { SpendFree(grows, AfterOne(grows, l), n - 1); }
  }

  /** Every granted block is accounted for. */
  lemma {:induction false} SpendCounts(grows: nat -> bool, l: Ledger, n: nat)
    requires Affords(grows, l, n)
    ensures var r := Spend(grows, l, n);
            r.c.blockCount - r.c.freeBlocks == l.c.blockCount - l.c.freeBlocks + n && r.asked >= l.asked
    decreases n
  {
    if n > 0 { SpendCounts(grows, AfterOne(grows, l), n - 1); }
  }

  /** Is a run of `n` blocks granted at once? */
  predicate GrantsRun(grows: nat -> bool, l: Ledger, n: nat) {
    l.c.freeBlocks >= n || grows(l.asked)
  }

  /** After asking for a run of `n` blocks: out of the free ones, or all of these and an
      extension for the rest. */
  function AfterRun(grows: nat -> bool, l: Ledger, n: nat): Ledger {
    if l.c.freeBlocks >= n then Less(l, n)
    else if grows(l.asked) then
      Ledger(l.c.(blockCount := l.c.blockCount + (n - l.c.freeBlocks), freeBlocks := 0), l.asked + 1)
    else l.(asked := l.asked + 1)
  }

  /** Are the runs granted one after the other? */
  predicate AffordsRuns(grows: nat -> bool, l: Ledger, runs: seq<nat>)
    decreases |runs|
  {
    runs == [] || (GrantsRun(grows, l, runs[0]) && AffordsRuns(grows, AfterRun(grows, l, runs[0]), runs[1..]))
  }

  /** After asking for the runs in turn, up to the first that is refused. */
  function SpendRuns(grows: nat -> bool, l: Ledger, runs: seq<nat>): Ledger
    decreases |runs|
  {
    if runs == [] then l
    else if GrantsRun(grows, l, runs[0]) then SpendRuns(grows, AfterRun(grows, l, runs[0]), runs[1..])
    else AfterRun(grows, l, runs[0])
  }

  lemma OneRun(grows: nat -> bool, l: Ledger, n: nat)
    ensures AffordsRuns(grows, l, [n]) <==> GrantsRun(grows, l, n)
    ensures SpendRuns(grows, l, [n]) == AfterRun(grows, l, n)
  {
    assert [n][1..] == [];
  }

  lemma {:induction false} RunsInTurn(grows: nat -> bool, l: Ledger, a: seq<nat>, b: seq<nat>)
    ensures AffordsRuns(grows, l, a + b) <==> AffordsRuns(grows, l, a) && AffordsRuns(grows, SpendRuns(grows, l, a), b)
    ensures SpendRuns(grows, l, a + b) ==
            if AffordsRuns(grows, l, a) then SpendRuns(grows, SpendRuns(grows, l, a), b) else SpendRuns(grows, l, a)
    decreases |a|
  {
    if a == [] {
      assert a + b == b;
    } else {
      assert (a + b)[1..] == a[1..] + b;
      RunsInTurn(grows, AfterRun(grows, l, a[0]), a[1..], b);
    }
  }

  function Sum(runs: seq<nat>): nat {
    if runs == [] then 0 else runs[0] + Sum(runs[1..])
  }

  /** Enough free blocks for all runs: they are granted, and just these blocks are taken. */
  lemma {:induction false} RunsFree(grows: nat -> bool, l: Ledger, runs: seq<nat>)
    requires l.c.freeBlocks >= Sum(runs)
    ensures AffordsRuns(grows, l, runs) && SpendRuns(grows, l, runs) == Less(l, Sum(runs))
    decreases |runs|
  {
    if runs != [] { RunsFree(grows, Less(l, runs[0]), runs[1..]); }
  }

  /** Of the requests since `l0`, the last one was refused. */
  predicate Refused(grows: nat -> bool, l0: Ledger, l: Ledger) {
    l.asked > l0.asked && !Grants(grows, l.(asked := l.asked - 1))
  }

  /** An operation that needs `n` blocks: it succeeds exactly when they are granted, takes just
      these, and fails only on a request that was refused. */
  predicate Pays(grows: nat -> bool, l: Ledger, n: nat, l': Ledger, ok: bool) {
    && (ok <==> Affords(grows, l, n))
    && (ok ==> l' == Spend(grows, l, n))
    && (!ok ==> Refused(grows, l, l'))
  }

  lemma PaysMore(grows: nat -> bool, l: Ledger, m: nat, n: nat, l': Ledger, ok: bool)
    requires Affords(grows, l, m) && Pays(grows, Spend(grows, l, m), n, l', ok)
    ensures Pays(grows, l, m + n, l', ok)
  {
    SpendMore(grows, l, m, n);
    SpendCounts(grows, l, m);
  }

  lemma PaysNothing(grows: nat -> bool, l: Ledger)
    ensures Pays(grows, l, 0, l, true)
  {
  }

  /** A request refused after others were granted. */
  lemma RefusedLater(grows: nat -> bool, l0: Ledger, n: nat, l1: Ledger, l2: Ledger)
    requires Pays(grows, l0, n, l1, true) && Refused(grows, l1, l2)
    ensures Refused(grows, l0, l2)
  {
    SpendCounts(grows, l0, n);
  }

  function EndOf(e: Extent): nat {
    e.off + e.n * BLOCK_SIZE
  }

  /** The extents fill the region from `from` to `to` one after the other, without a gap. */
  ghost predicate Tile(es: seq<Extent>, from: nat, to: nat) {
    if es == [] then from == to
    else es[|es| - 1].off >= from && EndOf(es[|es| - 1]) == to && Tile(es[..|es| - 1], from, es[|es| - 1].off)
  }

  /** Extents that tile a region are pairwise disjoint and in order. */
  lemma {:induction false} TilesAreDisjoint(es: seq<Extent>, from: nat, to: nat, i: nat, j: nat)
    requires Tile(es, from, to) && i < j < |es|
    ensures from <= es[i].off && EndOf(es[i]) <= es[j].off && EndOf(es[j]) <= to
    decreases |es|
  {
    var init := es[..|es| - 1];
    TileBounds(init, from, es[|es| - 1].off, i);
    if j < |init| {
      TilesAreDisjoint(init, from, es[|es| - 1].off, i, j);
    }
  }

  lemma {:induction false} TileBounds(es: seq<Extent>, from: nat, to: nat, i: nat)
    requires Tile(es, from, to) && i < |es|
    ensures from <= es[i].off && EndOf(es[i]) <= to
    decreases |es|
  {
    if i < |es| - 1 { TileBounds(es[..|es| - 1], from, es[|es| - 1].off, i); }
  }

  /** Every byte of a tiled region lies in an extent (and, the extents being disjoint, in one only). */
  lemma {:induction false} TilesCover(es: seq<Extent>, from: nat, to: nat, b: nat)
    requires Tile(es, from, to) && from <= b < to
    ensures exists i :: 0 <= i < |es| && es[i].off <= b < EndOf(es[i])
    decreases |es|
  {
    var last := es[|es| - 1];
    if b >= last.off {
      assert es[|es| - 1].off <= b < EndOf(es[|es| - 1]);
    } else {
      TilesCover(es[..|es| - 1], from, last.off, b);
      var i :| 0 <= i < |es| - 1 && es[..|es| - 1][i].off <= b < EndOf(es[..|es| - 1][i]);
      assert es[i].off <= b < EndOf(es[i]);
    }
  }

  class SuperBlock {
    var dataOff: nat
    var blockCount: nat
    var freeBlocks: nat

    ghost predicate Valid()
      reads this
    {
      freeBlocks <= blockCount && 0 < dataOff
    }

    function Now(): Counters
      reads this
    {
      Counters(dataOff, blockCount, freeBlocks)
    }

    /** Blocks handed out so far. */
    ghost function Used(): nat
      requires Valid()
      reads this
    {
      blockCount - freeBlocks
    }

    /** The first byte behind everything handed out so far. */
    ghost function Watermark(): nat
      requires Valid()
      reads this
    {
      dataOff + Used() * BLOCK_SIZE
    }

    constructor (dataOff: nat, blockCount: nat, freeBlocks: nat)
      requires freeBlocks <= blockCount && 0 < dataOff
      ensures Valid() && this.dataOff == dataOff && this.blockCount == blockCount && this.freeBlocks == freeBlocks
    {
      this.dataOff, this.blockCount, this.freeBlocks := dataOff, blockCount, freeBlocks;
    }

    /** `page_alloc`. Exactly one block is accounted for. The block is new exactly when free
        blocks remained (or nothing was handed out yet); otherwise it is the first data
        block once more. */
    method PageAlloc(extendable: bool) returns (off: nat)
      requires Valid()
      modifies this`blockCount, this`freeBlocks
      ensures Valid() && (off, Now()) == AllocOne(old(Now()), extendable)
      ensures off == 0 <==> old(freeBlocks) == 0 && !extendable
      ensures Used() == old(Used()) + (if off == 0 then 0 else 1)
      ensures off == 0 ==> blockCount == old(blockCount) && freeBlocks == old(freeBlocks)
      ensures old(freeBlocks) > 0 ==> off == old(Watermark()) && Watermark() == off + BLOCK_SIZE
      ensures off != 0 ==> (off >= old(Watermark()) <==> old(freeBlocks) > 0 || old(Used()) == 0)
      ensures off != 0 && old(freeBlocks) == 0 ==> off == dataOff
      ensures off != 0 && old(freeBlocks) == 0 ==> freeBlocks == 0 && blockCount == old(blockCount) + 1
      ensures old(freeBlocks) > 0 ==> freeBlocks == old(freeBlocks) - 1 && blockCount == old(blockCount)
    {
      off := dataOff + (if freeBlocks > 0 then (blockCount - freeBlocks) * BLOCK_SIZE else 0);
      if freeBlocks == 0 {
        if !extendable {
          return 0;
        }
        blockCount := blockCount + 1;
      } else {
        freeBlocks := freeBlocks - 1;
      }
    }

    /** `page_alloc_n`. */
    method PageAllocN(n: nat, extendable: bool) returns (off: nat)
      requires Valid()
      modifies this`blockCount, this`freeBlocks
      ensures Valid() && (off, Now()) == AllocMany(old(Now()), n, extendable)
      ensures off == 0 <==> n == 0 || (old(freeBlocks) < n && !extendable)
      ensures Used() == old(Used()) + (if off == 0 then 0 else n)
      ensures off == 0 ==> blockCount == old(blockCount) && freeBlocks == old(freeBlocks)
      ensures off != 0 && old(freeBlocks) > 0 ==> off == old(Watermark()) && Watermark() == EndOf(Extent(off, n))
      ensures off != 0 ==> (off >= old(Watermark()) <==> old(freeBlocks) > 0 || old(Used()) == 0)
      ensures off != 0 && old(freeBlocks) == 0 ==> off == dataOff
      ensures off != 0 && old(freeBlocks) < n ==> freeBlocks == 0 && blockCount == old(blockCount) + (n - old(freeBlocks))
      ensures old(freeBlocks) >= n > 0 ==> freeBlocks == old(freeBlocks) - n && blockCount == old(blockCount)
    {
      if n == 0 {
        return 0;
      }
      if n == 1 {
        off := PageAlloc(extendable);
        return;
      }
      off := dataOff + (if freeBlocks > 0 then (blockCount - freeBlocks) * BLOCK_SIZE else 0);
      if freeBlocks >= n {
        freeBlocks := freeBlocks - n;
        return;
      }
      var need := n - freeBlocks;
      if !extendable {
        return 0;
      }
      blockCount := blockCount + need;
      freeBlocks := 0;
    }

    /** A run of requests, served for as long as free blocks remain: the extents handed out
        tile one contiguous region, and its size is the growth of the used-block count. */
    method AllocAll(reqs: seq<Request>) returns (es: seq<Extent>, served: nat)
      requires Valid()
      modifies this`blockCount, this`freeBlocks
      ensures Valid() && served <= |reqs|
      ensures served == |reqs| || freeBlocks == 0
      ensures Tile(es, old(Watermark()), Watermark())
      ensures dataOff == old(dataOff)
    {
      es, served := [], 0;
      while served < |reqs| && freeBlocks > 0
        invariant Valid() && served <= |reqs|
        invariant Tile(es, old(Watermark()), Watermark())
      {
        var off := PageAllocN(reqs[served].n, reqs[served].extendable);
        if off != 0 {
          ghost var es0 := es;
          es := es + [Extent(off, reqs[served].n)];
          assert es[..|es| - 1] == es0;
          TileGrows(es0, old(Watermark()), off);
        }
        served := served + 1;
      }
    }
  }

  lemma {:induction false} TileGrows(es: seq<Extent>, from: nat, to: nat)
    requires Tile(es, from, to)
    ensures from <= to
  {
    if es != [] { TileGrows(es[..|es| - 1], from, es[|es| - 1].off); }
  }
}
