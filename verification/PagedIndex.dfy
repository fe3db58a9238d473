/** The on-disk index: `paged_put`, `paged_insert`, `paged_get`, `paged_del`,
    `page_split_and_retry`, over the page cache and the block allocator. */
module PagedIndex {
  import opened Allocator
  import opened PagedLayout
  import opened PageCache
  import opened PagedPage
  import opened PagedState
  import opened PagedSteps
  import opened PagedSplit
  import opened PagedEffects
  import opened PagedRaw
  import opened PagedTransitions
  import opened PagedWalk
  import opened PagedInsert
  import opened PagedCost

  datatype Status = OK | ENOENT | ENOSPC

  /** The superblock fields the index depends on. */
  datatype Super = Super(dataOff: nat, blockCount: nat, freeBlocks: nat,
                         pdirOff: nat, pdirSize: nat, pdirDepth: nat)

  predicate HasDir(sb: Super) {
    sb.pdirOff != 0 && sb.pdirSize > 0
  }

  /** The block the superblock names holds a directory of at least that size. */
  predicate DirReadable(sb: Super, file: map<nat, Block>) {
    && sb.pdirOff in file && file[sb.pdirOff].DirBlock?
    && sb.pdirSize <= |file[sb.pdirOff].entries|
  }

  /** The directory `xxfs_mount` starts with: the one the superblock names, read from its
      block in the file, or a single entry without a page. */
  function MountedDir(sb: Super, file: map<nat, Block>): seq<nat>
    requires HasDir(sb) ==> DirReadable(sb, file)
  {
    if HasDir(sb) then file[sb.pdirOff].entries[..sb.pdirSize] else [NO_PAGE]
  }

  function MountedDepth(sb: Super): nat {
    if HasDir(sb) then sb.pdirDepth else 0
  }

  /** Everything in use, the directory's own block included, lies below the bump
      allocator's next block; that block is neither a page nor a record. */
  ghost predicate GeometryOK(dataOff: nat, blockCount: nat, freeBlocks: nat, pdirOff: nat, flat: map<nat, Content>) {
    && freeBlocks <= blockCount && 0 < dataOff
    && dataOff + blockCount * BLOCK_SIZE <= FILE_LIMIT
    && (forall q | q in flat :: q < dataOff + (blockCount - freeBlocks) * BLOCK_SIZE)
    && (pdirOff != 0 ==> pdirOff !in flat && pdirOff < dataOff + (blockCount - freeBlocks) * BLOCK_SIZE)
  }

  class Index {
    const hash: HashFn
    const store: PageStore
    var dir: seq<nat>
    var globalDepth: nat
    const dataOff: nat
    var blockCount: nat
    var freeBlocks: nat
    /** The block that holds the directory, or 0 when it was never written. */
    var pdirOff: nat
    /** How often the file had to be extended, and what the system answers each time. */
    var asked: nat
    const grows: nat -> bool
    ghost var home: map<nat, Home>
    ghost var owner: map<nat, nat>

    ghost function St(): State
      reads this`dir, this`globalDepth, this`home, this`owner, store`flat
    {
      State(dir, globalDepth, store.flat, home, owner)
    }

    /** The first block not handed out yet. */
    ghost function Top(): int
      reads this`blockCount, this`freeBlocks
    {
      dataOff + (blockCount - freeBlocks) * BLOCK_SIZE
    }

    ghost predicate Geometry()
      reads this`blockCount, this`freeBlocks, this`pdirOff, store`flat
    {
      GeometryOK(dataOff, blockCount, freeBlocks, pdirOff, store.flat)
    }

    /** A block in use by nobody: no page, no record, not the directory's. */
    ghost predicate Fresh(off: nat)
      reads this`blockCount, this`freeBlocks, this`pdirOff, store`flat
    {
      Behind(store.flat, off) && off < Top() && off != pdirOff
    }

    function Now(): Counters
      reads this`blockCount, this`freeBlocks
    {
      Counters(dataOff, blockCount, freeBlocks)
    }

    function Books(): Ledger
      reads this`blockCount, this`freeBlocks, this`asked
    {
      Ledger(Now(), asked)
    }

    ghost predicate Valid()
      reads this, store, store.cache
      ensures Valid() ==> Readable()
    {
      && store.Valid()
      && Geometry()
      && StateOK(hash, St())
    }

    /** All a reader relies on: a page may hold a key twice. */
    ghost predicate Readable()
      reads this, store, store.cache
    {
      && store.Valid()
      && Geometry()
      && LooseOK(hash, St())
    }

    /** Mount a file with the given superblock; the directory is read from its block. */
    constructor Mount(hash: HashFn, file: map<nat, Block>, sb: Super, grows: nat -> bool, ghost home: map<nat, Home>, ghost owner: map<nat, nat>)
      requires DiskOK(file) && (HasDir(sb) ==> DirReadable(sb, file))
      requires GeometryOK(sb.dataOff, sb.blockCount, sb.freeBlocks, sb.pdirOff, DiskFlat(file))
      requires StateOK(hash, State(MountedDir(sb, file), MountedDepth(sb), DiskFlat(file), home, owner))
      ensures Valid() && this.hash == hash && this.grows == grows && fresh(this) && fresh(store) && fresh(store.cache)
      ensures St() == State(MountedDir(sb, file), MountedDepth(sb), DiskFlat(file), home, owner)
      ensures dataOff == sb.dataOff && blockCount == sb.blockCount && freeBlocks == sb.freeBlocks && pdirOff == sb.pdirOff
    {
      this.hash := hash;
      store := new PageStore(file);
      dir := MountedDir(sb, file);
      globalDepth := MountedDepth(sb);
      dataOff, blockCount, freeBlocks := sb.dataOff, sb.blockCount, sb.freeBlocks;
      pdirOff, asked, this.grows := sb.pdirOff, 0, grows;
      this.home, this.owner := home, owner;
      new;
      StateIsLoose(hash, St());
    }

    /** `page_alloc`. While free blocks remain this is the code's own bump allocation; with
        none left it stands for "refused, or one more block past the end". */
    method PageAlloc() returns (off: nat)
      requires store.Valid() && Geometry()
      modifies this`freeBlocks, this`blockCount, this`asked
      ensures Geometry()
      ensures Pays(grows, old(Books()), 1, Books(), off != 0)
      ensures old(freeBlocks) > 0 ==> forall x: bool :: (off, Now()) == AllocOne(old(Now()), x)
      ensures Books() == AfterOne(grows, old(Books())) && (off == 0 ==> Now() == old(Now()))
      ensures off != 0 ==> Fresh(off)
    {
      off := dataOff + (blockCount - freeBlocks) * BLOCK_SIZE;
      if freeBlocks == 0 {
        asked := asked + 1;
        if !grows(asked - 1) || off + BLOCK_SIZE > FILE_LIMIT {
          return 0;
        }
        blockCount := blockCount + 1;
      } else {
        freeBlocks := freeBlocks - 1;
      }
    }

    /** `write_record`: the offset of the new record, or 0. */
    method WriteRecord(k: Key, v: Value) returns (rec: nat)
      requires store.Valid() && Geometry()
      requires RECORD_HEADER + |k| + |v| <= BLOCK_SIZE
      modifies this`freeBlocks, this`blockCount, this`asked, store`disk, store`flat
      ensures store.Valid() && Geometry()
      ensures Pays(grows, old(Books()), 1, Books(), rec != 0)
      ensures rec == 0 ==> store.flat == old(store.flat)
      ensures rec != 0 ==> FreshBlock(old(St()), rec)
      ensures rec != 0 ==> store.flat == old(store.flat)[rec := RecC(RecordBytes(k, v))]
    {
      rec := PageAlloc();
      if rec == 0 {
        return;
      }
      store.WriteBlock(rec, RecordBlock(RecordBytes(k, v)));
    }

    /** Open an empty bucket for directory entry `i`. */
    method OpenBucket(i: nat) returns (r: Status)
      requires Valid() && i < |dir| && dir[i] == NO_PAGE
      modifies this`dir, this`globalDepth, this`blockCount, this`freeBlocks, this`asked, this`home, this`owner, store, store.cache
      ensures Valid() && globalDepth == old(globalDepth) && |dir| == old(|dir|)
      ensures r == OK || (r == ENOSPC && St() == old(St()))
      ensures Pays(grows, old(Books()), 1, Books(), r == OK)
      ensures r == OK ==> dir[i] != NO_PAGE && IsPage(St().flat, dir[i]) && PageAt(St().flat, dir[i]) == EmptyView(globalDepth)
      ensures SameStacks(hash, old(St()), St()) && NothingNew(hash, old(St()), St())
    {
      ghost var s0 := St();
      var off := PageAlloc();
      if off == 0 {
        return ENOSPC;
      }
      OpenedOK(hash, s0, i, off);
      StoreBucket(i, off);
      return OK;
    }

    method StoreBucket(i: nat, off: nat)
      requires store.Valid() && Geometry() && i < |dir| && Fresh(off)
      modifies this`dir, this`home, store`disk, store`flat, store.cache
      ensures store.Valid() && Geometry()
      ensures St() == Opened(old(St()), i, off)
    {
      dir := dir[i := off];
      store.WriteNewPage(off, EmptyPage(globalDepth));
      home := home[off := Home(i, globalDepth)];
    }

    /** Link the fresh block `off` behind the last page `cur` of a chain. */
    method LinkOverflow(cur: nat, pg: Page, off: nat)
      requires store.Valid() && Geometry()
      requires store.Holds(cur, pg) && IsPage(St().flat, cur) && PageAt(St().flat, cur) == ViewOf(pg)
      requires cur in home && Fresh(off)
      modifies this`home, store, store.cache
      ensures store.Valid() && Geometry()
      ensures St() == Extended(old(St()), cur, off)
    {
      store.RewriteThenNew(cur, pg.(next := off), off, EmptyPage(pg.depth));
      home := home[off := home[cur]];
    }

    /** A new overflow page behind `cur`, or 0 when no block is left. */
    method ExtendChain(cur: nat, pg: Page) returns (off: nat)
      requires store.Valid() && Geometry()
      requires store.Holds(cur, pg) && IsPage(St().flat, cur) && PageAt(St().flat, cur) == ViewOf(pg)
      requires cur in home
      modifies this`blockCount, this`freeBlocks, this`asked, this`home, store, store.cache
      ensures store.Valid() && Geometry()
      ensures Pays(grows, old(Books()), 1, Books(), off != 0) && Books() == AfterOne(grows, old(Books()))
      ensures if off == 0 then St() == old(St())
              else FreshBlock(old(St()), off) && St() == Extended(old(St()), cur, off) && St() != old(St())
                   && IsPage(St().flat, off) && PageAt(St().flat, off) == EmptyView(pg.depth)
    {
      off := PageAlloc();
      if off != 0 {
        LinkOverflow(cur, pg, off);
        assert off in St().flat && off !in old(St()).flat;
      }
    }

    /** The page `cur` is loaded as `pg`, and `pg` shows the block's current content. */
    ghost predicate Loaded(cur: nat, pg: Page)
      reads this, store, store.cache
    {
      store.Holds(cur, pg) && IsPage(St().flat, cur) && PageAt(St().flat, cur) == ViewOf(pg)
    }

    /** Edit the resident page `cur` in place and mark it for writing back. */
    method StorePage(cur: nat, pg: Page)
      requires store.Valid() && Geometry() && Resident(store.cache[..], cur) && WellShaped(pg) && IsPage(St().flat, cur)
      modifies store`disk, store`flat, store.cache
      ensures store.Valid() && Geometry()
      ensures St() == WithPage(old(St()), cur, ViewOf(pg))
    {
      store.Rewrite(cur, pg);
    }

    /** Give slot `i` of the loaded page, which holds `k`, the value `v`: in place when it
        is not longer than the old one, in a new record otherwise. */
    method Overwrite(cur: nat, pg: Page, i: nat, k: Key, v: Value) returns (r: Status)
      requires Valid() && Loaded(cur, pg) && FoundAt(hash, St(), cur, i, k)
      requires RECORD_HEADER + |k| + |v| <= BLOCK_SIZE
      modifies this`freeBlocks, this`blockCount, this`asked, this`owner, store`disk, store`flat, store.cache
      ensures Valid()
      ensures Pays(grows, old(Books()), if |v| <= pg.slots[i].vlen then 0 else 1, Books(), r == OK)
      ensures r == OK || (r == ENOSPC && St() == old(St()))
      ensures r == OK ==> Replaced(hash, old(St()), St(), k, v)
    {
      var s := pg.slots[i];
      if |v| > s.vlen {
        r := OverwriteMove(cur, pg, i, k, v);
      } else {
        r := OverwriteFit(cur, pg, i, k, v);
      }
    }

    method OverwriteFit(cur: nat, pg: Page, i: nat, k: Key, v: Value) returns (r: Status)
      requires Valid() && Loaded(cur, pg) && FoundAt(hash, St(), cur, i, k) && |v| <= pg.slots[i].vlen
      modifies store`disk, store`flat, store.cache
      ensures Valid() && r == OK && Replaced(hash, old(St()), St(), k, v)
    {
      if pg.slots[i].inlined {
        r := OverwriteHere(cur, pg, i, k, v);
      } else {
        r := OverwriteThere(cur, pg, i, k, v);
      }
    }

    method OverwriteHere(cur: nat, pg: Page, i: nat, k: Key, v: Value) returns (r: Status)
      requires Valid() && Loaded(cur, pg) && FoundAt(hash, St(), cur, i, k) && |v| <= pg.slots[i].vlen && pg.slots[i].inlined
      modifies store`disk, store`flat, store.cache
      ensures Valid() && r == OK && Replaced(hash, old(St()), St(), k, v)
    {
      ShrinkInlineStep(hash, St(), cur, i, k, v);
      r := OverwriteInline(cur, pg, i, k, v);
    }

    method OverwriteThere(cur: nat, pg: Page, i: nat, k: Key, v: Value) returns (r: Status)
      requires Valid() && Loaded(cur, pg) && FoundAt(hash, St(), cur, i, k) && |v| <= pg.slots[i].vlen && !pg.slots[i].inlined
      modifies store`disk, store`flat, store.cache
      ensures Valid() && r == OK && Replaced(hash, old(St()), St(), k, v)
    {
      ShrinkRecordStep(hash, St(), cur, i, k, v);
      r := OverwriteRecord(cur, pg, i, k, v);
    }

    method OverwriteInline(cur: nat, pg: Page, i: nat, k: Key, v: Value) returns (r: Status)
      requires store.Valid() && Geometry() && Loaded(cur, pg) && i < pg.count
      requires pg.slots[i].fileOff + pg.slots[i].klen + |v| <= |pg.area| && pg.slots[i].klen == |k|
      modifies store`disk, store`flat, store.cache
      ensures store.Valid() && Geometry() && r == OK
      ensures St() == WithPage(old(St()), cur, ShrinkInline(ViewOf(pg), i, v))
    {
      var s := pg.slots[i];
      var pg' := pg.(slots := pg.slots[i := s.(vlen := |v|)], area := Splice(pg.area, s.fileOff + |k|, v));
      assert ViewOf(pg') == ShrinkInline(ViewOf(pg), i, v);
      StorePage(cur, pg');
      return OK;
    }

    method OverwriteRecord(cur: nat, pg: Page, i: nat, k: Key, v: Value) returns (r: Status)
      requires store.Valid() && Geometry() && Loaded(cur, pg) && i < pg.count && pg.slots[i].klen == |k|
      requires var s := pg.slots[i];
               && s.fileOff in store.flat && store.flat[s.fileOff].RecC?
               && RECORD_HEADER + s.klen + |v| <= |store.flat[s.fileOff].bytes|
               && s.fileOff in owner && owner[s.fileOff] == cur
      modifies store`disk, store`flat, store.cache
      ensures store.Valid() && Geometry() && r == OK
      ensures var s := pg.slots[i];
              var bytes := Splice(old(store.flat)[s.fileOff].bytes, RECORD_HEADER + s.klen, v);
              St() == WithPage(WithRecord(old(St()), s.fileOff, bytes, cur), cur, ShrinkRecord(ViewOf(pg), i, v))
    {
      var s := pg.slots[i];
      PatchValue(cur, s.fileOff, RECORD_HEADER + |k|, v);
      var pg' := pg.(slots := pg.slots[i := s.(vlen := |v|)]);
      assert ViewOf(pg') == ShrinkRecord(ViewOf(pg), i, v);
      StorePage(cur, pg');
      return OK;
    }

    method PatchValue(cur: nat, rec: nat, at: nat, v: Value)
      requires store.Valid() && Geometry()
      requires rec in store.flat && store.flat[rec].RecC? && at + |v| <= |store.flat[rec].bytes|
      requires rec in owner && owner[rec] == cur
      modifies store`disk, store`flat
      ensures store.Valid() && Geometry()
      ensures St() == WithRecord(old(St()), rec, Splice(old(store.flat)[rec].bytes, at, v), cur)
    {
      store.PatchRecord(rec, at, v);
      assert owner[rec := cur] == owner;
    }

    method OverwriteMove(cur: nat, pg: Page, i: nat, k: Key, v: Value) returns (r: Status)
      requires Valid() && Loaded(cur, pg) && FoundAt(hash, St(), cur, i, k)
      requires RECORD_HEADER + |k| + |v| <= BLOCK_SIZE
      modifies this`freeBlocks, this`blockCount, this`asked, this`owner, store`disk, store`flat, store.cache
      ensures Valid()
      ensures Pays(grows, old(Books()), 1, Books(), r == OK)
      ensures r == OK || (r == ENOSPC && St() == old(St()))
      ensures r == OK ==> Replaced(hash, old(St()), St(), k, v)
    {
      ghost var s0 := St();
      var rec := MoveOut(cur, pg, i, k, v);
      if rec == 0 {
        return ENOSPC;
      }
      PromoteStep(hash, s0, cur, i, k, v, rec);
      return OK;
    }

    method MoveOut(cur: nat, pg: Page, i: nat, k: Key, v: Value) returns (rec: nat)
      requires store.Valid() && Geometry() && Loaded(cur, pg) && i < pg.count
      requires RECORD_HEADER + |k| + |v| <= BLOCK_SIZE
      modifies this`freeBlocks, this`blockCount, this`asked, this`owner, store`disk, store`flat, store.cache
      ensures store.Valid() && Geometry()
      ensures Pays(grows, old(Books()), 1, Books(), rec != 0)
      ensures rec == 0 ==> St() == old(St())
      ensures rec != 0 ==> FreshBlock(old(St()), rec)
      ensures rec != 0 ==>
                St() == WithPage(WithRecord(old(St()), rec, RecordBytes(k, v), cur), cur, Promote(ViewOf(pg), i, v, rec))
    {
      rec := WriteRecord(k, v);
      if rec != 0 {
        StoreMoved(cur, pg, i, v, rec);
      }
    }

    method StoreMoved(cur: nat, pg: Page, i: nat, v: Value, rec: nat)
      requires store.Valid() && Geometry() && Loaded(cur, pg) && i < pg.count
      modifies this`owner, store`disk, store`flat, store.cache
      ensures store.Valid() && Geometry()
      ensures St() == WithPage(old(St()).(owner := old(owner)[rec := cur]), cur, Promote(ViewOf(pg), i, v, rec))
    {
      owner := owner[rec := cur];
      var s := pg.slots[i];
      var pg' := pg.(slots := pg.slots[i := s.(vlen := |v|, fileOff := rec, inlined := false)]);
      assert ViewOf(pg') == Promote(ViewOf(pg), i, v, rec);
      StorePage(cur, pg');
    }

    /** Append a slot for `k` to the loaded page: inline if there is space, out of line
        otherwise. When no block is left for the record the slot stays beyond `count`. */
    method AppendSlot(cur: nat, pg: Page, k: Key, v: Value) returns (r: Status)
      requires Valid() && Loaded(cur, pg) && RoomAt(hash, St(), cur, k)
      requires RECORD_HEADER + |k| + |v| <= BLOCK_SIZE
      modifies this`freeBlocks, this`blockCount, this`asked, this`owner, store`disk, store`flat, store.cache
      ensures Valid()
      ensures Pays(grows, old(Books()), LandCost(ViewOf(pg), k, v), Books(), r == OK)
      ensures r == OK || (r == ENOSPC && St() == old(St()))
      ensures r == OK ==> Appended(hash, old(St()), St(), k, v)
    {
      if pg.inlineUsed + |k| + |v| <= INLINE_SPACE {
        AddInlineStep(hash, St(), cur, k, v);
        r := AppendInline(cur, pg, k, v);
      } else {
        r := AppendRecord(cur, pg, k, v);
      }
    }

    method AppendInline(cur: nat, pg: Page, k: Key, v: Value) returns (r: Status)
      requires store.Valid() && Geometry() && Loaded(cur, pg) && pg.count < SLOTS_PER_PAGE
      requires pg.inlineUsed + |k| + |v| <= INLINE_SPACE
      modifies store`disk, store`flat, store.cache
      ensures store.Valid() && Geometry() && r == OK
      ensures St() == WithPage(old(St()), cur, AddInline(ViewOf(pg), hash(k), k, v))
    {
      var s := Slot(hash(k), pg.inlineUsed, |k|, |v|, KeyPrefix(k), true);
      var pg' := pg.(slots := pg.slots[pg.count := s], count := pg.count + 1,
                     area := Splice(pg.area, pg.inlineUsed, k + v), inlineUsed := pg.inlineUsed + |k| + |v|);
      assert ViewOf(pg') == AddInline(ViewOf(pg), s.hash, k, v) by { AppendedView(pg, s); }
      StorePage(cur, pg');
      return OK;
    }

    method AppendRecord(cur: nat, pg: Page, k: Key, v: Value) returns (r: Status)
      requires Valid() && Loaded(cur, pg) && RoomAt(hash, St(), cur, k)
      requires RECORD_HEADER + |k| + |v| <= BLOCK_SIZE
      modifies this`freeBlocks, this`blockCount, this`asked, this`owner, store`disk, store`flat, store.cache
      ensures Valid()
      ensures Pays(grows, old(Books()), 1, Books(), r == OK)
      ensures r == OK || (r == ENOSPC && St() == old(St()))
      ensures r == OK ==> Appended(hash, old(St()), St(), k, v)
    {
      ghost var s0 := St();
      var rec := AppendOut(cur, pg, k, v);
      if rec == 0 {
        return ENOSPC;
      }
      AddRecordStep(hash, s0, cur, k, v, rec);
      return OK;
    }

    method AppendOut(cur: nat, pg: Page, k: Key, v: Value) returns (rec: nat)
      requires store.Valid() && Geometry() && Loaded(cur, pg) && pg.count < SLOTS_PER_PAGE
      requires RECORD_HEADER + |k| + |v| <= BLOCK_SIZE
      modifies this`freeBlocks, this`blockCount, this`asked, this`owner, store`disk, store`flat, store.cache
      ensures store.Valid() && Geometry()
      ensures Pays(grows, old(Books()), 1, Books(), rec != 0)
      ensures rec == 0 ==> St() == old(St())
      ensures rec != 0 ==> FreshBlock(old(St()), rec)
      ensures rec != 0 ==> St() == WithPage(WithRecord(old(St()), rec, RecordBytes(k, v), cur), cur,
                                            AddRecord(ViewOf(pg), hash(k), k, v, rec))
    {
      rec := WriteRecord(k, v);
      var s := Slot(hash(k), rec, |k|, |v|, KeyPrefix(k), false);
      if rec == 0 {
        LeaveUnseen(cur, pg, s);
      } else {
        StoreAppended(cur, pg, s, rec);
      }
    }

    /** The slot of a failed append stays behind, beyond `count`. */
    method LeaveUnseen(cur: nat, pg: Page, s: Slot)
      requires store.Valid() && Loaded(cur, pg) && pg.count < SLOTS_PER_PAGE
      modifies store`flat, store.cache
      ensures store.Valid() && store.flat == old(store.flat)
    {
      var kept := pg.(slots := pg.slots[pg.count := s]);
      assert ViewOf(kept) == ViewOf(pg);
      store.EditUnseen(cur, kept);
    }

    method StoreAppended(cur: nat, pg: Page, s: Slot, ghost rec: nat)
      requires store.Valid() && Geometry() && Loaded(cur, pg) && pg.count < SLOTS_PER_PAGE
      modifies this`owner, store`disk, store`flat, store.cache
      ensures store.Valid() && Geometry()
      ensures St() == WithPage(old(St()).(owner := old(owner)[rec := cur]), cur, ViewOf(pg).(slots := ViewOf(pg).slots + [s]))
    {
      owner := owner[rec := cur];
      var pg' := pg.(slots := pg.slots[pg.count := s], count := pg.count + 1);
      assert pg'.slots[..pg.count + 1] == pg.slots[..pg.count] + [s];
      StorePage(cur, pg');
    }

    /** Double the directory when the page to split already uses all its bits. */
    method MakeRoomForBit(cur: nat) returns (r: Status)
      requires store.Valid() && Geometry() && IsPage(St().flat, cur)
      modifies this`dir, this`globalDepth, store`disk, store.cache
      ensures store.Valid() && Geometry()
      ensures r == if PageAt(old(St()).flat, cur).depth >= old(globalDepth) >= MAX_DEPTH then ENOSPC else OK
      ensures St() == if r == OK && PageAt(old(St()).flat, cur).depth >= old(globalDepth) then Doubled(old(St())) else old(St())
    {
      var pg := store.PageLoad(cur);
      if pg.depth >= globalDepth {
        if globalDepth >= MAX_DEPTH {
          return ENOSPC;
        }
        DoubleHere();
      }
      return OK;
    }

    method DoubleHere()
      requires store.Valid() && Geometry() && globalDepth < MAX_DEPTH
      modifies this`dir, this`globalDepth
      ensures store.Valid() && Geometry()
      ensures St() == Doubled(old(St()))
    {
      dir := DoubleDir(dir);
      globalDepth := globalDepth + 1;
    }

    /** Divide page `cur` between itself and the fresh block `to`. */
    method Divide(cur: nat, to: nat) returns (ghost low: PageView, ghost high: PageView)
      requires Valid() && IsPage(St().flat, cur) && PageAt(St().flat, cur).next == 0
      requires cur in home && PageAt(St().flat, cur).depth < globalDepth
      requires Fresh(to)
      modifies this`dir, this`home, this`owner, store`disk, store`flat, store.cache
      ensures store.Valid() && Geometry()
      ensures SplitReady(hash, old(St()), cur, to, low, high)
      ensures St() == Split(old(St()), cur, to, low, high)
    {
      ghost var s0 := St();
      var lowPage, highPage := SortHalves(cur, to);
      assert St() == s0;
      low, high := ViewOf(lowPage), ViewOf(highPage);
      CommitHalves(cur, to, lowPage, highPage);
    }

    /** Sort the slots of page `cur` into two pages; nothing is stored yet. */
    method SortHalves(cur: nat, to: nat) returns (low: Page, high: Page)
      requires Valid() && IsPage(St().flat, cur) && PageAt(St().flat, cur).next == 0
      requires cur in home && PageAt(St().flat, cur).depth < globalDepth && Fresh(to)
      modifies store`disk, store.cache
      ensures store.Valid() && Resident(store.cache[..], cur)
      ensures WellShaped(low) && WellShaped(high)
      ensures SplitReady(hash, St(), cur, to, ViewOf(low), ViewOf(high))
    {
      var pg := store.PageLoad(cur);
      low, high := SplitSlots(pg, cur, to, hash, St().flat, St().owner);
    }

    method CommitHalves(cur: nat, to: nat, low: Page, high: Page)
      requires store.Valid() && Geometry() && Resident(store.cache[..], cur) && IsPage(St().flat, cur) && cur in home
      requires WellShaped(low) && WellShaped(high) && low.depth == PageAt(St().flat, cur).depth + 1
      requires Fresh(to)
      modifies this`dir, this`home, this`owner, store`disk, store`flat, store.cache
      ensures store.Valid() && Geometry()
      ensures St() == Split(old(St()), cur, to, ViewOf(low), ViewOf(high))
    {
      ghost var goal := Split(St(), cur, to, ViewOf(low), ViewOf(high));
      SplitStored(St(), cur, to, ViewOf(low), ViewOf(high));
      home, owner := goal.home, goal.owner;
      StoreHalves(cur, to, low.depth - 1, low, high);
    }

    method StoreHalves(cur: nat, to: nat, depth: nat, low: Page, high: Page)
      requires store.Valid() && Geometry() && Resident(store.cache[..], cur) && cur in store.flat
      requires WellShaped(low) && WellShaped(high)
      requires Fresh(to)
      modifies this`dir, store`disk, store`flat, store.cache
      ensures store.Valid() && Geometry()
      ensures dir == Repointed(old(dir), cur, to, depth)
      ensures store.flat == old(store.flat)[cur := PageC(ViewOf(low))][to := PageC(ViewOf(high))]
    {
      dir := Repoint(dir, cur, to, depth);
      store.NewThenRewrite(to, high, cur, low);
    }

    /** `page_split_and_retry` up to the retry. */
    method SplitPage(cur: nat, ghost k: Key) returns (r: Status)
      requires Valid() && IsPage(St().flat, cur) && PageAt(St().flat, cur).next == 0
      modifies this`dir, this`globalDepth, this`blockCount, this`freeBlocks, this`asked, this`home, this`owner, store, store.cache
      ensures Valid() && NothingNew(hash, old(St()), St())
      ensures r == if PageAt(old(St()).flat, cur).depth < MAX_DEPTH && Grants(grows, old(Books())) then OK else ENOSPC
      ensures if PageAt(old(St()).flat, cur).depth == MAX_DEPTH then St() == old(St()) && Books() == old(Books())
              else Pays(grows, old(Books()), 1, Books(), r == OK)
      ensures r == ENOSPC || cur in old(dir) ==> SameStacks(hash, old(St()), St())
      ensures r == OK && NoneBefore(old(St()).flat, HeadOf(old(St()), hash(k)), cur, k) ==>
                && LastDepth(St().flat, HeadOf(St(), hash(k))) == PageAt(old(St()).flat, cur).depth + 1
                && (cur in old(dir) ==> OnePageOnly(hash, St(), k))
    {
      ghost var s0 := St();
      ghost var s1, to, low, high;
      r, s1, to, low, high := TrySplit(cur);
      SplitEffect(hash, s0, s1, St(), cur, to, low, high, k, r);
    }

    /** The split itself: refused, possibly after doubling, or carried out. */
    method TrySplit(cur: nat) returns (r: Status, ghost s1: State, ghost to: nat, ghost low: PageView, ghost high: PageView)
      requires Valid() && IsPage(St().flat, cur) && PageAt(St().flat, cur).next == 0
      modifies this`dir, this`globalDepth, this`blockCount, this`freeBlocks, this`asked, this`home, this`owner, store, store.cache
      ensures store.Valid() && Geometry()
      ensures r == if PageAt(old(St()).flat, cur).depth < MAX_DEPTH && Grants(grows, old(Books())) then OK else ENOSPC
      ensures if PageAt(old(St()).flat, cur).depth == MAX_DEPTH then s1 == old(St()) && Books() == old(Books())
              else s1 == (if PageAt(old(St()).flat, cur).depth == old(globalDepth) then Doubled(old(St())) else old(St()))
                   && Pays(grows, old(Books()), 1, Books(), r == OK)
      ensures r == ENOSPC ==> St() == s1
      ensures r == OK ==> SplitReady(hash, s1, cur, to, low, high) && St() == Split(s1, cur, to, low, high)
    {
      r := RoomForBit(cur);
      s1, to, low, high := St(), 0, EmptyView(0), EmptyView(0);
      if r == OK {
        r, to, low, high := DivideFresh(cur);
      }
    }

    /** Doubling keeps the index well-formed, and afterwards the page may use one bit more. */
    method RoomForBit(cur: nat) returns (r: Status)
      requires Valid() && IsPage(St().flat, cur)
      modifies this`dir, this`globalDepth, store`disk, store.cache
      ensures Valid() && IsPage(St().flat, cur) && PageAt(St().flat, cur) == PageAt(old(St()).flat, cur)
      ensures r == if PageAt(St().flat, cur).depth < MAX_DEPTH then OK else ENOSPC
      ensures St() == if r == OK && PageAt(St().flat, cur).depth == old(globalDepth) then Doubled(old(St())) else old(St())
      ensures r == OK ==> cur in home && PageAt(St().flat, cur).depth < globalDepth
    {
      ghost var s0 := St();
      assert Linked(s0, cur);
      if s0.depth < MAX_DEPTH { DoubledOK(hash, s0); }
      r := MakeRoomForBit(cur);
    }

    /** Divide page `cur` with a new block, unless none is left. */
    method DivideFresh(cur: nat) returns (r: Status, ghost to: nat, ghost low: PageView, ghost high: PageView)
      requires Valid() && IsPage(St().flat, cur) && PageAt(St().flat, cur).next == 0
      requires cur in home && PageAt(St().flat, cur).depth < globalDepth
      modifies this`dir, this`blockCount, this`freeBlocks, this`asked, this`home, this`owner, store`disk, store`flat, store.cache
      ensures store.Valid() && Geometry()
      ensures Pays(grows, old(Books()), 1, Books(), r == OK)
      ensures r == OK || (r == ENOSPC && St() == old(St()))
      ensures r == OK ==> SplitReady(hash, old(St()), cur, to, low, high) && St() == Split(old(St()), cur, to, low, high)
    {
      var off := PageAlloc();
      to, low, high := off, EmptyView(0), EmptyView(0);
      if off == 0 {
        return ENOSPC, to, low, high;
      }
      low, high := Divide(cur, off);
      r := OK;
    }

    /** No put of `k` can split a page that is not a bucket head. */
    ghost predicate Lossless(k: Key)
      reads this, store`flat
    {
      freeBlocks > 0 || OnePageOnly(hash, St(), k)
    }

    /** Is the chain of `k` a single page (or not there yet)? */
    method SinglePage(k: Key) returns (b: bool)
      requires Valid()
      modifies store`disk, store.cache
      ensures Valid() && (b <==> OnePageOnly(hash, St(), k))
    {
      var idx := DirIndex(hash(k), globalDepth);
      DirIndexIsResidue(hash(k), globalDepth);
      if dir[idx] == NO_PAGE {
        NoSuchPage(hash, St());
        return true;
      }
      HeadIsPage(hash, St(), hash(k));
      var pg := store.PageLoad(dir[idx]);
      return pg.next == 0;
    }

    // ---- put ----

    ghost function PutBill(k: Key, v: Value): Bill
      reads this`dir, this`globalDepth, this`home, this`owner, this`blockCount, this`freeBlocks, this`asked, store`flat
    {
      Bill(Books(), PutCost(hash, St(), k, v), Cramped(St().flat, HeadOf(St(), hash(k)), k))
    }

    /** The bill of a put that stands on page `cur`. */
    ghost predicate Due(b: Bill, s0: State, cur: nat, k: Key, v: Value)
      reads this`dir, this`globalDepth, this`home, this`owner, this`blockCount, this`freeBlocks, this`asked, store`flat
    {
      Owes(grows, b, s0, St(), Books(), WalkCost(St().flat, cur, k, v), Cramped(St().flat, cur, k))
    }

    /** How a put ended: what became of the index, and what was paid. */
    ghost predicate PutDone(b: Bill, s0: State, k: Key, v: Value, r: Status, safe: bool)
      reads this`dir, this`globalDepth, this`home, this`owner, this`blockCount, this`freeBlocks, this`asked, store`flat
    {
      PutResult(hash, s0, St(), k, v, r, safe) && Settled(hash, grows, b, St(), Books(), k, r == OK)
    }

    /** `paged_put`. On success the new value answers for `k`; the copies of every other key
        stay as they were. The copies of `k` are exactly `Pushed`: the old top copy is
        replaced, unless a page with room comes first in the chain, in which case the old
        copies stay behind as shadows. It succeeds and takes blocks exactly as `PutBill` says. */
    method Put(k: Key, v: Value) returns (r: Status)
      requires Valid() && NoAlias(hash, St(), k)
      requires RECORD_HEADER + |k| + |v| <= BLOCK_SIZE
      modifies this`dir, this`globalDepth, this`blockCount, this`freeBlocks, this`asked, this`home, this`owner, store, store.cache
      ensures Valid() && PutResult(hash, old(St()), St(), k, v, r, old(Lossless(k)))
      ensures Settled(hash, grows, old(PutBill(k, v)), St(), Books(), k, r == OK)
      ensures old(freeBlocks >= PutCost(hash, St(), k, v)) ==>
                r == OK && Books() == Less(old(Books()), old(PutCost(hash, St(), k, v)))
      ensures old(Stack(hash, St(), k) != [] && !Shadows(hash, St(), k) && |v| <= |Stack(hash, St(), k)[0]|) ==>
                r == OK && Books() == old(Books())
      decreases MAX_DEPTH - LastDepth(St().flat, HeadOf(St(), hash(k))), 4
    {
      ghost var s0, b := St(), PutBill(k, v);
      r := PutWalk(k, v, b, Lossless(k));
      PutPaid(hash, grows, s0, St(), b, Books(), k, v, r == OK);
    }

    /** The walk of a put. */
    method PutWalk(k: Key, v: Value, ghost b: Bill, ghost safe: bool) returns (r: Status)
      requires Valid() && NoAlias(hash, St(), k) && b == PutBill(k, v) && safe == Lossless(k)
      requires RECORD_HEADER + |k| + |v| <= BLOCK_SIZE
      modifies this`dir, this`globalDepth, this`blockCount, this`freeBlocks, this`asked, this`home, this`owner, store, store.cache
      ensures Valid() && PutDone(b, old(St()), k, v, r, safe)
      decreases MAX_DEPTH - LastDepth(St().flat, HeadOf(St(), hash(k))), 3
    {
      ghost var s0 := St();
      LastDepthBound(hash, s0, HeadOf(s0, hash(k)));
      ghost var m := MAX_DEPTH - LastDepth(s0.flat, HeadOf(s0, hash(k)));
      var cur, done;
      r, cur, done := PutFirst(k, v, b, safe);
      while !done && cur != 0
        invariant Valid()
        invariant !done ==> cur != 0 && Walking(hash, s0, St(), cur, k) && Due(b, s0, cur, k, v)
        invariant done ==> PutDone(b, s0, k, v, r, safe)
        decreases !done, FILE_LIMIT - cur
      {
        done, r, cur := PutAt(cur, k, v, s0, safe, b, m);
      }
    }

    /** The walk of a put starts: its first page, or a refusal to open one. */
    method PutFirst(k: Key, v: Value, ghost b: Bill, ghost safe: bool) returns (r: Status, cur: nat, done: bool)
      requires Valid() && b == PutBill(k, v)
      modifies this`dir, this`globalDepth, this`blockCount, this`freeBlocks, this`asked, this`home, this`owner, store, store.cache
      ensures Valid() && (done <==> r != OK)
      ensures !done ==> cur != 0 && Walking(hash, old(St()), St(), cur, k) && Due(b, old(St()), cur, k, v)
      ensures done ==> PutDone(b, old(St()), k, v, r, safe)
    {
      ghost var s0 := St();
      r, cur := FirstPage(k);
      done := r != OK;
      if done {
        PayNothing(hash, grows, b, St(), Books(), k);
      } else {
        FirstWalk(hash, s0, St(), cur, k);
        FirstBill(hash, grows, s0, St(), cur, k, v, b.start, Books());
      }
    }

    /** The page where the walk for `k` starts, opened if the directory has none yet. */
    method FirstPage(k: Key) returns (r: Status, cur: nat)
      requires Valid()
      modifies this`dir, this`globalDepth, this`blockCount, this`freeBlocks, this`asked, this`home, this`owner, store, store.cache
      ensures Valid()
      ensures r == OK || (r == ENOSPC && St() == old(St()))
      ensures if HeadOf(old(St()), hash(k)) == NO_PAGE then Pays(grows, old(Books()), 1, Books(), r == OK)
              else r == OK && St() == old(St()) && Books() == old(Books())
      ensures r == OK ==> FirstAt(hash, old(St()), St(), cur, k)
    {
      var idx := DirIndex(hash(k), globalDepth);
      DirIndexIsResidue(hash(k), globalDepth);
      r := OK;
      if dir[idx] == NO_PAGE {
        r := OpenBucket(idx);
        if r != OK {
          return r, 0;
        }
      }
      cur := dir[idx];
    }

    /** One turn of the chain walk of `paged_put`: finish on page `cur`, or move on. */
    method PutAt(cur: nat, k: Key, v: Value, ghost s0: State, ghost safe: bool, ghost b: Bill, ghost m: nat)
      returns (done: bool, r: Status, next: nat)
      requires Valid() && Walking(hash, s0, St(), cur, k) && NoAlias(hash, s0, k) && Due(b, s0, cur, k, v)
      requires RECORD_HEADER + |k| + |v| <= BLOCK_SIZE
      requires m == MAX_DEPTH - LastDepth(s0.flat, HeadOf(s0, hash(k)))
      requires safe ==> b.start.c.freeBlocks > 0 || OnePageOnly(hash, s0, k)
      modifies this`dir, this`globalDepth, this`blockCount, this`freeBlocks, this`asked, this`home, this`owner, store, store.cache
      ensures Valid() && (done ==> PutDone(b, s0, k, v, r, safe))
      ensures !done ==> cur < next < FILE_LIMIT && Walking(hash, s0, St(), next, k) && Due(b, s0, next, k, v)
      decreases m, 2
    {
      var pg, i := Locate(cur, k);
      if i < pg.count {
        r := PutOver(cur, pg, i, k, v, s0, safe, b);
        return true, r, 0;
      }
      if pg.count >= SLOTS_PER_PAGE {
        done, r, next := PutPast(cur, pg, k, v, s0, safe, b, m);
        return;
      }
      r := PutHere(cur, pg, k, v, s0, safe, b);
      return true, r, 0;
    }

    /** Load page `cur` and look for the slot of `k` in it; `i == count` when there is none. */
    method Locate(cur: nat, k: Key) returns (pg: Page, i: nat)
      requires Valid() && WalkAt(hash, St(), cur, k) && NoAlias(hash, St(), k)
      modifies store`disk, store.cache
      ensures Valid() && Loaded(cur, pg) && i <= pg.count
      ensures i < pg.count ==> FoundAt(hash, St(), cur, i, k)
      ensures i < pg.count <==> HasKey(EntriesAt(St().flat, cur), k)
    {
      pg := store.PageLoad(cur);
      i := FindSlot(pg, hash(k), k);
      if i < pg.count {
        MatchFound(hash, St(), cur, i, k);
      } else {
        NoMatchNoKey(hash, St(), cur, k);
      }
    }

    method PutOver(cur: nat, pg: Page, i: nat, k: Key, v: Value, ghost s0: State, ghost safe: bool, ghost b: Bill) returns (r: Status)
      requires Valid() && Walking(hash, s0, St(), cur, k) && Loaded(cur, pg) && Due(b, s0, cur, k, v)
      requires FoundAt(hash, St(), cur, i, k) && HasKey(EntriesAt(St().flat, cur), k)
      requires RECORD_HEADER + |k| + |v| <= BLOCK_SIZE
      modifies this`freeBlocks, this`blockCount, this`asked, this`owner, store`disk, store`flat, store.cache
      ensures Valid() && PutDone(b, s0, k, v, r, safe)
    {
      ghost var st, books := St(), Books();
      CostOver(hash, st, cur, i, k, v);
      r := Overwrite(cur, pg, i, k, v);
      if r == OK { PutReplaced(hash, s0, st, St(), cur, k, v); }
      PutFinished(hash, s0, st, St(), k, v, r, safe);
      PayRest(hash, grows, b, s0, st, books, WalkCost(st.flat, cur, k, v), St(), Books(), k, r == OK);
    }

    method PutHere(cur: nat, pg: Page, k: Key, v: Value, ghost s0: State, ghost safe: bool, ghost b: Bill) returns (r: Status)
      requires Valid() && Walking(hash, s0, St(), cur, k) && Loaded(cur, pg) && RoomAt(hash, St(), cur, k) && Due(b, s0, cur, k, v)
      requires RECORD_HEADER + |k| + |v| <= BLOCK_SIZE
      modifies this`freeBlocks, this`blockCount, this`asked, this`owner, store`disk, store`flat, store.cache
      ensures Valid() && PutDone(b, s0, k, v, r, safe)
    {
      ghost var st, books := St(), Books();
      CostHere(hash, st, cur, k, v);
      r := AppendSlot(cur, pg, k, v);
      if r == OK { PutAppended(hash, s0, st, St(), cur, k, v); }
      PutFinished(hash, s0, st, St(), k, v, r, safe);
      PayRest(hash, grows, b, s0, st, books, WalkCost(st.flat, cur, k, v), St(), Books(), k, r == OK);
    }

    /** The walk stands on a full page without `k`: go to the next page, linking a new one
        if there is none, or split when no block is left. */
    method PutPast(cur: nat, pg: Page, k: Key, v: Value, ghost s0: State, ghost safe: bool, ghost b: Bill, ghost m: nat)
      returns (done: bool, r: Status, next: nat)
      requires Valid() && Walking(hash, s0, St(), cur, k) && NoAlias(hash, s0, k) && Due(b, s0, cur, k, v)
      requires Loaded(cur, pg) && pg.count >= SLOTS_PER_PAGE && !HasKey(EntriesAt(St().flat, cur), k)
      requires RECORD_HEADER + |k| + |v| <= BLOCK_SIZE
      requires m == MAX_DEPTH - LastDepth(s0.flat, HeadOf(s0, hash(k)))
      requires safe ==> b.start.c.freeBlocks > 0 || OnePageOnly(hash, s0, k)
      modifies this`dir, this`globalDepth, this`blockCount, this`freeBlocks, this`asked, this`home, this`owner, store, store.cache
      ensures Valid() && (done ==> PutDone(b, s0, k, v, r, safe))
      ensures !done ==> cur < next < FILE_LIMIT && Walking(hash, s0, St(), next, k) && Due(b, s0, next, k, v)
      decreases m, 1
    {
      ghost var st := St();
      assert st == s0;
      CostPast(hash, st, cur, k, v);
      if pg.next != 0 {
        WalkNext(hash, s0, st, cur, k);
        return false, OK, pg.next;
      }
      next := PutEnd(cur, pg, k, v, b);
      if next == 0 {
        r := PutSplit(cur, k, v, s0, safe, b, m);
        return true, r, 0;
      }
      return false, OK, next;
    }

    /** The end of a full chain: a new page to stand on, or 0. */
    method PutEnd(cur: nat, pg: Page, k: Key, v: Value, ghost b: Bill) returns (next: nat)
      requires Valid() && Walking(hash, St(), St(), cur, k) && Due(b, St(), cur, k, v)
      requires Loaded(cur, pg) && pg.count >= SLOTS_PER_PAGE && pg.next == 0 && !HasKey(EntriesAt(St().flat, cur), k)
      requires WalkCost(St().flat, cur, k, v) == NewCost(k, v)
      modifies this`blockCount, this`freeBlocks, this`asked, this`home, store, store.cache
      ensures Valid()
      ensures next != 0 ==> cur < next < FILE_LIMIT && Walking(hash, old(St()), St(), next, k) && Due(b, old(St()), next, k, v)
      ensures next == 0 ==> St() == old(St()) && !Grants(grows, old(Books())) && Books() == AfterOne(grows, old(Books()))
    {
      ghost var s0, books := St(), Books();
      next := ExtendChain(cur, pg);
      if next != 0 {
        WalkExtended(hash, s0, s0, cur, next, k);
        CostOnNew(hash, St(), next, pg.depth, k, v);
        PayPage(grows, b, s0, books, NewCost(k, v), Cramped(s0.flat, cur, k),
                St(), Books(), WalkCost(St().flat, next, k, v), Cramped(St().flat, next, k));
      }
    }

    /** The end of a full chain that gets no new page. */
    method PutSplit(cur: nat, k: Key, v: Value, ghost s0: State, ghost safe: bool, ghost b: Bill, ghost m: nat) returns (r: Status)
      requires Valid() && St() == s0 && WalkAt(hash, s0, cur, k) && NoAlias(hash, s0, k)
      requires !HasKey(EntriesAt(s0.flat, cur), k) && PageAt(s0.flat, cur).next == 0
      requires Owes(grows, b, s0, s0, b.start, b.cost, true) && !Grants(grows, b.start) && Books() == AfterOne(grows, b.start)
      requires RECORD_HEADER + |k| + |v| <= BLOCK_SIZE
      requires m == MAX_DEPTH - LastDepth(s0.flat, HeadOf(s0, hash(k)))
      requires safe ==> b.start.c.freeBlocks > 0 || OnePageOnly(hash, s0, k)
      modifies this`dir, this`globalDepth, this`blockCount, this`freeBlocks, this`asked, this`home, this`owner, store, store.cache
      ensures Valid() && PutDone(b, s0, k, v, r, safe)
      decreases m, 1, 0
    {
      ghost var books := Books();
      HeadWhenSafe(hash, s0, cur, k);
      r := SplitAndRetry(cur, k, v, m);
      PaySplit(hash, grows, b, s0, b.start, b.cost, books, St(), Books(), k, r == OK);
      PutWeaken(hash, s0, St(), k, v, r, cur in s0.dir, safe);
    }

    /** `page_split_and_retry` for a full last page that does not hold `k`. */
    method SplitAndRetry(cur: nat, k: Key, v: Value, ghost m: nat) returns (r: Status)
      requires Valid() && WalkAt(hash, St(), cur, k) && NoAlias(hash, St(), k)
      requires !HasKey(EntriesAt(St().flat, cur), k) && PageAt(St().flat, cur).next == 0
      requires RECORD_HEADER + |k| + |v| <= BLOCK_SIZE
      requires m == MAX_DEPTH - LastDepth(St().flat, HeadOf(St(), hash(k)))
      modifies this`dir, this`globalDepth, this`blockCount, this`freeBlocks, this`asked, this`home, this`owner, store, store.cache
      ensures Valid()
      ensures PutResult(hash, old(St()), St(), k, v, r, cur in old(dir))
      ensures r != OK ==> AtLimit(hash, St(), k) || Refused(grows, old(Books()), Books())
      decreases m, 0
    {
      ghost var s0 := St();
      EndsEmpty(hash, s0, cur, k);
      LastDepthAt(s0.flat, HeadOf(s0, hash(k)), cur, k);
      r := SplitPage(cur, k);
      if r == OK {
        r := RetryAfter(k, v, s0, cur in s0.dir, old(Books()));
      }
    }

    method RetryAfter(k: Key, v: Value, ghost s0: State, ghost safe: bool, ghost books: Ledger) returns (r: Status)
      requires Valid() && NoAlias(hash, St(), k) && NothingNew(hash, s0, St()) && Stack(hash, s0, k) == []
      requires safe ==> SameStacks(hash, s0, St()) && OnePageOnly(hash, St(), k)
      requires RECORD_HEADER + |k| + |v| <= BLOCK_SIZE && Pays(grows, books, 1, Books(), true)
      modifies this`dir, this`globalDepth, this`blockCount, this`freeBlocks, this`asked, this`home, this`owner, store, store.cache
      ensures Valid() && PutResult(hash, s0, St(), k, v, r, safe)
      ensures r != OK ==> AtLimit(hash, St(), k) || Refused(grows, books, Books())
      decreases MAX_DEPTH - LastDepth(St().flat, HeadOf(St(), hash(k))), 7
    {
      ghost var paid := Books();
      r := RetryPut(k, v, s0, safe);
      if r != OK && !AtLimit(hash, St(), k) { RefusedLater(grows, books, 1, paid, Books()); }
    }

    method RetryPut(k: Key, v: Value, ghost s0: State, ghost safe: bool) returns (r: Status)
      requires Valid() && NoAlias(hash, St(), k) && NothingNew(hash, s0, St()) && Stack(hash, s0, k) == []
      requires safe ==> SameStacks(hash, s0, St()) && OnePageOnly(hash, St(), k)
      requires RECORD_HEADER + |k| + |v| <= BLOCK_SIZE
      modifies this`dir, this`globalDepth, this`blockCount, this`freeBlocks, this`asked, this`home, this`owner, store, store.cache
      ensures Valid() && PutResult(hash, s0, St(), k, v, r, safe)
      ensures r != OK ==> AtLimit(hash, St(), k) || Refused(grows, old(Books()), Books())
      decreases MAX_DEPTH - LastDepth(St().flat, HeadOf(St(), hash(k))), 6
    {
      ghost var s1 := St();
      r := PutRetry(k, v);
      RetryResult(hash, s0, s1, St(), k, v, r, safe);
    }

    /** The retry, and why it may fail. */
    method PutRetry(k: Key, v: Value) returns (r: Status)
      requires Valid() && NoAlias(hash, St(), k)
      requires RECORD_HEADER + |k| + |v| <= BLOCK_SIZE
      modifies this`dir, this`globalDepth, this`blockCount, this`freeBlocks, this`asked, this`home, this`owner, store, store.cache
      ensures Valid() && PutResult(hash, old(St()), St(), k, v, r, old(Lossless(k)))
      ensures r != OK ==> AtLimit(hash, St(), k) || Refused(grows, old(Books()), Books())
      decreases MAX_DEPTH - LastDepth(St().flat, HeadOf(St(), hash(k))), 5
    {
      r := Put(k, v);
    }

    // ---- insert ----

    ghost function InsertBill(k: Key, v: Value): Bill
      reads this`dir, this`globalDepth, this`home, this`owner, this`blockCount, this`freeBlocks, this`asked, store`flat
    {
      Bill(Books(), InsertCost(hash, St(), k, v), Crowded(St().flat, HeadOf(St(), hash(k))))
    }

    /** The bill of an insert that stands on page `cur`. */
    ghost predicate PassDue(b: Bill, s0: State, cur: nat, k: Key, v: Value)
      reads this`dir, this`globalDepth, this`home, this`owner, this`blockCount, this`freeBlocks, this`asked, store`flat
    {
      Owes(grows, b, s0, St(), Books(), PassCost(St().flat, cur, k, v), Crowded(St().flat, cur))
    }

    ghost predicate InsertDone(b: Bill, s0: State, k: Key, v: Value, r: Status, safe: bool)
      reads this`dir, this`globalDepth, this`home, this`owner, this`blockCount, this`freeBlocks, this`asked, store`flat
    {
      && InsertResult(hash, s0, St(), k, v, r, b.start.c.freeBlocks > 0, safe)
      && Settled(hash, grows, b, St(), Books(), k, r == OK)
    }

    /** `paged_insert`. It never looks for its key. An absent key is put as `Put` does it; a key
        that is present gets one more copy, and the new value answers exactly when no page up
        to and including the first one with room held the key. It succeeds and takes blocks
        exactly as `InsertBill` says. */
    method Insert(k: Key, v: Value) returns (r: Status)
      requires Valid() && NoAlias(hash, St(), k)
      requires RECORD_HEADER + |k| + |v| <= BLOCK_SIZE
      modifies this`dir, this`globalDepth, this`blockCount, this`freeBlocks, this`asked, this`home, this`owner, store, store.cache
      ensures Readable() && InsertResult(hash, old(St()), St(), k, v, r, old(freeBlocks) > 0, old(Lossless(k)))
      ensures Settled(hash, grows, old(InsertBill(k, v)), St(), Books(), k, r == OK)
      ensures old(freeBlocks >= InsertCost(hash, St(), k, v)) ==>
                r == OK && Books() == Less(old(Books()), old(InsertCost(hash, St(), k, v)))
    {
      ghost var s0, safe, b := St(), Lossless(k), InsertBill(k, v);
      var cur, done;
      r, cur, done := InsertFirst(k, v, b, safe);
      while !done && cur != 0
        invariant Readable()
        invariant !done ==> cur != 0 && Inserting(hash, s0, St(), cur, k) && PassDue(b, s0, cur, k, v)
        invariant done ==> InsertDone(b, s0, k, v, r, safe)
        decreases !done, FILE_LIMIT - cur
      {
        done, r, cur := InsertAt(cur, k, v, s0, safe, b);
      }
      InsertPaid(hash, grows, s0, St(), b, Books(), k, v, r == OK);
    }

    method InsertFirst(k: Key, v: Value, ghost b: Bill, ghost safe: bool) returns (r: Status, cur: nat, done: bool)
      requires Valid() && b == InsertBill(k, v)
      modifies this`dir, this`globalDepth, this`blockCount, this`freeBlocks, this`asked, this`home, this`owner, store, store.cache
      ensures Readable() && (done <==> r != OK)
      ensures !done ==> cur != 0 && Inserting(hash, old(St()), St(), cur, k) && PassDue(b, old(St()), cur, k, v)
      ensures done ==> InsertDone(b, old(St()), k, v, r, safe)
    {
      ghost var s0 := St();
      r, cur := FirstPage(k);
      done := r != OK;
      if done {
        PayNothing(hash, grows, b, St(), Books(), k);
      } else {
        FirstInsert(hash, s0, St(), cur, k);
        FirstBill(hash, grows, s0, St(), cur, k, v, b.start, Books());
      }
    }

    /** One turn of the chain walk of `paged_insert`. */
    method InsertAt(cur: nat, k: Key, v: Value, ghost s0: State, ghost safe: bool, ghost b: Bill)
      returns (done: bool, r: Status, next: nat)
      requires Valid() && Inserting(hash, s0, St(), cur, k) && NoAlias(hash, s0, k) && PassDue(b, s0, cur, k, v)
      requires RECORD_HEADER + |k| + |v| <= BLOCK_SIZE
      requires safe ==> b.start.c.freeBlocks > 0 || OnePageOnly(hash, s0, k)
      modifies this`dir, this`globalDepth, this`blockCount, this`freeBlocks, this`asked, this`home, this`owner, store, store.cache
      ensures Readable() && (done ==> InsertDone(b, s0, k, v, r, safe))
      ensures !done ==> cur < next < FILE_LIMIT && Inserting(hash, s0, St(), next, k) && PassDue(b, s0, next, k, v)
    {
      var pg := store.PageLoad(cur);
      if pg.count >= SLOTS_PER_PAGE {
        done, r, next := InsertPast(cur, pg, k, v, s0, safe, b);
        return;
      }
      r := InsertHere(cur, pg, k, v, s0, safe, b);
      return true, r, 0;
    }

    method InsertHere(cur: nat, pg: Page, k: Key, v: Value, ghost s0: State, ghost safe: bool, ghost b: Bill) returns (r: Status)
      requires Valid() && Inserting(hash, s0, St(), cur, k) && Loaded(cur, pg) && pg.count < SLOTS_PER_PAGE && PassDue(b, s0, cur, k, v)
      requires RECORD_HEADER + |k| + |v| <= BLOCK_SIZE
      modifies this`freeBlocks, this`blockCount, this`asked, this`owner, store`disk, store`flat, store.cache
      ensures Readable() && InsertDone(b, s0, k, v, r, safe)
    {
      ghost var st, books := St(), Books();
      PassHere(hash, st, cur, k, v);
      r := Land(cur, pg, k, v, s0);
      InsertFinished(hash, s0, st, St(), k, v, r, b.start.c.freeBlocks > 0, safe);
      PayRest(hash, grows, b, s0, st, books, PassCost(st.flat, cur, k, v), St(), Books(), k, r == OK);
    }

    /** Append the entry to the loaded page with room, whether it holds the key or not. */
    method Land(cur: nat, pg: Page, k: Key, v: Value, ghost s0: State) returns (r: Status)
      requires store.Valid() && Geometry() && Inserting(hash, s0, St(), cur, k)
      requires Loaded(cur, pg) && pg.count < SLOTS_PER_PAGE
      requires RECORD_HEADER + |k| + |v| <= BLOCK_SIZE
      modifies this`freeBlocks, this`blockCount, this`asked, this`owner, store`disk, store`flat, store.cache
      ensures store.Valid() && Geometry()
      ensures r == OK || (r == ENOSPC && St() == old(St()))
      ensures r == OK ==> Inserted(hash, s0, St(), k, v)
      ensures Pays(grows, old(Books()), LandCost(ViewOf(pg), k, v), Books(), r == OK)
    {
      ghost var st := St();
      if pg.inlineUsed + |k| + |v| <= INLINE_SPACE {
        LandInline(hash, s0, st, cur, k, v);
        assert LandCost(ViewOf(pg), k, v) == 0;
        PaysNothing(grows, Books());
        r := AppendInline(cur, pg, k, v);
      } else {
        assert LandCost(ViewOf(pg), k, v) == 1;
        r := LandOut(cur, pg, k, v, s0);
      }
    }

    method LandOut(cur: nat, pg: Page, k: Key, v: Value, ghost s0: State) returns (r: Status)
      requires store.Valid() && Geometry() && Inserting(hash, s0, St(), cur, k)
      requires Loaded(cur, pg) && pg.count < SLOTS_PER_PAGE
      requires RECORD_HEADER + |k| + |v| <= BLOCK_SIZE
      modifies this`freeBlocks, this`blockCount, this`asked, this`owner, store`disk, store`flat, store.cache
      ensures store.Valid() && Geometry()
      ensures r == OK || (r == ENOSPC && St() == old(St()))
      ensures r == OK ==> Inserted(hash, s0, St(), k, v)
      ensures Pays(grows, old(Books()), 1, Books(), r == OK)
    {
      ghost var st := St();
      var rec := AppendOut(cur, pg, k, v);
      if rec == 0 {
        return ENOSPC;
      }
      LandRecord(hash, s0, st, cur, k, v, rec);
      r := OK;
    }

    /** The walk of `paged_insert` stands on a full page. */
    method InsertPast(cur: nat, pg: Page, k: Key, v: Value, ghost s0: State, ghost safe: bool, ghost b: Bill)
      returns (done: bool, r: Status, next: nat)
      requires Valid() && Inserting(hash, s0, St(), cur, k) && NoAlias(hash, s0, k) && PassDue(b, s0, cur, k, v)
      requires Loaded(cur, pg) && pg.count >= SLOTS_PER_PAGE
      requires RECORD_HEADER + |k| + |v| <= BLOCK_SIZE
      requires safe ==> b.start.c.freeBlocks > 0 || OnePageOnly(hash, s0, k)
      modifies this`dir, this`globalDepth, this`blockCount, this`freeBlocks, this`asked, this`home, this`owner, store, store.cache
      ensures Valid() && (done ==> InsertDone(b, s0, k, v, r, safe))
      ensures !done ==> cur < next < FILE_LIMIT && Inserting(hash, s0, St(), next, k) && PassDue(b, s0, next, k, v)
    {
      ghost var st := St();
      assert st == s0;
      PassPast(hash, st, cur, k, v);
      if pg.next != 0 {
        InsertNext(hash, s0, st, cur, k);
        return false, OK, pg.next;
      }
      next := InsertEnd(cur, pg, k, v, b);
      if next == 0 {
        r := InsertSplit(cur, k, v, s0, safe, b);
        return true, r, 0;
      }
      return false, OK, next;
    }

    method InsertEnd(cur: nat, pg: Page, k: Key, v: Value, ghost b: Bill) returns (next: nat)
      requires Valid() && Inserting(hash, St(), St(), cur, k) && PassDue(b, St(), cur, k, v)
      requires Loaded(cur, pg) && pg.count >= SLOTS_PER_PAGE && pg.next == 0
      requires PassCost(St().flat, cur, k, v) == NewCost(k, v)
      modifies this`blockCount, this`freeBlocks, this`asked, this`home, store, store.cache
      ensures Valid()
      ensures next != 0 ==> cur < next < FILE_LIMIT && Inserting(hash, old(St()), St(), next, k) && PassDue(b, old(St()), next, k, v)
      ensures next == 0 ==> St() == old(St()) && !Grants(grows, old(Books())) && Books() == AfterOne(grows, old(Books()))
    {
      ghost var s0, books := St(), Books();
      next := ExtendChain(cur, pg);
      if next != 0 {
        InsertExtended(hash, s0, s0, cur, next, k);
        CostOnNew(hash, St(), next, pg.depth, k, v);
        PayPage(grows, b, s0, books, NewCost(k, v), Crowded(s0.flat, cur),
                St(), Books(), PassCost(St().flat, next, k, v), Crowded(St().flat, next));
      }
    }

    method InsertSplit(cur: nat, k: Key, v: Value, ghost s0: State, ghost safe: bool, ghost b: Bill) returns (r: Status)
      requires Valid() && St() == s0 && Inserting(hash, s0, s0, cur, k) && NoAlias(hash, s0, k) && PageAt(s0.flat, cur).next == 0
      requires Owes(grows, b, s0, s0, b.start, b.cost, true) && !Grants(grows, b.start) && Books() == AfterOne(grows, b.start)
      requires RECORD_HEADER + |k| + |v| <= BLOCK_SIZE
      requires safe ==> b.start.c.freeBlocks > 0 || OnePageOnly(hash, s0, k)
      modifies this`dir, this`globalDepth, this`blockCount, this`freeBlocks, this`asked, this`home, this`owner, store, store.cache
      ensures Valid() && InsertDone(b, s0, k, v, r, safe)
    {
      ghost var books := Books();
      r := InsertBySplit(cur, k, v, safe);
      PaySplit(hash, grows, b, s0, b.start, b.cost, books, St(), Books(), k, r == OK);
    }

    /** All pages are full and no block is left: the retry after the split is a put. */
    method InsertBySplit(cur: nat, k: Key, v: Value, ghost safe: bool) returns (r: Status)
      requires Valid() && NoAlias(hash, St(), k) && IsPage(St().flat, cur)
      requires FullBefore(St().flat, HeadOf(St(), hash(k)), cur) && PageAt(St().flat, cur).next == 0
      requires RECORD_HEADER + |k| + |v| <= BLOCK_SIZE
      requires safe ==> OnePageOnly(hash, St(), k)
      modifies this`dir, this`globalDepth, this`blockCount, this`freeBlocks, this`asked, this`home, this`owner, store, store.cache
      ensures Valid() && InsertResult(hash, old(St()), St(), k, v, r, false, safe)
      ensures r != OK ==> AtLimit(hash, St(), k) || Refused(grows, old(Books()), Books())
    {
      ghost var s0 := St();
      r := SplitFull(cur, k);
      if r == OK {
        r := InsertRetry(k, v, s0, safe);
      } else {
        InsertRefused(hash, s0, St(), k, v, safe);
      }
    }

    /** The split of the last page of a full chain. */
    method SplitFull(cur: nat, ghost k: Key) returns (r: Status)
      requires Valid() && IsPage(St().flat, cur)
      requires FullBefore(St().flat, HeadOf(St(), hash(k)), cur) && PageAt(St().flat, cur).next == 0
      modifies this`dir, this`globalDepth, this`blockCount, this`freeBlocks, this`asked, this`home, this`owner, store, store.cache
      ensures Valid() && NothingNew(hash, old(St()), St()) && (r == OK || r == ENOSPC)
      ensures r != OK ==> SameStacks(hash, old(St()), St()) && (AtLimit(hash, St(), k) || Refused(grows, old(Books()), Books()))
      ensures r == OK ==> Books().asked >= old(asked)
      ensures r == OK && OnePageOnly(hash, old(St()), k) ==> SameStacks(hash, old(St()), St()) && OnePageOnly(hash, St(), k)
    {
      ghost var s0 := St();
      OnlyHead(hash, s0, cur, k);
      FullDepth(s0.flat, HeadOf(s0, hash(k)), cur);
      r := SplitPage(cur, k);
    }

    method InsertRetry(k: Key, v: Value, ghost s0: State, ghost safe: bool) returns (r: Status)
      requires Valid() && NoAlias(hash, St(), k) && NothingNew(hash, s0, St())
      requires safe ==> SameStacks(hash, s0, St()) && OnePageOnly(hash, St(), k)
      requires RECORD_HEADER + |k| + |v| <= BLOCK_SIZE
      modifies this`dir, this`globalDepth, this`blockCount, this`freeBlocks, this`asked, this`home, this`owner, store, store.cache
      ensures Valid() && InsertResult(hash, s0, St(), k, v, r, false, safe)
      ensures r != OK ==> AtLimit(hash, St(), k) || Refused(grows, old(Books()), Books())
    {
      ghost var s1 := St();
      r := PutRetry(k, v);
      InsertRetried(hash, s0, s1, St(), k, v, r, safe);
    }

    /** `paged_get` with a buffer of `cap` bytes: exactly what `Lookup` says. */
    method Get(k: Key, cap: nat) returns (r: Status, buf: Value)
      requires Readable()
      modifies store`disk, store.cache
      ensures Readable() && St() == old(St())
      ensures GetResult(Lookup(hash, St(), k), cap, r, buf)
    {
      r, buf := ENOENT, [];
      var idx := DirIndex(hash(k), globalDepth);
      DirIndexIsResidue(hash(k), globalDepth);
      if idx >= |dir| || dir[idx] == NO_PAGE {
        return ENOENT, [];
      }
      var cur := dir[idx];
      ReadStart(hash, St(), k);
      var done := false;
      while !done && cur != 0
        invariant Readable()
        invariant !done ==> if cur == 0 then Stack(hash, St(), k) == [] else ReadAt(hash, St(), cur, k)
        invariant done ==> GetResult(Lookup(hash, St(), k), cap, r, buf)
        decreases !done && cur != 0, FILE_LIMIT - cur
      {
        done, r, buf, cur := GetAt(cur, k, cap);
      }
      if !done {
        r := ENOENT;
      }
    }

    /** One turn of the chain walk of `paged_get`. */
    method GetAt(cur: nat, k: Key, cap: nat) returns (done: bool, r: Status, buf: Value, next: nat)
      requires Readable() && ReadAt(hash, St(), cur, k)
      modifies store`disk, store.cache
      ensures Readable() && St() == old(St())
      ensures done ==> GetResult(Lookup(hash, St(), k), cap, r, buf)
      ensures !done ==> if next == 0 then Stack(hash, St(), k) == []
                        else cur < next < FILE_LIMIT && ReadAt(hash, St(), next, k)
    {
      var pg := store.PageLoad(cur);
      var found, v := ScanPage(cur, pg, k);
      if found {
        TopCopy(hash, St(), cur, k, v);
        if |v| > cap {
          return true, ENOSPC, [], 0;
        }
        return true, OK, v, 0;
      }
      StepOn(hash, St(), cur, k);
      return false, OK, [], pg.next;
    }

    /** The slot loop of `paged_get` on one loaded page. */
    method ScanPage(cur: nat, pg: Page, k: Key) returns (found: bool, v: Value)
      requires Readable() && Loaded(cur, pg)
      ensures found ==> Copies(EntriesAt(St().flat, cur), k) != [] && Copies(EntriesAt(St().flat, cur), k)[0] == v
      ensures !found ==> !HasKey(EntriesAt(St().flat, cur), k)
    {
      ghost var es := EntriesAt(St().flat, cur);
      PageReadable(hash, St(), cur, k);
      found, v := ScanSlots(pg, k, es);
      if found { FirstCopy(es, k, v); }
    }

    method ScanSlots(pg: Page, k: Key, ghost es: seq<Entry>) returns (found: bool, v: Value)
      requires store.Valid() && WellShaped(pg) && |es| == pg.count
      requires forall i | 0 <= i < pg.count :: SlotReads(hash, store.flat, ViewOf(pg), pg.slots[i], es[i], k)
      ensures if found then FirstIs(es, k, v) else !HasKey(es, k)
    {
      found, v := false, [];
      var i := 0;
      while i < pg.count && !found
        invariant i <= pg.count
        invariant !found ==> forall j | 0 <= j < i :: es[j].key != k
        invariant found ==> FirstIs(es, k, v)
      {
        found, v := ReadSlot(pg, i, k, es[i]);
        if found { assert es[i] == Entry(k, v); }
        i := i + 1;
      }
    }

    /** Does slot `i` hold `k`? Compare the whole key where the prefix does not settle it,
        and fetch the value. */
    method ReadSlot(pg: Page, i: nat, k: Key, ghost e: Entry) returns (hit: bool, v: Value)
      requires store.Valid() && WellShaped(pg) && i < pg.count
      requires SlotReads(hash, store.flat, ViewOf(pg), pg.slots[i], e, k)
      ensures hit <==> e.key == k
      ensures hit ==> v == e.val
    {
      var s := pg.slots[i];
      if s.hash != hash(k) || s.klen != |k| || s.prefix != KeyPrefix(k) {
        return false, [];
      }
      hit, v := ReadMatch(pg, s, k, e);
    }

    method ReadMatch(pg: Page, s: Slot, k: Key, ghost e: Entry) returns (hit: bool, v: Value)
      requires store.Valid() && WellShaped(pg) && Matches(s, hash(k), k)
      requires SlotReads(hash, store.flat, ViewOf(pg), s, e, k)
      ensures (hit <==> e.key == k) && (hit ==> v == e.val)
    {
      hit, v := ReadBytes(pg, s, k);
      if s.inlined {
        BytesTell(pg.area, s.fileOff, s.vlen, k, e, hit, v);
      } else {
        BytesTell(store.flat[s.fileOff].bytes, RECORD_HEADER, s.vlen, k, e, hit, v);
      }
    }

    /** The key and value bytes behind a matching slot. */
    method ReadBytes(pg: Page, s: Slot, k: Key) returns (hit: bool, v: Value)
      requires store.Valid()
      requires s.inlined ==> s.fileOff + |k| + s.vlen <= |pg.area|
      requires !s.inlined ==> s.fileOff in store.flat && store.flat[s.fileOff].RecC?
                              && RECORD_HEADER + |k| + s.vlen <= |store.flat[s.fileOff].bytes|
      ensures var b := if s.inlined then pg.area else store.flat[s.fileOff].bytes;
              var at := if s.inlined then s.fileOff else RECORD_HEADER;
              && (hit <==> |k| <= KEY_PREFIX_LEN || b[at..at + |k|] == k)
              && (hit ==> v == b[at + |k|..at + |k| + s.vlen])
    {
      if s.inlined {
        if |k| > KEY_PREFIX_LEN && pg.area[s.fileOff..s.fileOff + |k|] != k {
          return false, [];
        }
        return true, pg.area[s.fileOff + |k|..s.fileOff + |k| + s.vlen];
      }
      var rec := store.ReadRecord(s.fileOff);
      if |k| > KEY_PREFIX_LEN && rec[RECORD_HEADER..RECORD_HEADER + |k|] != k {
        return false, [];
      }
      return true, rec[RECORD_HEADER + |k|..RECORD_HEADER + |k| + s.vlen];
    }

    /** `paged_del`: removes the first copy. A shadowed copy, if there is one, answers next. */
    method Del(k: Key) returns (r: Status)
      requires Valid() && NoAlias(hash, St(), k)
      modifies store`disk, store`flat, store.cache
      ensures Valid()
      ensures r == OK <==> old(Stack(hash, St(), k)) != []
      ensures r == OK ==> Removed(hash, old(St()), St(), k)
      ensures r != OK ==> r == ENOENT && St() == old(St())
    {
      var idx := DirIndex(hash(k), globalDepth);
      DirIndexIsResidue(hash(k), globalDepth);
      if idx >= |dir| || dir[idx] == NO_PAGE {
        return ENOENT;
      }
      var cur := dir[idx];
      ReadStart(hash, St(), k);
      var done := false;
      while !done && cur != 0
        invariant Valid()
        invariant !done ==> St() == old(St())
        invariant !done ==> if cur == 0 then Stack(hash, St(), k) == [] else WalkAt(hash, St(), cur, k)
        invariant done ==> Removed(hash, old(St()), St(), k)
        decreases !done && cur != 0, FILE_LIMIT - cur
      {
        done, cur := DelAt(cur, k);
      }
      return if done then OK else ENOENT;
    }

    /** One turn of the chain walk of `paged_del`. */
    method DelAt(cur: nat, k: Key) returns (done: bool, next: nat)
      requires Valid() && WalkAt(hash, St(), cur, k) && NoAlias(hash, St(), k)
      modifies store`disk, store`flat, store.cache
      ensures Valid()
      ensures done ==> Removed(hash, old(St()), St(), k)
      ensures !done ==> St() == old(St())
      ensures !done ==> if next == 0 then Stack(hash, St(), k) == []
                        else cur < next < FILE_LIMIT && WalkAt(hash, St(), next, k)
    {
      var pg, i := Locate(cur, k);
      if i < pg.count {
        RemoveStep(hash, St(), cur, i, k);
        DropSlot(cur, pg, i);
        return true, 0;
      }
      StepOn(hash, St(), cur, k);
      return false, pg.next;
    }

    /** The last live slot moves into the hole. */
    method DropSlot(cur: nat, pg: Page, i: nat)
      requires store.Valid() && Geometry() && Loaded(cur, pg) && i < pg.count
      modifies store`disk, store`flat, store.cache
      ensures store.Valid() && Geometry()
      ensures St() == WithPage(old(St()), cur, RemoveSlot(ViewOf(pg), i))
    {
      var slots := pg.slots;
      if i < pg.count - 1 {
        slots := slots[i := slots[pg.count - 1]];
      }
      var pg' := pg.(slots := slots, count := pg.count - 1);
      assert ViewOf(pg').slots == SwapOut(ViewOf(pg).slots, i);
      StorePage(cur, pg');
    }
  }

  /** The stored part of a split. */
  lemma SplitStored(st: State, cur: nat, to: nat, low: PageView, high: PageView)
    requires IsPage(st.flat, cur) && cur in st.home
    ensures var st' := Split(st, cur, to, low, high);
            && st'.dir == Repointed(st.dir, cur, to, PageAt(st.flat, cur).depth) && st'.depth == st.depth
            && st'.flat == st.flat[cur := PageC(low)][to := PageC(high)]
  {
  }

  lemma AppendedView(pg: Page, s: Slot)
    requires WellShaped(pg) && pg.count < SLOTS_PER_PAGE
    ensures pg.slots[pg.count := s][..pg.count + 1] == pg.slots[..pg.count] + [s]
  {
  }

  /** Key and value bytes behind a slot decide between its entry and another key's. */
  lemma BytesTell(b: seq<Byte>, at: nat, vlen: nat, k: Key, e: Entry, hit: bool, v: Value)
    requires BytesAre(b, at, |k|, vlen, e) && (|k| <= KEY_PREFIX_LEN ==> e.key == k)
    requires hit <==> |k| <= KEY_PREFIX_LEN || b[at..at + |k|] == k
    requires hit ==> v == b[at + |k|..at + |k| + vlen]
    ensures (hit <==> e.key == k) && (hit ==> v == e.val)
  {
  }

  /** What `paged_get` reports for a buffer of `cap` bytes. */
  ghost predicate GetResult(answer: Option<Value>, cap: nat, r: Status, buf: Value) {
    match answer
    case None => r == ENOENT
    case Some(v) => if |v| <= cap then r == OK && buf == v else r == ENOSPC
  }

  /** What a finished put guarantees; the last argument says that no overflow page was split. */
  ghost predicate PutResult(hash: HashFn, s0: State, s1: State, k: Key, v: Value, r: Status, safe: bool) {
    && (r == OK || r == ENOSPC)
    && (r == OK ==> Lookup(hash, s1, k) == Some(v))
    && (safe && r == OK ==> PutOutcome(hash, s0, s1, k, v))
    && (safe && r != OK ==> SameStacks(hash, s0, s1))
    && AliasAtMost(hash, s0, s1, k) && DenseKept(s0, s1)
  }

  /** The start of a walk: the bucket as it was, or a new empty one. */
  ghost predicate FirstAt(hash: HashFn, s0: State, st: State, cur: nat, k: Key) {
    && StateOK(hash, s0) && StateOK(hash, st) && cur == HeadOf(st, hash(k)) && cur != NO_PAGE
    && SameStacks(hash, s0, st) && NothingNew(hash, s0, st)
    && (if HeadOf(s0, hash(k)) == NO_PAGE then st != s0 && IsPage(st.flat, cur) && PageAt(st.flat, cur) == EmptyView(st.depth)
        else st == s0)
  }

  /** The first page leaves the whole bill to pay, or all but the page itself. */
  lemma FirstCost(hash: HashFn, s0: State, st: State, cur: nat, k: Key, v: Value)
    requires FirstAt(hash, s0, st, cur, k)
    ensures if st == s0 then
              && WalkCost(st.flat, cur, k, v) == PutCost(hash, s0, k, v)
              && PassCost(st.flat, cur, k, v) == InsertCost(hash, s0, k, v)
            else
              && WalkCost(st.flat, cur, k, v) + 1 == PutCost(hash, s0, k, v)
              && PassCost(st.flat, cur, k, v) + 1 == InsertCost(hash, s0, k, v)
  {
    if st != s0 { CostOnNew(hash, st, cur, st.depth, k, v); }
  }

  /** What is due on the first page: the whole bill, or all but the page itself. */
  lemma FirstBill(hash: HashFn, grows: nat -> bool, s0: State, st: State, cur: nat, k: Key, v: Value, books: Ledger, books': Ledger)
    requires FirstAt(hash, s0, st, cur, k)
    requires if HeadOf(s0, hash(k)) == NO_PAGE then Pays(grows, books, 1, books', true) else books' == books
    ensures Owes(grows, Bill(books, PutCost(hash, s0, k, v), Cramped(s0.flat, HeadOf(s0, hash(k)), k)), s0, st, books',
                 WalkCost(st.flat, cur, k, v), Cramped(st.flat, cur, k))
    ensures Owes(grows, Bill(books, InsertCost(hash, s0, k, v), Crowded(s0.flat, HeadOf(s0, hash(k)))), s0, st, books',
                 PassCost(st.flat, cur, k, v), Crowded(st.flat, cur))
  {
    FirstCost(hash, s0, st, cur, k, v);
    var b := Bill(books, PutCost(hash, s0, k, v), Cramped(s0.flat, HeadOf(s0, hash(k)), k));
    var b' := Bill(books, InsertCost(hash, s0, k, v), Crowded(s0.flat, HeadOf(s0, hash(k))));
    BillOpens(grows, b, s0);
    BillOpens(grows, b', s0);
    if st != s0 {
      PayPage(grows, b, s0, books, b.cost, b.tight, st, books', WalkCost(st.flat, cur, k, v), Cramped(st.flat, cur, k));
      PayPage(grows, b', s0, books, b'.cost, b'.tight, st, books', PassCost(st.flat, cur, k, v), Crowded(st.flat, cur));
    }
  }

  /** What a caller with enough free blocks can rely on. */
  lemma PutPaid(hash: HashFn, grows: nat -> bool, s0: State, st: State, b: Bill, books: Ledger, k: Key, v: Value, ok: bool)
    requires b.cost == PutCost(hash, s0, k, v) && b.tight == Cramped(s0.flat, HeadOf(s0, hash(k)), k)
    requires Settled(hash, grows, b, st, books, k, ok)
    ensures b.start.c.freeBlocks >= b.cost ==> ok && books == Less(b.start, b.cost)
    ensures Stack(hash, s0, k) != [] && !Shadows(hash, s0, k) && |v| <= |Stack(hash, s0, k)[0]| ==> b.cost == 0 && ok && books == b.start
  {
    if b.tight { CrampedCost(s0.flat, HeadOf(s0, hash(k)), k, v); }
    SettledFree(hash, grows, b, st, books, k, ok);
    if Stack(hash, s0, k) != [] && !Shadows(hash, s0, k) && |v| <= |Stack(hash, s0, k)[0]| { InPlaceIsFree(hash, s0, k, v); }
  }

  lemma InsertPaid(hash: HashFn, grows: nat -> bool, s0: State, st: State, b: Bill, books: Ledger, k: Key, v: Value, ok: bool)
    requires b.cost == InsertCost(hash, s0, k, v) && b.tight == Crowded(s0.flat, HeadOf(s0, hash(k)))
    requires Settled(hash, grows, b, st, books, k, ok)
    ensures b.start.c.freeBlocks >= b.cost ==> ok && books == Less(b.start, b.cost)
  {
    if b.tight { CrowdedCost(s0.flat, HeadOf(s0, hash(k)), k, v); }
    SettledFree(hash, grows, b, st, books, k, ok);
  }

  /** A stronger premise keeps the result. */
  lemma PutWeaken(hash: HashFn, s0: State, s1: State, k: Key, v: Value, r: Status, safe: bool, safe': bool)
    requires PutResult(hash, s0, s1, k, v, r, safe) && (safe' ==> safe)
    ensures PutResult(hash, s0, s1, k, v, r, safe')
  {
  }

  lemma FirstWalk(hash: HashFn, s0: State, st: State, cur: nat, k: Key)
    requires FirstAt(hash, s0, st, cur, k)
    ensures cur != 0 && Walking(hash, s0, st, cur, k)
  {
    StateIsLoose(hash, st);
    HeadIsPage(hash, st, hash(k));
    if st == s0 { WalkStart(hash, s0, k); } else { WalkOpened(hash, s0, st, k); }
  }

  lemma FirstInsert(hash: HashFn, s0: State, st: State, cur: nat, k: Key)
    requires FirstAt(hash, s0, st, cur, k)
    ensures cur != 0 && Inserting(hash, s0, st, cur, k)
  {
    StateIsLoose(hash, st);
    HeadIsPage(hash, st, hash(k));
    if st == s0 { InsertStart(hash, s0, k); } else { InsertOpened(hash, s0, st, k); }
  }

  /** What a finished insert guarantees: with a free block it appended its entry; with none it
      may have split the full page instead and then put the value. */
  ghost predicate InsertResult(hash: HashFn, s0: State, s1: State, k: Key, v: Value, r: Status, free: bool, safe: bool) {
    && (r == OK || r == ENOSPC)
    && (r == OK ==>
          || Inserted(hash, s0, s1, k, v)
          || (&& !free && StateOK(hash, s1) && Lookup(hash, s1, k) == Some(v)
              && (safe ==> SameOtherStacks(hash, s0, s1, k))))
    && (r != OK ==> StateOK(hash, s1) && (safe ==> SameStacks(hash, s0, s1)))
    && AliasAtMost(hash, s0, s1, k) && DenseKept(s0, s1)
    && (Stack(hash, s0, k) == [] ==> StateOK(hash, s1) && PutResult(hash, s0, s1, k, v, r, safe))
  }

  lemma InsertFinished(hash: HashFn, s0: State, st: State, s1: State, k: Key, v: Value, r: Status, free: bool, safe: bool)
    requires SameStacks(hash, s0, st) && NothingNew(hash, s0, st) && StateOK(hash, st)
    requires (r == OK && Inserted(hash, s0, s1, k, v)) || (r == ENOSPC && s1 == st)
    ensures InsertResult(hash, s0, s1, k, v, r, free, safe)
  {
    if r == OK && Stack(hash, s0, k) == [] {
      assert Stack(hash, s1, k) == [v];
      assert PutOutcome(hash, s0, s1, k, v);
    }
  }

  lemma InsertRefused(hash: HashFn, s0: State, s1: State, k: Key, v: Value, safe: bool)
    requires StateOK(hash, s1) && NothingNew(hash, s0, s1) && SameStacks(hash, s0, s1)
    ensures InsertResult(hash, s0, s1, k, v, ENOSPC, false, safe)
  {
  }

  lemma InsertRetried(hash: HashFn, s0: State, s1: State, s2: State, k: Key, v: Value, r: Status, safe: bool)
    requires NothingNew(hash, s0, s1) && (safe ==> SameStacks(hash, s0, s1))
    requires StateOK(hash, s2) && PutResult(hash, s1, s2, k, v, r, safe)
    ensures InsertResult(hash, s0, s2, k, v, r, false, safe)
  {
    if safe {
      if r == OK { OnlyKeySince(hash, s0, s1, s2, k); } else { SameTrans(hash, s0, s1, s2); }
    }
    if Stack(hash, s0, k) == [] { RetryResult(hash, s0, s1, s2, k, v, r, safe); }
  }

  /** The last page of a one-page chain is its head, and no page comes before it. */
  lemma OnlyHead(hash: HashFn, st: State, cur: nat, k: Key)
    requires StateOK(hash, st) && FullBefore(st.flat, HeadOf(st, hash(k)), cur)
    ensures OnePageOnly(hash, st, k) ==> cur in st.dir && NoneBefore(st.flat, HeadOf(st, hash(k)), cur, k)
  {
    DirIndexIsResidue(hash(k), st.depth);
  }

  /** A put that ended on a page of the walk, with or without success. */
  lemma PutFinished(hash: HashFn, s0: State, st: State, s1: State, k: Key, v: Value, r: Status, safe: bool)
    requires SameStacks(hash, s0, st) && NothingNew(hash, s0, st)
    requires (r == OK && PutOutcome(hash, s0, s1, k, v)) || (r == ENOSPC && s1 == st)
    ensures PutResult(hash, s0, s1, k, v, r, safe)
  {
  }

  /** The last page of a one-page chain is its head. */
  lemma HeadWhenSafe(hash: HashFn, st: State, cur: nat, k: Key)
    requires WalkAt(hash, st, cur, k)
    ensures OnePageOnly(hash, st, k) ==> cur in st.dir
  {
    DirIndexIsResidue(hash(k), st.depth);
  }

  lemma RetryResult(hash: HashFn, s0: State, s1: State, s2: State, k: Key, v: Value, r: Status, safe: bool)
    requires Stack(hash, s0, k) == [] && NothingNew(hash, s0, s1)
    requires safe ==> SameStacks(hash, s0, s1)
    requires PutResult(hash, s1, s2, k, v, r, safe)
    ensures PutResult(hash, s0, s2, k, v, r, safe)
  {
    if safe {
      assert Stack(hash, s1, k) == [];
      if r == OK { OnlyKeySince(hash, s0, s1, s2, k); } else { SameTrans(hash, s0, s1, s2); }
    }
  }

  /** What a split attempt means for every answer. */
  lemma SplitEffect(hash: HashFn, s0: State, s1: State, s2: State, cur: nat, to: nat, low: PageView, high: PageView, k: Key, r: Status)
    requires StateOK(hash, s0) && IsPage(s0.flat, cur)
    requires s1 == s0 || (PageAt(s0.flat, cur).depth == s0.depth < MAX_DEPTH && s1 == Doubled(s0))
    requires if r == OK then SplitReady(hash, s1, cur, to, low, high) && s2 == Split(s1, cur, to, low, high) else s2 == s1
    ensures StateOK(hash, s2) && NothingNew(hash, s0, s2)
    ensures r != OK || cur in s0.dir ==> SameStacks(hash, s0, s2)
    ensures r == OK ==> PageAt(s0.flat, cur).depth < MAX_DEPTH
    ensures r == OK && NoneBefore(s0.flat, HeadOf(s0, hash(k)), cur, k) ==>
              && LastDepth(s2.flat, HeadOf(s2, hash(k))) == PageAt(s0.flat, cur).depth + 1
              && (cur in s0.dir ==> OnePageOnly(hash, s2, k))
  {
    if s0.depth < MAX_DEPTH { DoubledOK(hash, s0); }
    if r == OK {
      SplitOK(hash, s1, cur, to, low, high);
      SplitFacts(hash, s0, s1, cur, to, low, high, k);
    }
  }

  lemma SplitFacts(hash: HashFn, s0: State, s1: State, cur: nat, to: nat, low: PageView, high: PageView, k: Key)
    requires StateOK(hash, s0) && IsPage(s0.flat, cur)
    requires s1 == s0 || s1 == Doubled(s0)
    requires SameStacks(hash, s0, s1) && NothingNew(hash, s0, s1)
    requires SplitReady(hash, s1, cur, to, low, high)
    ensures var s2 := Split(s1, cur, to, low, high);
            && NothingNew(hash, s0, s2)
            && (cur in s0.dir ==> SameStacks(hash, s0, s2))
            && (NoneBefore(s0.flat, HeadOf(s0, hash(k)), cur, k) ==>
                  && LastDepth(s2.flat, HeadOf(s2, hash(k))) == PageAt(s0.flat, cur).depth + 1
                  && (cur in s0.dir ==> OnePageOnly(hash, s2, k)))
  {
    assert cur in s0.dir <==> cur in s1.dir;
    DoubledHead(s0, hash(k));
    if cur in s1.dir { SplitHeadKeeps(hash, s1, cur, to, low, high); }
    if NoneBefore(s0.flat, HeadOf(s0, hash(k)), cur, k) { SplitDeepens(hash, s1, cur, to, low, high, k); }
    SplitNothingNew(hash, s1, cur, to, low, high);
  }
}
