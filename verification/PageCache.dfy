/** The direct-mapped write-back page cache in front of the file. */
module PageCache {
  import opened Bits
  import opened PagedLayout

  const PCACHE_SIZE := 4096

  /** One cache line: `page_off`, `page` (or no page), `dirty`. */
  datatype CacheEntry = CacheEntry(off: nat, page: Option<Page>, dirty: bool)

  /** `(off >> XXFS_BLOCK_BITS) & PCACHE_MASK`. */
  function CacheIndex(off: nat): (i: nat)
    ensures i == off / BLOCK_SIZE % PCACHE_SIZE
  {
    assert Pow2(12) == PCACHE_SIZE;
    AndMask(off / BLOCK_SIZE, 12);
    BitAnd(off / BLOCK_SIZE, PCACHE_SIZE - 1)
  }

  predicate Resident(cache: seq<CacheEntry>, off: nat)
    requires |cache| == PCACHE_SIZE
  {
    cache[CacheIndex(off)].page.Some? && cache[CacheIndex(off)].off == off
  }

  /** A line that holds a page sits where its offset maps, shadows a page block of the
      file, and shows the same live content unless it is dirty. */
  ghost predicate LineOK(disk: map<nat, Block>, i: nat, e: CacheEntry) {
    e.page.Some? ==>
      && CacheIndex(e.off) == i
      && WellShaped(e.page.value)
      && e.off in disk && disk[e.off].PageBlock?
      && WellShaped(disk[e.off].page)
      && (!e.dirty ==> ViewOf(e.page.value) == ViewOf(disk[e.off].page))
  }

  ghost predicate DiskOK(disk: map<nat, Block>) {
    forall off | off in disk :: BlockOK(disk[off])
  }

  predicate BlockOK(b: Block) {
    match b
    case PageBlock(p) => WellShaped(p)
    case RecordBlock(_) => true
    case DirBlock(entries) => |entries| == DIR_BLOCK_ENTRIES
  }

  ghost predicate CacheOK(disk: map<nat, Block>, cache: seq<CacheEntry>) {
    && |cache| == PCACHE_SIZE
    && DiskOK(disk)
    && forall i | 0 <= i < PCACHE_SIZE :: LineOK(disk, i, cache[i])
  }

  function BlockContent(b: Block): Content
    requires BlockOK(b) && !b.DirBlock?
  {
    match b
    case PageBlock(p) => PageC(ViewOf(p))
    case RecordBlock(r) => RecC(r)
  }

  /** What the file alone shows: the content after a crash that loses the cache. */
  ghost function DiskFlat(disk: map<nat, Block>): (m: map<nat, Content>)
    requires DiskOK(disk)
  {
    map off | off in disk && !disk[off].DirBlock? :: BlockContent(disk[off])
  }

  ghost function VisibleAt(disk: map<nat, Block>, cache: seq<CacheEntry>, off: nat): Content
    requires |cache| == PCACHE_SIZE
    requires off in disk && !disk[off].DirBlock? && BlockOK(disk[off])
    requires Resident(cache, off) ==> WellShaped(cache[CacheIndex(off)].page.value)
  {
    if Resident(cache, off) then PageC(ViewOf(cache[CacheIndex(off)].page.value))
    else BlockContent(disk[off])
  }

  /** The flat block store that the file and the cache together implement. Lines are not
      asked to agree with the file, so this is also defined between an in-place edit and
      its write-back. */
  ghost function FlatOf(disk: map<nat, Block>, cache: seq<CacheEntry>): (m: map<nat, Content>)
    requires |cache| == PCACHE_SIZE && DiskOK(disk)
    requires forall i | 0 <= i < PCACHE_SIZE && cache[i].page.Some? :: WellShaped(cache[i].page.value)
  {
    map off | off in disk && !disk[off].DirBlock? :: VisibleAt(disk, cache, off)
  }

  class PageStore {
    var disk: map<nat, Block>
    const cache: array<CacheEntry>
    /** The flat block store that clients see. */
    ghost var flat: map<nat, Content>

    ghost predicate Readable()
      reads this, cache
    {
      && cache.Length == PCACHE_SIZE && DiskOK(disk)
      && forall i | 0 <= i < PCACHE_SIZE && cache[i].page.Some? :: WellShaped(cache[i].page.value)
    }

    ghost predicate Valid()
      reads this, cache
      ensures Valid() ==> Readable()
    {
      assert forall i | 0 <= i < cache.Length :: cache[..][i] == cache[i];
      && CacheOK(disk, cache[..])
      && flat == FlatOf(disk, cache[..])
    }

    /** Valid, except that the line of `off` may hold an edit not yet marked dirty. */
    ghost predicate ValidBut(off: nat)
      reads this, cache
    {
      && Readable()
      && Resident(cache[..], off)
      && CacheOK(disk, cache[..][CacheIndex(off) := cache[CacheIndex(off)].(dirty := true)])
      && flat == FlatOf(disk, cache[..])
    }

    /** The page `off` sits in the cache as `pg`: the pointer `page_load` returned is live. */
    ghost predicate Holds(off: nat, pg: Page)
      reads this, cache
    {
      && cache.Length == PCACHE_SIZE
      && Resident(cache[..], off)
      && cache[CacheIndex(off)].page == Some(pg)
      && WellShaped(pg)
    }

    /** Open a file: the cache starts empty. */
    constructor (file: map<nat, Block>)
      requires DiskOK(file)
      ensures Valid() && fresh(this) && fresh(cache)
      ensures disk == file && flat == DiskFlat(file)
    {
      disk := file;
      cache := new CacheEntry[PCACHE_SIZE](_ => CacheEntry(0, None, false));
      flat := DiskFlat(file);
      new;
      assert forall off | off in disk :: !Resident(cache[..], off);
    }

    method PageLoad(off: nat) returns (pg: Page)
      requires Valid()
      requires off in flat && flat[off].PageC?
      modifies this`disk, cache
      ensures Valid()
      ensures Holds(off, pg) && flat[off] == PageC(ViewOf(pg))
      ensures forall i | 0 <= i < PCACHE_SIZE && i != CacheIndex(off) :: cache[i] == old(cache[i])
      ensures old(Resident(cache[..], off)) ==> disk == old(disk) && cache[..] == old(cache[..])
    {
      var idx := CacheIndex(off);
      var c := cache[idx];
      if c.page.Some? && c.off == off {
        return c.page.value;
      }
      Evict(idx);
      pg := disk[off].page;
      ghost var was := cache[..];
      cache[idx] := CacheEntry(off, Some(pg), false);
      FillKeeps(disk, was, off);
      assert cache[..] == was[idx := CacheEntry(off, Some(pg), false)];
    }

    /** Write a line back if it is dirty, then free it. */
    method Evict(idx: nat)
      requires Valid() && idx < PCACHE_SIZE
      modifies this`disk, cache
      ensures Valid()
      ensures cache[..] == old(cache[..])[idx := CacheEntry(0, None, false)]
      ensures var c := old(cache[idx]);
              disk == if c.page.Some? && c.dirty then old(disk)[c.off := PageBlock(c.page.value)] else old(disk)
    {
      var c := cache[idx];
      EvictKeeps(disk, cache[..], idx);
      if c.page.Some? && c.dirty {
        disk := disk[c.off := PageBlock(c.page.value)];
      }
      cache[idx] := CacheEntry(0, None, false);
      assert cache[..] == old(cache[..])[idx := CacheEntry(0, None, false)];
    }

    /** An in-place edit through the pointer `page_load` returned. Not yet written back. */
    method Edit(off: nat, pg: Page)
      requires Valid() && Resident(cache[..], off) && WellShaped(pg)
      modifies this`flat, cache
      ensures ValidBut(off) && Holds(off, pg)
      ensures flat == old(flat)[off := PageC(ViewOf(pg))]
      ensures off in old(flat) && (PageC(ViewOf(pg)) == old(flat)[off] ==> Valid())
    {
      var idx := CacheIndex(off);
      cache[idx] := cache[idx].(page := Some(pg));
      flat := flat[off := PageC(ViewOf(pg))];
      EditShows(disk, old(cache[..]), off, pg);
      assert cache[..] == old(cache[..])[idx := cache[idx]];
    }

    method PageWriteback(off: nat, pg: Page)
      requires Valid() || ValidBut(off)
      requires if Resident(cache[..], off) then Holds(off, pg)
               else off in disk && disk[off].PageBlock? && WellShaped(pg)
      modifies this`disk, this`flat, cache
      ensures Valid()
      ensures flat == old(flat)[off := PageC(ViewOf(pg))]
    {
      var idx := CacheIndex(off);
      flat := flat[off := PageC(ViewOf(pg))];
      if cache[idx].page.Some? && cache[idx].off == off {
        MarkKeeps(disk, cache[..], off);
        cache[idx] := cache[idx].(dirty := true);
        assert cache[..] == old(cache[..])[idx := cache[idx]];
        return;
      }
      WriteShows(disk, cache[..], off, PageBlock(pg));
      disk := disk[off := PageBlock(pg)];
    }

    method CacheInvalidate(off: nat)
      requires Valid()
      modifies this`disk, cache
      ensures Valid()
      ensures !Resident(cache[..], off)
      ensures !old(Resident(cache[..], off)) ==> disk == old(disk) && cache[..] == old(cache[..])
    {
      var idx := CacheIndex(off);
      var c := cache[idx];
      if c.page.Some? && c.off == off {
        Evict(idx);
      }
    }

    /** The usual sequence: edit the loaded page in place, then `page_writeback`. */
    method Rewrite(off: nat, pg: Page)
      requires Valid() && Resident(cache[..], off) && WellShaped(pg)
      modifies this`disk, this`flat, cache
      ensures Valid() && flat == old(flat)[off := PageC(ViewOf(pg))]
    {
      Edit(off, pg);
      PageWriteback(off, pg);
    }

    /** An edit beyond the live slots that is never written back. The line stays clean, so
        an eviction may drop it; nobody can tell. */
    method EditUnseen(off: nat, pg: Page)
      requires Valid() && Resident(cache[..], off) && WellShaped(pg)
      requires off in flat && flat[off] == PageC(ViewOf(pg))
      modifies this`flat, cache
      ensures Valid() && flat == old(flat)
    {
      Edit(off, pg);
    }

    /** The usual sequence for a new page: `pwrite`, then `page_cache_invalidate`. */
    method WriteNewPage(off: nat, pg: Page)
      requires Valid() && off !in flat && WellShaped(pg)
      modifies this`disk, this`flat, cache
      ensures Valid() && flat == old(flat)[off := PageC(ViewOf(pg))]
      ensures cache[..] == old(cache[..])
    {
      WriteBlock(off, PageBlock(pg));
      CacheInvalidate(off);
    }

    /** First the resident page is rewritten, then a new page is stored. */
    method RewriteThenNew(cur: nat, pg: Page, off: nat, added: Page)
      requires Valid() && Resident(cache[..], cur) && cur in flat && off !in flat && WellShaped(pg) && WellShaped(added)
      modifies this`disk, this`flat, cache
      ensures Valid() && flat == old(flat)[off := PageC(ViewOf(added))][cur := PageC(ViewOf(pg))]
    {
      ghost var was := flat;
      Rewrite(cur, pg);
      WriteNewPage(off, added);
      EitherOrder(was, cur, PageC(ViewOf(pg)), off, PageC(ViewOf(added)));
    }

    /** The other order, as a split has it. */
    method NewThenRewrite(off: nat, added: Page, cur: nat, pg: Page)
      requires Valid() && Resident(cache[..], cur) && cur in flat && off !in flat && WellShaped(pg) && WellShaped(added)
      modifies this`disk, this`flat, cache
      ensures Valid() && flat == old(flat)[cur := PageC(ViewOf(pg))][off := PageC(ViewOf(added))]
    {
      ghost var was := flat;
      WriteNewPage(off, added);
      Rewrite(cur, pg);
      EitherOrder(was, cur, PageC(ViewOf(pg)), off, PageC(ViewOf(added)));
    }

    /** Write a whole new block past the cache, as `pwrite` does for new pages and records. */
    method WriteBlock(off: nat, b: Block)
      requires Valid() && off !in flat
      requires BlockOK(b) && !b.DirBlock?
      modifies this`disk, this`flat
      ensures Valid() && flat == old(flat)[off := BlockContent(b)]
      ensures !Resident(cache[..], off)
    {
      assert LineOK(disk, CacheIndex(off), cache[..][CacheIndex(off)]);
      WriteShows(disk, cache[..], off, b);
      disk := disk[off := b];
      flat := flat[off := BlockContent(b)];
    }

    /** `pwrite` of `bytes` into the record at `off`, from position `at`. */
    method PatchRecord(off: nat, at: nat, bytes: seq<Byte>)
      requires Valid()
      requires off in flat && flat[off].RecC? && at + |bytes| <= |flat[off].bytes|
      modifies this`disk, this`flat
      ensures Valid()
      ensures flat == old(flat)[off := RecC(Splice(old(flat)[off].bytes, at, bytes))]
    {
      var b := RecordBlock(Splice(disk[off].bytes, at, bytes));
      WriteShows(disk, cache[..], off, b);
      disk := disk[off := b];
      flat := flat[off := BlockContent(b)];
    }

    /** `pread` of the record at `off`. */
    method ReadRecord(off: nat) returns (bytes: seq<Byte>)
      requires Valid()
      requires off in flat && flat[off].RecC?
      ensures bytes == flat[off].bytes
    {
      bytes := disk[off].bytes;
    }

    /** `pwrite` of the directory to a block that is no page and no record. Entries the block
        held beyond the new ones stay. */
    method WriteDir(off: nat, dir: seq<nat>)
      requires Valid() && off !in flat && |dir| <= DIR_BLOCK_ENTRIES
      modifies this`disk
      ensures Valid() && off in disk && disk[off].DirBlock? && |dir| <= |disk[off].entries|
      ensures disk[off].entries[..|dir|] == dir && DiskFlat(disk) == old(DiskFlat(disk))
      ensures forall o | o != off :: o in disk <==> o in old(disk)
      ensures forall o | o != off && o in disk :: disk[o] == old(disk)[o]
    {
      var was := if off in disk then disk[off].entries else seq(DIR_BLOCK_ENTRIES, _ => 0);
      DirShows(disk, cache[..], off, DirBlock(dir + was[|dir|..]));
      disk := disk[off := DirBlock(dir + was[|dir|..])];
    }

    method FlushAll()
      requires Valid()
      modifies this`disk, cache
      ensures Valid()
      ensures DiskFlat(disk) == flat
    {
      var i := 0;
      while i < PCACHE_SIZE
        invariant 0 <= i <= PCACHE_SIZE
        invariant Valid()
        invariant forall j | 0 <= j < i :: cache[j].page.Some? ==> !cache[j].dirty
      {
        if cache[i].dirty && cache[i].page.Some? {
          FlushKeeps(disk, cache[..], i);
          ghost var was := cache[..];
          disk := disk[cache[i].off := PageBlock(cache[i].page.value)];
          cache[i] := cache[i].(dirty := false);
          assert cache[..] == was[i := was[i].(dirty := false)];
        }
        i := i + 1;
      }
      CleanAgrees(disk, cache[..]);
    }
  }

  lemma EitherOrder(m: map<nat, Content>, a: nat, x: Content, b: nat, y: Content)
    requires a != b
    ensures m[a := x][b := y] == m[b := y][a := x]
  {
  }

  /** Editing a resident page changes what that block shows and nothing else. */
  lemma EditShows(disk: map<nat, Block>, cache: seq<CacheEntry>, off: nat, pg: Page)
    requires CacheOK(disk, cache) && Resident(cache, off) && WellShaped(pg)
    ensures
      var idx := CacheIndex(off);
      var cache' := cache[idx := cache[idx].(page := Some(pg))];
      && off in disk
      && CacheOK(disk, cache'[idx := cache'[idx].(dirty := true)])
      && FlatOf(disk, cache') == FlatOf(disk, cache)[off := PageC(ViewOf(pg))]
      && (PageC(ViewOf(pg)) == FlatOf(disk, cache)[off] ==> CacheOK(disk, cache'))
  {
    var idx := CacheIndex(off);
    var cache' := cache[idx := cache[idx].(page := Some(pg))];
    assert LineOK(disk, idx, cache[idx]);
    forall o | o in disk && !disk[o].DirBlock?
      ensures VisibleAt(disk, cache', o) == if o == off then PageC(ViewOf(pg)) else VisibleAt(disk, cache, o) {
      if CacheIndex(o) != idx { assert cache'[CacheIndex(o)] == cache[CacheIndex(o)]; }
    }
  }

  /** Marking a line dirty changes nothing that is shown. */
  lemma MarkKeeps(disk: map<nat, Block>, cache: seq<CacheEntry>, off: nat)
    requires |cache| == PCACHE_SIZE && Resident(cache, off) && DiskOK(disk)
    requires CacheOK(disk, cache) || CacheOK(disk, cache[CacheIndex(off) := cache[CacheIndex(off)].(dirty := true)])
    requires forall i | 0 <= i < PCACHE_SIZE && cache[i].page.Some? :: WellShaped(cache[i].page.value)
    ensures
      var cache' := cache[CacheIndex(off) := cache[CacheIndex(off)].(dirty := true)];
      && CacheOK(disk, cache')
      && FlatOf(disk, cache') == FlatOf(disk, cache)
      && off in FlatOf(disk, cache) && FlatOf(disk, cache)[off] == PageC(ViewOf(cache[CacheIndex(off)].page.value))
  {
    var idx := CacheIndex(off);
    var cache' := cache[idx := cache[idx].(dirty := true)];
    forall j | 0 <= j < PCACHE_SIZE ensures LineOK(disk, j, cache'[j]) {
      if CacheOK(disk, cache) { assert LineOK(disk, j, cache[j]); }
    }
    assert LineOK(disk, idx, cache'[idx]);
    forall o | o in disk && !disk[o].DirBlock? ensures VisibleAt(disk, cache', o) == VisibleAt(disk, cache, o) {
      if CacheIndex(o) != idx { assert cache'[CacheIndex(o)] == cache[CacheIndex(o)]; }
    }
  }

  /** Writing a block that is not cached changes what that block shows and nothing else. */
  lemma WriteShows(disk: map<nat, Block>, cache: seq<CacheEntry>, off: nat, b: Block)
    requires CacheOK(disk, cache) && BlockOK(b) && !b.DirBlock?
    requires !Resident(cache, off)
    ensures CacheOK(disk[off := b], cache)
    ensures FlatOf(disk[off := b], cache) == FlatOf(disk, cache)[off := BlockContent(b)]
  {
    forall j | 0 <= j < PCACHE_SIZE ensures LineOK(disk[off := b], j, cache[j]) {
      assert LineOK(disk, j, cache[j]);
    }
  }

  /** Writing a directory block outside the index is seen by no page and no record. */
  lemma DirShows(disk: map<nat, Block>, cache: seq<CacheEntry>, off: nat, b: Block)
    requires CacheOK(disk, cache) && BlockOK(b) && b.DirBlock?
    requires off !in FlatOf(disk, cache)
    ensures CacheOK(disk[off := b], cache)
    ensures FlatOf(disk[off := b], cache) == FlatOf(disk, cache)
  {
    forall j | 0 <= j < PCACHE_SIZE ensures LineOK(disk[off := b], j, cache[j]) {
      assert LineOK(disk, j, cache[j]);
    }
  }

  /** Dropping a line after writing it back if dirty leaves the flat store unchanged. */
  lemma EvictKeeps(disk: map<nat, Block>, cache: seq<CacheEntry>, i: nat)
    requires CacheOK(disk, cache) && i < PCACHE_SIZE
    ensures
      var e := cache[i];
      var disk' := if e.page.Some? && e.dirty then disk[e.off := PageBlock(e.page.value)] else disk;
      var cache' := cache[i := CacheEntry(0, None, false)];
      CacheOK(disk', cache') && FlatOf(disk', cache') == FlatOf(disk, cache)
  {
    var e := cache[i];
    var disk' := if e.page.Some? && e.dirty then disk[e.off := PageBlock(e.page.value)] else disk;
    var cache' := cache[i := CacheEntry(0, None, false)];
    EvictLines(disk, cache, i);
    forall off | off in disk && !disk[off].DirBlock? ensures VisibleAt(disk', cache', off) == VisibleAt(disk, cache, off) {
      EvictVisible(disk, cache, i, off);
    }
    assert LineOK(disk, i, e);
    SameFlat(disk, cache, disk', cache');
  }

  lemma SameFlat(disk: map<nat, Block>, cache: seq<CacheEntry>, disk': map<nat, Block>, cache': seq<CacheEntry>)
    requires CacheOK(disk, cache) && CacheOK(disk', cache') && disk.Keys == disk'.Keys
    requires forall off | off in disk :: disk[off].DirBlock? <==> disk'[off].DirBlock?
    requires forall off | off in disk && !disk[off].DirBlock? :: VisibleAt(disk', cache', off) == VisibleAt(disk, cache, off)
    ensures FlatOf(disk', cache') == FlatOf(disk, cache)
  {
  }

  lemma EvictVisible(disk: map<nat, Block>, cache: seq<CacheEntry>, i: nat, off: nat)
    requires CacheOK(disk, cache) && i < PCACHE_SIZE && off in disk && !disk[off].DirBlock?
    ensures
      var e := cache[i];
      var disk' := if e.page.Some? && e.dirty then disk[e.off := PageBlock(e.page.value)] else disk;
      var cache' := cache[i := CacheEntry(0, None, false)];
      && CacheOK(disk', cache') && off in disk' && !disk'[off].DirBlock?
      && VisibleAt(disk', cache', off) == VisibleAt(disk, cache, off)
  {
    EvictLines(disk, cache, i);
    assert LineOK(disk, i, cache[i]);
    if CacheIndex(off) != i { assert LineOK(disk, CacheIndex(off), cache[CacheIndex(off)]); }
  }

  lemma EvictLines(disk: map<nat, Block>, cache: seq<CacheEntry>, i: nat)
    requires CacheOK(disk, cache) && i < PCACHE_SIZE
    ensures
      var e := cache[i];
      CacheOK(if e.page.Some? && e.dirty then disk[e.off := PageBlock(e.page.value)] else disk,
              cache[i := CacheEntry(0, None, false)])
  {
    var e := cache[i];
    var disk' := if e.page.Some? && e.dirty then disk[e.off := PageBlock(e.page.value)] else disk;
    var cache' := cache[i := CacheEntry(0, None, false)];
    forall j | 0 <= j < PCACHE_SIZE ensures LineOK(disk', j, cache'[j]) {
      assert LineOK(disk, j, cache[j]) && LineOK(disk, i, cache[i]);
    }
  }

  /** Filling an empty line from the file leaves the flat store unchanged. */
  lemma FillKeeps(disk: map<nat, Block>, cache: seq<CacheEntry>, off: nat)
    requires CacheOK(disk, cache) && cache[CacheIndex(off)].page.None?
    requires off in disk && disk[off].PageBlock?
    ensures
      var cache' := cache[CacheIndex(off) := CacheEntry(off, Some(disk[off].page), false)];
      CacheOK(disk, cache') && FlatOf(disk, cache') == FlatOf(disk, cache)
  {
    var cache' := cache[CacheIndex(off) := CacheEntry(off, Some(disk[off].page), false)];
    forall o | o in disk && !disk[o].DirBlock? ensures VisibleAt(disk, cache', o) == VisibleAt(disk, cache, o) {
      if CacheIndex(o) != CacheIndex(off) { assert cache'[CacheIndex(o)] == cache[CacheIndex(o)]; }
    }
  }

  /** Writing a dirty line out and marking it clean leaves the flat store unchanged. */
  lemma FlushKeeps(disk: map<nat, Block>, cache: seq<CacheEntry>, i: nat)
    requires CacheOK(disk, cache) && i < PCACHE_SIZE && cache[i].page.Some?
    ensures
      var disk' := disk[cache[i].off := PageBlock(cache[i].page.value)];
      var cache' := cache[i := cache[i].(dirty := false)];
      CacheOK(disk', cache') && FlatOf(disk', cache') == FlatOf(disk, cache)
  {
    var disk' := disk[cache[i].off := PageBlock(cache[i].page.value)];
    var cache' := cache[i := cache[i].(dirty := false)];
    forall j | 0 <= j < PCACHE_SIZE ensures LineOK(disk', j, cache'[j]) {
      assert LineOK(disk, j, cache[j]) && LineOK(disk, i, cache[i]);
    }
    forall off | off in disk && !disk[off].DirBlock? ensures VisibleAt(disk', cache', off) == VisibleAt(disk, cache, off) {
      assert LineOK(disk, i, cache[i]);
    }
  }

  /** With no dirty line left, the file alone shows everything. */
  lemma CleanAgrees(disk: map<nat, Block>, cache: seq<CacheEntry>)
    requires CacheOK(disk, cache)
    requires forall j | 0 <= j < PCACHE_SIZE :: cache[j].page.Some? ==> !cache[j].dirty
    ensures DiskFlat(disk) == FlatOf(disk, cache)
  {
    forall off | off in disk && !disk[off].DirBlock? ensures VisibleAt(disk, cache, off) == BlockContent(disk[off]) {
      assert LineOK(disk, CacheIndex(off), cache[CacheIndex(off)]);
    }
  }
}
