/** Writing the index out and mounting it again. */
module PagedPersist {
  import opened PagedLayout
  import opened PageCache
  import opened PagedState
  import opened PagedIndex

  /** `pcache_flush_all` and then `pdir_write`: afterwards the file alone shows the index, and
      the superblock names a block of the file that holds the directory. `raw` is the answer
      of `page_alloc_raw`, asked only when the directory has no block of its own yet: a block
      behind the end of the file, or 0. */
  method Checkpoint(fs: Index, raw: nat) returns (ok: bool, sb: Super)
    requires fs.Valid() && 0 < |fs.dir| <= DIR_BLOCK_ENTRIES
    requires raw != 0 ==> raw !in fs.store.flat
    modifies fs`pdirOff, fs.store`disk, fs.store.cache
    ensures fs.store.Valid() && fs.St() == old(fs.St())
    ensures !ok || old(fs.pdirOff) != 0 || raw < fs.Top() ==> fs.Valid()
    ensures DiskFlat(fs.store.disk) == fs.store.flat
    ensures ok <==> old(fs.pdirOff) != 0 || raw != 0
    ensures ok ==> HasDir(sb) && DirReadable(sb, fs.store.disk)
                   && MountedDir(sb, fs.store.disk) == fs.dir && MountedDepth(sb) == fs.globalDepth
    ensures sb.dataOff == fs.dataOff && sb.blockCount == fs.blockCount && sb.freeBlocks == fs.freeBlocks
    ensures ok ==> sb.pdirOff == fs.pdirOff == if old(fs.pdirOff) != 0 then old(fs.pdirOff) else raw
  {
    fs.store.FlushAll();
    sb, ok := Super(fs.dataOff, fs.blockCount, fs.freeBlocks, 0, 0, 0), true;
    if fs.pdirOff == 0 {
      if raw == 0 {
        return false, sb;
      }
      fs.pdirOff := raw;
    }
    fs.store.WriteDir(fs.pdirOff, fs.dir);
    sb := sb.(pdirOff := fs.pdirOff, pdirSize := |fs.dir|, pdirDepth := fs.globalDepth);
  }

  /** An index re-opened from the file with an empty cache answers as the live one did. */
  method Remount(fs: Index, raw: nat) returns (re: Index)
    requires fs.Valid() && 0 < |fs.dir| <= DIR_BLOCK_ENTRIES
    requires fs.pdirOff != 0 || (0 < raw < fs.Top() && raw !in fs.store.flat)
    requires raw != 0 ==> raw !in fs.store.flat
    modifies fs`pdirOff, fs.store`disk, fs.store.cache
    ensures re.Valid() && re.hash == fs.hash && re.grows == fs.grows && fresh(re)
    ensures re.St() == old(fs.St()) && re.pdirOff == fs.pdirOff != 0
    ensures forall k: Key :: Lookup(re.hash, re.St(), k) == old(Lookup(fs.hash, fs.St(), k))
  {
    var ok, sb := Checkpoint(fs, raw);
    re := new Index.Mount(fs.hash, fs.store.disk, sb, fs.grows, fs.home, fs.owner);
  }
}
