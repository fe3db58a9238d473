/** The image `xxfs_mkfs` writes: the root's record, one page for it, the directory's block. */
module PagedFormat {
  import opened PagedLayout
  import opened PageCache
  import opened PagedPage
  import opened PagedState
  import opened PagedEffects
  import opened PagedSplit
  import opened PagedIndex
  import opened PagedRun

  /** "/" */
  const ROOT: Key := [0x2F]
  /** `total_blocks` is at least this. */
  const MIN_BLOCKS := 100

  function RootSlot(hash: HashFn, dataOff: nat, root: Value): Slot {
    Slot(hash(ROOT), dataOff, 1, |root|, ROOT, false)
  }

  /** A page of depth 0 with a single slot. */
  function OneSlotPage(s: Slot, used: nat, area: seq<Byte>): (p: Page)
    requires |area| == INLINE_SPACE
    ensures WellShaped(p) && ViewOf(p) == PageView(0, used, 0, [s], area)
  {
    var p := Page(1, 0, used, 0, EmptyPage(0).slots[0 := s], area);
    assert p.slots[..1] == [s];
    p
  }

  function RootPage(hash: HashFn, dataOff: nat, root: Value): Page {
    OneSlotPage(RootSlot(hash, dataOff, root), 0, ZeroBytes(INLINE_SPACE))
  }

  function RootDir(dataOff: nat): (entries: seq<nat>)
    ensures |entries| == DIR_BLOCK_ENTRIES && entries[..1] == [dataOff + BLOCK_SIZE]
  {
    [dataOff + BLOCK_SIZE] + seq(DIR_BLOCK_ENTRIES - 1, _ => 0)
  }

  function Formatted(hash: HashFn, dataOff: nat, root: Value): map<nat, Block> {
    map[dataOff := RecordBlock(RecordBytes(ROOT, root)),
        dataOff + BLOCK_SIZE := PageBlock(RootPage(hash, dataOff, root)),
        dataOff + 2 * BLOCK_SIZE := DirBlock(RootDir(dataOff))]
  }

  /** Three blocks are in use and four more are set aside. */
  function FormattedSuper(dataOff: nat, total: nat): Super
    requires total >= MIN_BLOCKS
  {
    Super(dataOff, total, total - 7, dataOff + 2 * BLOCK_SIZE, 1, 0)
  }

  function FormattedState(hash: HashFn, dataOff: nat, root: Value): State {
    var page := dataOff + BLOCK_SIZE;
    State([page], 0,
          map[dataOff := RecC(RecordBytes(ROOT, root)), page := PageC(ViewOf(RootPage(hash, dataOff, root)))],
          map[page := Home(0, 0)], map[dataOff := page])
  }

  function RootCopies(root: Value, k: Key): seq<Value> {
    if k == ROOT then [root] else []
  }

  /** The map that binds only "/". */
  ghost function OnlyRoot(root: Value): Stacks {
    imap k: Key :: RootCopies(root, k)
  }

  lemma FormattedShows(hash: HashFn, dataOff: nat, root: Value, total: nat)
    requires 0 < dataOff && total >= MIN_BLOCKS && dataOff + total * BLOCK_SIZE <= FILE_LIMIT
    ensures var file, sb, st := Formatted(hash, dataOff, root), FormattedSuper(dataOff, total), FormattedState(hash, dataOff, root);
            && DiskOK(file) && HasDir(sb) && DirReadable(sb, file)
            && DiskFlat(file) == st.flat && MountedDir(sb, file) == st.dir && MountedDepth(sb) == st.depth
            && GeometryOK(sb.dataOff, sb.blockCount, sb.freeBlocks, sb.pdirOff, st.flat)
  {
  }

  lemma RootEntry(hash: HashFn, dataOff: nat, root: Value)
    ensures var st, page := FormattedState(hash, dataOff, root), dataOff + BLOCK_SIZE;
            && IsPage(st.flat, page) && EntriesAt(st.flat, page) == [Entry(ROOT, root)]
            && PageOK(hash, st.flat, st.owner, page, PageAt(st.flat, page))
  {
    var st, page := FormattedState(hash, dataOff, root), dataOff + BLOCK_SIZE;
    var p, s := PageAt(st.flat, page), RootSlot(hash, dataOff, root);
    assert RecordBytes(ROOT, root)[RECORD_HEADER..] == ROOT + root;
    assert SlotBytes(st.flat, p, s) == ROOT + root;
    assert EntryOf(st.flat, p, s) == Entry(ROOT, root);
    assert InlineTotal(p.slots[..0]) == 0;
    assert PageEntries(st.flat, p) == [Entry(ROOT, root)];
  }

  lemma FormattedHead(hash: HashFn, dataOff: nat, root: Value)
    requires 0 < dataOff && dataOff + 2 * BLOCK_SIZE <= FILE_LIMIT
    ensures var st := FormattedState(hash, dataOff, root);
            DirOK(st) && Linked(st, dataOff + BLOCK_SIZE) && Dense(st.flat)
  {
    assert HeadOK(FormattedState(hash, dataOff, root), 0);
  }

  /** The formatted index is well-formed, has no gap, holds the root and nothing else, and no
      key is taken for the root. */
  lemma FormattedOK(hash: HashFn, dataOff: nat, root: Value)
    requires 0 < dataOff && dataOff + 2 * BLOCK_SIZE <= FILE_LIMIT
    ensures var st := FormattedState(hash, dataOff, root);
            && StateOK(hash, st) && Dense(st.flat)
            && forall k: Key :: NoAlias(hash, st, k) && Stack(hash, st, k) == RootCopies(root, k)
  {
    RootEntry(hash, dataOff, root);
    FormattedHead(hash, dataOff, root);
    var st := FormattedState(hash, dataOff, root);
    forall k: Key
      ensures NoAlias(hash, st, k) && Stack(hash, st, k) == RootCopies(root, k)
    {
      DirIndexIsResidue(hash(k), 0);
      OneEntry(Entry(ROOT, root), k);
      if SameIdent(hash, ROOT, k) { ShortKeysHaveNoAlias(hash, ROOT, k); }
    }
  }

  /** Mounting what `xxfs_mkfs` wrote gives the map that binds only "/". */
  method MountFormatted(hash: HashFn, dataOff: nat, root: Value, total: nat, grows: nat -> bool) returns (fs: Index)
    requires 0 < dataOff && total >= MIN_BLOCKS && dataOff + total * BLOCK_SIZE <= FILE_LIMIT
    ensures fs.Valid() && fs.hash == hash && fresh(fs) && fresh(fs.store) && fresh(fs.store.cache)
    ensures fs.St() == FormattedState(hash, dataOff, root) && fs.freeBlocks == total - 7
  {
    FormattedShows(hash, dataOff, root, total);
    FormattedOK(hash, dataOff, root);
    ghost var page := dataOff + BLOCK_SIZE;
    fs := new Index.Mount(hash, Formatted(hash, dataOff, root), FormattedSuper(dataOff, total), grows,
                          map[page := Home(0, 0)], map[dataOff := page]);
  }

  /** Every run from a formatted file is a run of the specification that starts with "/" alone;
      all its operations are carried out unless a present key is inserted, and every put and
      insert succeeds. */
  method RunFormatted(hash: HashFn, dataOff: nat, root: Value, total: nat, grows: nat -> bool, ops: seq<Op>)
    returns (replies: seq<Reply>, ghost trace: seq<Spec>)
    requires 0 < dataOff && total >= MIN_BLOCKS && dataOff + total * BLOCK_SIZE <= FILE_LIMIT
    requires OpsOK(hash, ops) && 2 * |ops| <= total - 7
    ensures |replies| <= |ops| && forall i | 0 <= i < |replies| && Stores(ops[i]) :: replies[i].status == OK
    ensures SpecRun(trace, ops, replies)
    ensures trace[0].tight && trace[0].copies == OnlyRoot(root)
    ensures |replies| < |ops| ==> ops[|replies|].OpInsert? && trace[|replies|].copies[ops[|replies|].k] != []
  {
    var fs := MountFormatted(hash, dataOff, root, total, grows);
    FormattedOK(hash, dataOff, root);
    FormattedSpec(hash, dataOff, root);
    ghost var states;
    replies, trace, states := Run(fs, ops);
  }

  lemma FormattedSpec(hash: HashFn, dataOff: nat, root: Value)
    requires 0 < dataOff && dataOff + 2 * BLOCK_SIZE <= FILE_LIMIT
    ensures SpecOf(hash, FormattedState(hash, dataOff, root)) == Spec(OnlyRoot(root), true)
  {
    FormattedOK(hash, dataOff, root);
    var s := SpecOf(hash, FormattedState(hash, dataOff, root));
    forall k: Key ensures s.copies[k] == OnlyRoot(root)[k] {
      assert Stack(hash, FormattedState(hash, dataOff, root), k) == RootCopies(root, k);
    }
  }
}
