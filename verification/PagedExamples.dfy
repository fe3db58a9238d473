/** Inputs at which the code falls short of a plain map, each reached with the real operations
    or shown to be a state the invariant allows. */
module PagedExamples {
  import opened Bits
  import opened PagedLayout
  import opened PageCache
  import opened PagedPage
  import opened PagedState
  import opened PagedSteps
  import opened PagedEffects
  import opened PagedSplit
  import opened PagedTransitions
  import opened PagedInsert
  import opened PagedIndex
  import opened PagedLimits
  import opened PagedAlias
  import opened PagedFormat

  function OneHash(k: Key): nat { 5 }

  const HEAD := 4096
  const TAIL := 8192
  const SPARE := 12288

  /** A page that holds `k -> v` inline and nothing else. */
  function Holding(k: Key, v: Value): PageView
    requires |k| + |v| <= INLINE_SPACE
  {
    AddInline(EmptyView(0), OneHash(k), k, v)
  }

  lemma HoldingOK(flat: map<nat, Content>, owner: map<nat, nat>, off: nat, k: Key, v: Value)
    requires |k| + |v| <= INLINE_SPACE
    ensures PageOK(OneHash, flat, owner, off, Holding(k, v))
    ensures PageEntries(flat, Holding(k, v)) == [Entry(k, v)]
  {
    EmptyPageOK(OneHash, flat, owner, off, 0);
    AddInlineOK(OneHash, flat, owner, off, EmptyView(0), k, v);
    assert PageEntries(flat, EmptyView(0)) == [];
  }

  // ---- a covered copy comes back ----

  /** An empty page linked to a last page `p`. */
  function ChainState(p: PageView): State {
    State([HEAD], 0, map[HEAD := PageC(EmptyView(0).(next := TAIL)), TAIL := PageC(p)],
          map[HEAD := Home(0, 0), TAIL := Home(0, 0)], map[])
  }

  /** A chain whose first page lost its entries to deletes and whose second page still
      holds `[1] -> [7]`. */
  function ShadowState(): State {
    ChainState(Holding([1], [7]))
  }

  lemma ShadowStateOK()
    ensures StateOK(OneHash, ShadowState())
    ensures Stack(OneHash, ShadowState(), [1]) == [[7]]
    ensures Shadows(OneHash, ShadowState(), [1])
  {
    ShadowDir();
    ShadowPages();
    ShadowCopies();
  }

  lemma ShadowDir()
    ensures DirOK(ShadowState()) && HeadOf(ShadowState(), 5) == HEAD
  {
    assert HeadOK(ShadowState(), 0);
  }

  lemma ShadowPages()
    ensures PagesOK(OneHash, ShadowState())
  {
    ChainHolds([1], [7]);
  }

  lemma ChainHolds(k: Key, v: Value)
    requires |k| + |v| <= INLINE_SPACE
    ensures PagesOK(OneHash, ChainState(Holding(k, v)))
    ensures EntriesAt(ChainState(Holding(k, v)).flat, TAIL) == [Entry(k, v)]
  {
    var st := ChainState(Holding(k, v));
    HoldingOK(st.flat, st.owner, TAIL, k, v);
    HoldingSlot(k, v);
    ChainPagesOK(Holding(k, v));
  }

  lemma ChainPagesOK(p: PageView)
    requires PageOK(OneHash, ChainState(p).flat, ChainState(p).owner, TAIL, p)
    requires p.depth == 0 && p.next == 0 && Fits(p, Home(0, 0))
    ensures PagesOK(OneHash, ChainState(p))
  {
    var st := ChainState(p);
    EmptyPageOK(OneHash, st.flat, st.owner, HEAD, 0);
    PageFrame(OneHash, st.flat, st.flat, st.owner, st.owner, HEAD, EmptyView(0), PageAt(st.flat, HEAD));
    assert Linked(st, HEAD) && Linked(st, TAIL);
  }

  lemma HoldingSlot(k: Key, v: Value)
    requires |k| + |v| <= INLINE_SPACE
    ensures Holding(k, v).slots == [Slot(5, 0, |k|, |v|, KeyPrefix(k), true)]
    ensures Holding(k, v).depth == 0 && Holding(k, v).next == 0
    ensures Fits(Holding(k, v), Home(0, 0))
  {
    var s := Slot(5, 0, |k|, |v|, KeyPrefix(k), true);
    assert [] + [s] == [s];
  }

  lemma ShadowCopies()
    ensures EntriesAt(ShadowState().flat, HEAD) == [] && EntriesAt(ShadowState().flat, TAIL) == [Entry([1], [7])]
    ensures ChainCopies(ShadowState().flat, HEAD, [1]) == [[7]]
    ensures RoomFirst(ShadowState().flat, HEAD, [1])
  {
    var st := ShadowState();
    ChainHolds([1], [7]);
    OneEntry(Entry([1], [7]), [1]);
    assert ChainCopies(st.flat, TAIL, [1]) == [[7]];
  }

  /** The same on disk, with the directory in a block of its own. */
  function ShadowFile(): map<nat, Block> {
    var area := Splice(ZeroBytes(INLINE_SPACE), 0, [1] + [7]);
    map[HEAD := PageBlock(EmptyPage(0).(next := TAIL)),
        TAIL := PageBlock(OneSlotPage(Slot(5, 0, 1, 1, [1], true), 2, area)),
        SPARE := DirBlock([HEAD] + seq(DIR_BLOCK_ENTRIES - 1, _ => 0))]
  }

  lemma ShadowFileShows()
    ensures DiskOK(ShadowFile()) && DiskFlat(ShadowFile()) == ShadowState().flat
  {
    var area := Splice(ZeroBytes(INLINE_SPACE), 0, [1] + [7]);
    assert [] + [Slot(5, 0, 1, 1, [1], true)] == [Slot(5, 0, 1, 1, [1], true)];
    assert Holding([1], [7]) == PageView(0, 2, 0, [Slot(5, 0, 1, 1, [1], true)], area);
  }

  /** Put, delete, get: the value from before the put is back. `PagedRun.DeleteThenGet` gives
      the exact condition under which a deleted key is gone: it had one copy. */
  method ShadowReturns(v: Value) returns (put: Status, del: Status, got: Status, buf: Value)
    requires RECORD_HEADER + 1 + |v| <= BLOCK_SIZE
    ensures put == OK && del == OK && got == OK && buf == [7]
  {
    var fs := MountShadow();
    ghost var s0 := fs.St();
    put := fs.Put([1], v);
    ghost var s1 := fs.St();
    Covered(s0, s1, v);
    ShortKeyIsClear(OneHash, s1, [1]);
    del := fs.Del([1]);
    Uncovered(s1, fs.St(), v);
    got, buf := fs.Get([1], 1);
  }

  lemma Covered(s0: State, s1: State, v: Value)
    requires Stack(OneHash, s0, [1]) == [[7]] && Shadows(OneHash, s0, [1]) && PutResult(OneHash, s0, s1, [1], v, OK, true)
    ensures Stack(OneHash, s1, [1]) == [v, [7]]
  {
  }

  lemma Uncovered(s1: State, s2: State, v: Value)
    requires Stack(OneHash, s1, [1]) == [v, [7]] && Removed(OneHash, s1, s2, [1])
    ensures Lookup(OneHash, s2, [1]) == Some([7])
  {
  }

  method MountShadow() returns (fs: Index)
    ensures fs.Valid() && fs.hash == OneHash && fs.freeBlocks == 8
    ensures fresh(fs) && fresh(fs.store) && fresh(fs.store.cache)
    ensures NoAlias(OneHash, fs.St(), [1]) && Stack(OneHash, fs.St(), [1]) == [[7]] && Shadows(OneHash, fs.St(), [1])
  {
    ShadowFileShows();
    ShadowStateOK();
    var sb := Super(HEAD, 16, 8, SPARE, 1, 0);
    fs := new Index.Mount(OneHash, ShadowFile(), sb, (i: nat) => false, ShadowState().home, ShadowState().owner);
    assert fs.St() == ShadowState();
    ShortKeyIsClear(OneHash, fs.St(), [1]);
  }

  lemma ShortKeyIsClear(hash: HashFn, st: State, k: Key)
    requires |k| <= KEY_PREFIX_LEN
    ensures NoAlias(hash, st, k)
  {
    forall off | IsPage(st.flat, off) ensures NoAliasIn(hash, EntriesAt(st.flat, off), k) {
      var es := EntriesAt(st.flat, off);
      forall i | 0 <= i < |es| && SameIdent(hash, es[i].key, k) ensures es[i].key == k {
        ShortKeysHaveNoAlias(hash, es[i].key, k);
      }
    }
  }

  // ---- an insert of a key that is there ----

  /** Creating "/" again after a mount: the insert succeeds, and a reader still sees the old
      value, because the page with room holds the key already. */
  method InsertUnseen(hash: HashFn, dataOff: nat, root: Value, total: nat, v: Value)
    returns (ins: Status, got: Status, buf: Value)
    requires 0 < dataOff && total >= MIN_BLOCKS && dataOff + total * BLOCK_SIZE <= FILE_LIMIT
    requires RECORD_HEADER + 1 + |v| <= BLOCK_SIZE
    ensures ins == OK && got == OK && buf == root
  {
    var fs := MountFormatted(hash, dataOff, root, total, (i: nat) => false);
    FormattedOK(hash, dataOff, root);
    FormattedMeets(hash, dataOff, root);
    ins := fs.Insert(ROOT, v);
    got, buf := fs.Get(ROOT, |root|);
  }

  lemma FormattedMeets(hash: HashFn, dataOff: nat, root: Value)
    requires 0 < dataOff && dataOff + 2 * BLOCK_SIZE <= FILE_LIMIT
    ensures var st := FormattedState(hash, dataOff, root);
            Met(st.flat, HeadOf(st, hash(ROOT)), ROOT) && Stack(hash, st, ROOT) == [root]
  {
    FormattedOK(hash, dataOff, root);
    RootEntry(hash, dataOff, root);
    DirIndexIsResidue(hash(ROOT), 0);
    assert EntriesAt(FormattedState(hash, dataOff, root).flat, dataOff + BLOCK_SIZE)[0].key == ROOT;
  }

  // ---- a split that loses a key ----

  /** The chain above under a directory of two entries; its second page holds one slot, with an
      odd hash. Nothing in a split depends on how full the page is. */
  ghost function TailState(): State {
    Doubled(ShadowState())
  }

  lemma TailSplitInstance() returns (low: PageView, high: PageView)
    ensures StateOK(OneHash, TailState()) && TailState().dir == [HEAD, HEAD]
    ensures TAIL !in TailState().dir && Reaches(TailState().flat, HEAD, TAIL)
    ensures SplitReady(OneHash, TailState(), TAIL, SPARE, low, high)
    ensures !SameStacks(OneHash, TailState(), Split(TailState(), TAIL, SPARE, low, high))
  {
    var st := TailState();
    TailStateOK();
    TailSlot();
    low, high := OneSlotHalves(st.flat, st.owner, PageAt(st.flat, TAIL));
    TailSplitExact(OneHash, st, 0, TAIL, SPARE, low, high);
  }

  lemma TailSlot()
    ensures IsPage(TailState().flat, TAIL)
    ensures var p := PageAt(TailState().flat, TAIL);
            |p.slots| == 1 && p.depth == 0 && p.next == 0 && Bit(p.slots[0].hash, p.depth)
  {
    DirOfTwo();
    HoldingSlot([1], [7]);
    assert Bit(5, 0);
  }

  lemma TailStateOK()
    ensures var st := TailState();
            && StateOK(OneHash, st) && st.dir == [HEAD, HEAD] && st.depth == 1
            && IsPage(st.flat, TAIL) && TAIL in st.home
            && Reaches(st.flat, HEAD, TAIL) && FreshBlock(st, SPARE)
  {
    assert StateOK(OneHash, TailState()) by {
      ShadowStateOK();
      DoubledOK(OneHash, ShadowState());
    }
    DirOfTwo();
    assert Reaches(TailState().flat, TAIL, TAIL);
  }

  lemma DirOfTwo()
    ensures TailState().dir == [HEAD, HEAD] && TailState().depth == 1
    ensures TailState().flat == ShadowState().flat && TailState().home == ShadowState().home
  {
    assert Pow2(1) == 2;
  }

  lemma OneSlotHalves(flat: map<nat, Content>, owner: map<nat, nat>, src: PageView) returns (low: PageView, high: PageView)
    requires PageOK(OneHash, flat, owner, TAIL, src) && |src.slots| == 1
    requires Bit(src.slots[0].hash, src.depth)
    ensures Sorted(OneHash, flat, owner, TAIL, SPARE, src, 1, low, high)
  {
    low, high := src.(slots := [], inlineUsed := 0, depth := src.depth + 1, next := 0), EmptyView(src.depth + 1);
    SortedStart(OneHash, flat, owner, TAIL, SPARE, src, low, high);
    SortedStep(OneHash, flat, owner, TAIL, SPARE, src, 0, low, high, true);
    high := CopySlot(high, src, src.slots[0]);
  }

  // ---- two keys taken for one ----

  const KEY_A: Key := ZeroBytes(16) + [1]
  const KEY_B: Key := ZeroBytes(16) + [2]

  function SingleState(p: PageView): State {
    State([HEAD], 0, map[HEAD := PageC(p)], map[HEAD := Home(0, 0)], map[])
  }

  function AliasState(): State {
    SingleState(Holding(KEY_B, [7]))
  }

  lemma SingleHolds(k: Key, v: Value)
    requires |k| + |v| <= INLINE_SPACE
    ensures var st := SingleState(Holding(k, v));
            && StateOK(OneHash, st) && EntriesAt(st.flat, HEAD) == [Entry(k, v)]
            && PageAt(st.flat, HEAD).slots == [Slot(5, 0, |k|, |v|, KeyPrefix(k), true)]
            && forall x: Key :: Stack(OneHash, st, x) == if x == k then [v] else []
  {
    var st := SingleState(Holding(k, v));
    HoldingOK(st.flat, st.owner, HEAD, k, v);
    HoldingSlot(k, v);
    assert HeadOK(st, 0);
    forall x: Key ensures Stack(OneHash, st, x) == if x == k then [v] else [] {
      OneEntry(Entry(k, v), x);
    }
  }

  /** Two keys of 17 bytes with one hash: a put of the absent one changes the other, and its own
      key stays absent. */
  lemma AliasInstance()
    ensures StateOK(OneHash, AliasState()) && KEY_A != KEY_B && SameIdent(OneHash, KEY_A, KEY_B)
    ensures FoundAt(OneHash, AliasState(), HEAD, 0, KEY_B) && InPlaceFits(AliasState(), HEAD, 0, [9])
    ensures Lookup(OneHash, AliasState(), KEY_A) == None
    ensures var st' := InPlace(AliasState(), HEAD, 0, [9]);
            Lookup(OneHash, st', KEY_A) == None && Lookup(OneHash, st', KEY_B) == Some([9])
  {
    var st := AliasState();
    assert KEY_A[16] != KEY_B[16];
    assert KEY_A[..16] == ZeroBytes(16) && KEY_B[..16] == ZeroBytes(16);
    SingleHolds(KEY_B, [7]);
    AliasTakesThePut(OneHash, st, HEAD, 0, KEY_A, KEY_B, [9]);
  }
}
