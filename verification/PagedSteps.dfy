/** The steps that change the shape of the index: doubling the directory, opening a
    bucket, and linking an overflow page. None of them changes an answer. */
module PagedSteps {
  import opened Bits
  import opened PagedLayout
  import opened PagedPage
  import opened PagedState

  /** A block that nothing in the index refers to yet. */
  /** `off` lies behind every block in use. */
  ghost predicate Behind(flat: map<nat, Content>, off: nat) {
    0 < off < FILE_LIMIT && off !in flat && forall q | q in flat :: q < off
  }

  ghost predicate FreshBlock(st: State, off: nat) {
    Behind(st.flat, off)
  }

  lemma FreshNotLinked(hash: HashFn, st: State, off: nat)
    requires StateOK(hash, st) && FreshBlock(st, off)
    ensures off !in st.dir
    ensures forall q | IsPage(st.flat, q) :: PageAt(st.flat, q).next != off
  {
    forall i | 0 <= i < |st.dir| ensures st.dir[i] != off {
      if st.dir[i] != NO_PAGE { assert HeadOK(st, i); }
    }
    forall q | IsPage(st.flat, q) ensures PageAt(st.flat, q).next != off {
      assert Linked(st, q);
    }
  }

  // ---- doubling ----

  function Doubled(st: State): State {
    st.(dir := st.dir + st.dir, depth := st.depth + 1)
  }

  lemma DoubledEntry(st: State, i: nat)
    requires |st.dir| == Pow2(st.depth) && i < 2 * |st.dir|
    ensures Residue(i, st.depth) < |st.dir|
    ensures Doubled(st).dir[i] == st.dir[Residue(i, st.depth)]
  {
    if i < |st.dir| {
      SmallMod(i, Pow2(st.depth));
    } else {
      ModAddMultiple(i - |st.dir|, Pow2(st.depth), 1);
      SmallMod(i - |st.dir|, Pow2(st.depth));
    }
  }

  /** Doubling sends every hash to the same page as before. */
  lemma DoubledHead(st: State, h: nat)
    requires |st.dir| == Pow2(st.depth)
    ensures HeadOf(Doubled(st), h) == HeadOf(st, h)
  {
    DirIndexIsResidue(h, st.depth);
    DirIndexIsResidue(h, st.depth + 1);
    DoubledEntry(st, Residue(h, st.depth + 1));
    ModMod(h, st.depth, st.depth + 1);
  }

  lemma DoubledHeadOK(st: State, i: nat)
    requires DirOK(st) && i < |Doubled(st).dir| && Doubled(st).dir[i] != NO_PAGE
    ensures HeadOK(Doubled(st), i)
  {
    var st' := Doubled(st);
    var r := Residue(i, st.depth);
    DoubledEntry(st, i);
    assert HeadOK(st, r);
    var d := PageAt(st.flat, st.dir[r]).depth;
    ModMod(i, d, st.depth);
    forall j | 0 <= j < |st'.dir| && Residue(j, d) == Residue(i, d) ensures st'.dir[j] == st'.dir[i] {
      DoubledEntry(st, j);
      ModMod(j, d, st.depth);
    }
  }

  lemma DoubledOK(hash: HashFn, st: State)
    requires StateOK(hash, st) && st.depth < MAX_DEPTH
    ensures StateOK(hash, Doubled(st))
    ensures SameStacks(hash, st, Doubled(st))
    ensures forall k :: NoAlias(hash, st, k) ==> NoAlias(hash, Doubled(st), k)
  {
    var st' := Doubled(st);
    forall i | 0 <= i < |st'.dir| && st'.dir[i] != NO_PAGE ensures HeadOK(st', i) {
      DoubledHeadOK(st, i);
    }
    forall q | IsPage(st'.flat, q)
      ensures Linked(st', q) && PageOK(hash, st'.flat, st'.owner, q, PageAt(st'.flat, q))
    {
      assert Linked(st, q);
    }
    forall k: Key ensures Stack(hash, st', k) == Stack(hash, st, k) {
      DoubledHead(st, hash(k));
    }
  }

  // ---- opening a bucket ----

  function Opened(st: State, i: nat, off: nat): State
    requires i < |st.dir|
  {
    st.(dir := st.dir[i := off],
        flat := st.flat[off := PageC(EmptyView(st.depth))],
        home := st.home[off := Home(i, st.depth)])
  }

  /** Adding a new page that no chain passes through yet keeps every chain. */
  lemma {:induction false} ChainIgnores(hash: HashFn, st: State, off: nat, c: Content, from: nat, k: Key)
    requires StateOK(hash, st) && FreshBlock(st, off) && c.PageC? && from != off
    ensures ChainCopies(st.flat[off := c], from, k) == ChainCopies(st.flat, from, k)
    decreases FILE_LIMIT - from
  {
    var flat' := st.flat[off := c];
    if from < FILE_LIMIT && IsPage(st.flat, from) {
      assert Linked(st, from);
      PageFrame(hash, st.flat, flat', st.owner, st.owner, from, PageAt(st.flat, from), PageAt(flat', from));
      var n := PageAt(st.flat, from).next;
      if n > from { ChainIgnores(hash, st, off, c, n, k); }
    }
  }

  lemma OpenedDirOK(hash: HashFn, st: State, i: nat, off: nat)
    requires StateOK(hash, st) && FreshBlock(st, off) && i < |st.dir| && st.dir[i] == NO_PAGE
    ensures DirOK(Opened(st, i, off))
  {
    var st' := Opened(st, i, off);
    forall j | 0 <= j < |st'.dir| && st'.dir[j] != NO_PAGE ensures HeadOK(st', j) {
      if j == i {
        SmallMod(i, Pow2(st.depth));
        forall m | 0 <= m < |st'.dir| && Residue(m, st.depth) == Residue(i, st.depth) ensures m == i {
          SmallMod(m, Pow2(st.depth));
        }
      } else {
        assert HeadOK(st, j);
      }
    }
  }

  lemma OpenedOK(hash: HashFn, st: State, i: nat, off: nat)
    requires StateOK(hash, st) && FreshBlock(st, off) && i < |st.dir| && st.dir[i] == NO_PAGE
    ensures StateOK(hash, Opened(st, i, off))
    ensures SameStacks(hash, st, Opened(st, i, off))
    ensures NothingNew(hash, st, Opened(st, i, off))
  {
    var st' := Opened(st, i, off);
    if Dense(st.flat) { DenseWith(st.flat, off, EmptyView(st.depth)); }
    OpenedDirOK(hash, st, i, off);
    FreshNotLinked(hash, st, off);
    PlusPageOK(hash, st, st', off, st.depth);
    forall k: Key ensures Stack(hash, st', k) == Stack(hash, st, k) {
      DirIndexIsResidue(hash(k), st.depth);
      var h := HeadOf(st, hash(k));
      if DirIndex(hash(k), st.depth) == i {
        assert ChainCopies(st'.flat, off, k) == [];
      } else {
        assert h != off;
        ChainIgnores(hash, st, off, PageC(EmptyView(st.depth)), h, k);
      }
    }
  }

  /** A store with one new empty page keeps all other pages, and every link and alias fact. */
  lemma PlusPageOK(hash: HashFn, st: State, st': State, off: nat, depth: nat)
    requires StateOK(hash, st) && FreshBlock(st, off) && depth <= st.depth
    requires st'.depth == st.depth && st'.owner == st.owner
    requires st'.flat == st.flat[off := PageC(EmptyView(depth))]
    requires off in st'.home && st'.home == st.home[off := st'.home[off]]
    requires forall i | 0 <= i < |st'.dir| :: st'.dir[i] == off || st'.dir[i] in st.dir
    ensures PagesOK(hash, st')
    ensures forall q | IsPage(st.flat, q) :: EntriesAt(st'.flat, q) == EntriesAt(st.flat, q)
    ensures forall k :: NoAlias(hash, st, k) ==> NoAlias(hash, st', k)
  {
    FreshNotLinked(hash, st, off);
    forall q | IsPage(st'.flat, q)
      ensures Linked(st', q) && PageOK(hash, st'.flat, st'.owner, q, PageAt(st'.flat, q))
      ensures q != off ==> EntriesAt(st'.flat, q) == EntriesAt(st.flat, q)
    {
      if q == off {
        EmptyPageOK(hash, st'.flat, st'.owner, off, depth);
      } else {
        assert Linked(st, q);
        PageFrame(hash, st.flat, st'.flat, st.owner, st.owner, q, PageAt(st.flat, q), PageAt(st'.flat, q));
      }
    }
  }

  // ---- linking an overflow page ----

  /** First the empty page is there, then the link to it. */
  function Extended(st: State, cur: nat, off: nat): State
    requires IsPage(st.flat, cur) && cur in st.home
  {
    var p := PageAt(st.flat, cur);
    st.(flat := st.flat[off := PageC(EmptyView(p.depth))][cur := PageC(p.(next := off))],
        home := st.home[off := st.home[cur]])
  }

  lemma ExtendedOK(hash: HashFn, st: State, cur: nat, off: nat)
    requires StateOK(hash, st) && FreshBlock(st, off)
    requires IsPage(st.flat, cur) && cur in st.home && PageAt(st.flat, cur).next == 0
    ensures StateOK(hash, Extended(st, cur, off))
    ensures EntriesAt(Extended(st, cur, off).flat, off) == []
    ensures forall q | IsPage(st.flat, q) :: EntriesAt(Extended(st, cur, off).flat, q) == EntriesAt(st.flat, q)
    ensures forall k :: NoAlias(hash, st, k) ==> NoAlias(hash, Extended(st, cur, off), k)
  {
    var p := PageAt(st.flat, cur);
    assert Linked(st, cur);
    FreshNotLinked(hash, st, off);
    var mid := st.(flat := st.flat[off := PageC(EmptyView(p.depth))], home := st.home[off := st.home[cur]]);
    PlusPageOK(hash, st, mid, off, p.depth);
    RelinkedOK(hash, mid, cur, off);
    assert Extended(st, cur, off) == Relinked(mid, cur, off);
    forall i | 0 <= i < |st.dir| && st.dir[i] != NO_PAGE ensures HeadOK(Extended(st, cur, off), i) {
      assert HeadOK(st, i);
    }
  }

  /** Behind a full page a new one opens no gap. */
  lemma ExtendedNothingNew(hash: HashFn, st: State, cur: nat, off: nat)
    requires StateOK(hash, st) && FreshBlock(st, off)
    requires IsPage(st.flat, cur) && cur in st.home && PageAt(st.flat, cur).next == 0
    requires |PageAt(st.flat, cur).slots| >= SLOTS_PER_PAGE
    ensures NothingNew(hash, st, Extended(st, cur, off))
  {
    var p := PageAt(st.flat, cur);
    ExtendedOK(hash, st, cur, off);
    if Dense(st.flat) {
      DenseWith(st.flat, off, EmptyView(p.depth));
      DenseWith(st.flat[off := PageC(EmptyView(p.depth))], cur, p.(next := off));
    }
  }

  function Relinked(st: State, cur: nat, n: nat): State
    requires IsPage(st.flat, cur)
  {
    st.(flat := st.flat[cur := PageC(PageAt(st.flat, cur).(next := n))])
  }

  lemma RelinkedOK(hash: HashFn, st: State, cur: nat, n: nat)
    requires PagesOK(hash, st) && IsPage(st.flat, cur) && cur < n && IsPage(st.flat, n)
    requires n in st.home && cur in st.home && st.home[n] == st.home[cur] && n !in st.dir
    ensures PagesOK(hash, Relinked(st, cur, n))
    ensures forall q | IsPage(st.flat, q) :: EntriesAt(Relinked(st, cur, n).flat, q) == EntriesAt(st.flat, q)
  {
    var st' := Relinked(st, cur, n);
    forall q | IsPage(st'.flat, q)
      ensures Linked(st', q) && PageOK(hash, st'.flat, st'.owner, q, PageAt(st'.flat, q))
      ensures EntriesAt(st'.flat, q) == EntriesAt(st.flat, q)
    {
      assert Linked(st, q);
      RelinkedPage(hash, st, cur, n, q);
    }
  }

  lemma RelinkedPage(hash: HashFn, st: State, cur: nat, n: nat, q: nat)
    requires IsPage(st.flat, cur) && IsPage(st.flat, q) && PageOK(hash, st.flat, st.owner, q, PageAt(st.flat, q))
    ensures var st' := Relinked(st, cur, n);
            && PageOK(hash, st'.flat, st'.owner, q, PageAt(st'.flat, q))
            && EntriesAt(st'.flat, q) == EntriesAt(st.flat, q)
            && PageAt(st'.flat, q).slots == PageAt(st.flat, q).slots
  {
    var st' := Relinked(st, cur, n);
    WithNext(hash, st.flat, st'.flat, st.owner, q, PageAt(st.flat, q), PageAt(st'.flat, q).next);
  }

  /** Rewriting links changes neither what pages store nor any record. */
  lemma WithNext(hash: HashFn, flat: map<nat, Content>, flat': map<nat, Content>, owner: map<nat, nat>, q: nat, p: PageView, n: nat)
    requires PageOK(hash, flat, owner, q, p)
    requires forall r | r in flat && flat[r].RecC? :: r in flat' && flat'[r] == flat[r]
    ensures PageOK(hash, flat', owner, q, p.(next := n))
    ensures PageEntries(flat', p.(next := n)) == PageEntries(flat, p)
  {
    var p' := p.(next := n);
    forall i | 0 <= i < |p.slots|
      ensures SlotOK(hash, flat', owner, q, p', p'.slots[i])
      ensures EntryOf(flat', p', p'.slots[i]) == PageEntries(flat, p)[i]
    {
      SlotKept(hash, flat, flat', owner, owner, q, p, p', p.slots[i]);
    }
    Assemble(hash, flat', owner, q, p', PageEntries(flat, p));
  }

  lemma {:induction false} ExtendedChain(hash: HashFn, st: State, cur: nat, off: nat, from: nat, k: Key)
    requires StateOK(hash, st) && FreshBlock(st, off)
    requires IsPage(st.flat, cur) && cur in st.home && PageAt(st.flat, cur).next == 0
    requires from != off
    ensures ChainCopies(Extended(st, cur, off).flat, from, k) == ChainCopies(st.flat, from, k)
    decreases FILE_LIMIT - from
  {
    var st' := Extended(st, cur, off);
    if from < FILE_LIMIT && IsPage(st.flat, from) {
      assert Linked(st, from);
      ExtendedOK(hash, st, cur, off);
      assert EntriesAt(st'.flat, from) == EntriesAt(st.flat, from);
      if from == cur {
        assert EntriesAt(st'.flat, off) == [];
        assert ChainCopies(st'.flat, off, k) == [];
      } else if PageAt(st.flat, from).next > from {
        ExtendedChain(hash, st, cur, off, PageAt(st.flat, from).next, k);
      }
    }
  }

  lemma ExtendedStacks(hash: HashFn, st: State, cur: nat, off: nat)
    requires StateOK(hash, st) && FreshBlock(st, off)
    requires IsPage(st.flat, cur) && cur in st.home && PageAt(st.flat, cur).next == 0
    ensures SameStacks(hash, st, Extended(st, cur, off))
  {
    FreshNotLinked(hash, st, off);
    forall k: Key ensures Stack(hash, Extended(st, cur, off), k) == Stack(hash, st, k) {
      DirIndexIsResidue(hash(k), st.depth);
      assert HeadOf(st, hash(k)) != off;
      ExtendedChain(hash, st, cur, off, HeadOf(st, hash(k)), k);
    }
  }

  /** The walk that reached the tail now reaches the new page. */
  lemma {:induction false} ExtendedReaches(hash: HashFn, st: State, cur: nat, off: nat, from: nat, k: Key)
    requires StateOK(hash, st) && FreshBlock(st, off)
    requires IsPage(st.flat, cur) && cur in st.home && PageAt(st.flat, cur).next == 0
    requires NoneBefore(st.flat, from, cur, k) && Copies(EntriesAt(st.flat, cur), k) == []
    ensures NoneBefore(Extended(st, cur, off).flat, from, off, k)
    decreases FILE_LIMIT - from
  {
    var st' := Extended(st, cur, off);
    assert Linked(st, from);
    NoneBeforeSplits(st.flat, from, cur, k);
    ExtendedOK(hash, st, cur, off);
    if from == cur {
      assert NoneBefore(st'.flat, off, off, k);
    } else {
      ExtendedReaches(hash, st, cur, off, PageAt(st.flat, from).next, k);
    }
  }
}
