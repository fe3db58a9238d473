/** What rewriting one page of a bucket does to the answers of the whole index. */
module PagedEffects {
  import opened Bits
  import opened PagedLayout
  import opened PagedPage
  import opened PagedState

  /** A slot looks like `k` to `paged_put` and `paged_del`. */
  predicate Matches(s: Slot, h: nat, k: Key) {
    s.hash == h && s.klen == |k| && s.prefix == KeyPrefix(k)
  }

  lemma MatchIsIdent(hash: HashFn, flat: map<nat, Content>, owner: map<nat, nat>, off: nat, p: PageView, i: nat, k: Key)
    requires PageFits(hash, flat, owner, off, p) && i < |p.slots|
    ensures Matches(p.slots[i], hash(k), k) <==> SameIdent(hash, PageEntries(flat, p)[i].key, k)
  {
    assert SlotOK(hash, flat, owner, off, p, p.slots[i]);
  }

  /** Without aliases, matching is key equality. */
  lemma MatchIsKey(hash: HashFn, flat: map<nat, Content>, owner: map<nat, nat>, off: nat, p: PageView, i: nat, k: Key)
    requires PageOK(hash, flat, owner, off, p) && i < |p.slots|
    requires NoAliasIn(hash, PageEntries(flat, p), k)
    ensures Matches(p.slots[i], hash(k), k) <==> PageEntries(flat, p)[i].key == k
  {
    MatchIsIdent(hash, flat, owner, off, p, i, k);
  }

  /** A key of at most 16 bytes is its own prefix, so it has no alias at all. */
  lemma ShortKeysHaveNoAlias(hash: HashFn, a: Key, b: Key)
    requires SameIdent(hash, a, b) && |a| <= KEY_PREFIX_LEN
    ensures a == b
  {
    if |a| == KEY_PREFIX_LEN { assert a[..KEY_PREFIX_LEN] == a && b[..KEY_PREFIX_LEN] == b; }
  }

  /** Storing `k` can only make `k` itself an alias of other keys. */
  ghost predicate AliasAtMost(hash: HashFn, st: State, st': State, k: Key) {
    forall k': Key | NoAlias(hash, st, k') && (SameIdent(hash, k, k') ==> k == k') :: NoAlias(hash, st', k')
  }

  /** `st'` is `st` with page `off` rewritten into another page of its class whose slots decode. */
  ghost predicate Placed(hash: HashFn, st: State, st': State, off: nat) {
    && StateOK(hash, st) && OnlyPage(st, st', off)
    && PageFits(hash, st'.flat, st'.owner, off, PageAt(st'.flat, off))
    && PageAt(st'.flat, off).next == PageAt(st.flat, off).next
    && PageAt(st'.flat, off).depth == PageAt(st.flat, off).depth
    && off in st.home && Fits(PageAt(st'.flat, off), st.home[off])
  }

  /** ... and that page is well-formed. */
  ghost predicate Rewritten(hash: HashFn, st: State, st': State, off: nat) {
    Placed(hash, st, st', off) && PageOK(hash, st'.flat, st'.owner, off, PageAt(st'.flat, off))
  }

  /** Every key among `fs` is `k` or occurs among `es`. */
  ghost predicate KeysFrom(fs: seq<Entry>, es: seq<Entry>, k: Key) {
    forall i | 0 <= i < |fs| :: fs[i].key == k || HasKey(es, fs[i].key)
  }

  lemma AliasAfter(hash: HashFn, st: State, st': State, off: nat, k: Key)
    requires StateOK(hash, st) && OnlyPage(st, st', off)
    requires KeysFrom(EntriesAt(st'.flat, off), EntriesAt(st.flat, off), k)
    ensures AliasAtMost(hash, st, st', k)
  {
    forall k': Key | NoAlias(hash, st, k') && (SameIdent(hash, k, k') ==> k == k') ensures NoAlias(hash, st', k') {
      forall q | IsPage(st'.flat, q) ensures NoAliasIn(hash, EntriesAt(st'.flat, q), k') {
        assert NoAliasIn(hash, EntriesAt(st.flat, q), k');
        if q != off { OtherPagesKept(hash, st, st', off, q); }
      }
    }
  }

  ghost predicate SameOtherCopies(fs: seq<Entry>, es: seq<Entry>, k: Key) {
    forall k': Key | k' != k :: Copies(fs, k') == Copies(es, k')
  }

  /** When only copies of `k` change in one page, only the answer for `k` changes. */
  lemma RewrittenEffect(hash: HashFn, st: State, st': State, off: nat, k: Key)
    requires Rewritten(hash, st, st', off)
    requires SameOtherCopies(EntriesAt(st'.flat, off), EntriesAt(st.flat, off), k)
    requires KeysFrom(EntriesAt(st'.flat, off), EntriesAt(st.flat, off), k)
    requires NoneBefore(st.flat, HeadOf(st, hash(k)), off, k)
    ensures StateOK(hash, st') && SameOtherStacks(hash, st, st', k) && AliasAtMost(hash, st, st', k)
    ensures Stack(hash, st, k) == Copies(EntriesAt(st.flat, off), k) + ChainRest(st.flat, off, k)
    ensures Stack(hash, st', k) == Copies(EntriesAt(st'.flat, off), k) + ChainRest(st.flat, off, k)
  {
    RewriteStack(hash, st, st', off, k);
    RewriteOK(hash, st, st', off);
    forall k': Key | k' != k ensures Stack(hash, st', k') == Stack(hash, st, k') {
      RewriteKeeps(hash, st, st', off, k');
    }
    AliasAfter(hash, st, st', off, k);
  }

  /** A page that lost no slot, or has no successor, opens no gap. */
  lemma DenseAfter(hash: HashFn, st: State, st': State, off: nat)
    requires Placed(hash, st, st', off)
    requires |EntriesAt(st'.flat, off)| >= |EntriesAt(st.flat, off)| || PageAt(st.flat, off).next == 0
    ensures DenseKept(st, st')
  {
    if Dense(st.flat) {
      forall q | IsPage(st'.flat, q) && PageAt(st'.flat, q).next != 0
        ensures |PageAt(st'.flat, q).slots| >= SLOTS_PER_PAGE
      {
        if q != off { OtherPagesKept(hash, st, st', off, q); }
      }
    }
  }

  /** `k`'s own slot got a new value. */
  lemma ReplacedEffect(hash: HashFn, st: State, st': State, off: nat, i: nat, k: Key, v: Value)
    requires Rewritten(hash, st, st', off)
    requires i < |EntriesAt(st.flat, off)| && EntriesAt(st.flat, off)[i].key == k
    requires EntriesAt(st'.flat, off) == EntriesAt(st.flat, off)[i := Entry(k, v)]
    requires NoneBefore(st.flat, HeadOf(st, hash(k)), off, k)
    ensures StateOK(hash, st') && SameOtherStacks(hash, st, st', k) && AliasAtMost(hash, st, st', k)
    ensures Stack(hash, st, k) != [] && Stack(hash, st', k) == [v] + Stack(hash, st, k)[1..]
    ensures DenseKept(st, st')
  {
    DenseAfter(hash, st, st', off);
    ReplacedLocal(EntriesAt(st.flat, off), i, k, v);
    RewrittenEffect(hash, st, st', off, k);
  }

  lemma ReplacedLocal(es: seq<Entry>, i: nat, k: Key, v: Value)
    requires DistinctKeys(es) && i < |es| && es[i].key == k
    ensures SameOtherCopies(es[i := Entry(k, v)], es, k)
    ensures Copies(es, k) == [es[i].val] && Copies(es[i := Entry(k, v)], k) == [v]
    ensures KeysFrom(es[i := Entry(k, v)], es, k)
  {
    OneCopy(es, i);
    forall k': Key ensures Copies(es[i := Entry(k, v)], k') == if k' == k then [v] else Copies(es, k') {
      ReplaceCopies(es, i, Entry(k, v), k');
    }
  }

  /** A slot for `k` was appended to the first page with room. */
  lemma AppendedEffect(hash: HashFn, st: State, st': State, off: nat, k: Key, v: Value)
    requires Rewritten(hash, st, st', off)
    requires !HasKey(EntriesAt(st.flat, off), k)
    requires EntriesAt(st'.flat, off) == EntriesAt(st.flat, off) + [Entry(k, v)]
    requires NoneBefore(st.flat, HeadOf(st, hash(k)), off, k)
    ensures StateOK(hash, st') && SameOtherStacks(hash, st, st', k) && AliasAtMost(hash, st, st', k)
    ensures Stack(hash, st', k) == [v] + Stack(hash, st, k)
    ensures DenseKept(st, st')
  {
    DenseAfter(hash, st, st', off);
    AppendedLocal(EntriesAt(st.flat, off), k, v);
    RewrittenEffect(hash, st, st', off, k);
    assert Stack(hash, st, k) == ChainRest(st.flat, off, k);
  }

  lemma AppendedLocal(es: seq<Entry>, k: Key, v: Value)
    requires !HasKey(es, k)
    ensures SameOtherCopies(es + [Entry(k, v)], es, k)
    ensures Copies(es, k) == [] && Copies(es + [Entry(k, v)], k) == [v]
    ensures KeysFrom(es + [Entry(k, v)], es, k)
  {
    NoCopies(es, k);
    var fs := es + [Entry(k, v)];
    assert fs[..|fs| - 1] == es;
    forall i | 0 <= i < |fs| ensures fs[i].key == k || HasKey(es, fs[i].key) {
      if i < |es| { assert es[i].key == fs[i].key; }
    }
  }

  /** `k`'s slot was removed. */
  lemma RemovedEffect(hash: HashFn, st: State, st': State, off: nat, i: nat, k: Key)
    requires Rewritten(hash, st, st', off)
    requires i < |EntriesAt(st.flat, off)| && EntriesAt(st.flat, off)[i].key == k
    requires EntriesAt(st'.flat, off) == SwapOut(EntriesAt(st.flat, off), i)
    requires NoneBefore(st.flat, HeadOf(st, hash(k)), off, k)
    ensures StateOK(hash, st') && SameOtherStacks(hash, st, st', k) && AliasAtMost(hash, st, st', k)
    ensures Stack(hash, st, k) != [] && Stack(hash, st', k) == Stack(hash, st, k)[1..]
  {
    RemovedLocal(EntriesAt(st.flat, off), i, k);
    RewrittenEffect(hash, st, st', off, k);
    TopGone(Copies(EntriesAt(st.flat, off), k), Copies(EntriesAt(st'.flat, off), k), ChainRest(st.flat, off, k));
  }

  lemma TopGone(a: seq<Value>, b: seq<Value>, rest: seq<Value>)
    requires |a| == 1 && b == []
    ensures a + rest != [] && b + rest == (a + rest)[1..]
  {
  }

  lemma RemovedLocal(es: seq<Entry>, i: nat, k: Key)
    requires DistinctKeys(es) && i < |es| && es[i].key == k
    ensures SameOtherCopies(SwapOut(es, i), es, k)
    ensures Copies(es, k) == [es[i].val] && Copies(SwapOut(es, i), k) == []
    ensures KeysFrom(SwapOut(es, i), es, k)
  {
    OneCopy(es, i);
    forall k': Key ensures Copies(SwapOut(es, i), k') == if k' == k then [] else Copies(es, k') {
      RemoveCopies(es, i, k');
    }
    forall j | 0 <= j < |es| - 1 ensures HasKey(es, SwapOut(es, i)[j].key) {
      assert es[if j == i then |es| - 1 else j].key == SwapOut(es, i)[j].key;
    }
  }

  /** A walk stands on a page of the class of its key. */
  lemma WalkHome(hash: HashFn, st: State, cur: nat, k: Key)
    requires StateOK(hash, st) && Reaches(st.flat, HeadOf(st, hash(k)), cur)
    ensures cur in st.home && Residue(hash(k), st.home[cur].depth) == st.home[cur].residue
  {
    var i := DirIndex(hash(k), st.depth);
    DirIndexIsResidue(hash(k), st.depth);
    assert st.dir[i] != NO_PAGE;
    assert HeadOK(st, i);
    ReachesHome(hash, st, st.dir[i], cur);
    var d := PageAt(st.flat, st.dir[i]).depth;
    ModMod(hash(k), d, st.depth);
  }

  /** A page of the class that holds only hashes of the class keeps doing so. */
  lemma FitsAppend(p: PageView, s: Slot, home: Home)
    requires Fits(p, home) && Residue(s.hash, home.depth) == home.residue
    ensures Fits(p.(slots := p.slots + [s]), home)
  {
  }

  /** The depth a put would split at is that of the page where its walk ends. */
  lemma {:induction false} LastDepthAt(flat: map<nat, Content>, off: nat, cur: nat, k: Key)
    requires NoneBefore(flat, off, cur, k) && IsPage(flat, cur) && PageAt(flat, cur).next == 0
    ensures LastDepth(flat, off) == PageAt(flat, cur).depth
    decreases FILE_LIMIT - off
  {
    if off != cur { LastDepthAt(flat, PageAt(flat, off).next, cur, k); }
  }

  lemma {:induction false} LastDepthBound(hash: HashFn, st: State, off: nat)
    requires StateOK(hash, st)
    ensures LastDepth(st.flat, off) <= MAX_DEPTH
    decreases FILE_LIMIT - off
  {
    if off < FILE_LIMIT && IsPage(st.flat, off) {
      assert Linked(st, off);
      if PageAt(st.flat, off).next > off { LastDepthBound(hash, st, PageAt(st.flat, off).next); }
    }
  }

  /** The chain of `k` has at most one page. */
  ghost predicate OnePageOnly(hash: HashFn, st: State, k: Key) {
    var h := HeadOf(st, hash(k));
    IsPage(st.flat, h) ==> PageAt(st.flat, h).next == 0
  }
}
