/** The whole index over the flat block store: a directory of bucket heads, overflow
    chains, and the extendible-hash invariant that every operation keeps. */
module PagedState {
  import opened Bits
  import opened PagedLayout
  import opened PagedPage

  const MAX_DEPTH := 20

  /** The class of hashes a chain serves: those congruent to `residue` modulo 2^depth. */
  datatype Home = Home(residue: nat, depth: nat)

  /** `dir` and `depth` are `page_off` and `global_depth`; `flat` is the visible content of
      all blocks. `home` gives every page its class and `owner` gives every out-of-line
      record its page; both exist only for the proof. */
  datatype State = State(dir: seq<nat>, depth: nat, flat: map<nat, Content>,
                         home: map<nat, Home>, owner: map<nat, nat>)

  function Residue(h: nat, depth: nat): nat {
    h % Pow2(depth)
  }

  /** `dir_index`. */
  function DirIndex(h: nat, depth: nat): (i: nat) {
    if depth == 0 then 0 else BitAnd(h, Pow2(depth) - 1)
  }

  lemma DirIndexIsResidue(h: nat, depth: nat)
    ensures DirIndex(h, depth) == Residue(h, depth) < Pow2(depth)
  {
    AndMask(h, depth);
  }

  predicate IsPage(flat: map<nat, Content>, off: nat) {
    off in flat && flat[off].PageC?
  }

  function PageAt(flat: map<nat, Content>, off: nat): PageView
    requires IsPage(flat, off)
  {
    flat[off].view
  }

  function EntriesAt(flat: map<nat, Content>, off: nat): seq<Entry>
    requires IsPage(flat, off)
  {
    PageEntries(flat, PageAt(flat, off))
  }

  predicate Fits(p: PageView, home: Home) {
    forall i | 0 <= i < |p.slots| :: Residue(p.slots[i].hash, home.depth) == home.residue
  }

  /** Links lead to strictly larger offsets, stay within one class, and never lead to a
      bucket head; every slot's hash lies in the class. */
  ghost predicate Linked(st: State, off: nat)
    requires IsPage(st.flat, off)
  {
    var p := PageAt(st.flat, off);
    && 0 < off < FILE_LIMIT
    && p.depth <= st.depth
    && off in st.home
    && Fits(p, st.home[off])
    && (p.next != 0 ==>
          && off < p.next && IsPage(st.flat, p.next)
          && p.next in st.home && st.home[p.next] == st.home[off]
          && p.next !in st.dir)
  }

  /** A bucket head of local depth L is shared by exactly the directory indices that are
      congruent modulo 2^L. */
  ghost predicate HeadOK(st: State, i: nat)
    requires i < |st.dir|
  {
    && IsPage(st.flat, st.dir[i])
    && st.dir[i] in st.home
    && var d := PageAt(st.flat, st.dir[i]).depth;
    && d <= st.depth
    && st.home[st.dir[i]] == Home(Residue(i, d), d)
    && forall j | 0 <= j < |st.dir| && Residue(j, d) == Residue(i, d) :: st.dir[j] == st.dir[i]
  }

  ghost predicate DirOK(st: State) {
    && st.depth <= MAX_DEPTH
    && |st.dir| == Pow2(st.depth)
    && forall i | 0 <= i < |st.dir| && st.dir[i] != NO_PAGE :: HeadOK(st, i)
  }

  ghost predicate PagesOK(hash: HashFn, st: State) {
    forall off | IsPage(st.flat, off) ::
      Linked(st, off) && PageOK(hash, st.flat, st.owner, off, PageAt(st.flat, off))
  }

  ghost predicate StateOK(hash: HashFn, st: State) {
    DirOK(st) && PagesOK(hash, st)
  }

  /** The same, except that a page may hold a key twice. This is all a reader relies on. */
  ghost predicate LooseOK(hash: HashFn, st: State) {
    DirOK(st) && PagesFit(hash, st)
  }

  ghost predicate PagesFit(hash: HashFn, st: State) {
    forall off | IsPage(st.flat, off) ::
      Linked(st, off) && PageFits(hash, st.flat, st.owner, off, PageAt(st.flat, off))
  }

  lemma StateIsLoose(hash: HashFn, st: State)
    requires StateOK(hash, st)
    ensures LooseOK(hash, st)
  {
  }

  // ---- what the index answers ----

  /** The copies of `k` along a chain, in the order a walk meets them. */
  ghost function ChainCopies(flat: map<nat, Content>, off: nat, k: Key): seq<Value>
    decreases FILE_LIMIT - off
  {
    if off >= FILE_LIMIT || !IsPage(flat, off) then []
    else
      Copies(EntriesAt(flat, off), k) +
      (if PageAt(flat, off).next > off then ChainCopies(flat, PageAt(flat, off).next, k) else [])
  }

  function HeadOf(st: State, h: nat): nat {
    var i := DirIndex(h, st.depth);
    if i < |st.dir| then st.dir[i] else NO_PAGE
  }

  /** All copies of `k` in its bucket. The first one answers a lookup; the others are
      shadowed. */
  ghost function Stack(hash: HashFn, st: State, k: Key): seq<Value> {
    ChainCopies(st.flat, HeadOf(st, hash(k)), k)
  }

  ghost function Lookup(hash: HashFn, st: State, k: Key): Option<Value> {
    var s := Stack(hash, st, k);
    if s == [] then None else Some(s[0])
  }

  ghost predicate SameStacks(hash: HashFn, st: State, st': State) {
    forall k: Key :: Stack(hash, st', k) == Stack(hash, st, k)
  }

  ghost predicate SameOtherStacks(hash: HashFn, st: State, st': State, k: Key) {
    forall k': Key | k' != k :: Stack(hash, st', k') == Stack(hash, st, k')
  }

  // ---- walking a chain ----

  /** A walk from `off` reaches `cur`, and no page before `cur` holds `k`. */
  ghost predicate NoneBefore(flat: map<nat, Content>, off: nat, cur: nat, k: Key)
    decreases FILE_LIMIT - off
  {
    && off < FILE_LIMIT && IsPage(flat, off)
    && (off == cur ||
        (&& Copies(EntriesAt(flat, off), k) == []
         && PageAt(flat, off).next > off
         && NoneBefore(flat, PageAt(flat, off).next, cur, k)))
  }

  lemma {:induction false} NoneBeforeSplits(flat: map<nat, Content>, off: nat, cur: nat, k: Key)
    requires NoneBefore(flat, off, cur, k)
    ensures off <= cur < FILE_LIMIT && IsPage(flat, cur)
    ensures ChainCopies(flat, off, k) == ChainCopies(flat, cur, k)
    decreases FILE_LIMIT - off
  {
    if off != cur { NoneBeforeSplits(flat, PageAt(flat, off).next, cur, k); }
  }

  lemma {:induction false} NoneBeforeStep(flat: map<nat, Content>, off: nat, cur: nat, k: Key)
    requires NoneBefore(flat, off, cur, k)
    requires cur < FILE_LIMIT && IsPage(flat, cur) && Copies(EntriesAt(flat, cur), k) == []
    requires cur < PageAt(flat, cur).next < FILE_LIMIT && IsPage(flat, PageAt(flat, cur).next)
    ensures NoneBefore(flat, off, PageAt(flat, cur).next, k)
    decreases FILE_LIMIT - off
  {
    if off != cur {
      NoneBeforeSplits(flat, PageAt(flat, off).next, cur, k);
      NoneBeforeStep(flat, PageAt(flat, off).next, cur, k);
    }
  }

  /** `cur` is a page of the chain that starts at `off`. */
  ghost predicate Reaches(flat: map<nat, Content>, off: nat, cur: nat)
    decreases FILE_LIMIT - off
  {
    && off < FILE_LIMIT && IsPage(flat, off)
    && (off == cur || (PageAt(flat, off).next > off && Reaches(flat, PageAt(flat, off).next, cur)))
  }

  /** Every page of a chain has the class of its head. */
  lemma {:induction false} ReachesHome(hash: HashFn, st: State, off: nat, cur: nat)
    requires StateOK(hash, st) && Reaches(st.flat, off, cur)
    ensures IsPage(st.flat, cur) && off in st.home && cur in st.home && st.home[cur] == st.home[off] && off <= cur
    decreases FILE_LIMIT - off
  {
    assert Linked(st, off);
    if off != cur { ReachesHome(hash, st, PageAt(st.flat, off).next, cur); }
  }

  lemma {:induction false} NoneBeforeReaches(flat: map<nat, Content>, off: nat, cur: nat, k: Key)
    requires NoneBefore(flat, off, cur, k)
    ensures Reaches(flat, off, cur)
    decreases FILE_LIMIT - off
  {
    if off != cur { NoneBeforeReaches(flat, PageAt(flat, off).next, cur, k); }
  }

  /** Would `paged_put` meet a page with room before it meets a slot of `k`? */
  ghost predicate RoomFirst(flat: map<nat, Content>, off: nat, k: Key)
    decreases FILE_LIMIT - off
  {
    && off < FILE_LIMIT && IsPage(flat, off)
    && Copies(EntriesAt(flat, off), k) == []
    && (|PageAt(flat, off).slots| < SLOTS_PER_PAGE ||
        (PageAt(flat, off).next > off && RoomFirst(flat, PageAt(flat, off).next, k)))
  }

  ghost predicate Shadows(hash: HashFn, st: State, k: Key) {
    RoomFirst(st.flat, HeadOf(st, hash(k)), k)
  }

  /** Every page that has a successor is full. Only a delete can end this. */
  ghost predicate Dense(flat: map<nat, Content>) {
    forall off | IsPage(flat, off) && PageAt(flat, off).next != 0 :: |PageAt(flat, off).slots| >= SLOTS_PER_PAGE
  }

  lemma {:induction false} DenseRoom(flat: map<nat, Content>, off: nat, k: Key)
    requires Dense(flat) && RoomFirst(flat, off, k)
    ensures ChainCopies(flat, off, k) == []
    decreases FILE_LIMIT - off
  {
    if |PageAt(flat, off).slots| >= SLOTS_PER_PAGE { DenseRoom(flat, PageAt(flat, off).next, k); }
  }

  /** Where chains are dense, no put covers an older copy of its key. */
  lemma DenseNeverShadows(hash: HashFn, st: State, k: Key)
    requires Dense(st.flat) && Stack(hash, st, k) != []
    ensures !Shadows(hash, st, k)
  {
    if Shadows(hash, st, k) { DenseRoom(st.flat, HeadOf(st, hash(k)), k); }
  }

  /** What a successful put leaves for its key. */
  ghost function Pushed(shadows: bool, s: seq<Value>, v: Value): seq<Value> {
    [v] + (if shadows || s == [] then s else s[1..])
  }

  /** The depth of the last page of a chain: the page a put would split. */
  ghost function LastDepth(flat: map<nat, Content>, off: nat): nat
    decreases FILE_LIMIT - off
  {
    if off >= FILE_LIMIT || !IsPage(flat, off) then 0
    else if PageAt(flat, off).next > off then LastDepth(flat, PageAt(flat, off).next)
    else PageAt(flat, off).depth
  }

  // ---- aliasing ----

  /** `paged_put` and `paged_del` take two keys for one when they agree on this much. */
  predicate SameIdent(hash: HashFn, a: Key, b: Key) {
    hash(a) == hash(b) && |a| == |b| && KeyPrefix(a) == KeyPrefix(b)
  }

  ghost predicate NoAliasIn(hash: HashFn, es: seq<Entry>, k: Key) {
    forall i | 0 <= i < |es| && SameIdent(hash, es[i].key, k) :: es[i].key == k
  }

  /** No stored key other than `k` has its hash, length and prefix. */
  ghost predicate NoAlias(hash: HashFn, st: State, k: Key) {
    forall off | IsPage(st.flat, off) :: NoAliasIn(hash, EntriesAt(st.flat, off), k)
  }

  ghost predicate DenseKept(st: State, st': State) {
    Dense(st.flat) ==> Dense(st'.flat)
  }

  /** Every key that had no alias still has none, and no chain got a gap. */
  ghost predicate NothingNew(hash: HashFn, st: State, st': State) {
    && (forall k: Key | NoAlias(hash, st, k) :: NoAlias(hash, st', k))
    && DenseKept(st, st')
  }

  /** Storing a last page, or a full one, opens no gap. */
  lemma DenseWith(flat: map<nat, Content>, off: nat, p: PageView)
    requires Dense(flat) && (p.next == 0 || |p.slots| >= SLOTS_PER_PAGE)
    ensures Dense(flat[off := PageC(p)])
  {
    var flat' := flat[off := PageC(p)];
    forall q | IsPage(flat', q) && PageAt(flat', q).next != 0 ensures |PageAt(flat', q).slots| >= SLOTS_PER_PAGE {
      if q != off { assert IsPage(flat, q); }
    }
  }

  // ---- framing a chain ----

  /** Two stores agree, for key `k`, on every page of one class. */
  ghost predicate AgreeOn(st: State, flat': map<nat, Content>, home: Home, k: Key) {
    forall q | IsPage(st.flat, q) && q in st.home && st.home[q] == home ::
      && IsPage(flat', q)
      && PageAt(flat', q).next == PageAt(st.flat, q).next
      && Copies(EntriesAt(flat', q), k) == Copies(EntriesAt(st.flat, q), k)
  }

  lemma {:induction false} ChainFrame(hash: HashFn, st: State, flat': map<nat, Content>, off: nat, k: Key)
    requires StateOK(hash, st) && IsPage(st.flat, off) && off in st.home
    requires AgreeOn(st, flat', st.home[off], k)
    ensures ChainCopies(flat', off, k) == ChainCopies(st.flat, off, k)
    decreases FILE_LIMIT - off
  {
    assert Linked(st, off);
    var n := PageAt(st.flat, off).next;
    if n > off { ChainFrame(hash, st, flat', n, k); }
  }

  /** The walk to `cur` depends only on the pages before it. */
  lemma {:induction false} NoneBeforeFrame(hash: HashFn, st: State, flat': map<nat, Content>, off: nat, cur: nat, k: Key)
    requires StateOK(hash, st) && NoneBefore(st.flat, off, cur, k) && IsPage(flat', cur)
    requires forall q | IsPage(st.flat, q) && q != cur && q in st.home && off in st.home && st.home[q] == st.home[off] ::
      && IsPage(flat', q)
      && PageAt(flat', q).next == PageAt(st.flat, q).next
      && EntriesAt(flat', q) == EntriesAt(st.flat, q)
    ensures NoneBefore(flat', off, cur, k)
    decreases FILE_LIMIT - off
  {
    assert Linked(st, off);
    if off != cur { NoneBeforeFrame(hash, st, flat', PageAt(st.flat, off).next, cur, k); }
  }

  // ---- rewriting one page ----

  /** `st'` differs from `st` only in page `off` and in records that page owns. */
  ghost predicate OnlyPage(st: State, st': State, off: nat) {
    && st'.dir == st.dir && st'.depth == st.depth && st'.home == st.home
    && IsPage(st.flat, off) && IsPage(st'.flat, off)
    && (forall q :: IsPage(st'.flat, q) <==> IsPage(st.flat, q))
    && (forall q | IsPage(st.flat, q) && q != off :: st'.flat[q] == st.flat[q])
    && (forall r | r in st.owner && r in st.flat && st.flat[r].RecC? && st.owner[r] != off ::
          r in st'.flat && st'.flat[r] == st.flat[r] && r in st'.owner && st'.owner[r] == st.owner[r])
  }

  lemma OtherPagesKept(hash: HashFn, st: State, st': State, off: nat, q: nat)
    requires StateOK(hash, st) && OnlyPage(st, st', off) && IsPage(st.flat, q) && q != off
    ensures PageOK(hash, st'.flat, st'.owner, q, PageAt(st'.flat, q))
    ensures EntriesAt(st'.flat, q) == EntriesAt(st.flat, q)
  {
    PageFrame(hash, st.flat, st'.flat, st.owner, st'.owner, q, PageAt(st.flat, q), PageAt(st'.flat, q));
  }

  /** Rewriting a page in place keeps the invariant when the new page is well-formed. */
  lemma RewriteOK(hash: HashFn, st: State, st': State, off: nat)
    requires StateOK(hash, st) && OnlyPage(st, st', off)
    requires PageFits(hash, st'.flat, st'.owner, off, PageAt(st'.flat, off))
    requires PageAt(st'.flat, off).next == PageAt(st.flat, off).next
    requires PageAt(st'.flat, off).depth == PageAt(st.flat, off).depth
    requires off in st.home && Fits(PageAt(st'.flat, off), st.home[off])
    ensures LooseOK(hash, st')
    ensures PageOK(hash, st'.flat, st'.owner, off, PageAt(st'.flat, off)) ==> StateOK(hash, st')
  {
    forall q | IsPage(st'.flat, q)
      ensures Linked(st', q)
      ensures PageFits(hash, st'.flat, st'.owner, q, PageAt(st'.flat, q))
      ensures q != off ==> PageOK(hash, st'.flat, st'.owner, q, PageAt(st'.flat, q))
    {
      assert Linked(st, q);
      if q != off { OtherPagesKept(hash, st, st', off, q); }
    }
    forall i | 0 <= i < |st'.dir| && st'.dir[i] != NO_PAGE ensures HeadOK(st', i) {
      assert HeadOK(st, i);
    }
  }

  /** A key whose copies in the rewritten page are unchanged keeps all its copies. */
  lemma RewriteKeeps(hash: HashFn, st: State, st': State, off: nat, k: Key)
    requires StateOK(hash, st) && OnlyPage(st, st', off)
    requires PageAt(st'.flat, off).next == PageAt(st.flat, off).next
    requires Copies(EntriesAt(st'.flat, off), k) == Copies(EntriesAt(st.flat, off), k)
    ensures Stack(hash, st', k) == Stack(hash, st, k)
  {
    var h := HeadOf(st, hash(k));
    DirIndexIsResidue(hash(k), st.depth);
    if h == NO_PAGE {
    } else {
      assert HeadOK(st, DirIndex(hash(k), st.depth));
      forall q | IsPage(st.flat, q) && q != off ensures EntriesAt(st'.flat, q) == EntriesAt(st.flat, q) {
        OtherPagesKept(hash, st, st', off, q);
      }
      ChainFrame(hash, st, st'.flat, h, k);
    }
  }

  /** The copies of the key being written: those of the rewritten page, then the rest. */
  lemma RewriteStack(hash: HashFn, st: State, st': State, off: nat, k: Key)
    requires StateOK(hash, st) && OnlyPage(st, st', off)
    requires PageAt(st'.flat, off).next == PageAt(st.flat, off).next
    requires NoneBefore(st.flat, HeadOf(st, hash(k)), off, k)
    ensures ChainRest(st.flat, off, k) == ChainRest(st'.flat, off, k)
    ensures Stack(hash, st, k) == Copies(EntriesAt(st.flat, off), k) + ChainRest(st.flat, off, k)
    ensures Stack(hash, st', k) == Copies(EntriesAt(st'.flat, off), k) + ChainRest(st.flat, off, k)
  {
    var h := HeadOf(st, hash(k));
    forall q | IsPage(st.flat, q) && q != off ensures EntriesAt(st'.flat, q) == EntriesAt(st.flat, q) {
      OtherPagesKept(hash, st, st', off, q);
    }
    NoneBeforeSplits(st.flat, h, off, k);
    assert Linked(st, h);
    NoneBeforeFrame(hash, st, st'.flat, h, off, k);
    NoneBeforeSplits(st'.flat, h, off, k);
    RestFrame(hash, st, st'.flat, off, k);
  }

  /** The copies after page `off` in its chain. */
  ghost function ChainRest(flat: map<nat, Content>, off: nat, k: Key): seq<Value>
    requires IsPage(flat, off)
  {
    if PageAt(flat, off).next > off then ChainCopies(flat, PageAt(flat, off).next, k) else []
  }

  lemma {:induction false} RestFrame(hash: HashFn, st: State, flat': map<nat, Content>, off: nat, k: Key)
    requires StateOK(hash, st) && IsPage(st.flat, off) && IsPage(flat', off)
    requires PageAt(flat', off).next == PageAt(st.flat, off).next
    requires forall q: nat | q > off && IsPage(st.flat, q) ::
      IsPage(flat', q) && PageAt(flat', q).next == PageAt(st.flat, q).next && EntriesAt(flat', q) == EntriesAt(st.flat, q)
    ensures ChainRest(flat', off, k) == ChainRest(st.flat, off, k)
    decreases FILE_LIMIT - off
  {
    assert Linked(st, off);
    var n := PageAt(st.flat, off).next;
    if n > off {
      assert Linked(st, n);
      RestFrame(hash, st, flat', n, k);
    }
  }
}
