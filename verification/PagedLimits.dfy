/** Laws of the index a reader of the design would look for, and an exact limit of what the
    code achieves: sharing of directory entries, and splitting an overflow page. */
module PagedLimits {
  import opened Bits
  import opened PagedLayout
  import opened PagedPage
  import opened PagedState
  import opened PagedSplit

  // ---- the extendible-hash law ----

  /** Two directory entries name the same page exactly when they agree modulo 2^L, where L
      is the local depth of that page. */
  lemma SharedExactly(st: State, i: nat, j: nat)
    requires DirOK(st) && i < |st.dir| && j < |st.dir| && st.dir[i] != NO_PAGE
    ensures IsPage(st.flat, st.dir[i]) && PageAt(st.flat, st.dir[i]).depth <= st.depth
    ensures st.dir[j] == st.dir[i] <==>
            Residue(j, PageAt(st.flat, st.dir[i]).depth) == Residue(i, PageAt(st.flat, st.dir[i]).depth)
  {
    assert HeadOK(st, i);
    if st.dir[j] == st.dir[i] { assert HeadOK(st, j); }
  }

  /** Every slot in the chain behind directory entry `i` has a hash congruent to `i` modulo
      2^L, and so has every key stored there. */
  lemma ChainInClass(hash: HashFn, st: State, i: nat, cur: nat, n: nat)
    requires StateOK(hash, st) && i < |st.dir| && st.dir[i] != NO_PAGE
    requires Reaches(st.flat, st.dir[i], cur) && IsPage(st.flat, cur) && n < |PageAt(st.flat, cur).slots|
    ensures IsPage(st.flat, st.dir[i])
    ensures var d := PageAt(st.flat, st.dir[i]).depth;
            && Residue(PageAt(st.flat, cur).slots[n].hash, d) == Residue(i, d)
            && PageAt(st.flat, cur).slots[n].hash == hash(EntriesAt(st.flat, cur)[n].key)
  {
    assert HeadOK(st, i);
    ReachesHome(hash, st, st.dir[i], cur);
    assert Linked(st, cur);
    assert SlotOK(hash, st.flat, st.owner, cur, PageAt(st.flat, cur), PageAt(st.flat, cur).slots[n]);
  }

  // ---- splitting an overflow page ----

  /** The copies of a key after an overflow page of its chain was split: those that went to
      the new page are gone, because nothing links to that page. */
  lemma {:induction false} TailSplitCount(hash: HashFn, st: State, cur: nat, to: nat, low: PageView, high: PageView, off: nat, k: Key)
    requires SplitReady(hash, st, cur, to, low, high) && cur !in st.dir
    requires Reaches(st.flat, off, cur) && cur != to
    ensures var n := PageAt(st.flat, cur).depth;
            |ChainCopies(Split(st, cur, to, low, high).flat, off, k)| ==
            |ChainCopies(st.flat, off, k)| - (if Bit(hash(k), n) then |Copies(EntriesAt(st.flat, cur), k)| else 0)
    decreases FILE_LIMIT - off
  {
    var flat' := Split(st, cur, to, low, high).flat;
    assert Linked(st, off);
    TailSplitHere(hash, st, cur, to, low, high, off, k);
    if off != cur {
      TailSplitCount(hash, st, cur, to, low, high, PageAt(st.flat, off).next, k);
    }
  }

  lemma TailSplitHere(hash: HashFn, st: State, cur: nat, to: nat, low: PageView, high: PageView, off: nat, k: Key)
    requires SplitReady(hash, st, cur, to, low, high) && IsPage(st.flat, off)
    ensures var flat' := Split(st, cur, to, low, high).flat;
            && IsPage(flat', off) && PageAt(flat', off).next == PageAt(st.flat, off).next
            && Copies(EntriesAt(flat', off), k) ==
               if off == cur && Bit(hash(k), PageAt(st.flat, cur).depth) then [] else Copies(EntriesAt(st.flat, off), k)
  {
    SplitPageOK(hash, st, cur, to, low, high, off);
    SplitEntries(hash, st, cur, to, low, high);
    LowCopies(hash, EntriesAt(st.flat, cur), PageAt(st.flat, cur).depth, k);
  }

  lemma LowCopies(hash: HashFn, es: seq<Entry>, n: nat, k: Key)
    ensures Copies(FilterBit(hash, es, n, false), k) == if Bit(hash(k), n) then [] else Copies(es, k)
  {
    FilterCopies(hash, es, n, k);
    if Bit(hash(k), n) {
      FilterMember(hash, es, n, false);
      NoCopies(FilterBit(hash, es, n, false), k);
    }
  }

  /** Every key stored in a page of a chain looks itself up through that chain. */
  lemma StoredHead(hash: HashFn, st: State, i: nat, cur: nat, n: nat)
    requires StateOK(hash, st) && i < |st.dir| && st.dir[i] != NO_PAGE
    requires Reaches(st.flat, st.dir[i], cur) && IsPage(st.flat, cur) && n < |PageAt(st.flat, cur).slots|
    ensures HeadOf(st, hash(EntriesAt(st.flat, cur)[n].key)) == st.dir[i]
  {
    var h := PageAt(st.flat, cur).slots[n].hash;
    ChainInClass(hash, st, i, cur, n);
    DirIndexIsResidue(h, st.depth);
    var d := PageAt(st.flat, st.dir[i]).depth;
    assert HeadOK(st, i);
    ModMod(h, d, st.depth);
  }

  /** Splitting an overflow page keeps every answer if and only if no entry of that page has
      the new hash bit set. */
  lemma TailSplitExact(hash: HashFn, st: State, i: nat, cur: nat, to: nat, low: PageView, high: PageView)
    requires SplitReady(hash, st, cur, to, low, high) && cur !in st.dir
    requires i < |st.dir| && st.dir[i] != NO_PAGE && Reaches(st.flat, st.dir[i], cur)
    ensures SameStacks(hash, st, Split(st, cur, to, low, high)) <==>
            forall n | 0 <= n < |PageAt(st.flat, cur).slots| ::
              !Bit(PageAt(st.flat, cur).slots[n].hash, PageAt(st.flat, cur).depth)
  {
    var st' := Split(st, cur, to, low, high);
    var p := PageAt(st.flat, cur);
    RepointedNothing(st.dir, cur, to, p.depth);
    if n :| 0 <= n < |p.slots| && Bit(p.slots[n].hash, p.depth) {
      TailSplitLoses(hash, st, i, cur, to, low, high, n);
    } else {
      forall k: Key ensures Stack(hash, st', k) == Stack(hash, st, k) {
        TailSplitKeeps(hash, st, cur, to, low, high, k);
      }
    }
  }

  lemma TailSplitLoses(hash: HashFn, st: State, i: nat, cur: nat, to: nat, low: PageView, high: PageView, n: nat)
    requires SplitReady(hash, st, cur, to, low, high) && cur !in st.dir
    requires i < |st.dir| && st.dir[i] != NO_PAGE && Reaches(st.flat, st.dir[i], cur)
    requires n < |PageAt(st.flat, cur).slots| && Bit(PageAt(st.flat, cur).slots[n].hash, PageAt(st.flat, cur).depth)
    ensures var k := EntriesAt(st.flat, cur)[n].key;
            |Stack(hash, Split(st, cur, to, low, high), k)| == |Stack(hash, st, k)| - 1
  {
    var k := EntriesAt(st.flat, cur)[n].key;
    RepointedNothing(st.dir, cur, to, PageAt(st.flat, cur).depth);
    ChainInClass(hash, st, i, cur, n);
    StoredHead(hash, st, i, cur, n);
    OneCopy(EntriesAt(st.flat, cur), n);
    TailSplitCount(hash, st, cur, to, low, high, st.dir[i], k);
  }

  lemma TailSplitKeeps(hash: HashFn, st: State, cur: nat, to: nat, low: PageView, high: PageView, k: Key)
    requires SplitReady(hash, st, cur, to, low, high) && cur !in st.dir
    requires forall n | 0 <= n < |PageAt(st.flat, cur).slots| ::
               !Bit(PageAt(st.flat, cur).slots[n].hash, PageAt(st.flat, cur).depth)
    ensures Stack(hash, Split(st, cur, to, low, high), k) == Stack(hash, st, k)
  {
    var st' := Split(st, cur, to, low, high);
    var p := PageAt(st.flat, cur);
    RepointedNothing(st.dir, cur, to, p.depth);
    DirIndexIsResidue(hash(k), st.depth);
    var h := HeadOf(st, hash(k));
    if h != NO_PAGE {
      assert HeadOK(st, DirIndex(hash(k), st.depth));
      forall q | IsPage(st.flat, q)
        ensures IsPage(st'.flat, q) && PageAt(st'.flat, q).next == PageAt(st.flat, q).next
        ensures EntriesAt(st'.flat, q) == EntriesAt(st.flat, q)
      {
        TailSplitPage(hash, st, cur, to, low, high, q);
      }
      ChainFrame(hash, st, st'.flat, h, k);
    }
  }

  lemma TailSplitPage(hash: HashFn, st: State, cur: nat, to: nat, low: PageView, high: PageView, q: nat)
    requires SplitReady(hash, st, cur, to, low, high) && IsPage(st.flat, q)
    requires forall n | 0 <= n < |PageAt(st.flat, cur).slots| ::
               !Bit(PageAt(st.flat, cur).slots[n].hash, PageAt(st.flat, cur).depth)
    ensures var flat' := Split(st, cur, to, low, high).flat;
            && IsPage(flat', q) && PageAt(flat', q).next == PageAt(st.flat, q).next
            && EntriesAt(flat', q) == EntriesAt(st.flat, q)
  {
    SplitEntries(hash, st, cur, to, low, high);
    FilterAll(hash, st.flat, st.owner, cur, PageAt(st.flat, cur));
    SplitPageOK(hash, st, cur, to, low, high, q);
  }

  lemma FilterAll(hash: HashFn, flat: map<nat, Content>, owner: map<nat, nat>, off: nat, p: PageView)
    requires PageOK(hash, flat, owner, off, p)
    requires forall n | 0 <= n < |p.slots| :: !Bit(p.slots[n].hash, p.depth)
    ensures FilterBit(hash, PageEntries(flat, p), p.depth, false) == PageEntries(flat, p)
  {
    var es := PageEntries(flat, p);
    forall n | 0 <= n < |es| ensures !Bit(hash(es[n].key), p.depth) {
      assert SlotOK(hash, flat, owner, off, p, p.slots[n]);
    }
    FilterNone(hash, es, p.depth);
  }

  lemma {:induction false} FilterNone(hash: HashFn, es: seq<Entry>, n: nat)
    requires forall i | 0 <= i < |es| :: !Bit(hash(es[i].key), n)
    ensures FilterBit(hash, es, n, false) == es
  {
    if es != [] {
      FilterNone(hash, es[..|es| - 1], n);
      assert es == es[..|es| - 1] + [es[|es| - 1]];
    }
  }
}
