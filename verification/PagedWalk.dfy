/** The invariant of the chain walk in `paged_put` and `paged_insert`, and what the walk
    has achieved when it ends. */
module PagedWalk {
  import opened PagedLayout
  import opened PagedPage
  import opened PagedState
  import opened PagedSteps
  import opened PagedEffects
  import opened PagedTransitions

  /** A put of `k` began in `s0`; now the index is `st` and the walk stands on `cur`. Every
      answer is still that of `s0`, and whether room comes before a copy of `k` is still
      to be seen. Once a page was added, the walk stands on that empty page. */
  ghost predicate Walking(hash: HashFn, s0: State, st: State, cur: nat, k: Key) {
    && WalkAt(hash, st, cur, k)
    && SameStacks(hash, s0, st) && NothingNew(hash, s0, st)
    && (Stack(hash, s0, k) == [] || (RoomFirst(st.flat, cur, k) <==> Shadows(hash, s0, k)))
    && (st == s0 || PageAt(st.flat, cur).slots == [])
  }

  /** A successful put: one more or one replaced copy on top for `k`, nothing else. */
  ghost predicate PutOutcome(hash: HashFn, s0: State, s1: State, k: Key, v: Value) {
    && OnlyKey(hash, s0, s1, k)
    && Stack(hash, s1, k) == Pushed(Shadows(hash, s0, k), Stack(hash, s0, k), v)
    && DenseKept(s0, s1)
  }

  lemma HeadIsPage(hash: HashFn, st: State, h: nat)
    requires LooseOK(hash, st) && HeadOf(st, h) != NO_PAGE
    ensures IsPage(st.flat, HeadOf(st, h)) && HeadOf(st, h) < FILE_LIMIT && HeadOf(st, h) != 0
  {
    DirIndexIsResidue(h, st.depth);
    assert HeadOK(st, DirIndex(h, st.depth));
    assert Linked(st, HeadOf(st, h));
  }

  lemma WalkStart(hash: HashFn, s0: State, k: Key)
    requires StateOK(hash, s0) && HeadOf(s0, hash(k)) != NO_PAGE
    ensures Walking(hash, s0, s0, HeadOf(s0, hash(k)), k)
  {
    HeadIsPage(hash, s0, hash(k));
  }

  lemma WalkOpened(hash: HashFn, s0: State, st: State, k: Key)
    requires StateOK(hash, s0) && StateOK(hash, st) && HeadOf(s0, hash(k)) == NO_PAGE
    requires SameStacks(hash, s0, st) && NothingNew(hash, s0, st)
    requires IsPage(st.flat, HeadOf(st, hash(k))) && PageAt(st.flat, HeadOf(st, hash(k))).slots == []
    ensures Walking(hash, s0, st, HeadOf(st, hash(k)), k)
  {
    var h := HeadOf(st, hash(k));
    assert Linked(st, h);
    assert Stack(hash, s0, k) == [];
  }

  /** A full page without `k` is walked past. */
  lemma WalkNext(hash: HashFn, s0: State, st: State, cur: nat, k: Key)
    requires Walking(hash, s0, st, cur, k)
    requires |PageAt(st.flat, cur).slots| >= SLOTS_PER_PAGE
    requires !HasKey(EntriesAt(st.flat, cur), k) && PageAt(st.flat, cur).next != 0
    ensures cur < PageAt(st.flat, cur).next < FILE_LIMIT
    ensures Walking(hash, s0, st, PageAt(st.flat, cur).next, k)
  {
    var n := PageAt(st.flat, cur).next;
    assert Linked(st, cur);
    assert Linked(st, n);
    NoCopies(EntriesAt(st.flat, cur), k);
    NoneBeforeStep(st.flat, HeadOf(st, hash(k)), cur, k);
  }

  /** At a full last page a new page is linked, and the walk moves onto it. */
  lemma WalkExtended(hash: HashFn, s0: State, st: State, cur: nat, off: nat, k: Key)
    requires Walking(hash, s0, st, cur, k) && FreshBlock(st, off)
    requires |PageAt(st.flat, cur).slots| >= SLOTS_PER_PAGE
    requires !HasKey(EntriesAt(st.flat, cur), k) && PageAt(st.flat, cur).next == 0
    ensures cur in st.home && Walking(hash, s0, Extended(st, cur, off), off, k)
  {
    var st' := Extended(st, cur, off);
    assert Linked(st, cur);
    EndsEmpty(hash, st, cur, k);
    assert Stack(hash, s0, k) == [];
    ExtendedOK(hash, st, cur, off);
    ExtendedNothingNew(hash, st, cur, off);
    ExtendedStacks(hash, st, cur, off);
    ExtendedReaches(hash, st, cur, off, HeadOf(st, hash(k)), k);
    SameTrans(hash, s0, st, st');
    WalkOnto(hash, s0, st', off, k);
  }

  lemma EndsEmpty(hash: HashFn, st: State, cur: nat, k: Key)
    requires WalkAt(hash, st, cur, k) && !HasKey(EntriesAt(st.flat, cur), k) && PageAt(st.flat, cur).next == 0
    ensures Stack(hash, st, k) == [] && Copies(EntriesAt(st.flat, cur), k) == []
  {
    NoCopies(EntriesAt(st.flat, cur), k);
    NoneBeforeSplits(st.flat, HeadOf(st, hash(k)), cur, k);
  }

  lemma WalkOnto(hash: HashFn, s0: State, st: State, off: nat, k: Key)
    requires StateOK(hash, st) && NoneBefore(st.flat, HeadOf(st, hash(k)), off, k)
    requires IsPage(st.flat, off) && EntriesAt(st.flat, off) == []
    requires SameStacks(hash, s0, st) && NothingNew(hash, s0, st) && Stack(hash, s0, k) == []
    ensures Walking(hash, s0, st, off, k)
  {
  }

  lemma SameTrans(hash: HashFn, a: State, b: State, c: State)
    requires SameStacks(hash, a, b) && SameStacks(hash, b, c)
    ensures SameStacks(hash, a, c)
  {
    forall k: Key ensures Stack(hash, c, k) == Stack(hash, a, k) {
      assert Stack(hash, b, k) == Stack(hash, a, k);
    }
  }

  /** What changed only for `k` since `st` changed only for `k` since `s0`. */
  lemma OnlyKeySince(hash: HashFn, s0: State, st: State, s1: State, k: Key)
    requires SameStacks(hash, s0, st) && NothingNew(hash, s0, st) && OnlyKey(hash, st, s1, k)
    ensures OnlyKey(hash, s0, s1, k)
  {
    forall k': Key | k' != k ensures Stack(hash, s1, k') == Stack(hash, s0, k') {
      assert Stack(hash, st, k') == Stack(hash, s0, k');
    }
  }

  lemma PutReplaced(hash: HashFn, s0: State, st: State, s1: State, cur: nat, k: Key, v: Value)
    requires Walking(hash, s0, st, cur, k) && HasKey(EntriesAt(st.flat, cur), k)
    requires Replaced(hash, st, s1, k, v)
    ensures PutOutcome(hash, s0, s1, k, v)
  {
    NoCopies(EntriesAt(st.flat, cur), k);
    OnlyKeySince(hash, s0, st, s1, k);
    assert Stack(hash, st, k) == Stack(hash, s0, k);
  }

  lemma PutAppended(hash: HashFn, s0: State, st: State, s1: State, cur: nat, k: Key, v: Value)
    requires Walking(hash, s0, st, cur, k) && RoomAt(hash, st, cur, k)
    requires Appended(hash, st, s1, k, v)
    ensures PutOutcome(hash, s0, s1, k, v)
  {
    NoCopies(EntriesAt(st.flat, cur), k);
    NoneBeforeSplits(st.flat, HeadOf(st, hash(k)), cur, k);
    OnlyKeySince(hash, s0, st, s1, k);
    assert Stack(hash, st, k) == Stack(hash, s0, k);
  }

  /** A page with no matching slot does not hold the key. */
  lemma NoMatchNoKey(hash: HashFn, st: State, cur: nat, k: Key)
    requires StateOK(hash, st) && IsPage(st.flat, cur)
    requires forall i | 0 <= i < |PageAt(st.flat, cur).slots| :: !Matches(PageAt(st.flat, cur).slots[i], hash(k), k)
    ensures !HasKey(EntriesAt(st.flat, cur), k)
  {
    if HasKey(EntriesAt(st.flat, cur), k) {
      var i :| 0 <= i < |EntriesAt(st.flat, cur)| && EntriesAt(st.flat, cur)[i].key == k;
      MatchIsIdent(hash, st.flat, st.owner, cur, PageAt(st.flat, cur), i, k);
    }
  }

  /** Without aliases, the first matching slot holds the key. */
  lemma MatchFound(hash: HashFn, st: State, cur: nat, i: nat, k: Key)
    requires WalkAt(hash, st, cur, k) && NoAlias(hash, st, k)
    requires i < |PageAt(st.flat, cur).slots| && Matches(PageAt(st.flat, cur).slots[i], hash(k), k)
    ensures FoundAt(hash, st, cur, i, k) && HasKey(EntriesAt(st.flat, cur), k)
  {
    assert NoAliasIn(hash, EntriesAt(st.flat, cur), k);
    MatchIsKey(hash, st.flat, st.owner, cur, PageAt(st.flat, cur), i, k);
  }

  // ---- reading ----

  /** A reader of `k` stands on page `cur`; it need not rely on distinct keys. */
  ghost predicate ReadAt(hash: HashFn, st: State, cur: nat, k: Key) {
    && LooseOK(hash, st) && IsPage(st.flat, cur)
    && NoneBefore(st.flat, HeadOf(st, hash(k)), cur, k)
  }

  lemma ReadStart(hash: HashFn, st: State, k: Key)
    requires LooseOK(hash, st) && HeadOf(st, hash(k)) != NO_PAGE
    ensures ReadAt(hash, st, HeadOf(st, hash(k)), k)
  {
    HeadIsPage(hash, st, hash(k));
  }

  /** The copy a reader meets first is the top of the stack. */
  lemma TopCopy(hash: HashFn, st: State, cur: nat, k: Key, v: Value)
    requires ReadAt(hash, st, cur, k)
    requires Copies(EntriesAt(st.flat, cur), k) != [] && Copies(EntriesAt(st.flat, cur), k)[0] == v
    ensures Lookup(hash, st, k) == Some(v)
  {
    NoneBeforeSplits(st.flat, HeadOf(st, hash(k)), cur, k);
  }

  /** A reader that does not find the key goes on, and at the end knows it is absent. */
  lemma StepOn(hash: HashFn, st: State, cur: nat, k: Key)
    requires ReadAt(hash, st, cur, k) && !HasKey(EntriesAt(st.flat, cur), k)
    ensures var n := PageAt(st.flat, cur).next;
            if n == 0 then Stack(hash, st, k) == [] else cur < n < FILE_LIMIT && ReadAt(hash, st, n, k)
  {
    assert Linked(st, cur);
    var n := PageAt(st.flat, cur).next;
    NoCopies(EntriesAt(st.flat, cur), k);
    if n == 0 {
      NoneBeforeSplits(st.flat, HeadOf(st, hash(k)), cur, k);
    } else {
      assert Linked(st, n);
      NoneBeforeStep(st.flat, HeadOf(st, hash(k)), cur, k);
    }
  }

  /** The first entry of `k` has value `v`. */
  ghost predicate FirstIs(es: seq<Entry>, k: Key, v: Value) {
    exists i :: 0 <= i < |es| && es[i] == Entry(k, v) && forall j | 0 <= j < i :: es[j].key != k
  }

  /** What a reader looking for `k` can rely on at a slot that stores `e`. */
  ghost predicate SlotReads(hash: HashFn, flat: map<nat, Content>, p: PageView, s: Slot, e: Entry, k: Key) {
    && (e.key == k ==> Matches(s, hash(k), k))
    && (Matches(s, hash(k), k) ==>
          && (|k| <= KEY_PREFIX_LEN ==> e.key == k)
          && (s.inlined ==> BytesAre(p.area, s.fileOff, |k|, s.vlen, e))
          && (!s.inlined ==> s.fileOff in flat && flat[s.fileOff].RecC?
                             && BytesAre(flat[s.fileOff].bytes, RECORD_HEADER, |k|, s.vlen, e)))
  }

  ghost predicate BytesAre(b: seq<Byte>, at: nat, klen: nat, vlen: nat, e: Entry) {
    && at + klen + vlen <= |b|
    && e.key == b[at..at + klen]
    && e.val == b[at + klen..at + klen + vlen]
  }

  lemma EntryBytes(b: seq<Byte>, at: nat, klen: nat, vlen: nat, bytes: seq<Byte>, e: Entry)
    requires at + klen + vlen <= |b| && bytes == Slice(b, at, klen + vlen)
    requires e == Entry(bytes[..klen], bytes[klen..])
    ensures BytesAre(b, at, klen, vlen, e)
  {
  }

  lemma SlotReadable(hash: HashFn, flat: map<nat, Content>, owner: map<nat, nat>, off: nat, p: PageView, i: nat, k: Key)
    requires PageFits(hash, flat, owner, off, p) && i < |p.slots|
    ensures SlotReads(hash, flat, p, p.slots[i], PageEntries(flat, p)[i], k)
  {
    var s, e := p.slots[i], PageEntries(flat, p)[i];
    MatchIsIdent(hash, flat, owner, off, p, i, k);
    assert SlotOK(hash, flat, owner, off, p, s) && e == EntryOf(flat, p, s);
    if s.inlined {
      EntryBytes(p.area, s.fileOff, s.klen, s.vlen, SlotBytes(flat, p, s), e);
    } else {
      EntryBytes(flat[s.fileOff].bytes, RECORD_HEADER, s.klen, s.vlen, SlotBytes(flat, p, s), e);
    }
    if SameIdent(hash, e.key, k) && |k| <= KEY_PREFIX_LEN { ShortKeysHaveNoAlias(hash, e.key, k); }
  }

  lemma PageReadable(hash: HashFn, st: State, cur: nat, k: Key)
    requires LooseOK(hash, st) && IsPage(st.flat, cur)
    ensures var p := PageAt(st.flat, cur);
            forall i | 0 <= i < |p.slots| :: SlotReads(hash, st.flat, p, p.slots[i], EntriesAt(st.flat, cur)[i], k)
  {
    var p := PageAt(st.flat, cur);
    forall i | 0 <= i < |p.slots| ensures SlotReads(hash, st.flat, p, p.slots[i], EntriesAt(st.flat, cur)[i], k) {
      SlotReadable(hash, st.flat, st.owner, cur, p, i, k);
    }
  }

  /** The first entry of a key is its first copy. */
  lemma FirstCopy(es: seq<Entry>, k: Key, v: Value)
    requires FirstIs(es, k, v)
    ensures Copies(es, k) != [] && Copies(es, k)[0] == v
  {
    var i :| 0 <= i < |es| && es[i] == Entry(k, v) && forall j | 0 <= j < i :: es[j].key != k;
    NoCopies(es[..i], k);
    assert es[..i + 1][..i] == es[..i];
    assert es == es[..i + 1] + es[i + 1..];
    CopiesAppend(es[..i + 1], es[i + 1..], k);
  }

  /** The sentinel of empty directory entries is no block. */
  lemma NoSuchPage(hash: HashFn, st: State)
    requires StateOK(hash, st)
    ensures !IsPage(st.flat, NO_PAGE)
  {
  }
}
