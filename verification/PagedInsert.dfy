/** The walk of `paged_insert`, which never looks for its key: it stops at the first page
    with room, whatever the pages before it, or that page, hold. */
module PagedInsert {
  import opened PagedLayout
  import opened PagedPage
  import opened PagedState
  import opened PagedSteps
  import opened PagedEffects
  import opened PagedTransitions
  import opened PagedWalk

  /** A walk from `off` over full pages reaches `cur`. */
  ghost predicate FullBefore(flat: map<nat, Content>, off: nat, cur: nat)
    decreases FILE_LIMIT - off
  {
    && off < FILE_LIMIT && IsPage(flat, off)
    && (off == cur ||
        (&& |PageAt(flat, off).slots| >= SLOTS_PER_PAGE
         && PageAt(flat, off).next > off
         && FullBefore(flat, PageAt(flat, off).next, cur)))
  }

  /** Does a page up to and including the first one with room hold `k`? */
  ghost predicate Met(flat: map<nat, Content>, off: nat, k: Key)
    decreases FILE_LIMIT - off
  {
    && off < FILE_LIMIT && IsPage(flat, off)
    && (HasKey(EntriesAt(flat, off), k) ||
        (&& |PageAt(flat, off).slots| >= SLOTS_PER_PAGE
         && PageAt(flat, off).next > off
         && Met(flat, PageAt(flat, off).next, k)))
  }

  /** The copies of `k` in the pages before `cur`. */
  ghost function Before(flat: map<nat, Content>, off: nat, cur: nat, k: Key): seq<Value>
    decreases FILE_LIMIT - off
  {
    if off < FILE_LIMIT && IsPage(flat, off) && off != cur && PageAt(flat, off).next > off then
      Copies(EntriesAt(flat, off), k) + Before(flat, PageAt(flat, off).next, cur, k)
    else []
  }

  lemma {:induction false} FullReaches(flat: map<nat, Content>, off: nat, cur: nat)
    requires FullBefore(flat, off, cur)
    ensures Reaches(flat, off, cur)
    decreases FILE_LIMIT - off
  {
    if off != cur { FullReaches(flat, PageAt(flat, off).next, cur); }
  }

  lemma {:induction false} FullDepth(flat: map<nat, Content>, off: nat, cur: nat)
    requires FullBefore(flat, off, cur) && IsPage(flat, cur) && PageAt(flat, cur).next == 0
    ensures LastDepth(flat, off) == PageAt(flat, cur).depth
    decreases FILE_LIMIT - off
  {
    if off != cur { FullDepth(flat, PageAt(flat, off).next, cur); }
  }

  lemma {:induction false} ChainAt(flat: map<nat, Content>, off: nat, cur: nat, k: Key)
    requires FullBefore(flat, off, cur)
    ensures off <= cur < FILE_LIMIT && IsPage(flat, cur)
    ensures ChainCopies(flat, off, k) == Before(flat, off, cur, k) + ChainCopies(flat, cur, k)
    ensures Met(flat, off, k) <==> Before(flat, off, cur, k) != [] || Met(flat, cur, k)
    decreases FILE_LIMIT - off
  {
    if off != cur {
      ChainAt(flat, PageAt(flat, off).next, cur, k);
      NoCopies(EntriesAt(flat, off), k);
    }
  }

  lemma {:induction false} FullStep(flat: map<nat, Content>, off: nat, cur: nat, k: Key)
    requires FullBefore(flat, off, cur) && IsPage(flat, cur) && cur < FILE_LIMIT
    requires |PageAt(flat, cur).slots| >= SLOTS_PER_PAGE
    requires cur < PageAt(flat, cur).next < FILE_LIMIT && IsPage(flat, PageAt(flat, cur).next)
    ensures FullBefore(flat, off, PageAt(flat, cur).next)
    decreases FILE_LIMIT - off
  {
    if off != cur {
      ChainAt(flat, PageAt(flat, off).next, cur, k);
      FullStep(flat, PageAt(flat, off).next, cur, k);
    }
  }

  /** A walk over full pages depends only on the pages before its end. */
  lemma {:induction false} FullFrame(hash: HashFn, st: State, flat': map<nat, Content>, off: nat, cur: nat, k: Key)
    requires StateOK(hash, st) && FullBefore(st.flat, off, cur) && IsPage(flat', cur)
    requires forall q | IsPage(st.flat, q) && q != cur ::
               && IsPage(flat', q) && PageAt(flat', q).next == PageAt(st.flat, q).next
               && |PageAt(flat', q).slots| == |PageAt(st.flat, q).slots|
               && EntriesAt(flat', q) == EntriesAt(st.flat, q)
    ensures FullBefore(flat', off, cur) && Before(flat', off, cur, k) == Before(st.flat, off, cur, k)
    decreases FILE_LIMIT - off
  {
    if off != cur {
      assert Linked(st, off);
      FullFrame(hash, st, flat', PageAt(st.flat, off).next, cur, k);
    }
  }

  // ---- the invariant of the walk ----

  /** An insert of `k` began in `s0`; now the index is `st` and the walk stands on `cur`.
      Every answer is still that of `s0`, and whether a copy of `k` was or will be met is as
      it was in `s0`. */
  ghost predicate Inserting(hash: HashFn, s0: State, st: State, cur: nat, k: Key) {
    && StateOK(hash, st) && IsPage(st.flat, cur)
    && FullBefore(st.flat, HeadOf(st, hash(k)), cur)
    && SameStacks(hash, s0, st) && NothingNew(hash, s0, st)
    && (Met(st.flat, HeadOf(st, hash(k)), k) <==> Met(s0.flat, HeadOf(s0, hash(k)), k))
    && (st == s0 || PageAt(st.flat, cur).slots == [])
  }

  /** What an insert that appended its entry leaves. A reader sees the new value exactly when
      no page up to and including the first one with room held the key. */
  ghost predicate Inserted(hash: HashFn, s0: State, s1: State, k: Key, v: Value) {
    && LooseOK(hash, s1) && SameOtherStacks(hash, s0, s1, k)
    && AliasAtMost(hash, s0, s1, k) && DenseKept(s0, s1)
    && |Stack(hash, s1, k)| == |Stack(hash, s0, k)| + 1
    && (if Met(s0.flat, HeadOf(s0, hash(k)), k)
        then Stack(hash, s0, k) != [] && Stack(hash, s1, k)[0] == Stack(hash, s0, k)[0]
        else StateOK(hash, s1) && Stack(hash, s1, k) == [v] + Stack(hash, s0, k))
  }

  /** The value just inserted answers if and only if no copy was met, or it is the old answer. */
  lemma InsertAnswers(hash: HashFn, s0: State, s1: State, k: Key, v: Value)
    requires Inserted(hash, s0, s1, k, v)
    ensures Lookup(hash, s1, k) == Some(v) <==>
            !Met(s0.flat, HeadOf(s0, hash(k)), k) || Lookup(hash, s0, k) == Some(v)
    ensures Met(s0.flat, HeadOf(s0, hash(k)), k) ==> Lookup(hash, s1, k) == Lookup(hash, s0, k)
  {
  }

  lemma InsertStart(hash: HashFn, s0: State, k: Key)
    requires StateOK(hash, s0) && HeadOf(s0, hash(k)) != NO_PAGE
    ensures Inserting(hash, s0, s0, HeadOf(s0, hash(k)), k)
  {
    StateIsLoose(hash, s0);
    HeadIsPage(hash, s0, hash(k));
  }

  lemma InsertOpened(hash: HashFn, s0: State, st: State, k: Key)
    requires StateOK(hash, s0) && StateOK(hash, st) && HeadOf(s0, hash(k)) == NO_PAGE
    requires SameStacks(hash, s0, st) && NothingNew(hash, s0, st)
    requires IsPage(st.flat, HeadOf(st, hash(k))) && PageAt(st.flat, HeadOf(st, hash(k))).slots == []
    ensures Inserting(hash, s0, st, HeadOf(st, hash(k)), k)
  {
    assert Linked(st, HeadOf(st, hash(k)));
  }

  lemma InsertNext(hash: HashFn, s0: State, st: State, cur: nat, k: Key)
    requires Inserting(hash, s0, st, cur, k)
    requires |PageAt(st.flat, cur).slots| >= SLOTS_PER_PAGE && PageAt(st.flat, cur).next != 0
    ensures cur < PageAt(st.flat, cur).next < FILE_LIMIT
    ensures Inserting(hash, s0, st, PageAt(st.flat, cur).next, k)
  {
    assert Linked(st, cur);
    assert Linked(st, PageAt(st.flat, cur).next);
    FullStep(st.flat, HeadOf(st, hash(k)), cur, k);
  }

  /** At a full last page a new page is linked, and the walk moves onto it. */
  lemma InsertExtended(hash: HashFn, s0: State, st: State, cur: nat, off: nat, k: Key)
    requires Inserting(hash, s0, st, cur, k) && FreshBlock(st, off)
    requires |PageAt(st.flat, cur).slots| >= SLOTS_PER_PAGE && PageAt(st.flat, cur).next == 0
    ensures cur in st.home && Inserting(hash, s0, Extended(st, cur, off), off, k)
  {
    var st' := Extended(st, cur, off);
    assert Linked(st, cur);
    ExtendedOK(hash, st, cur, off);
    ExtendedNothingNew(hash, st, cur, off);
    ExtendedStacks(hash, st, cur, off);
    SameTrans(hash, s0, st, st');
    ExtendedMeets(hash, st, cur, off, HeadOf(st, hash(k)), k);
    StateIsLoose(hash, st);
  }

  /** A new empty last page is reached behind the old one, and changes nothing that is met. */
  lemma {:induction false} ExtendedMeets(hash: HashFn, st: State, cur: nat, off: nat, from: nat, k: Key)
    requires StateOK(hash, st) && FreshBlock(st, off)
    requires IsPage(st.flat, cur) && cur in st.home && PageAt(st.flat, cur).next == 0
    requires FullBefore(st.flat, from, cur) && |PageAt(st.flat, cur).slots| >= SLOTS_PER_PAGE
    ensures var flat' := Extended(st, cur, off).flat;
            FullBefore(flat', from, off) && (Met(flat', from, k) <==> Met(st.flat, from, k))
    decreases FILE_LIMIT - from
  {
    var st' := Extended(st, cur, off);
    assert Linked(st, from);
    ExtendedOK(hash, st, cur, off);
    assert EntriesAt(st'.flat, from) == EntriesAt(st.flat, from);
    if from == cur {
      assert EntriesAt(st'.flat, off) == [] && FullBefore(st'.flat, off, off) && !Met(st'.flat, off, k);
    } else {
      ExtendedMeets(hash, st, cur, off, PageAt(st.flat, from).next, k);
    }
  }

  // ---- landing on a page with room ----

  lemma CopiesOfAppend(es: seq<Entry>, e: Entry, k: Key)
    ensures Copies(es + [e], k) == Copies(es, k) + (if e.key == k then [e.val] else [])
  {
    assert (es + [e])[..|es|] == es;
  }

  /** An entry behind a copy of its key is never the one a reader sees. */
  lemma Landed(hash: HashFn, s0: State, st: State, s1: State, cur: nat, k: Key, v: Value)
    requires Inserting(hash, s0, st, cur, k) && |PageAt(st.flat, cur).slots| < SLOTS_PER_PAGE
    requires Placed(hash, st, s1, cur)
    requires EntriesAt(s1.flat, cur) == EntriesAt(st.flat, cur) + [Entry(k, v)]
    requires !HasKey(EntriesAt(st.flat, cur), k) ==> Rewritten(hash, st, s1, cur)
    ensures Inserted(hash, s0, s1, k, v)
  {
    var es := EntriesAt(st.flat, cur);
    forall k': Key | k' != k ensures Stack(hash, s1, k') == Stack(hash, s0, k') {
      CopiesOfAppend(es, Entry(k, v), k');
      RewriteKeeps(hash, st, s1, cur, k');
      assert Stack(hash, st, k') == Stack(hash, s0, k');
    }
    RewriteOK(hash, st, s1, cur);
    LandedAlias(hash, s0, st, s1, cur, k, v);
    DenseAfter(hash, st, s1, cur);
    LandedStack(hash, st, s1, cur, k, v);
    assert Stack(hash, st, k) == Stack(hash, s0, k);
  }

  lemma LandedAlias(hash: HashFn, s0: State, st: State, s1: State, cur: nat, k: Key, v: Value)
    requires StateOK(hash, st) && OnlyPage(st, s1, cur) && NothingNew(hash, s0, st)
    requires EntriesAt(s1.flat, cur) == EntriesAt(st.flat, cur) + [Entry(k, v)]
    ensures AliasAtMost(hash, s0, s1, k)
  {
    var es, fs := EntriesAt(st.flat, cur), EntriesAt(s1.flat, cur);
    forall i | 0 <= i < |fs| ensures fs[i].key == k || HasKey(es, fs[i].key) {
      if i < |es| { assert es[i].key == fs[i].key; }
    }
    AliasAfter(hash, st, s1, cur, k);
  }

  lemma LandedStack(hash: HashFn, st: State, s1: State, cur: nat, k: Key, v: Value)
    requires StateOK(hash, st) && Placed(hash, st, s1, cur)
    requires FullBefore(st.flat, HeadOf(st, hash(k)), cur) && |PageAt(st.flat, cur).slots| < SLOTS_PER_PAGE
    requires EntriesAt(s1.flat, cur) == EntriesAt(st.flat, cur) + [Entry(k, v)]
    ensures |Stack(hash, s1, k)| == |Stack(hash, st, k)| + 1
    ensures if Met(st.flat, HeadOf(st, hash(k)), k)
            then Stack(hash, st, k) != [] && Stack(hash, s1, k)[0] == Stack(hash, st, k)[0]
            else Stack(hash, s1, k) == [v] + Stack(hash, st, k) && !HasKey(EntriesAt(st.flat, cur), k)
  {
    var h := HeadOf(st, hash(k));
    LandedParts(hash, st, s1, cur, k, v);
    ChainAt(st.flat, h, cur, k);
    NoCopies(EntriesAt(st.flat, cur), k);
    var a, c, r := Before(st.flat, h, cur, k), Copies(EntriesAt(st.flat, cur), k), ChainRest(st.flat, cur, k);
    PushedInside(a, c, r, v);
  }

  lemma PushedInside(a: seq<Value>, c: seq<Value>, r: seq<Value>, v: Value)
    ensures |a + (c + [v] + r)| == |a + (c + r)| + 1
    ensures if a == [] && c == [] then a + (c + [v] + r) == [v] + (a + (c + r))
            else a + (c + r) != [] && (a + (c + [v] + r))[0] == (a + (c + r))[0]
  {
  }

  /** The stack before and after: copies before the page, in the page, and behind it. */
  lemma LandedParts(hash: HashFn, st: State, s1: State, cur: nat, k: Key, v: Value)
    requires StateOK(hash, st) && Placed(hash, st, s1, cur)
    requires FullBefore(st.flat, HeadOf(st, hash(k)), cur)
    requires EntriesAt(s1.flat, cur) == EntriesAt(st.flat, cur) + [Entry(k, v)]
    ensures var h := HeadOf(st, hash(k));
            var a, c, r := Before(st.flat, h, cur, k), Copies(EntriesAt(st.flat, cur), k), ChainRest(st.flat, cur, k);
            Stack(hash, st, k) == a + (c + r) && Stack(hash, s1, k) == a + (c + [v] + r)
  {
    var h := HeadOf(st, hash(k));
    var es := EntriesAt(st.flat, cur);
    forall q | IsPage(st.flat, q) && q != cur
      ensures EntriesAt(s1.flat, q) == EntriesAt(st.flat, q)
    {
      OtherPagesKept(hash, st, s1, cur, q);
    }
    FullFrame(hash, st, s1.flat, h, cur, k);
    ChainAt(st.flat, h, cur, k);
    ChainAt(s1.flat, h, cur, k);
    RestFrame(hash, st, s1.flat, cur, k);
    CopiesOfAppend(es, Entry(k, v), k);
  }

  lemma LandInline(hash: HashFn, s0: State, st: State, cur: nat, k: Key, v: Value)
    requires Inserting(hash, s0, st, cur, k) && |PageAt(st.flat, cur).slots| < SLOTS_PER_PAGE
    requires PageAt(st.flat, cur).inlineUsed + |k| + |v| <= INLINE_SPACE
    ensures |PageAt(st.flat, cur).area| == INLINE_SPACE
    ensures Inserted(hash, s0, WithPage(st, cur, AddInline(PageAt(st.flat, cur), hash(k), k, v)), k, v)
  {
    var p := PageAt(st.flat, cur);
    assert Linked(st, cur);
    AddInlineOK(hash, st.flat, st.owner, cur, p, k, v);
    var q := AddInline(p, hash(k), k, v);
    FullReaches(st.flat, HeadOf(st, hash(k)), cur);
    WalkHome(hash, st, cur, k);
    FitsAppend(p, q.slots[|p.slots|], st.home[cur]);
    RewrittenBy(hash, st, st, cur, q);
    Landed(hash, s0, st, WithPage(st, cur, q), cur, k, v);
  }

  lemma LandRecord(hash: HashFn, s0: State, st: State, cur: nat, k: Key, v: Value, rec: nat)
    requires Inserting(hash, s0, st, cur, k) && |PageAt(st.flat, cur).slots| < SLOTS_PER_PAGE
    requires FreshBlock(st, rec)
    ensures Inserted(hash, s0, WithPage(WithRecord(st, rec, RecordBytes(k, v), cur), cur,
                                        AddRecord(PageAt(st.flat, cur), hash(k), k, v, rec)), k, v)
  {
    var p := PageAt(st.flat, cur);
    assert Linked(st, cur);
    AddRecordOK(hash, st.flat, st.owner, cur, p, k, v, rec);
    var q := AddRecord(p, hash(k), k, v, rec);
    var mid := WithRecord(st, rec, RecordBytes(k, v), cur);
    FullReaches(st.flat, HeadOf(st, hash(k)), cur);
    WalkHome(hash, st, cur, k);
    FitsAppend(p, q.slots[|p.slots|], st.home[cur]);
    RecordOnly(st, rec, RecordBytes(k, v), cur);
    RewrittenBy(hash, st, mid, cur, q);
    Landed(hash, s0, st, WithPage(mid, cur, q), cur, k, v);
  }
}
