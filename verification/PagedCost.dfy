/** How many blocks a put or an insert asks for, read off the index before the call. */
module PagedCost {
  import opened PagedLayout
  import opened PagedPage
  import opened PagedState
  import opened PagedSteps
  import opened PagedEffects
  import opened PagedTransitions
  import opened PagedWalk
  import opened PagedInsert
  import opened Allocator

  /** An entry appended to page `p`: free inline, a record otherwise. */
  function LandCost(p: PageView, k: Key, v: Value): nat {
    if p.inlineUsed + |k| + |v| <= INLINE_SPACE then 0 else 1
  }

  /** A new page and the entry on it. */
  function NewCost(k: Key, v: Value): nat {
    1 + (if |k| + |v| <= INLINE_SPACE then 0 else 1)
  }

  /** A new value for an entry: in place if it is not longer, a record otherwise. */
  function OverCost(was: Value, v: Value): nat {
    if |v| <= |was| then 0 else 1
  }

  /** The blocks a put asks for from page `off` on. */
  ghost function WalkCost(flat: map<nat, Content>, off: nat, k: Key, v: Value): (c: nat)
    ensures c <= 2
    decreases FILE_LIMIT - off
  {
    if off >= FILE_LIMIT || !IsPage(flat, off) then NewCost(k, v)
    else
      var top := Copies(EntriesAt(flat, off), k);
      if top != [] then OverCost(top[0], v)
      else if |PageAt(flat, off).slots| < SLOTS_PER_PAGE then LandCost(PageAt(flat, off), k, v)
      else if PageAt(flat, off).next > off then WalkCost(flat, PageAt(flat, off).next, k, v)
      else NewCost(k, v)
  }

  ghost function PutCost(hash: HashFn, st: State, k: Key, v: Value): (c: nat)
    ensures c <= 2
  {
    WalkCost(st.flat, HeadOf(st, hash(k)), k, v)
  }

  /** The blocks an insert asks for from page `off` on; it does not look for the key. */
  ghost function PassCost(flat: map<nat, Content>, off: nat, k: Key, v: Value): (c: nat)
    ensures c <= 2
    decreases FILE_LIMIT - off
  {
    if off >= FILE_LIMIT || !IsPage(flat, off) then NewCost(k, v)
    else if |PageAt(flat, off).slots| < SLOTS_PER_PAGE then LandCost(PageAt(flat, off), k, v)
    else if PageAt(flat, off).next > off then PassCost(flat, PageAt(flat, off).next, k, v)
    else NewCost(k, v)
  }

  ghost function InsertCost(hash: HashFn, st: State, k: Key, v: Value): (c: nat)
    ensures c <= 2
  {
    PassCost(st.flat, HeadOf(st, hash(k)), k, v)
  }

  /** All pages of the chain are full and none holds `k`: a put needs a new page, or a split. */
  ghost predicate Cramped(flat: map<nat, Content>, off: nat, k: Key)
    decreases FILE_LIMIT - off
  {
    && off < FILE_LIMIT && IsPage(flat, off)
    && Copies(EntriesAt(flat, off), k) == []
    && |PageAt(flat, off).slots| >= SLOTS_PER_PAGE
    && (PageAt(flat, off).next > off ==> Cramped(flat, PageAt(flat, off).next, k))
  }

  /** All pages of the chain are full. */
  ghost predicate Crowded(flat: map<nat, Content>, off: nat)
    decreases FILE_LIMIT - off
  {
    && off < FILE_LIMIT && IsPage(flat, off)
    && |PageAt(flat, off).slots| >= SLOTS_PER_PAGE
    && (PageAt(flat, off).next > off ==> Crowded(flat, PageAt(flat, off).next))
  }

  /** The chain of `k` ends in a page that cannot be divided any further. */
  ghost predicate AtLimit(hash: HashFn, st: State, k: Key) {
    LastDepth(st.flat, HeadOf(st, hash(k))) == MAX_DEPTH
  }

  // ---- what the cost means ----

  /** A value that is not longer than the one it replaces costs nothing. */
  lemma {:induction false} WalkInPlace(flat: map<nat, Content>, off: nat, k: Key, v: Value)
    requires ChainCopies(flat, off, k) != [] && !RoomFirst(flat, off, k)
    requires |v| <= |ChainCopies(flat, off, k)[0]|
    ensures WalkCost(flat, off, k, v) == 0
    decreases FILE_LIMIT - off
  {
    var top := Copies(EntriesAt(flat, off), k);
    if top == [] {
      WalkInPlace(flat, PageAt(flat, off).next, k, v);
    } else {
      assert ChainCopies(flat, off, k)[0] == top[0];
    }
  }

  lemma InPlaceIsFree(hash: HashFn, st: State, k: Key, v: Value)
    requires Stack(hash, st, k) != [] && !Shadows(hash, st, k) && |v| <= |Stack(hash, st, k)[0]|
    ensures PutCost(hash, st, k, v) == 0
  {
    WalkInPlace(st.flat, HeadOf(st, hash(k)), k, v);
  }

  /** A longer value for the key's first copy costs one record. */
  lemma {:induction false} WalkMoves(flat: map<nat, Content>, off: nat, k: Key, v: Value)
    requires ChainCopies(flat, off, k) != [] && !RoomFirst(flat, off, k)
    requires |v| > |ChainCopies(flat, off, k)[0]|
    ensures WalkCost(flat, off, k, v) == 1
    decreases FILE_LIMIT - off
  {
    var top := Copies(EntriesAt(flat, off), k);
    if top == [] {
      WalkMoves(flat, PageAt(flat, off).next, k, v);
    } else {
      assert ChainCopies(flat, off, k)[0] == top[0];
    }
  }

  lemma MoveCostsOne(hash: HashFn, st: State, k: Key, v: Value)
    requires Stack(hash, st, k) != [] && !Shadows(hash, st, k) && |v| > |Stack(hash, st, k)[0]|
    ensures PutCost(hash, st, k, v) == 1
  {
    WalkMoves(st.flat, HeadOf(st, hash(k)), k, v);
  }

  /** A cramped chain costs a page, and a record if the entry does not fit that page. */
  lemma {:induction false} CrampedCost(flat: map<nat, Content>, off: nat, k: Key, v: Value)
    requires Cramped(flat, off, k)
    ensures WalkCost(flat, off, k, v) == NewCost(k, v)
    decreases FILE_LIMIT - off
  {
    if PageAt(flat, off).next > off { CrampedCost(flat, PageAt(flat, off).next, k, v); }
  }

  lemma {:induction false} CrowdedCost(flat: map<nat, Content>, off: nat, k: Key, v: Value)
    requires Crowded(flat, off)
    ensures PassCost(flat, off, k, v) == NewCost(k, v)
    decreases FILE_LIMIT - off
  {
    if PageAt(flat, off).next > off { CrowdedCost(flat, PageAt(flat, off).next, k, v); }
  }

  // ---- along the walk ----

  /** The slot a put stopped at settles the cost. */
  lemma CostOver(hash: HashFn, st: State, cur: nat, i: nat, k: Key, v: Value)
    requires FoundAt(hash, st, cur, i, k)
    ensures WalkCost(st.flat, cur, k, v) == if |v| <= PageAt(st.flat, cur).slots[i].vlen then 0 else 1
    ensures !Cramped(st.flat, cur, k)
  {
    OneCopy(EntriesAt(st.flat, cur), i);
    SlotKeyLength(hash, st.flat, st.owner, cur, PageAt(st.flat, cur), i);
    NoneBeforeSplits(st.flat, HeadOf(st, hash(k)), cur, k);
  }

  /** So does the page with room. */
  lemma CostHere(hash: HashFn, st: State, cur: nat, k: Key, v: Value)
    requires RoomAt(hash, st, cur, k)
    ensures WalkCost(st.flat, cur, k, v) == LandCost(PageAt(st.flat, cur), k, v)
    ensures !Cramped(st.flat, cur, k)
  {
    NoCopies(EntriesAt(st.flat, cur), k);
    NoneBeforeSplits(st.flat, HeadOf(st, hash(k)), cur, k);
  }

  /** Past a full page without the key, cost and crampedness are those of what follows. */
  lemma CostPast(hash: HashFn, st: State, cur: nat, k: Key, v: Value)
    requires WalkAt(hash, st, cur, k) && !HasKey(EntriesAt(st.flat, cur), k)
    requires |PageAt(st.flat, cur).slots| >= SLOTS_PER_PAGE
    ensures var n := PageAt(st.flat, cur).next;
            if n == 0 then WalkCost(st.flat, cur, k, v) == NewCost(k, v) && Cramped(st.flat, cur, k)
            else WalkCost(st.flat, cur, k, v) == WalkCost(st.flat, n, k, v)
                 && (Cramped(st.flat, cur, k) <==> Cramped(st.flat, n, k))
  {
    NoCopies(EntriesAt(st.flat, cur), k);
    NoneBeforeSplits(st.flat, HeadOf(st, hash(k)), cur, k);
    assert Linked(st, cur);
  }

  /** The same for an insert. */
  lemma PassPast(hash: HashFn, st: State, cur: nat, k: Key, v: Value)
    requires StateOK(hash, st) && IsPage(st.flat, cur) && |PageAt(st.flat, cur).slots| >= SLOTS_PER_PAGE
    ensures var n := PageAt(st.flat, cur).next;
            if n == 0 then PassCost(st.flat, cur, k, v) == NewCost(k, v) && Crowded(st.flat, cur)
            else PassCost(st.flat, cur, k, v) == PassCost(st.flat, n, k, v)
                 && (Crowded(st.flat, cur) <==> Crowded(st.flat, n))
  {
    assert Linked(st, cur);
  }

  lemma PassHere(hash: HashFn, st: State, cur: nat, k: Key, v: Value)
    requires StateOK(hash, st) && IsPage(st.flat, cur) && |PageAt(st.flat, cur).slots| < SLOTS_PER_PAGE
    ensures PassCost(st.flat, cur, k, v) == LandCost(PageAt(st.flat, cur), k, v)
    ensures !Crowded(st.flat, cur)
  {
    assert Linked(st, cur);
  }

  /** On a new page only the entry is left to pay for. */
  lemma CostOnNew(hash: HashFn, st: State, off: nat, depth: nat, k: Key, v: Value)
    requires StateOK(hash, st) && IsPage(st.flat, off) && PageAt(st.flat, off) == EmptyView(depth)
    ensures WalkCost(st.flat, off, k, v) + 1 == NewCost(k, v)
    ensures PassCost(st.flat, off, k, v) + 1 == NewCost(k, v)
  {
    assert Linked(st, off);
    assert EntriesAt(st.flat, off) == [];
  }

  // ---- the bill of one operation ----

  /** Drawn up when the operation starts: the counters, the blocks it will ask for, and whether
      its chain is all full. */
  datatype Bill = Bill(start: Ledger, cost: nat, tight: bool)

  /** Nothing is paid while the index is as it was in `s0`; afterwards all but `rest`. */
  ghost predicate Owes(grows: nat -> bool, b: Bill, s0: State, st: State, books: Ledger, rest: nat, tight: bool) {
    && rest <= b.cost
    && Affords(grows, b.start, b.cost - rest) && books == Spend(grows, b.start, b.cost - rest)
    && (if st == s0 then rest == b.cost && tight == b.tight else rest < b.cost)
  }

  /** How a put or insert of `k` ended, and why. A chain that is all full and gets no new page
      is split instead; that attempt fails only on another refusal or on a page that cannot be
      divided. In every other case the bill says exactly whether it succeeds and what it takes. */
  ghost predicate Settled(hash: HashFn, grows: nat -> bool, b: Bill, st: State, books: Ledger, k: Key, ok: bool) {
    if b.tight && !Grants(grows, b.start) then
      ok || AtLimit(hash, st, k) || (Refused(grows, b.start, books) && books.asked >= b.start.asked + 2)
    else Pays(grows, b.start, b.cost, books, ok)
  }

  lemma BillOpens(grows: nat -> bool, b: Bill, s0: State)
    ensures Owes(grows, b, s0, s0, b.start, b.cost, b.tight)
  {
  }

  /** The page the walk ends on is paid for last. */
  lemma PayRest(hash: HashFn, grows: nat -> bool, b: Bill, s0: State, st: State, books: Ledger, rest: nat,
                st': State, books': Ledger, k: Key, ok: bool)
    requires Owes(grows, b, s0, st, books, rest, false) && Pays(grows, books, rest, books', ok)
    ensures Settled(hash, grows, b, st', books', k, ok)
  {
    PaysMore(grows, b.start, b.cost - rest, rest, books', ok);
  }

  /** A new page in a chain, or a new bucket. */
  lemma PayPage(grows: nat -> bool, b: Bill, s0: State, books: Ledger, rest: nat, tight: bool,
                st': State, books': Ledger, rest': nat, tight': bool)
    requires Owes(grows, b, s0, s0, books, rest, tight) && rest == rest' + 1
    requires Pays(grows, books, 1, books', true) && st' != s0
    ensures Owes(grows, b, s0, st', books', rest', tight')
  {
    SpendMore(grows, b.start, b.cost - rest, 1);
  }

  /** No new page for a full chain: the split that follows settles the bill. */
  lemma PaySplit(hash: HashFn, grows: nat -> bool, b: Bill, s0: State, books: Ledger, rest: nat,
                 books1: Ledger, st2: State, books2: Ledger, k: Key, ok: bool)
    requires Owes(grows, b, s0, s0, books, rest, true) && !Grants(grows, books) && books1 == AfterOne(grows, books)
    requires ok || AtLimit(hash, st2, k) || Refused(grows, books1, books2)
    ensures Settled(hash, grows, b, st2, books2, k, ok) && b.start.c.freeBlocks == 0
  {
  }

  /** No page for a new bucket. */
  lemma PayNothing(hash: HashFn, grows: nat -> bool, b: Bill, st: State, books: Ledger, k: Key)
    requires b.cost > 0 && !b.tight && Pays(grows, b.start, 1, books, false)
    ensures Settled(hash, grows, b, st, books, k, false)
  {
  }

  /** With enough free blocks the operation succeeds and takes just the blocks of its bill. */
  lemma SettledFree(hash: HashFn, grows: nat -> bool, b: Bill, st: State, books: Ledger, k: Key, ok: bool)
    requires Settled(hash, grows, b, st, books, k, ok) && (b.tight ==> b.cost > 0)
    ensures b.start.c.freeBlocks >= b.cost ==> ok && books == Less(b.start, b.cost)
  {
    if b.start.c.freeBlocks >= b.cost { SpendFree(grows, b.start, b.cost); }
  }
}
