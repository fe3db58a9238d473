/** Splitting a full page by one more hash bit: the copying loop's invariant, and why the
    split of a bucket head keeps every answer. */
module PagedSplit {
  import opened Bits
  import opened PagedLayout
  import opened PagedPage
  import opened PagedState
  import opened PagedSteps
  import opened PagedEffects

  /** The entries whose key has bit `n` of its hash equal to `b`. */
  function FilterBit(hash: HashFn, es: seq<Entry>, n: nat, b: bool): seq<Entry> {
    if es == [] then []
    else FilterBit(hash, es[..|es| - 1], n, b) +
         (if Bit(hash(es[|es| - 1].key), n) == b then [es[|es| - 1]] else [])
  }

  lemma {:induction false} FilterMember(hash: HashFn, es: seq<Entry>, n: nat, b: bool)
    ensures forall e | e in FilterBit(hash, es, n, b) :: e in es && Bit(hash(e.key), n) == b
  {
    if es != [] { FilterMember(hash, es[..|es| - 1], n, b); }
  }

  lemma {:induction false} FilterCopies(hash: HashFn, es: seq<Entry>, n: nat, k: Key)
    ensures Copies(FilterBit(hash, es, n, Bit(hash(k), n)), k) == Copies(es, k)
  {
    if es != [] {
      var b := Bit(hash(k), n);
      var init, last := es[..|es| - 1], es[|es| - 1];
      FilterCopies(hash, init, n, k);
      CopiesAppend(FilterBit(hash, init, n, b), if Bit(hash(last.key), n) == b then [last] else [], k);
      OneEntry(last, k);
    }
  }

  lemma OneEntry(e: Entry, k: Key)
    ensures Copies([e], k) == if e.key == k then [e.val] else []
  {
    assert [e][..0] == [];
  }

  lemma FilterStep(hash: HashFn, es: seq<Entry>, i: nat, n: nat, b: bool)
    requires i < |es|
    ensures FilterBit(hash, es[..i + 1], n, b) ==
            FilterBit(hash, es[..i], n, b) + (if Bit(hash(es[i].key), n) == b then [es[i]] else [])
  {
    assert es[..i + 1][..i] == es[..i];
  }

  lemma FilterFresh(hash: HashFn, es: seq<Entry>, i: nat, n: nat, b: bool)
    requires DistinctKeys(es) && i < |es|
    ensures !HasKey(FilterBit(hash, es[..i], n, b), es[i].key)
  {
    FilterMember(hash, es[..i], n, b);
  }

  /** Copying one slot into a target page: inline data is packed behind what is there. */
  function CopySlot(t: PageView, src: PageView, s: Slot): PageView
    requires s.inlined ==> s.fileOff + s.klen + s.vlen <= |src.area| && t.inlineUsed + s.klen + s.vlen <= |t.area|
  {
    if s.inlined then
      t.(slots := t.slots + [s.(fileOff := t.inlineUsed)],
         area := Splice(t.area, t.inlineUsed, src.area[s.fileOff..s.fileOff + s.klen + s.vlen]),
         inlineUsed := t.inlineUsed + s.klen + s.vlen)
    else t.(slots := t.slots + [s])
  }

  /** All records of the page `cur`, seen as belonging to `to`. */
  function Reowned(owner: map<nat, nat>, cur: nat, to: nat): map<nat, nat> {
    map r | r in owner :: if owner[r] == cur then to else owner[r]
  }

  lemma CopySlotOK(hash: HashFn, flat: map<nat, Content>, owner: map<nat, nat>, cur: nat, to: nat, src: PageView, t: PageView, i: nat)
    requires PageOK(hash, flat, owner, cur, src) && i < |src.slots|
    requires PageOK(hash, flat, Reowned(owner, cur, to), to, t) && |t.slots| < SLOTS_PER_PAGE
    requires t.inlineUsed + InlineLen(src.slots[i]) <= INLINE_SPACE
    requires !HasKey(PageEntries(flat, t), PageEntries(flat, src)[i].key)
    requires !src.slots[i].inlined ==> src.slots[i].fileOff !in RecOffs(t.slots)
    ensures src.slots[i].inlined ==> src.slots[i].fileOff + src.slots[i].klen + src.slots[i].vlen <= |src.area|
    ensures PageOK(hash, flat, Reowned(owner, cur, to), to, CopySlot(t, src, src.slots[i]))
    ensures PageEntries(flat, CopySlot(t, src, src.slots[i])) == PageEntries(flat, t) + [PageEntries(flat, src)[i]]
  {
    var s := src.slots[i];
    assert SlotOK(hash, flat, owner, cur, src, s);
    var q := CopySlot(t, src, s);
    var s' := q.slots[|t.slots|];
    var owner' := Reowned(owner, cur, to);
    CopiedSlotOK(hash, flat, owner, cur, to, src, t, s);
    assert q.area[..t.inlineUsed] == t.area[..t.inlineUsed];
    AppendOK(hash, flat, flat, owner', owner', to, t, q, s', EntryOf(flat, src, s));
  }

  lemma CopiedSlotOK(hash: HashFn, flat: map<nat, Content>, owner: map<nat, nat>, cur: nat, to: nat, src: PageView, t: PageView, s: Slot)
    requires SlotOK(hash, flat, owner, cur, src, s)
    requires s.inlined ==> s.fileOff + s.klen + s.vlen <= |src.area| && t.inlineUsed + s.klen + s.vlen <= |t.area|
    ensures var q := CopySlot(t, src, s);
            var s' := q.slots[|t.slots|];
            && SlotOK(hash, flat, Reowned(owner, cur, to), to, q, s')
            && EntryOf(flat, q, s') == EntryOf(flat, src, s)
  {
    var q := CopySlot(t, src, s);
    var s' := q.slots[|t.slots|];
    assert SlotBytes(flat, q, s') == SlotBytes(flat, src, s);
  }

  lemma {:induction false} InlineTotalPrefix(ss: seq<Slot>, i: nat)
    requires i <= |ss|
    ensures InlineTotal(ss[..i]) <= InlineTotal(ss)
    decreases |ss| - i
  {
    if i < |ss| {
      InlineTotalPrefix(ss, i + 1);
      assert ss[..i + 1][..i] == ss[..i];
    } else {
      assert ss[..i] == ss;
    }
  }

  /** One target after `i` slots: it holds the entries seen so far with bit `b`. */
  ghost predicate Half(hash: HashFn, flat: map<nat, Content>, owner: map<nat, nat>, cur: nat, to: nat,
                       src: PageView, i: nat, t: PageView, b: bool)
    requires i <= |src.slots|
  {
    && |t.slots| <= i
    && t.depth == src.depth + 1 && t.next == 0
    && PageOK(hash, flat, Reowned(owner, cur, to), to, t)
    && PageEntries(flat, t) == FilterBit(hash, PageEntries(flat, src)[..i], src.depth, b)
    && RecOffs(t.slots) <= RecOffs(src.slots[..i])
  }

  /** What the copying loop has achieved after `i` slots: the two targets hold exactly the
      entries seen so far, sorted by the new bit, packed without gaps, in separate records. */
  ghost predicate Sorted(hash: HashFn, flat: map<nat, Content>, owner: map<nat, nat>, cur: nat, to: nat,
                         src: PageView, i: nat, low: PageView, high: PageView) {
    && i <= |src.slots|
    && Half(hash, flat, owner, cur, cur, src, i, low, false)
    && Half(hash, flat, owner, cur, to, src, i, high, true)
    && low.inlineUsed + high.inlineUsed == InlineTotal(src.slots[..i])
    && RecOffs(low.slots) !! RecOffs(high.slots)
  }

  lemma SortedStart(hash: HashFn, flat: map<nat, Content>, owner: map<nat, nat>, cur: nat, to: nat,
                    src: PageView, low: PageView, high: PageView)
    requires PageOK(hash, flat, owner, cur, src)
    requires low == src.(slots := [], inlineUsed := 0, depth := src.depth + 1, next := 0)
    requires high == EmptyView(src.depth + 1)
    ensures Sorted(hash, flat, owner, cur, to, src, 0, low, high)
  {
    EmptyPageOK(hash, flat, Reowned(owner, cur, to), to, src.depth + 1);
  }

  lemma RecordUnseen(ss: seq<Slot>, i: nat)
    requires AllApart(ss) && i < |ss| && !ss[i].inlined
    ensures ss[i].fileOff !in RecOffs(ss[..i])
  {
    forall j | 0 <= j < i ensures Apart(ss[..i][j], ss[i]) { ApartEither(ss, j, i); }
  }

  lemma RecOffsStep(ss: seq<Slot>, s: Slot)
    ensures RecOffs(ss + [s]) == RecOffs(ss) + (if s.inlined then {} else {s.fileOff})
  {
    forall r | r in RecOffs(ss) ensures r in RecOffs(ss + [s]) {
      var t :| t in ss && !t.inlined && t.fileOff == r;
      assert t in ss + [s];
    }
    assert s in ss + [s];
  }

  lemma CopySlotRecords(t: PageView, src: PageView, s: Slot)
    requires s.inlined ==> s.fileOff + s.klen + s.vlen <= |src.area| && t.inlineUsed + s.klen + s.vlen <= |t.area|
    ensures RecOffs(CopySlot(t, src, s).slots) == RecOffs(t.slots) + (if s.inlined then {} else {s.fileOff})
  {
    RecOffsStep(t.slots, if s.inlined then s.(fileOff := t.inlineUsed) else s);
  }

  /** What slot `i` of the source adds to the half with bit `b`, and that its key is new there. */
  lemma SourceEntry(hash: HashFn, flat: map<nat, Content>, owner: map<nat, nat>, cur: nat, src: PageView, i: nat, b: bool)
    requires i < |src.slots| && SlotOK(hash, flat, owner, cur, src, src.slots[i])
    requires DistinctKeys(PageEntries(flat, src))
    ensures var es := PageEntries(flat, src);
            && FilterBit(hash, es[..i + 1], src.depth, b) ==
               FilterBit(hash, es[..i], src.depth, b) + (if Bit(src.slots[i].hash, src.depth) == b then [es[i]] else [])
            && !HasKey(FilterBit(hash, es[..i], src.depth, b), es[i].key)
  {
    var es := PageEntries(flat, src);
    assert es[i] == EntryOf(flat, src, src.slots[i]);
    FilterFresh(hash, es, i, src.depth, b);
    FilterStep(hash, es, i, src.depth, b);
  }

  lemma SourceRecord(ss: seq<Slot>, i: nat)
    requires AllApart(ss) && i < |ss|
    ensures RecOffs(ss[..i + 1]) == RecOffs(ss[..i]) + (if ss[i].inlined then {} else {ss[i].fileOff})
    ensures !ss[i].inlined ==> ss[i].fileOff !in RecOffs(ss[..i])
  {
    assert ss[..i + 1] == ss[..i] + [ss[i]];
    RecOffsStep(ss[..i], ss[i]);
    if !ss[i].inlined { RecordUnseen(ss, i); }
  }

  lemma HalfGrows(hash: HashFn, flat: map<nat, Content>, owner: map<nat, nat>, cur: nat, to: nat,
                  src: PageView, i: nat, t: PageView, b: bool)
    requires PageOK(hash, flat, owner, cur, src) && i < |src.slots|
    requires Half(hash, flat, owner, cur, to, src, i, t, b) && b == Bit(src.slots[i].hash, src.depth)
    requires t.inlineUsed + InlineLen(src.slots[i]) <= INLINE_SPACE
    ensures src.slots[i].inlined ==>
              && src.slots[i].fileOff + src.slots[i].klen + src.slots[i].vlen <= |src.area|
              && t.inlineUsed + src.slots[i].klen + src.slots[i].vlen <= |t.area|
    ensures Half(hash, flat, owner, cur, to, src, i + 1, CopySlot(t, src, src.slots[i]), b)
    ensures RecOffs(CopySlot(t, src, src.slots[i]).slots) ==
            RecOffs(t.slots) + (if src.slots[i].inlined then {} else {src.slots[i].fileOff})
  {
    var s := src.slots[i];
    assert SlotOK(hash, flat, owner, cur, src, s);
    SourceEntry(hash, flat, owner, cur, src, i, b);
    SourceRecord(src.slots, i);
    CopySlotOK(hash, flat, owner, cur, to, src, t, i);
    CopySlotRecords(t, src, s);
  }

  lemma HalfSkips(hash: HashFn, flat: map<nat, Content>, owner: map<nat, nat>, cur: nat, to: nat,
                  src: PageView, i: nat, t: PageView, b: bool)
    requires PageOK(hash, flat, owner, cur, src) && i < |src.slots|
    requires Half(hash, flat, owner, cur, to, src, i, t, b) && b != Bit(src.slots[i].hash, src.depth)
    ensures Half(hash, flat, owner, cur, to, src, i + 1, t, b)
  {
    assert SlotOK(hash, flat, owner, cur, src, src.slots[i]);
    SourceEntry(hash, flat, owner, cur, src, i, b);
    SourceRecord(src.slots, i);
  }

  lemma SourceInline(ss: seq<Slot>, i: nat)
    requires i < |ss|
    ensures InlineTotal(ss[..i]) + InlineLen(ss[i]) == InlineTotal(ss[..i + 1]) <= InlineTotal(ss)
  {
    assert ss[..i + 1] == ss[..i] + [ss[i]];
    InlineTotalPrefix(ss, i + 1);
    InlineTotalAppend(ss[..i], ss[i]);
  }

  /** One turn of the loop. Neither target overflows: the live bytes of the source page fit. */
  lemma SortedStep(hash: HashFn, flat: map<nat, Content>, owner: map<nat, nat>, cur: nat, to: nat,
                   src: PageView, i: nat, low: PageView, high: PageView, up: bool)
    requires PageOK(hash, flat, owner, cur, src) && i < |src.slots|
    requires Sorted(hash, flat, owner, cur, to, src, i, low, high)
    requires up == Bit(src.slots[i].hash, src.depth)
    ensures var s, t := src.slots[i], if up then high else low;
            && (s.inlined ==> s.fileOff + s.klen + s.vlen <= |src.area| && t.inlineUsed + s.klen + s.vlen <= |t.area|)
            && |t.slots| < SLOTS_PER_PAGE
            && Sorted(hash, flat, owner, cur, to, src, i + 1,
                      if up then low else CopySlot(low, src, s), if up then CopySlot(high, src, s) else high)
  {
    var s := src.slots[i];
    SourceInline(src.slots, i);
    SourceRecord(src.slots, i);
    if up {
      HalfGrows(hash, flat, owner, cur, to, src, i, high, true);
      HalfSkips(hash, flat, owner, cur, cur, src, i, low, false);
    } else {
      HalfGrows(hash, flat, owner, cur, cur, src, i, low, false);
      HalfSkips(hash, flat, owner, cur, to, src, i, high, true);
    }
  }

  // ---- the split store ----

  /** Directory entries of the split page with the new bit set are pointed at `to`. */
  function Repointed(dir: seq<nat>, cur: nat, to: nat, n: nat): (r: seq<nat>)
    ensures |r| == |dir|
  {
    seq(|dir|, i requires 0 <= i < |dir| => if dir[i] == cur && Bit(i, n) then to else dir[i])
  }

  function SplitOwner(owner: map<nat, nat>, high: PageView, to: nat): map<nat, nat> {
    map r | r in owner :: if exists s :: s in high.slots && !s.inlined && s.fileOff == r then to else owner[r]
  }

  ghost function SplitHome(st: State, cur: nat, to: nat): map<nat, Home>
    requires cur in st.home
  {
    var h := st.home[cur];
    if cur in st.dir then
      st.home[cur := Home(h.residue, h.depth + 1)][to := Home(h.residue + Pow2(h.depth), h.depth + 1)]
    else st.home[to := h]
  }

  ghost function Split(st: State, cur: nat, to: nat, low: PageView, high: PageView): State
    requires IsPage(st.flat, cur) && cur in st.home
  {
    State(Repointed(st.dir, cur, to, PageAt(st.flat, cur).depth), st.depth,
          st.flat[cur := PageC(low)][to := PageC(high)],
          SplitHome(st, cur, to), SplitOwner(st.owner, high, to))
  }

  /** The state right after the copying loop of a split of page `cur`. */
  ghost predicate SplitReady(hash: HashFn, st: State, cur: nat, to: nat, low: PageView, high: PageView) {
    && StateOK(hash, st) && FreshBlock(st, to)
    && IsPage(st.flat, cur) && cur in st.home
    && PageAt(st.flat, cur).next == 0 && PageAt(st.flat, cur).depth < st.depth
    && Sorted(hash, st.flat, st.owner, cur, to, PageAt(st.flat, cur), |PageAt(st.flat, cur).slots|, low, high)
  }

  lemma SplitEntries(hash: HashFn, st: State, cur: nat, to: nat, low: PageView, high: PageView)
    requires SplitReady(hash, st, cur, to, low, high)
    ensures PageEntries(st.flat, low) == FilterBit(hash, EntriesAt(st.flat, cur), PageAt(st.flat, cur).depth, false)
    ensures PageEntries(st.flat, high) == FilterBit(hash, EntriesAt(st.flat, cur), PageAt(st.flat, cur).depth, true)
  {
    var es := EntriesAt(st.flat, cur);
    assert es[..|es|] == es;
  }

  lemma SplitPageOK(hash: HashFn, st: State, cur: nat, to: nat, low: PageView, high: PageView, q: nat)
    requires SplitReady(hash, st, cur, to, low, high)
    requires IsPage(Split(st, cur, to, low, high).flat, q)
    ensures var st' := Split(st, cur, to, low, high);
            && PageOK(hash, st'.flat, st'.owner, q, PageAt(st'.flat, q))
            && EntriesAt(st'.flat, q) == if q == cur then PageEntries(st.flat, low)
                                         else if q == to then PageEntries(st.flat, high)
                                         else EntriesAt(st.flat, q)
  {
    if q == cur {
      SplitLowOK(hash, st, cur, to, low, high);
    } else if q == to {
      SplitHighOK(hash, st, cur, to, low, high);
    } else {
      SplitOtherOK(hash, st, cur, to, low, high, q);
    }
  }

  lemma SplitLowOK(hash: HashFn, st: State, cur: nat, to: nat, low: PageView, high: PageView)
    requires SplitReady(hash, st, cur, to, low, high)
    ensures var st' := Split(st, cur, to, low, high);
            PageOK(hash, st'.flat, st'.owner, cur, low) && PageEntries(st'.flat, low) == PageEntries(st.flat, low)
  {
    var st', src := Split(st, cur, to, low, high), PageAt(st.flat, cur);
    RecOffsKnown(hash, st.flat, st.owner, cur, src);
    SplitOwnerAt(st.owner, high, to);
    assert src.slots[..|src.slots|] == src.slots;
    PageMoved(hash, st.flat, st'.flat, Reowned(st.owner, cur, cur), st'.owner, cur, cur, low);
  }

  lemma SplitHighOK(hash: HashFn, st: State, cur: nat, to: nat, low: PageView, high: PageView)
    requires SplitReady(hash, st, cur, to, low, high)
    ensures var st' := Split(st, cur, to, low, high);
            PageOK(hash, st'.flat, st'.owner, to, high) && PageEntries(st'.flat, high) == PageEntries(st.flat, high)
  {
    var st', src := Split(st, cur, to, low, high), PageAt(st.flat, cur);
    RecOffsKnown(hash, st.flat, st.owner, cur, src);
    SplitOwnerAt(st.owner, high, to);
    assert src.slots[..|src.slots|] == src.slots;
    PageMoved(hash, st.flat, st'.flat, Reowned(st.owner, cur, to), st'.owner, to, to, high);
  }

  lemma SplitOtherOK(hash: HashFn, st: State, cur: nat, to: nat, low: PageView, high: PageView, q: nat)
    requires SplitReady(hash, st, cur, to, low, high) && IsPage(st.flat, q) && q != cur && q != to
    ensures var st', p := Split(st, cur, to, low, high), PageAt(st.flat, q);
            PageOK(hash, st'.flat, st'.owner, q, p) && PageEntries(st'.flat, p) == PageEntries(st.flat, p)
  {
    var st', src, p := Split(st, cur, to, low, high), PageAt(st.flat, cur), PageAt(st.flat, q);
    RecOffsKnown(hash, st.flat, st.owner, cur, src);
    SplitOwnerAt(st.owner, high, to);
    assert src.slots[..|src.slots|] == src.slots;
    RecOffsKnown(hash, st.flat, st.owner, q, p);
    PageMoved(hash, st.flat, st'.flat, st.owner, st'.owner, q, q, p);
  }

  lemma SplitOwnerAt(owner: map<nat, nat>, high: PageView, to: nat)
    ensures SplitOwner(owner, high, to).Keys == owner.Keys
    ensures forall r | r in owner :: SplitOwner(owner, high, to)[r] == if r in RecOffs(high.slots) then to else owner[r]
  {
  }

  /** Every slot of a filtered page has the hash of some source slot with the right bit. */
  lemma FilteredSlot(hash: HashFn, flat: map<nat, Content>, owner: map<nat, nat>, off: nat, owner0: map<nat, nat>, cur: nat,
                     src: PageView, p: PageView, b: bool, i: nat) returns (j: nat)
    requires PageOK(hash, flat, owner0, cur, src) && PageOK(hash, flat, owner, off, p)
    requires PageEntries(flat, p) == FilterBit(hash, PageEntries(flat, src), src.depth, b)
    requires i < |p.slots|
    ensures j < |src.slots| && src.slots[j].hash == p.slots[i].hash
    ensures Bit(p.slots[i].hash, src.depth) == b
  {
    FilterMember(hash, PageEntries(flat, src), src.depth, b);
    var e := PageEntries(flat, p)[i];
    assert e in PageEntries(flat, src) && Bit(hash(e.key), src.depth) == b;
    assert SlotOK(hash, flat, owner, off, p, p.slots[i]);
    j :| 0 <= j < |src.slots| && PageEntries(flat, src)[j] == e;
    assert SlotOK(hash, flat, owner0, cur, src, src.slots[j]);
  }

  /** Slots that passed the filter stay in the class and, for a head, in the narrower one. */
  lemma FilteredFit(hash: HashFn, flat: map<nat, Content>, owner: map<nat, nat>, off: nat, owner0: map<nat, nat>, cur: nat,
                    src: PageView, p: PageView, h: Home, head: bool, b: bool)
    requires PageOK(hash, flat, owner0, cur, src) && PageOK(hash, flat, owner, off, p)
    requires Fits(src, h) && (head ==> h.depth == src.depth)
    requires PageEntries(flat, p) == FilterBit(hash, PageEntries(flat, src), src.depth, b)
    ensures Fits(p, HalfHome(h, head, b))
  {
    forall i | 0 <= i < |p.slots|
      ensures Residue(p.slots[i].hash, HalfHome(h, head, b).depth) == HalfHome(h, head, b).residue
    {
      var j := FilteredSlot(hash, flat, owner, off, owner0, cur, src, p, b, i);
      assert Residue(src.slots[j].hash, h.depth) == h.residue;
      HalfResidue(p.slots[i].hash, h, head, b);
    }
  }

  lemma HalfResidue(x: nat, h: Home, head: bool, b: bool)
    requires Residue(x, h.depth) == h.residue && (head ==> Bit(x, h.depth) == b)
    ensures Residue(x, HalfHome(h, head, b).depth) == HalfHome(h, head, b).residue
  {
    ModSplit(x, h.depth);
  }

  /** The class of one half: narrower by the new bit when a head is split, the same otherwise. */
  ghost function HalfHome(h: Home, head: bool, b: bool): Home {
    if head then Home(h.residue + (if b then Pow2(h.depth) else 0), h.depth + 1) else h
  }

  /** A page the directory points at is a head: its class is that of its own depth. */
  lemma HeadHome(st: State, cur: nat)
    requires DirOK(st) && cur != NO_PAGE
    ensures cur in st.dir ==>
              && IsPage(st.flat, cur) && cur in st.home
              && st.home[cur].depth == PageAt(st.flat, cur).depth
              && exists i :: 0 <= i < |st.dir| && st.dir[i] == cur && HeadOK(st, i)
  {
    if cur in st.dir {
      var i :| 0 <= i < |st.dir| && st.dir[i] == cur;
      assert HeadOK(st, i);
    }
  }

  lemma SplitFits(hash: HashFn, st: State, cur: nat, to: nat, low: PageView, high: PageView)
    requires IsPage(st.flat, cur) && cur in st.home && Fits(PageAt(st.flat, cur), st.home[cur]) && cur != to
    requires cur in st.dir ==> st.home[cur].depth == PageAt(st.flat, cur).depth
    requires PageOK(hash, st.flat, st.owner, cur, PageAt(st.flat, cur))
    requires PageOK(hash, st.flat, Reowned(st.owner, cur, cur), cur, low)
    requires PageOK(hash, st.flat, Reowned(st.owner, cur, to), to, high)
    requires PageEntries(st.flat, low) == FilterBit(hash, EntriesAt(st.flat, cur), PageAt(st.flat, cur).depth, false)
    requires PageEntries(st.flat, high) == FilterBit(hash, EntriesAt(st.flat, cur), PageAt(st.flat, cur).depth, true)
    ensures Fits(low, SplitHome(st, cur, to)[cur]) && Fits(high, SplitHome(st, cur, to)[to])
  {
    var src, h, home := PageAt(st.flat, cur), st.home[cur], SplitHome(st, cur, to);
    var head := cur in st.dir;
    assert home[cur] == HalfHome(h, head, false) && home[to] == HalfHome(h, head, true);
    FilteredFit(hash, st.flat, Reowned(st.owner, cur, cur), cur, st.owner, cur, src, low, h, head, false);
    FilteredFit(hash, st.flat, Reowned(st.owner, cur, to), to, st.owner, cur, src, high, h, head, true);
  }

  lemma SplitLinked(hash: HashFn, st: State, cur: nat, to: nat, low: PageView, high: PageView, q: nat)
    requires SplitReady(hash, st, cur, to, low, high)
    requires Fits(low, SplitHome(st, cur, to)[cur]) && Fits(high, SplitHome(st, cur, to)[to])
    requires IsPage(Split(st, cur, to, low, high).flat, q)
    ensures Linked(Split(st, cur, to, low, high), q)
  {
    assert Linked(st, cur);
    FreshNotLinked(hash, st, to);
    if q == cur || q == to {
      EndsLinked(st, cur, to, low, high, q);
    } else {
      assert Linked(st, q);
      OthersLinked(st, cur, to, low, high, q);
    }
  }

  lemma EndsLinked(st: State, cur: nat, to: nat, low: PageView, high: PageView, q: nat)
    requires IsPage(st.flat, cur) && cur in st.home && 0 < cur < to < FILE_LIMIT
    requires low.next == high.next == 0 && low.depth <= st.depth && high.depth <= st.depth
    requires Fits(low, SplitHome(st, cur, to)[cur]) && Fits(high, SplitHome(st, cur, to)[to])
    requires q == cur || q == to
    ensures Linked(Split(st, cur, to, low, high), q)
  {
  }

  lemma OthersLinked(st: State, cur: nat, to: nat, low: PageView, high: PageView, q: nat)
    requires IsPage(st.flat, cur) && cur in st.home
    requires q != cur && q != to && IsPage(st.flat, q) && Linked(st, q) && PageAt(st.flat, q).next != to
    ensures Linked(Split(st, cur, to, low, high), q)
  {
    RepointedMembers(st.dir, cur, to, PageAt(st.flat, cur).depth);
  }

  lemma RepointedMembers(dir: seq<nat>, cur: nat, to: nat, n: nat)
    ensures forall x | x in Repointed(dir, cur, to, n) :: x == to || x in dir
  {
  }

  lemma SplitPagesOK(hash: HashFn, st: State, cur: nat, to: nat, low: PageView, high: PageView)
    requires SplitReady(hash, st, cur, to, low, high)
    ensures PagesOK(hash, Split(st, cur, to, low, high))
  {
    var st' := Split(st, cur, to, low, high);
    assert Linked(st, cur);
    SplitEntries(hash, st, cur, to, low, high);
    assert cur in st.dir ==> st.home[cur].depth == PageAt(st.flat, cur).depth by { HeadHome(st, cur); }
    SplitFits(hash, st, cur, to, low, high);
    forall q | IsPage(st'.flat, q)
      ensures Linked(st', q) && PageOK(hash, st'.flat, st'.owner, q, PageAt(st'.flat, q))
    {
      SplitPageOK(hash, st, cur, to, low, high, q);
      SplitLinked(hash, st, cur, to, low, high, q);
    }
  }

  // ---- the directory after a split ----

  lemma BitOfIndex(h: nat, n: nat, depth: nat)
    requires n < depth
    ensures Bit(DirIndex(h, depth), n) == Bit(h, n)
  {
    DirIndexIsResidue(h, depth);
    BitOfMod(h, n, depth);
  }

  lemma SplitHeadOK(hash: HashFn, st: State, cur: nat, to: nat, low: PageView, high: PageView, i: nat)
    requires SplitReady(hash, st, cur, to, low, high) && i < |st.dir|
    requires Split(st, cur, to, low, high).dir[i] != NO_PAGE
    ensures HeadOK(Split(st, cur, to, low, high), i)
  {
    assert Linked(st, cur);
    assert st.dir[i] != NO_PAGE;
    assert HeadOK(st, i);
    FreshNotLinked(hash, st, to);
    if st.dir[i] == cur {
      SplitOwnHead(st, cur, to, low, high, i);
    } else {
      SplitOtherHead(st, cur, to, low, high, i);
    }
  }

  lemma SplitOwnHead(st: State, cur: nat, to: nat, low: PageView, high: PageView, i: nat)
    requires i < |st.dir| && st.dir[i] == cur && HeadOK(st, i) && cur != to
    requires PageAt(st.flat, cur).depth < st.depth
    requires low.depth == high.depth == PageAt(st.flat, cur).depth + 1
    ensures HeadOK(Split(st, cur, to, low, high), i)
  {
    var d := PageAt(st.flat, cur).depth;
    ModSplit(i, d);
    SplitShared(st, cur, to, i);
  }

  lemma SplitOtherHead(st: State, cur: nat, to: nat, low: PageView, high: PageView, i: nat)
    requires i < |st.dir| && st.dir[i] != cur && st.dir[i] != to && HeadOK(st, i)
    requires IsPage(st.flat, cur) && cur in st.home
    ensures HeadOK(Split(st, cur, to, low, high), i)
  {
    var d := PageAt(st.flat, st.dir[i]).depth;
    assert forall j | 0 <= j < |st.dir| && Residue(j, d) == Residue(i, d) :: st.dir[j] == st.dir[i];
  }

  /** After re-pointing, the indices that share a half are those congruent by one more bit. */
  lemma SplitShared(st: State, cur: nat, to: nat, i: nat)
    requires i < |st.dir| && HeadOK(st, i) && st.dir[i] == cur
    ensures var d := PageAt(st.flat, cur).depth;
            var dir' := Repointed(st.dir, cur, to, d);
            forall j | 0 <= j < |dir'| && Residue(j, d + 1) == Residue(i, d + 1) :: dir'[j] == dir'[i]
  {
    var d := PageAt(st.flat, cur).depth;
    var dir' := Repointed(st.dir, cur, to, d);
    ModSplit(i, d);
    forall j | 0 <= j < |dir'| && Residue(j, d + 1) == Residue(i, d + 1) ensures dir'[j] == dir'[i] {
      ModSplit(j, d);
      SameSplit(Residue(i, d), Residue(j, d), Pow2(d), Bit(i, d), Bit(j, d));
    }
  }

  lemma SameSplit(a: nat, b: nat, m: nat, x: bool, y: bool)
    requires a < m && b < m
    requires a + (if x then m else 0) == b + (if y then m else 0)
    ensures a == b && x == y
  {
  }

  lemma SplitOK(hash: HashFn, st: State, cur: nat, to: nat, low: PageView, high: PageView)
    requires SplitReady(hash, st, cur, to, low, high)
    ensures StateOK(hash, Split(st, cur, to, low, high))
  {
    var st' := Split(st, cur, to, low, high);
    SplitPagesOK(hash, st, cur, to, low, high);
    forall i | 0 <= i < |st'.dir| && st'.dir[i] != NO_PAGE ensures HeadOK(st', i) {
      SplitHeadOK(hash, st, cur, to, low, high, i);
    }
  }

  // ---- what a split does to the answers ----

  /** Keys that hash to other buckets keep their copies, whatever page is split. */
  lemma SplitElsewhere(hash: HashFn, st: State, cur: nat, to: nat, low: PageView, high: PageView, k: Key)
    requires SplitReady(hash, st, cur, to, low, high)
    requires HeadOf(st, hash(k)) != cur
    requires HeadOf(st, hash(k)) != NO_PAGE ==>
               HeadOf(st, hash(k)) in st.home && st.home[HeadOf(st, hash(k))] != st.home[cur]
    ensures Stack(hash, Split(st, cur, to, low, high), k) == Stack(hash, st, k)
  {
    var st' := Split(st, cur, to, low, high);
    DirIndexIsResidue(hash(k), st.depth);
    FreshNotLinked(hash, st, to);
    var h := HeadOf(st, hash(k));
    assert HeadOf(st', hash(k)) == h;
    if h != NO_PAGE {
      assert HeadOK(st, DirIndex(hash(k), st.depth));
      forall q | IsPage(st.flat, q) && q in st.home && st.home[q] == st.home[h]
        ensures IsPage(st'.flat, q) && PageAt(st'.flat, q).next == PageAt(st.flat, q).next
        ensures Copies(EntriesAt(st'.flat, q), k) == Copies(EntriesAt(st.flat, q), k)
      {
        SplitPageOK(hash, st, cur, to, low, high, q);
      }
      ChainFrame(hash, st, st'.flat, h, k);
    }
  }

  /** Two bucket heads of one class are one page. */
  lemma HeadsDiffer(st: State, i: nat, j: nat)
    requires DirOK(st) && i < |st.dir| && j < |st.dir|
    requires st.dir[i] != NO_PAGE && st.dir[j] != NO_PAGE && st.dir[i] != st.dir[j]
    ensures HeadOK(st, i) && HeadOK(st, j)
    ensures st.home[st.dir[i]] != st.home[st.dir[j]]
  {
    assert HeadOK(st, i) && HeadOK(st, j);
  }

  lemma SplitHeadStack(hash: HashFn, st: State, cur: nat, to: nat, low: PageView, high: PageView, k: Key)
    requires SplitReady(hash, st, cur, to, low, high)
    requires HeadOf(st, hash(k)) == cur
    ensures Stack(hash, Split(st, cur, to, low, high), k) == Stack(hash, st, k)
  {
    var st' := Split(st, cur, to, low, high);
    var i := DirIndex(hash(k), st.depth);
    var n := PageAt(st.flat, cur).depth;
    DirIndexIsResidue(hash(k), st.depth);
    BitOfIndex(hash(k), n, st.depth);
    assert Linked(st, cur);
    var h := HeadOf(st', hash(k));
    assert h == if Bit(hash(k), n) then to else cur;
    SplitPageOK(hash, st, cur, to, low, high, h);
    SplitEntries(hash, st, cur, to, low, high);
    FilterCopies(hash, EntriesAt(st.flat, cur), n, k);
    OnePage(st'.flat, h, k);
    OnePage(st.flat, cur, k);
  }

  lemma OnePage(flat: map<nat, Content>, off: nat, k: Key)
    requires off < FILE_LIMIT && IsPage(flat, off) && PageAt(flat, off).next == 0
    ensures ChainCopies(flat, off, k) == Copies(EntriesAt(flat, off), k)
  {
  }

  /** Splitting a bucket head preserves every answer of the index. */
  lemma SplitHeadKeeps(hash: HashFn, st: State, cur: nat, to: nat, low: PageView, high: PageView)
    requires SplitReady(hash, st, cur, to, low, high) && cur in st.dir
    ensures SameStacks(hash, st, Split(st, cur, to, low, high))
  {
    assert Linked(st, cur);
    HeadHome(st, cur);
    var c :| 0 <= c < |st.dir| && st.dir[c] == cur;
    forall k: Key ensures Stack(hash, Split(st, cur, to, low, high), k) == Stack(hash, st, k) {
      var i := DirIndex(hash(k), st.depth);
      DirIndexIsResidue(hash(k), st.depth);
      if st.dir[i] == cur {
        SplitHeadStack(hash, st, cur, to, low, high, k);
      } else {
        if st.dir[i] != NO_PAGE { HeadsDiffer(st, i, c); }
        SplitElsewhere(hash, st, cur, to, low, high, k);
      }
    }
  }

  /** A split introduces no key, so it introduces no alias. */
  lemma SplitNoAlias(hash: HashFn, st: State, cur: nat, to: nat, low: PageView, high: PageView, k: Key)
    requires SplitReady(hash, st, cur, to, low, high) && NoAlias(hash, st, k)
    ensures NoAlias(hash, Split(st, cur, to, low, high), k)
  {
    var st' := Split(st, cur, to, low, high);
    SplitEntries(hash, st, cur, to, low, high);
    FilterNoAlias(hash, EntriesAt(st.flat, cur), PageAt(st.flat, cur).depth, k);
    forall q | IsPage(st'.flat, q) ensures NoAliasIn(hash, EntriesAt(st'.flat, q), k) {
      SplitPageOK(hash, st, cur, to, low, high, q);
      if q != cur && q != to {
        assert NoAliasIn(hash, EntriesAt(st.flat, q), k);
      }
    }
  }

  /** Both halves end their chains, so a split opens no gap either. */
  lemma SplitNothingNew(hash: HashFn, st: State, cur: nat, to: nat, low: PageView, high: PageView)
    requires SplitReady(hash, st, cur, to, low, high)
    ensures NothingNew(hash, st, Split(st, cur, to, low, high))
  {
    forall k: Key | NoAlias(hash, st, k) ensures NoAlias(hash, Split(st, cur, to, low, high), k) {
      SplitNoAlias(hash, st, cur, to, low, high, k);
    }
    if Dense(st.flat) {
      DenseWith(st.flat, cur, low);
      DenseWith(st.flat[cur := PageC(low)], to, high);
    }
  }

  lemma FilterNoAlias(hash: HashFn, es: seq<Entry>, n: nat, k: Key)
    requires NoAliasIn(hash, es, k)
    ensures forall b :: NoAliasIn(hash, FilterBit(hash, es, n, b), k)
  {
    forall b ensures NoAliasIn(hash, FilterBit(hash, es, n, b), k) {
      FilterMember(hash, es, n, b);
      var fs := FilterBit(hash, es, n, b);
      forall i | 0 <= i < |fs| && SameIdent(hash, fs[i].key, k) ensures fs[i].key == k {
        assert fs[i] in es;
      }
    }
  }

  // ---- where the walk for a key ends after a split ----

  /** Only the first page of a chain is pointed at by the directory. */
  lemma {:induction false} LaterNotHead(hash: HashFn, st: State, off: nat, cur: nat, k: Key)
    requires StateOK(hash, st) && NoneBefore(st.flat, off, cur, k) && off != cur
    ensures cur !in st.dir
    decreases FILE_LIMIT - off
  {
    assert Linked(st, off);
    var n := PageAt(st.flat, off).next;
    if n != cur { LaterNotHead(hash, st, n, cur, k); }
  }

  lemma RepointedNothing(dir: seq<nat>, cur: nat, to: nat, n: nat)
    requires cur !in dir
    ensures Repointed(dir, cur, to, n) == dir
  {
  }

  /** The next page a retry could split is one level deeper. */
  lemma SplitDeepens(hash: HashFn, st: State, cur: nat, to: nat, low: PageView, high: PageView, k: Key)
    requires SplitReady(hash, st, cur, to, low, high)
    requires NoneBefore(st.flat, HeadOf(st, hash(k)), cur, k)
    ensures var st' := Split(st, cur, to, low, high);
            && LastDepth(st'.flat, HeadOf(st', hash(k))) == PageAt(st.flat, cur).depth + 1
            && (cur in st.dir ==> OnePageOnly(hash, st', k))
  {
    var h := HeadOf(st, hash(k));
    assert Linked(st, cur);
    if h == cur {
      DirIndexIsResidue(hash(k), st.depth);
      SplitDeepensHead(hash, st, cur, to, low, high, k);
    } else {
      LaterNotHead(hash, st, h, cur, k);
      SplitDeepensTail(hash, st, cur, to, low, high, k);
    }
  }

  lemma SplitDeepensHead(hash: HashFn, st: State, cur: nat, to: nat, low: PageView, high: PageView, k: Key)
    requires IsPage(st.flat, cur) && cur in st.home && cur < FILE_LIMIT && to < FILE_LIMIT
    requires low.depth == high.depth == PageAt(st.flat, cur).depth + 1 && low.next == high.next == 0
    requires HeadOf(st, hash(k)) == cur && cur != to
    ensures var st' := Split(st, cur, to, low, high);
            && LastDepth(st'.flat, HeadOf(st', hash(k))) == PageAt(st.flat, cur).depth + 1
            && OnePageOnly(hash, st', k)
  {
    var h' := HeadOf(Split(st, cur, to, low, high), hash(k));
    assert h' == cur || h' == to;
  }

  lemma SplitDeepensTail(hash: HashFn, st: State, cur: nat, to: nat, low: PageView, high: PageView, k: Key)
    requires SplitReady(hash, st, cur, to, low, high) && cur !in st.dir
    requires NoneBefore(st.flat, HeadOf(st, hash(k)), cur, k)
    ensures var st' := Split(st, cur, to, low, high);
            LastDepth(st'.flat, HeadOf(st', hash(k))) == PageAt(st.flat, cur).depth + 1
  {
    var st' := Split(st, cur, to, low, high);
    var h := HeadOf(st, hash(k));
    RepointedNothing(st.dir, cur, to, PageAt(st.flat, cur).depth);
    SplitOthers(hash, st, cur, to, low, high);
    NoneBeforeFrame(hash, st, st'.flat, h, cur, k);
    LastDepthAt(st'.flat, h, cur, k);
  }

  lemma SplitOthers(hash: HashFn, st: State, cur: nat, to: nat, low: PageView, high: PageView)
    requires SplitReady(hash, st, cur, to, low, high)
    ensures var st' := Split(st, cur, to, low, high);
            forall q | IsPage(st.flat, q) && q != cur ::
              && IsPage(st'.flat, q) && PageAt(st'.flat, q).next == PageAt(st.flat, q).next
              && EntriesAt(st'.flat, q) == EntriesAt(st.flat, q)
  {
    var st' := Split(st, cur, to, low, high);
    forall q | IsPage(st.flat, q) && q != cur
      ensures IsPage(st'.flat, q) && PageAt(st'.flat, q).next == PageAt(st.flat, q).next
      ensures EntriesAt(st'.flat, q) == EntriesAt(st.flat, q)
    {
      SplitPageOK(hash, st, cur, to, low, high, q);
    }
  }
}
