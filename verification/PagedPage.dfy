/** One page of the paged hash as a small key/value collection: what its live slots decode
    to, what makes it well-formed, and what each edit of the C code does to it. */
module PagedPage {
  import opened PagedLayout

  type HashFn = Key -> nat

  datatype Entry = Entry(key: Key, val: Value)

  function Slice(s: seq<Byte>, at: nat, n: nat): seq<Byte> {
    if at + n <= |s| then s[at..at + n] else []
  }

  /** The key and value bytes a slot points at: in the page's own inline area, or in an
      out-of-line record after its two length fields. */
  function SlotBytes(flat: map<nat, Content>, p: PageView, s: Slot): seq<Byte> {
    if s.inlined then Slice(p.area, s.fileOff, s.klen + s.vlen)
    else if s.fileOff in flat && flat[s.fileOff].RecC? then
      Slice(flat[s.fileOff].bytes, RECORD_HEADER, s.klen + s.vlen)
    else []
  }

  function EntryOf(flat: map<nat, Content>, p: PageView, s: Slot): Entry {
    var b := SlotBytes(flat, p, s);
    if |b| == s.klen + s.vlen then Entry(b[..s.klen], b[s.klen..]) else Entry([], [])
  }

  function PageEntries(flat: map<nat, Content>, p: PageView): (es: seq<Entry>)
    ensures |es| == |p.slots|
  {
    seq(|p.slots|, i requires 0 <= i < |p.slots| => EntryOf(flat, p, p.slots[i]))
  }

  /** The values a sequence of entries holds for one key, first match first. */
  function Copies(es: seq<Entry>, k: Key): seq<Value> {
    if es == [] then []
    else Copies(es[..|es| - 1], k) + (if es[|es| - 1].key == k then [es[|es| - 1].val] else [])
  }

  ghost predicate DistinctKeys(es: seq<Entry>) {
    forall i, j | 0 <= i < j < |es| :: es[i].key != es[j].key
  }

  ghost predicate HasKey(es: seq<Entry>, k: Key) {
    exists i :: 0 <= i < |es| && es[i].key == k
  }

  /** A live slot lies within bounds, names the hash and the prefix of the key it stores,
      and an out-of-line record belongs to this page. */
  ghost predicate SlotOK(hash: HashFn, flat: map<nat, Content>, owner: map<nat, nat>, off: nat, p: PageView, s: Slot) {
    && (s.inlined ==> s.fileOff + s.klen + s.vlen <= p.inlineUsed)
    && (!s.inlined ==>
          && s.fileOff in flat && flat[s.fileOff].RecC?
          && RECORD_HEADER + s.klen + s.vlen <= |flat[s.fileOff].bytes|
          && s.fileOff in owner && owner[s.fileOff] == off)
    && s.hash == hash(EntryOf(flat, p, s).key)
    && s.prefix == KeyPrefix(EntryOf(flat, p, s).key)
  }

  /** Two live slots never share storage. */
  predicate Apart(s: Slot, t: Slot) {
    && (s.inlined && t.inlined ==>
          s.fileOff + s.klen + s.vlen <= t.fileOff || t.fileOff + t.klen + t.vlen <= s.fileOff)
    && (!s.inlined && !t.inlined ==> s.fileOff != t.fileOff)
  }

  ghost predicate AllApart(ss: seq<Slot>) {
    forall i, j | 0 <= i < j < |ss| :: Apart(ss[i], ss[j])
  }

  function InlineLen(s: Slot): nat {
    if s.inlined then s.klen + s.vlen else 0
  }

  /** The inline bytes the live slots still need. */
  function InlineTotal(ss: seq<Slot>): nat {
    if ss == [] then 0 else InlineTotal(ss[..|ss| - 1]) + InlineLen(ss[|ss| - 1])
  }

  /** Live slots decode, have storage of their own, and their inline bytes fit. */
  ghost predicate PageFits(hash: HashFn, flat: map<nat, Content>, owner: map<nat, nat>, off: nat, p: PageView) {
    && |p.slots| <= SLOTS_PER_PAGE
    && |p.area| == INLINE_SPACE
    && InlineTotal(p.slots) <= p.inlineUsed <= INLINE_SPACE
    && (forall i | 0 <= i < |p.slots| :: SlotOK(hash, flat, owner, off, p, p.slots[i]))
    && AllApart(p.slots)
  }

  /** ... and no key occurs twice. */
  ghost predicate PageOK(hash: HashFn, flat: map<nat, Content>, owner: map<nat, nat>, off: nat, p: PageView) {
    PageFits(hash, flat, owner, off, p) && DistinctKeys(PageEntries(flat, p))
  }

  // ---- sequences of entries ----

  lemma {:induction false} CopiesAppend(a: seq<Entry>, b: seq<Entry>, k: Key)
    ensures Copies(a + b, k) == Copies(a, k) + Copies(b, k)
  {
    if b == [] {
      assert a + b == a;
    } else {
      var init, last := b[..|b| - 1], b[|b| - 1];
      CopiesAppend(a, init, k);
      assert (a + b)[..|a + b| - 1] == a + init && (a + b)[|a + b| - 1] == last;
      var tail := if last.key == k then [last.val] else [];
      assert Copies(a + b, k) == Copies(a + init, k) + tail && Copies(b, k) == Copies(init, k) + tail;
    }
  }

  lemma {:induction false} NoCopies(es: seq<Entry>, k: Key)
    ensures Copies(es, k) == [] <==> !HasKey(es, k)
  {
    if es != [] {
      var init := es[..|es| - 1];
      NoCopies(init, k);
      if HasKey(es, k) {
        var i :| 0 <= i < |es| && es[i].key == k;
        if i < |init| { assert init[i].key == k; }
      }
      if HasKey(init, k) {
        var i :| 0 <= i < |init| && init[i].key == k;
        assert es[i].key == k;
      }
    }
  }

  lemma {:induction false} OneCopy(es: seq<Entry>, i: nat)
    requires DistinctKeys(es) && i < |es|
    ensures Copies(es, es[i].key) == [es[i].val]
  {
    var init := es[..|es| - 1];
    if i < |init| {
      OneCopy(init, i);
    } else {
      NoCopies(init, es[i].key);
    }
  }

  /** The copies of every key depend only on which entries a page of distinct keys holds. */
  lemma CopiesByMember(es: seq<Entry>, fs: seq<Entry>, k: Key)
    requires DistinctKeys(es) && DistinctKeys(fs)
    requires forall i | 0 <= i < |es| && es[i].key == k :: es[i] in fs
    requires forall i | 0 <= i < |fs| && fs[i].key == k :: fs[i] in es
    ensures Copies(es, k) == Copies(fs, k)
  {
    if HasKey(es, k) {
      var i :| 0 <= i < |es| && es[i].key == k;
      var j :| 0 <= j < |fs| && fs[j] == es[i];
      OneCopy(es, i);
      OneCopy(fs, j);
    } else {
      NoCopies(es, k);
      NoCopies(fs, k);
    }
  }

  // ---- inline space ----

  lemma {:induction false} InlineTotalUpdate(ss: seq<Slot>, i: nat, t: Slot)
    requires i < |ss|
    ensures InlineTotal(ss[i := t]) == InlineTotal(ss) - InlineLen(ss[i]) + InlineLen(t)
  {
    var n := |ss| - 1;
    if i < n {
      InlineTotalUpdate(ss[..n], i, t);
      assert ss[i := t][..n] == ss[..n][i := t];
    } else {
      assert ss[i := t][..n] == ss[..n];
    }
  }

  lemma InlineTotalAppend(ss: seq<Slot>, t: Slot)
    ensures InlineTotal(ss + [t]) == InlineTotal(ss) + InlineLen(t)
  {
    assert (ss + [t])[..|ss|] == ss;
  }

  // ---- storage apart ----

  lemma ApartAppend(ss: seq<Slot>, t: Slot)
    requires AllApart(ss) && forall i | 0 <= i < |ss| :: Apart(ss[i], t)
    ensures AllApart(ss + [t])
  {
  }

  lemma ApartUpdate(ss: seq<Slot>, i: nat, t: Slot)
    requires AllApart(ss) && i < |ss|
    requires forall j | 0 <= j < |ss| && j != i :: Apart(ss[j], t)
    ensures AllApart(ss[i := t])
  {
  }

  lemma ApartEither(ss: seq<Slot>, i: nat, j: nat)
    requires AllApart(ss) && i < |ss| && j < |ss| && i != j
    ensures Apart(ss[i], ss[j])
  {
    if i > j { assert Apart(ss[j], ss[i]); }
  }

  lemma ApartSwapOut(ss: seq<Slot>, i: nat)
    requires AllApart(ss) && i < |ss|
    ensures AllApart(SwapOut(ss, i))
  {
    var n := |ss| - 1;
    forall a, b | 0 <= a < b < n ensures Apart(SwapOut(ss, i)[a], SwapOut(ss, i)[b]) {
      ApartEither(ss, if a == i then n else a, if b == i then n else b);
    }
  }

  lemma DistinctAppend(es: seq<Entry>, e: Entry)
    requires DistinctKeys(es) && !HasKey(es, e.key)
    ensures DistinctKeys(es + [e])
  {
  }

  // ---- framing ----

  /** A slot decodes to the same entry wherever its bytes read the same. */
  lemma SlotKept(hash: HashFn, flat: map<nat, Content>, flat': map<nat, Content>,
                 owner: map<nat, nat>, owner': map<nat, nat>, off: nat, p: PageView, q: PageView, s: Slot)
    requires SlotOK(hash, flat, owner, off, p, s)
    requires SlotBytes(flat', q, s) == SlotBytes(flat, p, s)
    requires s.inlined ==> p.inlineUsed <= q.inlineUsed
    requires !s.inlined ==>
               && s.fileOff in flat' && flat'[s.fileOff].RecC?
               && |flat'[s.fileOff].bytes| == |flat[s.fileOff].bytes|
               && s.fileOff in owner' && owner'[s.fileOff] == off
    ensures SlotOK(hash, flat', owner', off, q, s)
    ensures EntryOf(flat', q, s) == EntryOf(flat, p, s)
  {
  }

  lemma Assemble(hash: HashFn, flat: map<nat, Content>, owner: map<nat, nat>, off: nat, q: PageView, es: seq<Entry>)
    requires |q.slots| <= SLOTS_PER_PAGE && |q.area| == INLINE_SPACE
    requires InlineTotal(q.slots) <= q.inlineUsed <= INLINE_SPACE
    requires AllApart(q.slots) && |es| == |q.slots|
    requires forall i | 0 <= i < |q.slots| ::
               SlotOK(hash, flat, owner, off, q, q.slots[i]) && EntryOf(flat, q, q.slots[i]) == es[i]
    ensures PageFits(hash, flat, owner, off, q)
    ensures PageEntries(flat, q) == es
  {
    assert PageEntries(flat, q) == es;
  }

  /** A page reads the same, and stays well-formed, when only records of other pages
      change and its header words (depth and link) may be rewritten. */
  lemma PageFrame(hash: HashFn, flat: map<nat, Content>, flat': map<nat, Content>,
                  owner: map<nat, nat>, owner': map<nat, nat>, off: nat, p: PageView, q: PageView)
    requires PageFits(hash, flat, owner, off, p)
    requires q.slots == p.slots && q.area == p.area && q.inlineUsed == p.inlineUsed
    requires forall r | r in owner && owner[r] == off && r in flat && flat[r].RecC? ::
               r in flat' && flat'[r] == flat[r] && r in owner' && owner'[r] == off
    ensures PageFits(hash, flat', owner', off, q)
    ensures PageEntries(flat', q) == PageEntries(flat, p)
    ensures PageOK(hash, flat, owner, off, p) ==> PageOK(hash, flat', owner', off, q)
  {
    forall i | 0 <= i < |p.slots|
      ensures SlotOK(hash, flat', owner', off, q, q.slots[i])
      ensures EntryOf(flat', q, q.slots[i]) == PageEntries(flat, p)[i]
    {
      SlotKept(hash, flat, flat', owner, owner', off, p, q, p.slots[i]);
    }
    Assemble(hash, flat', owner', off, q, PageEntries(flat, p));
  }

  /** The same when only the records the page really uses are known to be kept; the page
      may be given to another offset together with them. */
  lemma PageMoved(hash: HashFn, flat: map<nat, Content>, flat': map<nat, Content>,
                  owner: map<nat, nat>, owner': map<nat, nat>, off: nat, off': nat, p: PageView)
    requires PageOK(hash, flat, owner, off, p)
    requires forall r | r in RecOffs(p.slots) && r in flat ::
               r in flat' && flat'[r] == flat[r] && r in owner' && owner'[r] == off'
    ensures PageOK(hash, flat', owner', off', p)
    ensures PageEntries(flat', p) == PageEntries(flat, p)
  {
    forall i | 0 <= i < |p.slots|
      ensures SlotOK(hash, flat', owner', off', p, p.slots[i])
      ensures EntryOf(flat', p, p.slots[i]) == PageEntries(flat, p)[i]
    {
      var s := p.slots[i];
      assert SlotOK(hash, flat, owner, off, p, s);
      if !s.inlined { assert s.fileOff in RecOffs(p.slots); }
      assert SlotBytes(flat', p, s) == SlotBytes(flat, p, s);
    }
    Assemble(hash, flat', owner', off', p, PageEntries(flat, p));
  }

  lemma EmptyPageOK(hash: HashFn, flat: map<nat, Content>, owner: map<nat, nat>, off: nat, depth: nat)
    ensures PageOK(hash, flat, owner, off, EmptyView(depth))
    ensures PageEntries(flat, EmptyView(depth)) == []
  {
  }

  /** The records the slots point at. */
  ghost function RecOffs(ss: seq<Slot>): set<nat> {
    set s | s in ss && !s.inlined :: s.fileOff
  }

  // ---- appending ----

  function AddInline(p: PageView, h: nat, k: Key, v: Value): PageView
    requires p.inlineUsed + |k| + |v| <= |p.area|
  {
    p.(slots := p.slots + [Slot(h, p.inlineUsed, |k|, |v|, KeyPrefix(k), true)],
       area := Splice(p.area, p.inlineUsed, k + v),
       inlineUsed := p.inlineUsed + |k| + |v|)
  }

  function AddRecord(p: PageView, h: nat, k: Key, v: Value, rec: nat): PageView {
    p.(slots := p.slots + [Slot(h, rec, |k|, |v|, KeyPrefix(k), false)])
  }

  lemma AppendKept(hash: HashFn, flat: map<nat, Content>, flat': map<nat, Content>,
                   owner: map<nat, nat>, owner': map<nat, nat>, off: nat, p: PageView, q: PageView, t: Slot)
    requires SlotOK(hash, flat, owner, off, p, t)
    requires p.inlineUsed <= q.inlineUsed && p.inlineUsed <= |p.area| && p.inlineUsed <= |q.area|
    requires q.area[..p.inlineUsed] == p.area[..p.inlineUsed]
    requires forall r | r in owner && r in flat ::
               r in flat' && flat'[r] == flat[r] && r in owner' && owner'[r] == owner[r]
    ensures SlotOK(hash, flat', owner', off, q, t) && EntryOf(flat', q, t) == EntryOf(flat, p, t)
  {
    if t.inlined {
      SamePrefixSlice(p.area, q.area, p.inlineUsed, t.fileOff, t.klen + t.vlen);
    }
    SlotKept(hash, flat, flat', owner, owner', off, p, q, t);
  }

  lemma AppendApart(hash: HashFn, flat: map<nat, Content>, owner: map<nat, nat>, off: nat, p: PageView, s: Slot)
    requires forall i | 0 <= i < |p.slots| :: SlotOK(hash, flat, owner, off, p, p.slots[i])
    requires if s.inlined then s.fileOff == p.inlineUsed else s.fileOff !in RecOffs(p.slots)
    ensures forall i | 0 <= i < |p.slots| :: Apart(p.slots[i], s)
  {
    forall i | 0 <= i < |p.slots| ensures Apart(p.slots[i], s) {
      assert SlotOK(hash, flat, owner, off, p, p.slots[i]);
      if !p.slots[i].inlined { assert p.slots[i].fileOff in RecOffs(p.slots); }
    }
  }

  /** Common part of both ways to append: the old slots are kept, the new one decodes. */
  lemma AppendOK(hash: HashFn, flat: map<nat, Content>, flat': map<nat, Content>,
                 owner: map<nat, nat>, owner': map<nat, nat>, off: nat,
                 p: PageView, q: PageView, s: Slot, e: Entry)
    requires PageFits(hash, flat, owner, off, p) && |p.slots| < SLOTS_PER_PAGE
    requires q.slots == p.slots + [s] && |q.area| == INLINE_SPACE
    requires p.inlineUsed + InlineLen(s) == q.inlineUsed <= INLINE_SPACE
    requires q.area[..p.inlineUsed] == p.area[..p.inlineUsed]
    requires forall r | r in owner && r in flat ::
               r in flat' && flat'[r] == flat[r] && r in owner' && owner'[r] == owner[r]
    requires SlotOK(hash, flat', owner', off, q, s) && EntryOf(flat', q, s) == e
    requires if s.inlined then s.fileOff == p.inlineUsed else s.fileOff !in RecOffs(p.slots)
    ensures PageFits(hash, flat', owner', off, q)
    ensures PageEntries(flat', q) == PageEntries(flat, p) + [e]
    ensures PageOK(hash, flat, owner, off, p) && !HasKey(PageEntries(flat, p), e.key) ==> PageOK(hash, flat', owner', off, q)
  {
    var es := PageEntries(flat, p);
    forall i | 0 <= i < |p.slots|
      ensures SlotOK(hash, flat', owner', off, q, p.slots[i]) && EntryOf(flat', q, p.slots[i]) == es[i]
    {
      AppendKept(hash, flat, flat', owner, owner', off, p, q, p.slots[i]);
    }
    AppendApart(hash, flat, owner, off, p, s);
    InlineTotalAppend(p.slots, s);
    ApartAppend(p.slots, s);
    if DistinctKeys(es) && !HasKey(es, e.key) { DistinctAppend(es, e); }
    Assemble(hash, flat', owner', off, q, es + [e]);
  }

  lemma RecOffsKnown(hash: HashFn, flat: map<nat, Content>, owner: map<nat, nat>, off: nat, p: PageView)
    requires PageFits(hash, flat, owner, off, p)
    ensures forall r | r in RecOffs(p.slots) :: r in flat && flat[r].RecC? && r in owner && owner[r] == off
  {
    forall r | r in RecOffs(p.slots) ensures r in flat && flat[r].RecC? && r in owner && owner[r] == off {
      var i :| 0 <= i < |p.slots| && !p.slots[i].inlined && p.slots[i].fileOff == r;
      assert SlotOK(hash, flat, owner, off, p, p.slots[i]);
    }
  }

  lemma SamePrefixSlice(a: seq<Byte>, b: seq<Byte>, u: nat, at: nat, n: nat)
    requires u <= |a| && u <= |b| && a[..u] == b[..u] && at + n <= u
    ensures Slice(a, at, n) == Slice(b, at, n)
  {
    assert Slice(a, at, n) == a[..u][at..at + n];
    assert Slice(b, at, n) == b[..u][at..at + n];
  }

  lemma AddInlineOK(hash: HashFn, flat: map<nat, Content>, owner: map<nat, nat>, off: nat, p: PageView, k: Key, v: Value)
    requires PageFits(hash, flat, owner, off, p)
    requires |p.slots| < SLOTS_PER_PAGE && p.inlineUsed + |k| + |v| <= INLINE_SPACE
    ensures var q := AddInline(p, hash(k), k, v);
            && PageFits(hash, flat, owner, off, q)
            && PageEntries(flat, q) == PageEntries(flat, p) + [Entry(k, v)]
            && (PageOK(hash, flat, owner, off, p) && !HasKey(PageEntries(flat, p), k) ==> PageOK(hash, flat, owner, off, q))
  {
    var q := AddInline(p, hash(k), k, v);
    var s := Slot(hash(k), p.inlineUsed, |k|, |v|, KeyPrefix(k), true);
    assert SlotBytes(flat, q, s) == k + v;
    assert q.area[..p.inlineUsed] == p.area[..p.inlineUsed];
    AppendOK(hash, flat, flat, owner, owner, off, p, q, s, Entry(k, v));
  }

  lemma AddRecordThis(hash: HashFn, flat: map<nat, Content>, owner: map<nat, nat>, off: nat, q: PageView, s: Slot, k: Key, v: Value)
    requires s == Slot(hash(k), s.fileOff, |k|, |v|, KeyPrefix(k), false)
    requires s.fileOff in flat && flat[s.fileOff] == RecC(RecordBytes(k, v)) && s.fileOff in owner && owner[s.fileOff] == off
    ensures SlotOK(hash, flat, owner, off, q, s) && EntryOf(flat, q, s) == Entry(k, v)
  {
    assert SlotBytes(flat, q, s) == k + v;
  }

  lemma AddRecordOK(hash: HashFn, flat: map<nat, Content>, owner: map<nat, nat>, off: nat, p: PageView, k: Key, v: Value, rec: nat)
    requires PageFits(hash, flat, owner, off, p)
    requires |p.slots| < SLOTS_PER_PAGE && rec !in flat
    ensures var flat', owner' := flat[rec := RecC(RecordBytes(k, v))], owner[rec := off];
            var q := AddRecord(p, hash(k), k, v, rec);
            && PageFits(hash, flat', owner', off, q)
            && PageEntries(flat', q) == PageEntries(flat, p) + [Entry(k, v)]
            && (PageOK(hash, flat, owner, off, p) && !HasKey(PageEntries(flat, p), k) ==> PageOK(hash, flat', owner', off, q))
  {
    var flat', owner' := flat[rec := RecC(RecordBytes(k, v))], owner[rec := off];
    var q := AddRecord(p, hash(k), k, v, rec);
    var s := Slot(hash(k), rec, |k|, |v|, KeyPrefix(k), false);
    AddRecordThis(hash, flat', owner', off, q, s, k, v);
    RecOffsKnown(hash, flat, owner, off, p);
    AppendOK(hash, flat, flat', owner, owner', off, p, q, s, Entry(k, v));
  }

  // ---- overwriting a value ----

  function ShrinkInline(p: PageView, i: nat, v: Value): PageView
    requires i < |p.slots| && p.slots[i].fileOff + p.slots[i].klen + |v| <= |p.area|
  {
    var s := p.slots[i];
    p.(slots := p.slots[i := s.(vlen := |v|)], area := Splice(p.area, s.fileOff + s.klen, v))
  }

  function ShrinkRecord(p: PageView, i: nat, v: Value): PageView
    requires i < |p.slots|
  {
    p.(slots := p.slots[i := p.slots[i].(vlen := |v|)])
  }

  function Promote(p: PageView, i: nat, v: Value, rec: nat): PageView
    requires i < |p.slots|
  {
    p.(slots := p.slots[i := p.slots[i].(vlen := |v|, fileOff := rec, inlined := false)])
  }

  /** Common part of the three ways to overwrite: the other slots read the same bytes. */
  lemma OverwriteOK(hash: HashFn, flat: map<nat, Content>, flat': map<nat, Content>,
                    owner: map<nat, nat>, owner': map<nat, nat>, off: nat,
                    p: PageView, q: PageView, i: nat, t: Slot, e: Entry)
    requires PageOK(hash, flat, owner, off, p) && i < |p.slots|
    requires q.slots == p.slots[i := t] && |q.area| == INLINE_SPACE && q.inlineUsed == p.inlineUsed
    requires InlineLen(t) <= InlineLen(p.slots[i])
    requires SlotOK(hash, flat', owner', off, q, t) && EntryOf(flat', q, t) == e
    requires e.key == PageEntries(flat, p)[i].key || !HasKey(PageEntries(flat, p), e.key)
    requires forall j | 0 <= j < |p.slots| && j != i ::
               && Apart(p.slots[j], t)
               && SlotOK(hash, flat', owner', off, q, p.slots[j])
               && EntryOf(flat', q, p.slots[j]) == EntryOf(flat, p, p.slots[j])
    ensures PageOK(hash, flat', owner', off, q)
    ensures PageEntries(flat', q) == PageEntries(flat, p)[i := e]
  {
    InlineTotalUpdate(p.slots, i, t);
    ApartUpdate(p.slots, i, t);
    ReplaceCopies(PageEntries(flat, p), i, e, e.key);
    Assemble(hash, flat', owner', off, q, PageEntries(flat, p)[i := e]);
  }

  lemma ShrinkInlineThis(hash: HashFn, flat: map<nat, Content>, owner: map<nat, nat>, off: nat, p: PageView, i: nat, v: Value)
    requires i < |p.slots| && p.inlineUsed <= |p.area|
    requires SlotOK(hash, flat, owner, off, p, p.slots[i]) && p.slots[i].inlined && |v| <= p.slots[i].vlen
    ensures var q := ShrinkInline(p, i, v);
            && SlotOK(hash, flat, owner, off, q, q.slots[i])
            && EntryOf(flat, q, q.slots[i]) == Entry(EntryOf(flat, p, p.slots[i]).key, v)
  {
    var s, q := p.slots[i], ShrinkInline(p, i, v);
    SpliceTail(p.area, s.fileOff, s.klen, s.vlen, v);
    ShorterEntry(SlotBytes(flat, p, s), SlotBytes(flat, q, q.slots[i]), s.klen, v);
  }

  /** New value bytes behind the old key bytes. */
  lemma ShorterEntry(a: seq<Byte>, b: seq<Byte>, klen: nat, v: Value)
    requires klen <= |a| && b == a[..klen] + v
    ensures |b| == klen + |v| && b[..klen] == a[..klen] && b[klen..] == v
  {
  }

  lemma ShrinkInlineOther(hash: HashFn, flat: map<nat, Content>, owner: map<nat, nat>, off: nat, p: PageView, i: nat, v: Value, t: Slot)
    requires i < |p.slots| && p.inlineUsed <= |p.area|
    requires SlotOK(hash, flat, owner, off, p, p.slots[i]) && p.slots[i].inlined && |v| <= p.slots[i].vlen
    requires SlotOK(hash, flat, owner, off, p, t) && Apart(p.slots[i], t)
    ensures var q := ShrinkInline(p, i, v);
            && Apart(t, q.slots[i])
            && SlotOK(hash, flat, owner, off, q, t)
            && EntryOf(flat, q, t) == EntryOf(flat, p, t)
  {
    var s := p.slots[i];
    if t.inlined {
      SpliceElsewhere(p.area, s.fileOff + s.klen, v, t.fileOff, t.klen + t.vlen);
    }
    SlotKept(hash, flat, flat, owner, owner, off, p, ShrinkInline(p, i, v), t);
  }

  lemma ShrinkInlineOK(hash: HashFn, flat: map<nat, Content>, owner: map<nat, nat>, off: nat, p: PageView, i: nat, v: Value)
    requires PageOK(hash, flat, owner, off, p)
    requires i < |p.slots| && p.slots[i].inlined && |v| <= p.slots[i].vlen
    ensures p.slots[i].fileOff + p.slots[i].klen + p.slots[i].vlen <= |p.area|
    ensures PageOK(hash, flat, owner, off, ShrinkInline(p, i, v))
    ensures PageEntries(flat, ShrinkInline(p, i, v)) ==
            PageEntries(flat, p)[i := Entry(PageEntries(flat, p)[i].key, v)]
  {
    ShrinkInlineThis(hash, flat, owner, off, p, i, v);
    var q := ShrinkInline(p, i, v);
    forall j | 0 <= j < |p.slots| && j != i
      ensures Apart(p.slots[j], q.slots[i])
      ensures SlotOK(hash, flat, owner, off, q, p.slots[j])
      ensures EntryOf(flat, q, p.slots[j]) == EntryOf(flat, p, p.slots[j])
    {
      ApartEither(p.slots, i, j);
      ShrinkInlineOther(hash, flat, owner, off, p, i, v, p.slots[j]);
    }
    OverwriteOK(hash, flat, flat, owner, owner, off, p, q, i, q.slots[i], Entry(EntryOf(flat, p, p.slots[i]).key, v));
  }

  lemma SpliceTail(a: seq<Byte>, at: nat, klen: nat, vlen: nat, v: seq<Byte>)
    requires at + klen + vlen <= |a| && |v| <= vlen
    ensures Slice(Splice(a, at + klen, v), at, klen + |v|) == Slice(a, at, klen + vlen)[..klen] + v
  {
  }

  lemma SpliceElsewhere(a: seq<Byte>, at: nat, v: seq<Byte>, from: nat, n: nat)
    requires at + |v| <= |a| && from + n <= |a|
    requires from + n <= at || at + |v| <= from
    ensures Slice(Splice(a, at, v), from, n) == Slice(a, from, n)
  {
  }

  lemma ShrinkRecordOK(hash: HashFn, flat: map<nat, Content>, owner: map<nat, nat>, off: nat, p: PageView, i: nat, v: Value)
    requires PageOK(hash, flat, owner, off, p)
    requires i < |p.slots| && !p.slots[i].inlined && |v| <= p.slots[i].vlen
    ensures SlotOK(hash, flat, owner, off, p, p.slots[i])
    ensures var s := p.slots[i];
            var flat' := flat[s.fileOff := RecC(Splice(flat[s.fileOff].bytes, RECORD_HEADER + s.klen, v))];
            && PageOK(hash, flat', owner, off, ShrinkRecord(p, i, v))
            && PageEntries(flat', ShrinkRecord(p, i, v)) ==
               PageEntries(flat, p)[i := Entry(PageEntries(flat, p)[i].key, v)]
  {
    var s := p.slots[i];
    var flat' := flat[s.fileOff := RecC(Splice(flat[s.fileOff].bytes, RECORD_HEADER + s.klen, v))];
    var q := ShrinkRecord(p, i, v);
    ShrinkRecordThis(hash, flat, owner, off, p, i, v);
    ShrinkRecordOthers(hash, flat, flat', owner, off, p, i, v);
    OverwriteOK(hash, flat, flat', owner, owner, off, p, q, i, q.slots[i], Entry(EntryOf(flat, p, s).key, v));
  }

  lemma ShrinkRecordOthers(hash: HashFn, flat: map<nat, Content>, flat': map<nat, Content>, owner: map<nat, nat>, off: nat,
                           p: PageView, i: nat, v: Value)
    requires PageOK(hash, flat, owner, off, p) && i < |p.slots| && !p.slots[i].inlined
    requires p.slots[i].fileOff in flat' && flat' == flat[p.slots[i].fileOff := flat'[p.slots[i].fileOff]]
    ensures var q := ShrinkRecord(p, i, v);
            forall j | 0 <= j < |p.slots| && j != i ::
              && Apart(p.slots[j], q.slots[i])
              && SlotOK(hash, flat', owner, off, q, p.slots[j])
              && EntryOf(flat', q, p.slots[j]) == EntryOf(flat, p, p.slots[j])
  {
    var s, q := p.slots[i], ShrinkRecord(p, i, v);
    assert SlotOK(hash, flat, owner, off, p, s);
    assert owner[s.fileOff := off] == owner;
    forall j | 0 <= j < |p.slots| && j != i
      ensures Apart(p.slots[j], q.slots[i])
      ensures SlotOK(hash, flat', owner, off, q, p.slots[j])
      ensures EntryOf(flat', q, p.slots[j]) == EntryOf(flat, p, p.slots[j])
    {
      ApartEither(p.slots, i, j);
      OtherKept(hash, flat, flat', owner, owner, off, p, q, s.fileOff, p.slots[j]);
    }
  }

  lemma ShrinkRecordThis(hash: HashFn, flat: map<nat, Content>, owner: map<nat, nat>, off: nat, p: PageView, i: nat, v: Value)
    requires i < |p.slots| && SlotOK(hash, flat, owner, off, p, p.slots[i])
    requires !p.slots[i].inlined && |v| <= p.slots[i].vlen
    ensures var s := p.slots[i];
            var flat' := flat[s.fileOff := RecC(Splice(flat[s.fileOff].bytes, RECORD_HEADER + s.klen, v))];
            var q := ShrinkRecord(p, i, v);
            && SlotOK(hash, flat', owner, off, q, q.slots[i])
            && EntryOf(flat', q, q.slots[i]) == Entry(EntryOf(flat, p, s).key, v)
  {
    var s := p.slots[i];
    SpliceTail(flat[s.fileOff].bytes, RECORD_HEADER, s.klen, s.vlen, v);
  }

  /** A slot that does not use record `rec` is kept when only `rec` is written. */
  lemma OtherKept(hash: HashFn, flat: map<nat, Content>, flat': map<nat, Content>,
                  owner: map<nat, nat>, owner': map<nat, nat>, off: nat, p: PageView, q: PageView, rec: nat, t: Slot)
    requires SlotOK(hash, flat, owner, off, p, t) && (t.inlined || t.fileOff != rec)
    requires q.area == p.area && q.inlineUsed == p.inlineUsed
    requires rec in flat' && flat' == flat[rec := flat'[rec]] && owner' == owner[rec := off]
    ensures SlotOK(hash, flat', owner', off, q, t)
    ensures EntryOf(flat', q, t) == EntryOf(flat, p, t)
  {
    SlotKept(hash, flat, flat', owner, owner', off, p, q, t);
  }

  /** The slot keeps its hash, length and prefix, so the record may hold any key with these. */
  lemma PromoteThis(hash: HashFn, flat: map<nat, Content>, owner: map<nat, nat>, off: nat, p: PageView, i: nat, k: Key, v: Value, rec: nat)
    requires i < |p.slots| && p.inlineUsed <= |p.area|
    requires p.slots[i].hash == hash(k) && p.slots[i].klen == |k| && p.slots[i].prefix == KeyPrefix(k)
    ensures var flat', owner' := flat[rec := RecC(RecordBytes(k, v))], owner[rec := off];
            var q := Promote(p, i, v, rec);
            && SlotOK(hash, flat', owner', off, q, q.slots[i])
            && EntryOf(flat', q, q.slots[i]) == Entry(k, v)
  {
    var r := RecordBytes(k, v);
    assert Slice(r, RECORD_HEADER, |k| + |v|) == k + v;
  }

  lemma PromoteOK(hash: HashFn, flat: map<nat, Content>, owner: map<nat, nat>, off: nat, p: PageView, i: nat, k: Key, v: Value, rec: nat)
    requires PageOK(hash, flat, owner, off, p) && i < |p.slots| && rec !in flat
    requires p.slots[i].hash == hash(k) && p.slots[i].klen == |k| && p.slots[i].prefix == KeyPrefix(k)
    requires k == PageEntries(flat, p)[i].key || !HasKey(PageEntries(flat, p), k)
    ensures var flat', owner' := flat[rec := RecC(RecordBytes(k, v))], owner[rec := off];
            && PageOK(hash, flat', owner', off, Promote(p, i, v, rec))
            && PageEntries(flat', Promote(p, i, v, rec)) == PageEntries(flat, p)[i := Entry(k, v)]
  {
    var flat', owner' := flat[rec := RecC(RecordBytes(k, v))], owner[rec := off];
    var q := Promote(p, i, v, rec);
    PromoteThis(hash, flat, owner, off, p, i, k, v, rec);
    forall j | 0 <= j < |p.slots| && j != i
      ensures Apart(p.slots[j], q.slots[i])
      ensures SlotOK(hash, flat', owner', off, q, p.slots[j])
      ensures EntryOf(flat', q, p.slots[j]) == EntryOf(flat, p, p.slots[j])
    {
      OtherKept(hash, flat, flat', owner, owner', off, p, q, rec, p.slots[j]);
    }
    OverwriteOK(hash, flat, flat', owner, owner', off, p, q, i, q.slots[i], Entry(k, v));
  }

  /** Replacing an entry, by one of the same key or of a key not there, touches no other key. */
  lemma ReplaceCopies(es: seq<Entry>, i: nat, e: Entry, k: Key)
    requires DistinctKeys(es) && i < |es| && (e.key == es[i].key || !HasKey(es, e.key))
    ensures DistinctKeys(es[i := e])
    ensures Copies(es[i := e], k) == if k == e.key then [e.val] else if k == es[i].key then [] else Copies(es, k)
  {
    var fs := es[i := e];
    if k == e.key {
      OneCopy(fs, i);
    } else if k == es[i].key {
      NoCopies(fs, k);
    } else {
      forall j | 0 <= j < |es| && es[j].key == k ensures es[j] in fs { assert fs[j] == es[j]; }
      CopiesByMember(es, fs, k);
    }
  }

  // ---- removing ----

  /** `slots[i] = slots[count - 1]; count--`. */
  function SwapOut<T>(s: seq<T>, i: nat): (r: seq<T>)
    requires i < |s|
    ensures |r| == |s| - 1
    ensures forall j | 0 <= j < |r| :: r[j] == if j == i then s[|s| - 1] else s[j]
  {
    if i < |s| - 1 then s[..|s| - 1][i := s[|s| - 1]] else s[..|s| - 1]
  }

  function RemoveSlot(p: PageView, i: nat): PageView
    requires i < |p.slots|
  {
    p.(slots := SwapOut(p.slots, i))
  }

  lemma InlineTotalSwapOut(ss: seq<Slot>, i: nat)
    requires i < |ss|
    ensures InlineTotal(SwapOut(ss, i)) == InlineTotal(ss) - InlineLen(ss[i])
  {
    if i < |ss| - 1 {
      InlineTotalUpdate(ss[..|ss| - 1], i, ss[|ss| - 1]);
    }
  }

  lemma RemoveSlotOK(hash: HashFn, flat: map<nat, Content>, owner: map<nat, nat>, off: nat, p: PageView, i: nat)
    requires PageOK(hash, flat, owner, off, p) && i < |p.slots|
    ensures PageOK(hash, flat, owner, off, RemoveSlot(p, i))
    ensures PageEntries(flat, RemoveSlot(p, i)) == SwapOut(PageEntries(flat, p), i)
  {
    var q := RemoveSlot(p, i);
    var es := PageEntries(flat, p);
    forall j | 0 <= j < |p.slots|
      ensures SlotOK(hash, flat, owner, off, q, p.slots[j]) && EntryOf(flat, q, p.slots[j]) == es[j]
    {
      SlotKept(hash, flat, flat, owner, owner, off, p, q, p.slots[j]);
    }
    InlineTotalSwapOut(p.slots, i);
    ApartSwapOut(p.slots, i);
    RemoveCopies(es, i, []);
    SwapOutSlots(hash, flat, owner, off, q, p.slots, es, i);
  }

  lemma SwapOutSlots(hash: HashFn, flat: map<nat, Content>, owner: map<nat, nat>, off: nat, q: PageView, ss: seq<Slot>, es: seq<Entry>, i: nat)
    requires i < |ss| == |es| && q.slots == SwapOut(ss, i)
    requires forall j | 0 <= j < |ss| :: SlotOK(hash, flat, owner, off, q, ss[j]) && EntryOf(flat, q, ss[j]) == es[j]
    requires |q.slots| <= SLOTS_PER_PAGE && |q.area| == INLINE_SPACE
    requires InlineTotal(q.slots) <= q.inlineUsed <= INLINE_SPACE
    requires AllApart(q.slots) && DistinctKeys(SwapOut(es, i))
    ensures PageOK(hash, flat, owner, off, q) && PageEntries(flat, q) == SwapOut(es, i)
  {
    Assemble(hash, flat, owner, off, q, SwapOut(es, i));
  }

  lemma RemoveCopies(es: seq<Entry>, i: nat, k: Key)
    requires DistinctKeys(es) && i < |es|
    ensures DistinctKeys(SwapOut(es, i))
    ensures Copies(SwapOut(es, i), k) == if k == es[i].key then [] else Copies(es, k)
  {
    var fs := SwapOut(es, i);
    if k == es[i].key {
      NoCopies(fs, k);
    } else {
      forall j | 0 <= j < |es| && es[j].key == k ensures es[j] in fs {
        assert fs[if j == |es| - 1 then i else j] == es[j];
      }
      CopiesByMember(es, fs, k);
    }
  }
}
