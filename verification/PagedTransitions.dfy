/** The six ways the code rewrites a page, each with its effect on the whole index. */
module PagedTransitions {
  import opened PagedLayout
  import opened PagedPage
  import opened PagedState
  import opened PagedSteps
  import opened PagedEffects

  /** The walk for `k` stands on page `cur`, where no earlier page holds `k`. */
  ghost predicate WalkAt(hash: HashFn, st: State, cur: nat, k: Key) {
    && StateOK(hash, st) && IsPage(st.flat, cur)
    && NoneBefore(st.flat, HeadOf(st, hash(k)), cur, k)
  }

  /** ... and slot `i` of that page holds `k`. */
  ghost predicate FoundAt(hash: HashFn, st: State, cur: nat, i: nat, k: Key) {
    && WalkAt(hash, st, cur, k)
    && i < |PageAt(st.flat, cur).slots|
    && EntriesAt(st.flat, cur)[i].key == k
  }

  /** Only the answer for `k` may differ. */
  ghost predicate OnlyKey(hash: HashFn, st: State, st': State, k: Key) {
    StateOK(hash, st') && SameOtherStacks(hash, st, st', k) && AliasAtMost(hash, st, st', k)
  }

  ghost predicate Replaced(hash: HashFn, st: State, st': State, k: Key, v: Value) {
    && OnlyKey(hash, st, st', k)
    && Stack(hash, st, k) != []
    && Stack(hash, st', k) == [v] + Stack(hash, st, k)[1..]
    && DenseKept(st, st')
  }

  ghost predicate Appended(hash: HashFn, st: State, st': State, k: Key, v: Value) {
    OnlyKey(hash, st, st', k) && Stack(hash, st', k) == [v] + Stack(hash, st, k) && DenseKept(st, st')
  }

  ghost predicate Removed(hash: HashFn, st: State, st': State, k: Key) {
    && OnlyKey(hash, st, st', k)
    && Stack(hash, st, k) != []
    && Stack(hash, st', k) == Stack(hash, st, k)[1..]
    && (OnePageOnly(hash, st, k) ==> DenseKept(st, st'))
  }

  function WithPage(st: State, off: nat, p: PageView): State {
    st.(flat := st.flat[off := PageC(p)])
  }

  function WithRecord(st: State, rec: nat, bytes: seq<Byte>, off: nat): State {
    st.(flat := st.flat[rec := RecC(bytes)], owner := st.owner[rec := off])
  }

  /** `mid` differs from `st` only in records of page `off`. */
  ghost predicate OnlyRecords(st: State, mid: State, off: nat) {
    && mid.dir == st.dir && mid.depth == st.depth && mid.home == st.home
    && (forall q :: IsPage(mid.flat, q) <==> IsPage(st.flat, q))
    && (forall q | IsPage(st.flat, q) :: mid.flat[q] == st.flat[q])
    && (forall r | r in st.owner && r in st.flat && st.flat[r].RecC? && st.owner[r] != off ::
          r in mid.flat && mid.flat[r] == st.flat[r] && r in mid.owner && mid.owner[r] == st.owner[r])
  }

  lemma RecordOnly(st: State, rec: nat, bytes: seq<Byte>, off: nat)
    requires rec in st.flat ==> st.flat[rec].RecC? && rec in st.owner && st.owner[rec] == off
    ensures OnlyRecords(st, WithRecord(st, rec, bytes, off), off)
  {
  }

  lemma PageOnly(st: State, mid: State, off: nat, q: PageView)
    requires OnlyRecords(st, mid, off) && IsPage(st.flat, off)
    ensures OnlyPage(st, WithPage(mid, off, q), off)
  {
  }

  /** Storing a page that decodes over `mid`'s records rewrites it in `st`. */
  lemma RewrittenBy(hash: HashFn, st: State, mid: State, off: nat, q: PageView)
    requires StateOK(hash, st) && IsPage(st.flat, off)
    requires OnlyRecords(st, mid, off)
    requires PageFits(hash, mid.flat, mid.owner, off, q)
    requires q.next == PageAt(st.flat, off).next && q.depth == PageAt(st.flat, off).depth
    requires off in st.home && Fits(q, st.home[off])
    ensures Placed(hash, st, WithPage(mid, off, q), off)
    ensures PageOK(hash, mid.flat, mid.owner, off, q) ==> Rewritten(hash, st, WithPage(mid, off, q), off)
    ensures EntriesAt(WithPage(mid, off, q).flat, off) == PageEntries(mid.flat, q)
  {
    PageOnly(st, mid, off, q);
    StoredPage(hash, mid.flat, mid.owner, off, q);
  }

  lemma StoredPage(hash: HashFn, flat: map<nat, Content>, owner: map<nat, nat>, off: nat, q: PageView)
    requires IsPage(flat, off) && PageFits(hash, flat, owner, off, q)
    ensures PageFits(hash, flat[off := PageC(q)], owner, off, q)
    ensures PageOK(hash, flat, owner, off, q) ==> PageOK(hash, flat[off := PageC(q)], owner, off, q)
    ensures PageEntries(flat[off := PageC(q)], q) == PageEntries(flat, q)
  {
    PageFrame(hash, flat, flat[off := PageC(q)], owner, owner, off, q, q);
  }

  lemma FitsUpdate(p: PageView, q: PageView, i: nat, home: Home)
    requires Fits(p, home) && i < |p.slots| == |q.slots|
    requires forall j | 0 <= j < |p.slots| :: q.slots[j].hash == p.slots[j].hash
    ensures Fits(q, home)
  {
  }

  // ---- overwriting ----

  lemma ShrinkInlineStep(hash: HashFn, st: State, cur: nat, i: nat, k: Key, v: Value)
    requires FoundAt(hash, st, cur, i, k)
    requires PageAt(st.flat, cur).slots[i].inlined && |v| <= PageAt(st.flat, cur).slots[i].vlen
    ensures var s := PageAt(st.flat, cur).slots[i];
            s.fileOff + s.klen + s.vlen <= |PageAt(st.flat, cur).area| && s.klen == |k|
    ensures Replaced(hash, st, WithPage(st, cur, ShrinkInline(PageAt(st.flat, cur), i, v)), k, v)
  {
    var p := PageAt(st.flat, cur);
    assert Linked(st, cur);
    ShrinkInlineOK(hash, st.flat, st.owner, cur, p, i, v);
    var q := ShrinkInline(p, i, v);
    FitsUpdate(p, q, i, st.home[cur]);
    SlotKeyLength(hash, st.flat, st.owner, cur, p, i);
    RewrittenBy(hash, st, st, cur, q);
    ReplacedEffect(hash, st, WithPage(st, cur, q), cur, i, k, v);
  }

  lemma SlotKeyLength(hash: HashFn, flat: map<nat, Content>, owner: map<nat, nat>, off: nat, p: PageView, i: nat)
    requires PageOK(hash, flat, owner, off, p) && i < |p.slots|
    ensures |PageEntries(flat, p)[i].key| == p.slots[i].klen
    ensures |PageEntries(flat, p)[i].val| == p.slots[i].vlen
  {
    assert SlotOK(hash, flat, owner, off, p, p.slots[i]);
  }

  lemma ShrinkRecordStep(hash: HashFn, st: State, cur: nat, i: nat, k: Key, v: Value)
    requires FoundAt(hash, st, cur, i, k)
    requires !PageAt(st.flat, cur).slots[i].inlined && |v| <= PageAt(st.flat, cur).slots[i].vlen
    ensures var s := PageAt(st.flat, cur).slots[i];
            && s.fileOff in st.flat && st.flat[s.fileOff].RecC? && s.klen == |k|
            && RECORD_HEADER + s.klen + s.vlen <= |st.flat[s.fileOff].bytes|
            && s.fileOff in st.owner && st.owner[s.fileOff] == cur
    ensures var s := PageAt(st.flat, cur).slots[i];
            var bytes := Splice(st.flat[s.fileOff].bytes, RECORD_HEADER + s.klen, v);
            Replaced(hash, st, WithPage(WithRecord(st, s.fileOff, bytes, cur), cur, ShrinkRecord(PageAt(st.flat, cur), i, v)), k, v)
  {
    var p := PageAt(st.flat, cur);
    assert Linked(st, cur);
    ShrinkRecordOK(hash, st.flat, st.owner, cur, p, i, v);
    var s := p.slots[i];
    var bytes := Splice(st.flat[s.fileOff].bytes, RECORD_HEADER + s.klen, v);
    var q := ShrinkRecord(p, i, v);
    var mid := WithRecord(st, s.fileOff, bytes, cur);
    assert mid.owner == st.owner;
    FitsUpdate(p, q, i, st.home[cur]);
    SlotKeyLength(hash, st.flat, st.owner, cur, p, i);
    RecordOnly(st, s.fileOff, bytes, cur);
    RewrittenBy(hash, st, mid, cur, q);
    ReplacedEffect(hash, st, WithPage(mid, cur, q), cur, i, k, v);
  }

  lemma PromoteStep(hash: HashFn, st: State, cur: nat, i: nat, k: Key, v: Value, rec: nat)
    requires FoundAt(hash, st, cur, i, k) && FreshBlock(st, rec)
    ensures Replaced(hash, st, WithPage(WithRecord(st, rec, RecordBytes(k, v), cur), cur, Promote(PageAt(st.flat, cur), i, v, rec)), k, v)
  {
    var p := PageAt(st.flat, cur);
    assert Linked(st, cur);
    assert SlotOK(hash, st.flat, st.owner, cur, p, p.slots[i]);
    PromoteOK(hash, st.flat, st.owner, cur, p, i, k, v, rec);
    var q := Promote(p, i, v, rec);
    var mid := WithRecord(st, rec, RecordBytes(k, v), cur);
    FitsUpdate(p, q, i, st.home[cur]);
    RecordOnly(st, rec, RecordBytes(k, v), cur);
    RewrittenBy(hash, st, mid, cur, q);
    ReplacedEffect(hash, st, WithPage(mid, cur, q), cur, i, k, v);
  }

  // ---- appending ----

  /** The walk stands on a page with room that does not hold `k`. */
  ghost predicate RoomAt(hash: HashFn, st: State, cur: nat, k: Key) {
    && WalkAt(hash, st, cur, k)
    && |PageAt(st.flat, cur).slots| < SLOTS_PER_PAGE
    && !HasKey(EntriesAt(st.flat, cur), k)
  }

  lemma AddInlineStep(hash: HashFn, st: State, cur: nat, k: Key, v: Value)
    requires RoomAt(hash, st, cur, k)
    requires PageAt(st.flat, cur).inlineUsed + |k| + |v| <= INLINE_SPACE
    ensures |PageAt(st.flat, cur).area| == INLINE_SPACE
    ensures Appended(hash, st, WithPage(st, cur, AddInline(PageAt(st.flat, cur), hash(k), k, v)), k, v)
  {
    var p := PageAt(st.flat, cur);
    assert Linked(st, cur);
    AddInlineOK(hash, st.flat, st.owner, cur, p, k, v);
    var q := AddInline(p, hash(k), k, v);
    NoneBeforeReaches(st.flat, HeadOf(st, hash(k)), cur, k);
    WalkHome(hash, st, cur, k);
    FitsAppend(p, q.slots[|p.slots|], st.home[cur]);
    RewrittenBy(hash, st, st, cur, q);
    AppendedEffect(hash, st, WithPage(st, cur, q), cur, k, v);
  }

  lemma AddRecordStep(hash: HashFn, st: State, cur: nat, k: Key, v: Value, rec: nat)
    requires RoomAt(hash, st, cur, k) && FreshBlock(st, rec)
    ensures Appended(hash, st, WithPage(WithRecord(st, rec, RecordBytes(k, v), cur), cur,
                                        AddRecord(PageAt(st.flat, cur), hash(k), k, v, rec)), k, v)
  {
    var p := PageAt(st.flat, cur);
    assert Linked(st, cur);
    AddRecordOK(hash, st.flat, st.owner, cur, p, k, v, rec);
    var q := AddRecord(p, hash(k), k, v, rec);
    var mid := WithRecord(st, rec, RecordBytes(k, v), cur);
    NoneBeforeReaches(st.flat, HeadOf(st, hash(k)), cur, k);
    WalkHome(hash, st, cur, k);
    FitsAppend(p, q.slots[|p.slots|], st.home[cur]);
    RecordOnly(st, rec, RecordBytes(k, v), cur);
    RewrittenBy(hash, st, mid, cur, q);
    AppendedEffect(hash, st, WithPage(mid, cur, q), cur, k, v);
  }

  // ---- removing ----

  lemma RemoveStep(hash: HashFn, st: State, cur: nat, i: nat, k: Key)
    requires FoundAt(hash, st, cur, i, k)
    ensures Removed(hash, st, WithPage(st, cur, RemoveSlot(PageAt(st.flat, cur), i)), k)
  {
    var p := PageAt(st.flat, cur);
    assert Linked(st, cur);
    RemoveSlotOK(hash, st.flat, st.owner, cur, p, i);
    var q := RemoveSlot(p, i);
    RewrittenBy(hash, st, st, cur, q);
    RemovedEffect(hash, st, WithPage(st, cur, q), cur, i, k);
    if OnePageOnly(hash, st, k) { DenseAfter(hash, st, WithPage(st, cur, q), cur); }
  }
}
