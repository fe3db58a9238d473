/** The loops of the paged hash that work on one page in memory: scanning for a slot and
    dividing a full page in two. */
module PagedRaw {
  import opened Bits
  import opened PagedLayout
  import opened PagedPage
  import opened PagedState
  import opened PagedEffects
  import opened PagedSplit

  /** The first live slot that matches, or `count`. */
  method FindSlot(pg: Page, h: nat, k: Key) returns (i: nat)
    requires WellShaped(pg)
    ensures i <= pg.count
    ensures i < pg.count ==> Matches(pg.slots[i], h, k)
    ensures forall j | 0 <= j < i :: !Matches(pg.slots[j], h, k)
  {
    i := 0;
    while i < pg.count
      invariant i <= pg.count
      invariant forall j | 0 <= j < i :: !Matches(pg.slots[j], h, k)
    {
      if pg.slots[i].hash == h && pg.slots[i].klen == |k| && pg.slots[i].prefix == KeyPrefix(k) {
        return;
      }
      i := i + 1;
    }
  }

  /** `*ts = *s` with the inline bytes packed behind those already copied. */
  function CopyRaw(t: Page, src: Page, s: Slot): (r: Page)
    requires WellShaped(t) && WellShaped(src) && t.count < SLOTS_PER_PAGE
    requires s.inlined ==> s.fileOff + s.klen + s.vlen <= |src.area| && t.inlineUsed + s.klen + s.vlen <= |t.area|
    ensures WellShaped(r)
    ensures ViewOf(r) == CopySlot(ViewOf(t), ViewOf(src), s)
  {
    var r :=
      if s.inlined then
        t.(slots := t.slots[t.count := s.(fileOff := t.inlineUsed)],
           count := t.count + 1,
           area := Splice(t.area, t.inlineUsed, src.area[s.fileOff..s.fileOff + s.klen + s.vlen]),
           inlineUsed := t.inlineUsed + s.klen + s.vlen)
      else t.(slots := t.slots[t.count := s], count := t.count + 1);
    assert r.slots[..t.count + 1] == t.slots[..t.count] + [r.slots[t.count]];
    r
  }

  /** The page being split, its slots zeroed in place. */
  function Cleared(pg: Page, newDepth: nat): (r: Page)
    requires WellShaped(pg)
    ensures WellShaped(r)
  {
    pg.(slots := seq(SLOTS_PER_PAGE, _ => BLANK_SLOT), count := 0, inlineUsed := 0, depth := newDepth, next := 0)
  }

  lemma SortedRawStart(pg: Page, cur: nat, to: nat, hash: HashFn, flat: map<nat, Content>, owner: map<nat, nat>)
    requires WellShaped(pg) && PageOK(hash, flat, owner, cur, ViewOf(pg))
    ensures Sorted(hash, flat, owner, cur, to, ViewOf(pg), 0,
                   ViewOf(Cleared(pg, pg.depth + 1)), ViewOf(EmptyPage(pg.depth + 1)))
  {
    SortedStart(hash, flat, owner, cur, to, ViewOf(pg), ViewOf(Cleared(pg, pg.depth + 1)), ViewOf(EmptyPage(pg.depth + 1)));
  }

  /** The copying loop of `page_split_and_retry`. */
  method SplitSlots(pg: Page, cur: nat, to: nat,
                    ghost hash: HashFn, ghost flat: map<nat, Content>, ghost owner: map<nat, nat>)
    returns (low: Page, high: Page)
    requires WellShaped(pg) && PageOK(hash, flat, owner, cur, ViewOf(pg))
    ensures WellShaped(low) && WellShaped(high)
    ensures Sorted(hash, flat, owner, cur, to, ViewOf(pg), pg.count, ViewOf(low), ViewOf(high))
  {
    var newDepth := pg.depth + 1;
    low := Cleared(pg, newDepth);
    high := EmptyPage(newDepth);
    SortedRawStart(pg, cur, to, hash, flat, owner);
    var i := 0;
    while i < pg.count
      invariant i <= pg.count
      invariant WellShaped(low) && WellShaped(high)
      invariant Sorted(hash, flat, owner, cur, to, ViewOf(pg), i, ViewOf(low), ViewOf(high))
    {
      low, high := SplitTurn(pg, i, low, high, cur, to, hash, flat, owner);
      i := i + 1;
    }
  }

  /** One turn of that loop. */
  method SplitTurn(pg: Page, i: nat, low: Page, high: Page, cur: nat, to: nat,
                   ghost hash: HashFn, ghost flat: map<nat, Content>, ghost owner: map<nat, nat>)
    returns (low': Page, high': Page)
    requires WellShaped(pg) && PageOK(hash, flat, owner, cur, ViewOf(pg)) && i < pg.count
    requires WellShaped(low) && WellShaped(high)
    requires Sorted(hash, flat, owner, cur, to, ViewOf(pg), i, ViewOf(low), ViewOf(high))
    ensures WellShaped(low') && WellShaped(high')
    ensures Sorted(hash, flat, owner, cur, to, ViewOf(pg), i + 1, ViewOf(low'), ViewOf(high'))
  {
    var up := GoesUp(pg.slots[i].hash, pg.depth + 1);
    SortedRaw(pg, i, up, low, high, cur, to, hash, flat, owner);
    var r := SplitOne(pg, pg.slots[i], up, low, high);
    low', high' := r.0, r.1;
  }

  /** Can the loop copy slot `s` into the page it chose? */
  predicate CanCopy(pg: Page, s: Slot, t: Page) {
    && WellShaped(pg) && WellShaped(t) && t.count < SLOTS_PER_PAGE
    && (s.inlined ==> s.fileOff + s.klen + s.vlen <= |pg.area| && t.inlineUsed + s.klen + s.vlen <= |t.area|)
  }

  /** Copying into the chosen target. */
  function SplitOne(pg: Page, s: Slot, up: bool, low: Page, high: Page): (r: (Page, Page))
    requires CanCopy(pg, s, if up then high else low)
  {
    if up then (low, CopyRaw(high, pg, s)) else (CopyRaw(low, pg, s), high)
  }

  lemma SortedRaw(pg: Page, i: nat, up: bool, low: Page, high: Page, cur: nat, to: nat,
                  hash: HashFn, flat: map<nat, Content>, owner: map<nat, nat>)
    requires WellShaped(pg) && PageOK(hash, flat, owner, cur, ViewOf(pg)) && i < pg.count
    requires up == Bit(pg.slots[i].hash, pg.depth)
    requires WellShaped(low) && WellShaped(high)
    requires Sorted(hash, flat, owner, cur, to, ViewOf(pg), i, ViewOf(low), ViewOf(high))
    ensures CanCopy(pg, pg.slots[i], if up then high else low)
    ensures var r := SplitOne(pg, pg.slots[i], up, low, high);
            && WellShaped(r.0) && WellShaped(r.1)
            && Sorted(hash, flat, owner, cur, to, ViewOf(pg), i + 1, ViewOf(r.0), ViewOf(r.1))
  {
    SortedStep(hash, flat, owner, cur, to, ViewOf(pg), i, ViewOf(low), ViewOf(high), up);
  }

  /** `dir_index(hash, new_depth) & split_bit`. */
  method GoesUp(h: nat, newDepth: nat) returns (up: bool)
    requires newDepth > 0
    ensures up == Bit(h, newDepth - 1)
  {
    UpBit(h, newDepth - 1);
    up := BitAnd(DirIndex(h, newDepth), Pow2(newDepth - 1)) != 0;
  }

  lemma UpBit(h: nat, d: nat)
    ensures (BitAnd(DirIndex(h, d + 1), Pow2(d)) != 0) == Bit(h, d)
  {
    AndPow2(DirIndex(h, d + 1), d);
    BitOfIndex(h, d, d + 1);
  }

  /** The re-pointing loop of `page_split_and_retry`. */
  method Repoint(dir: seq<nat>, cur: nat, to: nat, depth: nat) returns (r: seq<nat>)
    ensures r == Repointed(dir, cur, to, depth)
  {
    var splitBit := Pow2(depth);
    r := dir;
    var i := 0;
    while i < |dir|
      invariant i <= |dir| == |r|
      invariant forall j | 0 <= j < i :: r[j] == Repointed(dir, cur, to, depth)[j]
      invariant forall j | i <= j < |dir| :: r[j] == dir[j]
    {
      AndPow2(i, depth);
      if r[i] == cur && BitAnd(i, splitBit) != 0 {
        r := r[i := to];
      }
      i := i + 1;
    }
  }

  /** The copying loop of `paged_dir_double`. */
  method DoubleDir(dir: seq<nat>) returns (r: seq<nat>)
    ensures r == dir + dir
  {
    r := seq(2 * |dir|, _ => 0);
    var i := 0;
    while i < |dir|
      invariant i <= |dir| && |r| == 2 * |dir|
      invariant forall j | 0 <= j < i :: r[j] == dir[j] && r[j + |dir|] == dir[j]
    {
      r := r[i := dir[i]][i + |dir| := dir[i]];
      i := i + 1;
    }
    assert forall j | |dir| <= j < 2 * |dir| :: r[j] == r[(j - |dir|) + |dir|];
  }
}
