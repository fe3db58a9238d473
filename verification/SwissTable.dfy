/** The open-addressed table `dp_table`: probing by groups, tombstones, growth. */
module SwissTable {
  import opened Bits
  import opened PagedLayout
  import opened SwissGroups

  const MAX_LOAD := 14

  /** What the table stores for a key: value pointer, its length, a file offset. */
  datatype Payload = Payload(val: nat, vlen: nat, fileOff: nat)

  /** A cleared slot has no key. */
  datatype TSlot = TSlot(hash: nat, key: Option<Key>, payload: Payload)

  const BLANK := TSlot(0, None, Payload(0, 0, 0))

  /** The table compares hash and key together. */
  datatype Id = Id(hash: nat, key: Key)

  predicate IsAt(s: TSlot, id: Id) {
    s.hash == id.hash && s.key == Some(id.key)
  }

  /** Every group on the way from the home group of `hash` to slot `i` is free of EMPTY. */
  ghost predicate PathClear(ctrl: seq<Ctrl>, e: nat, hash: nat, i: nat)
    requires |ctrl| == GROUP * Pow2(e) && i < |ctrl|
  {
    HomeInRange(hash, e);
    var h := HomeGroup(hash, e);
    forall d: nat | d < Dist(h, i / GROUP, Pow2(e)) :: Passed(ctrl, e, h, d)
  }

  /** The group probed after `d` steps exists and holds no EMPTY. */
  ghost predicate Passed(ctrl: seq<Ctrl>, e: nat, h: nat, d: nat)
    requires |ctrl| == GROUP * Pow2(e)
  {
    At(h, d, Pow2(e)) < Pow2(e) && !GroupHas(ctrl, At(h, d, Pow2(e)), EMPTY)
  }

  /** A live slot carries the tag of its hash, is where `pos` says, and can be reached. */
  ghost predicate LiveOK(ctrl: seq<Ctrl>, slots: seq<TSlot>, pos: map<Id, nat>, e: nat, i: nat)
    requires |ctrl| == |slots| == GROUP * Pow2(e) && i < |ctrl|
  {
    && ctrl[i] == Tag(slots[i].hash)
    && slots[i].key.Some?
    && var id := Id(slots[i].hash, slots[i].key.value);
    && id in pos && pos[id] == i
    && PathClear(ctrl, e, slots[i].hash, i)
  }

  ghost predicate PosOK(ctrl: seq<Ctrl>, slots: seq<TSlot>, pos: map<Id, nat>) {
    && |ctrl| == |slots|
    && forall id | id in pos :: pos[id] < |ctrl| && Live(ctrl[pos[id]]) && IsAt(slots[pos[id]], id)
  }

  ghost predicate TableOK(ctrl: seq<Ctrl>, slots: seq<TSlot>, pos: map<Id, nat>, e: nat) {
    && |ctrl| == |slots| == GROUP * Pow2(e)
    && PosOK(ctrl, slots, pos)
    && forall i | 0 <= i < |ctrl| && Live(ctrl[i]) :: LiveOK(ctrl, slots, pos, e, i)
  }

  /** The finite map a table stands for. */
  ghost function ContentsOf(ctrl: seq<Ctrl>, slots: seq<TSlot>, pos: map<Id, nat>): map<Id, Payload>
    requires PosOK(ctrl, slots, pos)
  {
    map id | id in pos :: slots[pos[id]].payload
  }

  // ---- edits ----

  /** A path stays clear when no byte becomes EMPTY. */
  lemma PathKept(ctrl: seq<Ctrl>, ctrl': seq<Ctrl>, e: nat, hash: nat, i: nat)
    requires |ctrl| == |ctrl'| == GROUP * Pow2(e) && i < |ctrl|
    requires forall j | 0 <= j < |ctrl| && ctrl'[j] == EMPTY :: ctrl[j] == EMPTY
    requires PathClear(ctrl, e, hash, i)
    ensures PathClear(ctrl', e, hash, i)
  {
    HomeInRange(hash, e);
    var h := HomeGroup(hash, e);
    forall d: nat | d < Dist(h, i / GROUP, Pow2(e)) ensures Passed(ctrl', e, h, d) {
      assert Passed(ctrl, e, h, d);
      var g := At(h, d, Pow2(e));
      forall b: nat | b < GROUP ensures ByteAt(ctrl', g, b) != EMPTY {
        assert ByteAt(ctrl, g, b) != EMPTY;
      }
    }
  }

  /** A free slot on a clear path takes a new key. */
  lemma FillOK(ctrl: seq<Ctrl>, slots: seq<TSlot>, pos: map<Id, nat>, e: nat, i: nat, id: Id, v: Payload)
    requires TableOK(ctrl, slots, pos, e) && i < |ctrl| && !Live(ctrl[i]) && id !in pos
    requires PathClear(ctrl, e, id.hash, i)
    ensures var ctrl', slots', pos' := ctrl[i := Tag(id.hash)], slots[i := TSlot(id.hash, Some(id.key), v)], pos[id := i];
            TableOK(ctrl', slots', pos', e) && ContentsOf(ctrl', slots', pos') == ContentsOf(ctrl, slots, pos)[id := v]
  {
    var ctrl', slots', pos' := ctrl[i := Tag(id.hash)], slots[i := TSlot(id.hash, Some(id.key), v)], pos[id := i];
    forall j | 0 <= j < |ctrl'| && Live(ctrl'[j]) ensures LiveOK(ctrl', slots', pos', e, j) {
      if j != i { assert LiveOK(ctrl, slots, pos, e, j); }
      PathKept(ctrl, ctrl', e, slots'[j].hash, j);
    }
    assert PosOK(ctrl', slots', pos');
    assert ContentsOf(ctrl', slots', pos') == ContentsOf(ctrl, slots, pos)[id := v];
  }

  /** A key that is present gets a new payload. */
  lemma UpdateOK(ctrl: seq<Ctrl>, slots: seq<TSlot>, pos: map<Id, nat>, e: nat, i: nat, id: Id, v: Payload)
    requires TableOK(ctrl, slots, pos, e) && id in pos && pos[id] == i
    ensures i < |slots|
    ensures var slots' := slots[i := slots[i].(payload := v)];
            TableOK(ctrl, slots', pos, e) && ContentsOf(ctrl, slots', pos) == ContentsOf(ctrl, slots, pos)[id := v]
  {
    var slots' := slots[i := slots[i].(payload := v)];
    forall j | 0 <= j < |ctrl| && Live(ctrl[j]) ensures LiveOK(ctrl, slots', pos, e, j) {
      assert LiveOK(ctrl, slots, pos, e, j);
    }
    assert PosOK(ctrl, slots', pos);
    assert ContentsOf(ctrl, slots', pos) == ContentsOf(ctrl, slots, pos)[id := v];
  }

  /** A key that is present is replaced by a tombstone. */
  lemma EraseOK(ctrl: seq<Ctrl>, slots: seq<TSlot>, pos: map<Id, nat>, e: nat, id: Id)
    requires TableOK(ctrl, slots, pos, e) && id in pos
    ensures var i := pos[id];
            var ctrl', slots', pos' := ctrl[i := DELETED], slots[i := BLANK], pos - {id};
            TableOK(ctrl', slots', pos', e) && ContentsOf(ctrl', slots', pos') == ContentsOf(ctrl, slots, pos) - {id}
  {
    var i := pos[id];
    var ctrl', slots', pos' := ctrl[i := DELETED], slots[i := BLANK], pos - {id};
    assert LiveOK(ctrl, slots, pos, e, i);
    forall j | 0 <= j < |ctrl'| && Live(ctrl'[j]) ensures LiveOK(ctrl', slots', pos', e, j) {
      assert LiveOK(ctrl, slots, pos, e, j);
      PathKept(ctrl, ctrl', e, slots[j].hash, j);
    }
    forall id' | id' in pos' ensures pos'[id'] < |ctrl'| && Live(ctrl'[pos'[id']]) && IsAt(slots'[pos'[id']], id') {
      assert pos[id'] != i;
    }
    assert ContentsOf(ctrl', slots', pos') == ContentsOf(ctrl, slots, pos) - {id};
  }

  // ---- probing ----

  /** No slot of group `g` holds `id`. */
  ghost predicate NotInGroup(ctrl: seq<Ctrl>, slots: seq<TSlot>, g: nat, id: Id)
    requires g * GROUP + GROUP <= |ctrl| == |slots|
  {
    forall b: nat | b < GROUP :: !(Live(ByteAt(ctrl, g, b)) && IsAt(slots[g * GROUP + b], id))
  }

  /** After `d` probes: each probed group is free of EMPTY and of `id`. */
  ghost predicate Probed(ctrl: seq<Ctrl>, slots: seq<TSlot>, e: nat, id: Id, d: nat)
    requires |ctrl| == |slots| == GROUP * Pow2(e)
  {
    HomeInRange(id.hash, e);
    var h := HomeGroup(id.hash, e);
    forall n: nat | n < d :: Passed(ctrl, e, h, n) && ProbedOne(ctrl, slots, e, id, h, n)
  }

  ghost predicate ProbedOne(ctrl: seq<Ctrl>, slots: seq<TSlot>, e: nat, id: Id, h: nat, n: nat)
    requires |ctrl| == |slots| == GROUP * Pow2(e)
  {
    At(h, n, Pow2(e)) < Pow2(e) && NotInGroup(ctrl, slots, At(h, n, Pow2(e)), id)
  }

  lemma ProbedNext(ctrl: seq<Ctrl>, slots: seq<TSlot>, e: nat, id: Id, d: nat, g: nat)
    requires |ctrl| == |slots| == GROUP * Pow2(e) && Probed(ctrl, slots, e, id, d) && d < Pow2(e)
    requires g == At(HomeGroup(id.hash, e), d, Pow2(e)) < Pow2(e)
    requires !GroupHas(ctrl, g, EMPTY) && NotInGroup(ctrl, slots, g, id)
    ensures Probed(ctrl, slots, e, id, d + 1)
    ensures d + 1 < Pow2(e) ==> BitAnd(g + 1, Pow2(e) - 1) == At(HomeGroup(id.hash, e), d + 1, Pow2(e))
  {
    HomeInRange(id.hash, e);
    NextWraps(g, e);
  }

  /** A key that is present sits in some group of its probe order, and no group before that
      one holds EMPTY. */
  lemma WhereIs(ctrl: seq<Ctrl>, slots: seq<TSlot>, pos: map<Id, nat>, e: nat, id: Id) returns (n: nat)
    requires TableOK(ctrl, slots, pos, e) && id in pos
    ensures n < Pow2(e) && !ProbedOne(ctrl, slots, e, id, HomeGroup(id.hash, e), n)
    ensures forall m: nat | m < n :: Passed(ctrl, e, HomeGroup(id.hash, e), m)
  {
    HomeInRange(id.hash, e);
    var h, i := HomeGroup(id.hash, e), pos[id];
    assert LiveOK(ctrl, slots, pos, e, i);
    n := Dist(h, i / GROUP, Pow2(e));
    DistAt(h, i / GROUP, Pow2(e));
    assert ByteAt(ctrl, i / GROUP, i % GROUP) == ctrl[i];
  }

  /** A probe that meets EMPTY without having met the key proves its absence: the key's own
      path would have to run through that EMPTY. */
  lemma AbsentAtEmpty(ctrl: seq<Ctrl>, slots: seq<TSlot>, pos: map<Id, nat>, e: nat, id: Id, d: nat)
    requires TableOK(ctrl, slots, pos, e) && d < Pow2(e) && Probed(ctrl, slots, e, id, d)
    requires ProbedOne(ctrl, slots, e, id, HomeGroup(id.hash, e), d)
    requires !Passed(ctrl, e, HomeGroup(id.hash, e), d)
    ensures id !in pos
  {
    if id in pos {
      var n := WhereIs(ctrl, slots, pos, e, id);
    }
  }

  /** A probe of all groups without meeting the key proves its absence. */
  lemma AbsentAfterAll(ctrl: seq<Ctrl>, slots: seq<TSlot>, pos: map<Id, nat>, e: nat, id: Id)
    requires TableOK(ctrl, slots, pos, e) && Probed(ctrl, slots, e, id, Pow2(e))
    ensures id !in pos && EMPTY !in ctrl
  {
    HomeInRange(id.hash, e);
    var h := HomeGroup(id.hash, e);
    forall i | 0 <= i < |ctrl| ensures ctrl[i] != EMPTY && !(Live(ctrl[i]) && IsAt(slots[i], id)) {
      var n := Dist(h, i / GROUP, Pow2(e));
      DistAt(h, i / GROUP, Pow2(e));
      assert Passed(ctrl, e, h, n) && ProbedOne(ctrl, slots, e, id, h, n);
      assert ByteAt(ctrl, i / GROUP, i % GROUP) == ctrl[i];
    }
  }

  /** The groups probed so far form the clear path to any slot of the next group or of a
      group already probed. */
  lemma PathToSlot(ctrl: seq<Ctrl>, slots: seq<TSlot>, e: nat, id: Id, d: nat, n: nat, i: nat)
    requires |ctrl| == |slots| == GROUP * Pow2(e) && Probed(ctrl, slots, e, id, d) && n <= d && n < Pow2(e)
    requires i < |ctrl| && i / GROUP == At(HomeGroup(id.hash, e), n, Pow2(e))
    ensures PathClear(ctrl, e, id.hash, i)
  {
    HomeInRange(id.hash, e);
    var h := HomeGroup(id.hash, e);
    AtDist(h, n, Pow2(e));
    forall m: nat | m < n ensures Passed(ctrl, e, h, m) {
      assert ProbedOne(ctrl, slots, e, id, h, m);
    }
  }

  // ---- where a new key goes ----

  /** The group probed after `d` steps has live slots only. */
  ghost predicate AllLive(ctrl: seq<Ctrl>, e: nat, h: nat, d: nat)
    requires |ctrl| == GROUP * Pow2(e)
  {
    Passed(ctrl, e, h, d) && !GroupHas(ctrl, At(h, d, Pow2(e)), DELETED)
  }

  ghost predicate LowestOf(ctrl: seq<Ctrl>, i: nat, c: Ctrl) {
    i < |ctrl| && ctrl[i] == c && forall j | i / GROUP * GROUP <= j < i :: ctrl[j] != c
  }

  /** The first group of the probe order with a slot that is not live, and there the lowest
      tombstone, else the lowest empty slot; -1 when every slot of the table is live. */
  ghost predicate Chosen(ctrl: seq<Ctrl>, e: nat, hash: nat, free: int)
    requires |ctrl| == GROUP * Pow2(e)
  {
    HomeInRange(hash, e);
    var h := HomeGroup(hash, e);
    if free < 0 then forall i | 0 <= i < |ctrl| :: Live(ctrl[i])
    else
      && free < |ctrl|
      && (forall d: nat | d < Dist(h, free / GROUP, Pow2(e)) :: AllLive(ctrl, e, h, d))
      && (LowestOf(ctrl, free, DELETED) || (LowestOf(ctrl, free, EMPTY) && !GroupHas(ctrl, free / GROUP, DELETED)))
  }

  lemma ChosenAt(ctrl: seq<Ctrl>, e: nat, hash: nat, d: nat, free: nat)
    requires |ctrl| == GROUP * Pow2(e) && d < Pow2(e) && free < |ctrl|
    requires forall n: nat | n < d :: AllLive(ctrl, e, HomeGroup(hash, e), n)
    requires free / GROUP == At(HomeGroup(hash, e), d, Pow2(e))
    requires LowestOf(ctrl, free, DELETED) || (LowestOf(ctrl, free, EMPTY) && !GroupHas(ctrl, free / GROUP, DELETED))
    ensures Chosen(ctrl, e, hash, free)
  {
    HomeInRange(hash, e);
    AtDist(HomeGroup(hash, e), d, Pow2(e));
  }

  lemma NoneChosen(ctrl: seq<Ctrl>, e: nat, hash: nat)
    requires |ctrl| == GROUP * Pow2(e)
    requires forall n: nat | n < Pow2(e) :: AllLive(ctrl, e, HomeGroup(hash, e), n)
    ensures Chosen(ctrl, e, hash, -1)
  {
    HomeInRange(hash, e);
    var h := HomeGroup(hash, e);
    forall i | 0 <= i < |ctrl| ensures Live(ctrl[i]) {
      var n := Dist(h, i / GROUP, Pow2(e));
      DistAt(h, i / GROUP, Pow2(e));
      assert AllLive(ctrl, e, h, n);
      assert ByteAt(ctrl, i / GROUP, i % GROUP) == ctrl[i];
    }
  }

  /** There is exactly one slot to choose. */
  lemma ChosenOnce(ctrl: seq<Ctrl>, e: nat, hash: nat, i: nat, j: int)
    requires |ctrl| == GROUP * Pow2(e) && Chosen(ctrl, e, hash, i) && Chosen(ctrl, e, hash, j)
    ensures i == j
  {
    NotAllLive(ctrl, e, hash, i);
    if j >= 0 { NotAllLive(ctrl, e, hash, j); }
  }

  lemma NotAllLive(ctrl: seq<Ctrl>, e: nat, hash: nat, i: nat)
    requires |ctrl| == GROUP * Pow2(e) && i < |ctrl| && !Live(ctrl[i])
    ensures var h := HomeGroup(hash, e);
            && h < Pow2(e) && At(h, Dist(h, i / GROUP, Pow2(e)), Pow2(e)) == i / GROUP
            && !AllLive(ctrl, e, h, Dist(h, i / GROUP, Pow2(e))) && GroupHas(ctrl, i / GROUP, ctrl[i])
  {
    HomeInRange(hash, e);
    DistAt(HomeGroup(hash, e), i / GROUP, Pow2(e));
    assert ByteAt(ctrl, i / GROUP, i % GROUP) == ctrl[i];
  }

  // ---- migration ----

  /** The live entries of slots `lo .. hi`, added to `m` one by one. */
  ghost function Merged(m: map<Id, Payload>, ctrl: seq<Ctrl>, slots: seq<TSlot>, lo: nat, hi: nat): map<Id, Payload>
    requires lo <= hi && hi <= |ctrl| && |ctrl| == |slots|
    decreases hi
  {
    if lo == hi then m
    else
      var before := Merged(m, ctrl, slots, lo, hi - 1);
      if Live(ctrl[hi - 1]) && slots[hi - 1].key.Some? then
        before[Id(slots[hi - 1].hash, slots[hi - 1].key.value) := slots[hi - 1].payload]
      else before
  }

  /** What the first `n` slots hold. */
  ghost function PrefixMap(ctrl: seq<Ctrl>, slots: seq<TSlot>, pos: map<Id, nat>, n: nat): map<Id, Payload>
    requires PosOK(ctrl, slots, pos)
  {
    map id | id in pos && pos[id] < n :: slots[pos[id]].payload
  }

  lemma {:induction false} MergedPrefix(ctrl: seq<Ctrl>, slots: seq<TSlot>, pos: map<Id, nat>, e: nat, n: nat)
    requires TableOK(ctrl, slots, pos, e) && n <= |ctrl|
    ensures Merged(map[], ctrl, slots, 0, n) == PrefixMap(ctrl, slots, pos, n)
    decreases n
  {
    if n == 0 {
      assert PrefixMap(ctrl, slots, pos, 0) == map[];
    } else {
      MergedPrefix(ctrl, slots, pos, e, n - 1);
      if Live(ctrl[n - 1]) { assert LiveOK(ctrl, slots, pos, e, n - 1); }
      PrefixStep(ctrl, slots, pos, n - 1);
    }
  }

  /** A live slot adds its own key, a new one; any other slot adds nothing. */
  lemma PrefixStep(ctrl: seq<Ctrl>, slots: seq<TSlot>, pos: map<Id, nat>, n: nat)
    requires PosOK(ctrl, slots, pos) && n < |ctrl|
    requires Live(ctrl[n]) ==> slots[n].key.Some? && Id(slots[n].hash, slots[n].key.value) in pos
                               && pos[Id(slots[n].hash, slots[n].key.value)] == n
    ensures var p, q := PrefixMap(ctrl, slots, pos, n), PrefixMap(ctrl, slots, pos, n + 1);
            if Live(ctrl[n]) then
              var id := Id(slots[n].hash, slots[n].key.value);
              id !in p && q == p[id := slots[n].payload]
            else q == p
  {
    var p, q := PrefixMap(ctrl, slots, pos, n), PrefixMap(ctrl, slots, pos, n + 1);
    if Live(ctrl[n]) {
      var id := Id(slots[n].hash, slots[n].key.value);
      assert q.Keys == p.Keys + {id};
      assert q == p[id := slots[n].payload];
    } else {
      assert q.Keys == p.Keys;
      assert q == p;
    }
  }

  /** Merging all slots of a well-formed table gives exactly its contents. */
  lemma MergedAll(ctrl: seq<Ctrl>, slots: seq<TSlot>, pos: map<Id, nat>, e: nat)
    requires TableOK(ctrl, slots, pos, e)
    ensures Merged(map[], ctrl, slots, 0, |ctrl|) == ContentsOf(ctrl, slots, pos)
  {
    MergedPrefix(ctrl, slots, pos, e, |ctrl|);
    assert PrefixMap(ctrl, slots, pos, |ctrl|) == ContentsOf(ctrl, slots, pos);
  }

  lemma FreshTableOK(e: nat, ctrl: seq<Ctrl>, slots: seq<TSlot>)
    requires |slots| == |ctrl| == GROUP * Pow2(e)
    requires forall i | 0 <= i < |ctrl| :: ctrl[i] == EMPTY
    ensures TableOK(ctrl, slots, map[], e) && ContentsOf(ctrl, slots, map[]) == map[]
    ensures CountLive(ctrl) == CountDeleted(ctrl) == 0
  {
    assert ctrl == seq(|ctrl|, _ => EMPTY);
    CountFresh(|ctrl|);
  }

  /** `memset(ctrl, CTRL_EMPTY, cap)` and zeroed slots. */
  method BlankTable(cap: nat, ghost e: nat) returns (ctrl: seq<Ctrl>, slots: seq<TSlot>)
    requires cap == GROUP * Pow2(e)
    ensures |ctrl| == |slots| == cap && TableOK(ctrl, slots, map[], e) && ContentsOf(ctrl, slots, map[]) == map[]
    ensures CountLive(ctrl) == CountDeleted(ctrl) == 0
  {
    ctrl, slots := seq(cap, _ => EMPTY), seq(cap, _ => BLANK);
    FreshTableOK(e, ctrl, slots);
  }

  /** `table_migrate_batch` takes its count as a 32-bit number. */
  const BATCH_LIMIT := 0x1_0000_0000

  lemma WholeBatches(e: nat)
    requires GROUP * Pow2(e) >= BATCH_LIMIT
    ensures (GROUP * Pow2(e)) % BATCH_LIMIT == 0
  {
    assert Pow2(14) == 0x4000;
    Pow2Add(14, 14);
    assert GROUP * Pow2(28) == BATCH_LIMIT;
    if e < 28 { Pow2Monotone(e, 27); }
    Pow2Add(28, e - 28);
    var q := Pow2(e - 28);
    assert GROUP * Pow2(e) == q * BATCH_LIMIT;
    ModUnique(GROUP * Pow2(e), BATCH_LIMIT, q, 0);
  }

  /** The mask loop: among the slots of group `g` with the right tag, the one that holds the
      key, or -1. */
  method MatchKey(ctrl: seq<Ctrl>, slots: seq<TSlot>, g: nat, hash: nat, key: Key) returns (idx: int)
    requires |ctrl| == |slots| && g * GROUP + GROUP <= |ctrl|
    ensures idx >= 0 ==> idx < |ctrl| && ctrl[idx] == Tag(hash) && IsAt(slots[idx], Id(hash, key))
    ensures idx < 0 ==> forall b: nat | b < GROUP && ByteAt(ctrl, g, b) == Tag(hash) ::
                          !IsAt(slots[g * GROUP + b], Id(hash, key))
  {
    ghost var id := Id(hash, key);
    var tag := Tag(hash);
    var m: nat := MatchGroup(ctrl, g, tag);
    while m != 0
      invariant Pending(ctrl, slots, g, tag, id, m)
      decreases m
    {
      PendingNext(ctrl, slots, g, tag, id, m);
      idx := g * GROUP + Ctz(m);
      if slots[idx].hash == hash && slots[idx].key == Some(key) {
        return;
      }
      m := BitAnd(m, m - 1);
    }
    forall b: nat | b < GROUP ensures !Bit(0, b) { ZeroBits(b); }
    idx := -1;
  }

  /** The set bits are slots with the tag that are still to be compared. */
  ghost predicate Pending(ctrl: seq<Ctrl>, slots: seq<TSlot>, g: nat, tag: Ctrl, id: Id, m: nat)
    requires |ctrl| == |slots| && g * GROUP + GROUP <= |ctrl|
  {
    && m < Pow2(GROUP)
    && (forall b: nat | b < GROUP && Bit(m, b) :: ByteAt(ctrl, g, b) == tag)
    && forall b: nat | b < GROUP && ByteAt(ctrl, g, b) == tag && !Bit(m, b) :: !IsAt(slots[g * GROUP + b], id)
  }

  lemma PendingNext(ctrl: seq<Ctrl>, slots: seq<TSlot>, g: nat, tag: Ctrl, id: Id, m: nat)
    requires |ctrl| == |slots| && g * GROUP + GROUP <= |ctrl|
    requires m != 0 && Pending(ctrl, slots, g, tag, id, m)
    ensures Ctz(m) < GROUP && ByteAt(ctrl, g, Ctz(m)) == tag && BitAnd(m, m - 1) < m
    ensures !IsAt(slots[g * GROUP + Ctz(m)], id) ==> Pending(ctrl, slots, g, tag, id, BitAnd(m, m - 1))
  {
    CtzIsLowest(m);
    CtzBound(m, GROUP);
    ClearLowest(m, 0);
    forall b: nat | b < GROUP ensures Bit(BitAnd(m, m - 1), b) == (Bit(m, b) && b != Ctz(m)) { ClearLowest(m, b); }
  }

  class Table {
    var ctrl: seq<Ctrl>
    var slots: seq<TSlot>
    var cap: nat
    var count: nat
    var tombstones: nat
    var growAt: nat
    /** The table being migrated away from; empty when there is none. */
    var oldCtrl: seq<Ctrl>
    var oldSlots: seq<TSlot>
    var oldMigrated: nat
    ghost var e: nat
    ghost var pos: map<Id, nat>

    /** Structure and bookkeeping of the current table. */
    ghost predicate Shape()
      reads this
    {
      && cap == |ctrl| && TableOK(ctrl, slots, pos, e)
      && count == CountLive(ctrl) && tombstones == CountDeleted(ctrl)
      && growAt == cap * MAX_LOAD / GROUP
    }

    /** Between operations nothing is left to migrate and the load limit holds. */
    ghost predicate Valid()
      reads this
    {
      Shape() && count + tombstones <= growAt && oldCtrl == []
    }

    ghost function Contents(): map<Id, Payload>
      requires Shape()
      reads this
    {
      ContentsOf(ctrl, slots, pos)
    }

    /** `table_alloc` for 16 * 2^e slots. */
    constructor (e: nat)
      ensures Valid() && Contents() == map[] && cap == GROUP * Pow2(e)
    {
      this.e := e;
      cap := GROUP * Pow2(e);
      growAt := GROUP * Pow2(e) * MAX_LOAD / GROUP;
      ctrl := seq(GROUP * Pow2(e), _ => EMPTY);
      slots := seq(GROUP * Pow2(e), _ => BLANK);
      count, tombstones := 0, 0;
      oldCtrl, oldSlots, oldMigrated := [], [], 0;
      pos := map[];
      new;
      FreshTableOK(e, ctrl, slots);
    }

    /** The slot of group `g` that holds the key, or -1. */
    method FindInGroup(g: nat, hash: nat, key: Key) returns (idx: int)
      requires Shape() && g < Pow2(e)
      ensures idx >= 0 ==> idx < cap && Live(ctrl[idx]) && IsAt(slots[idx], Id(hash, key))
      ensures idx < 0 ==> NotInGroup(ctrl, slots, g, Id(hash, key))
    {
      idx := MatchKey(ctrl, slots, g, hash, key);
      if idx < 0 { TagsTell(ctrl, slots, pos, e, g, Id(hash, key)); }
    }

    /** The lowest slot of group `g` with control byte `c`, or -1. */
    method GroupFirst(g: nat, c: Ctrl) returns (p: int)
      requires Shape() && g < Pow2(e)
      ensures p >= 0 ==> p / GROUP == g && LowestOf(ctrl, p, c)
      ensures p >= 0 <==> GroupHas(ctrl, g, c)
    {
      var m := MatchGroup(ctrl, g, c);
      NoMatch(ctrl, g, c, m);
      if m == 0 {
        return -1;
      }
      LowestMatch(ctrl, g, c, m);
      p := g * GROUP + Ctz(m);
      forall j | g * GROUP <= j < p ensures ctrl[j] != c {
        assert ByteAt(ctrl, g, j - g * GROUP) != c;
      }
    }

    /** `table_find`: a slot exactly when the key is in the map. */
    method Find(hash: nat, key: Key) returns (idx: int)
      requires Shape()
      ensures idx >= 0 <==> Id(hash, key) in Contents()
      ensures idx >= 0 ==> pos[Id(hash, key)] == idx && slots[idx].payload == Contents()[Id(hash, key)]
    {
      var free;
      idx, free := Probe(hash, key);
    }

    /** The probe loop shared by `table_find` and `table_insert`: the slot of the key, or
        -1 and the slot a new key would take (-1 when there is none). */
    method Probe(hash: nat, key: Key) returns (idx: int, free: int)
      requires Shape()
      ensures idx >= 0 <==> Id(hash, key) in pos
      ensures idx >= 0 ==> pos[Id(hash, key)] == idx
      ensures idx < 0 && free >= 0 ==> free < cap && !Live(ctrl[free]) && PathClear(ctrl, e, hash, free)
      ensures idx < 0 ==> Chosen(ctrl, e, hash, free)
    {
      ghost var id := Id(hash, key);
      ghost var h := HomeGroup(hash, e);
      HomeInRange(hash, e);
      assert (cap - 1) / GROUP == (GROUP * Pow2(e) - 1) / GROUP;
      var g := BitAnd(hash / 128, (cap - 1) / GROUP);
      var nr := cap / GROUP;
      assert nr == Pow2(e);
      var firstDel := -1;
      ghost var delStep := 0;
      var probe := 0;
      while probe < nr
        invariant probe <= nr && Probed(ctrl, slots, e, id, probe)
        invariant probe < nr ==> g == At(h, probe, nr)
        invariant firstDel >= 0 ==> LowestOf(ctrl, firstDel, DELETED) && delStep < probe
                                    && firstDel / GROUP == At(h, delStep, nr)
        invariant forall n: nat | n < (if firstDel < 0 then probe else delStep) :: AllLive(ctrl, e, h, n)
      {
        AtDist(h, probe, nr);
        idx := FindInGroup(g, hash, key);
        if idx >= 0 {
          assert LiveOK(ctrl, slots, pos, e, idx);
          free := -1;
          return;
        }
        if firstDel < 0 {
          firstDel := GroupFirst(g, DELETED);
          delStep := probe;
        }
        var empty := GroupFirst(g, EMPTY);
        if empty >= 0 {
          AbsentAtEmpty(ctrl, slots, pos, e, id, probe);
          free := if firstDel >= 0 then firstDel else empty;
          PathToSlot(ctrl, slots, e, id, probe, if firstDel >= 0 then delStep else probe, free);
          ChosenAt(ctrl, e, hash, if firstDel >= 0 then delStep else probe, free);
          return;
        }
        ProbedNext(ctrl, slots, e, id, probe, g);
        g := BitAnd(g + 1, nr - 1);
        probe := probe + 1;
      }
      AbsentAfterAll(ctrl, slots, pos, e, id);
      idx, free := -1, firstDel;
      if firstDel >= 0 {
        PathToSlot(ctrl, slots, e, id, probe, delStep, free);
        ChosenAt(ctrl, e, hash, delStep, free);
      } else {
        NoneChosen(ctrl, e, hash);
      }
    }

    /** `table_insert`: 1 when the key was there and its payload was replaced, 0 when it was
        added in the slot that is chosen for it, -1 only when every slot is live. */
    method Insert(hash: nat, key: Key, v: Payload) returns (rc: int)
      requires Shape()
      modifies this`ctrl, this`slots, this`count, this`tombstones, this`pos
      ensures Shape() && (rc == 1 || rc == 0 || rc == -1)
      ensures rc == 1 <==> Id(hash, key) in old(Contents())
      ensures rc >= 0 ==> Contents() == old(Contents())[Id(hash, key) := v]
      ensures rc == -1 ==> Contents() == old(Contents()) && Chosen(old(ctrl), e, hash, -1)
      ensures rc == 0 ==>
                && Id(hash, key) in pos
                && var i := pos[Id(hash, key)];
                && i < |old(ctrl)| && Chosen(old(ctrl), e, hash, i)
                && ctrl == old(ctrl)[i := Tag(hash)] && count == old(count) + 1
                && tombstones == old(tombstones) - if old(ctrl)[i] == DELETED then 1 else 0
      ensures count + tombstones <= old(count + tombstones) + (if rc == 0 then 1 else 0)
      ensures tombstones <= old(tombstones)
      ensures rc == 1 ==> ctrl == old(ctrl) && count == old(count) && tombstones == old(tombstones)
    {
      ghost var id := Id(hash, key);
      var idx, free := Probe(hash, key);
      if idx >= 0 {
        UpdateOK(ctrl, slots, pos, e, idx, id, v);
        slots := slots[idx := slots[idx].(payload := v)];
        return 1;
      }
      if free < 0 {
        return -1;
      }
      FillOK(ctrl, slots, pos, e, free, id, v);
      CountUpdate(ctrl, free, Tag(hash));
      var wasTomb := ctrl[free] == DELETED;
      ctrl := ctrl[free := Tag(hash)];
      slots := slots[free := TSlot(hash, Some(key), v)];
      pos := pos[id := free];
      count := count + 1;
      if wasTomb {
        tombstones := tombstones - 1;
      }
      return 0;
    }

    /** `table_del`. */
    method Del(hash: nat, key: Key) returns (ok: bool)
      requires Valid()
      modifies this`ctrl, this`slots, this`count, this`tombstones, this`pos
      ensures Valid() && (ok <==> Id(hash, key) in old(Contents()))
      ensures Contents() == old(Contents()) - {Id(hash, key)}
      ensures ok ==>
                && ctrl == old(ctrl)[old(pos[Id(hash, key)]) := DELETED]
                && slots == old(slots)[old(pos[Id(hash, key)]) := BLANK]
                && count == old(count) - 1 && tombstones == old(tombstones) + 1
      ensures !ok ==> ctrl == old(ctrl) && slots == old(slots)
    {
      ghost var id := Id(hash, key);
      var idx := Find(hash, key);
      if idx < 0 {
        assert Contents() - {id} == Contents();
        return false;
      }
      EraseOK(ctrl, slots, pos, e, id);
      CountUpdate(ctrl, idx, DELETED);
      slots := slots[idx := BLANK];
      ctrl := ctrl[idx := DELETED];
      pos := pos - {id};
      count := count - 1;
      tombstones := tombstones + 1;
      return true;
    }

    /** Slots still to be migrated, all of which fit under the load limit. */
    ghost predicate Migrating()
      reads this
    {
      && Shape() && |oldCtrl| == |oldSlots| && oldMigrated <= |oldCtrl|
      && count + tombstones + (|oldCtrl| - oldMigrated) <= growAt < cap
    }

    /** `table_migrate_batch`: the next `batch` slots of the old table are moved over, the
        live ones inserted, tombstones dropped; no insertion can fail. */
    method MigrateBatch(batch: nat)
      requires Migrating()
      modifies this
      ensures Shape() && cap == old(cap) && growAt == old(growAt) && e == old(e)
      ensures tombstones <= old(tombstones)
      ensures count + tombstones <= old(count + tombstones) + (|old(oldCtrl)| - old(oldMigrated))
      ensures var hi := if old(oldMigrated) + batch < |old(oldCtrl)| then old(oldMigrated) + batch else |old(oldCtrl)|;
              && Contents() == Merged(old(Contents()), old(oldCtrl), old(oldSlots), old(oldMigrated), hi)
              && (oldCtrl == [] <==> hi == |old(oldCtrl)|)
              && (oldCtrl != [] ==> Migrating() && oldCtrl == old(oldCtrl) && oldSlots == old(oldSlots) && oldMigrated == hi)
    {
      if oldCtrl == [] {
        return;
      }
      ghost var m0, lo := Contents(), oldMigrated;
      var i := 0;
      while i < batch && oldMigrated < |oldCtrl|
        invariant Migrating() && i <= batch && oldMigrated == lo + i
        invariant oldCtrl == old(oldCtrl) && oldSlots == old(oldSlots)
        invariant cap == old(cap) && growAt == old(growAt) && e == old(e) && tombstones <= old(tombstones)
        invariant count + tombstones <= old(count + tombstones) + i
        invariant Contents() == Merged(m0, oldCtrl, oldSlots, lo, oldMigrated)
      {
        MigrateOne();
        i := i + 1;
      }
      if oldMigrated >= |oldCtrl| {
        oldCtrl, oldSlots := [], [];
      }
    }

    method MigrateOne()
      requires Migrating() && oldMigrated < |oldCtrl|
      modifies this`ctrl, this`slots, this`count, this`tombstones, this`pos, this`oldMigrated
      ensures Migrating() && oldMigrated == old(oldMigrated) + 1 && tombstones <= old(tombstones)
      ensures count + tombstones <= old(count + tombstones) + 1
      ensures var s := oldSlots[old(oldMigrated)];
              Contents() == if Live(oldCtrl[old(oldMigrated)]) && s.key.Some?
                            then old(Contents())[Id(s.hash, s.key.value) := s.payload] else old(Contents())
    {
      var idx := oldMigrated;
      oldMigrated := oldMigrated + 1;
      var s := oldSlots[idx];
      if oldCtrl[idx] != EMPTY && oldCtrl[idx] != DELETED && s.key.Some? {
        CountFull(ctrl);
        var rc := Insert(s.hash, s.key.value, s.payload);
      }
    }

    /** `table_grow`: a table of twice the size. Below 2^32 slots it has the same contents and
        the old table is drained completely; from 2^32 slots on the batch count is cut to
        zero, nothing is moved, and a lookup sees an empty table. */
    method Grow()
      requires Valid()
      modifies this
      ensures Shape() && cap == 2 * old(cap)
      ensures old(cap) < BATCH_LIMIT ==>
                Valid() && Contents() == old(Contents()) && tombstones == 0 && count + tombstones < growAt
      ensures old(cap) >= BATCH_LIMIT ==>
                Migrating() && Contents() == map[] && oldCtrl == old(ctrl) && oldSlots == old(slots) && oldMigrated == 0
    {
      MergedAll(ctrl, slots, pos, e);
      if cap >= BATCH_LIMIT { WholeBatches(e); }
      Renew();
      MigrateBatch(|oldCtrl| % BATCH_LIMIT);
    }

    /** The current table becomes the old one, behind an empty table of twice its size. */
    method Renew()
      requires cap == |ctrl| == GROUP * Pow2(e)
      modifies this
      ensures Shape() && Contents() == map[] && count == tombstones == 0
      ensures oldCtrl == old(ctrl) && oldSlots == old(slots) && oldMigrated == 0
      ensures cap == 2 * old(cap) && growAt == cap * MAX_LOAD / GROUP
    {
      var newCap := cap * 2;
      oldCtrl, oldSlots, oldMigrated := ctrl, slots, 0;
      var c, s := BlankTable(newCap, e + 1);
      cap, growAt, count, tombstones := newCap, newCap * MAX_LOAD / GROUP, 0, 0;
      ctrl, slots, pos, e := c, s, map[], e + 1;
    }

    /** Does a put grow the table where growing hides its entries? */
    ghost predicate GrowsBlind()
      reads this
    {
      cap >= BATCH_LIMIT && count + tombstones >= growAt
    }

    /** `table_put`. The table grows when the load limit is reached, so an empty slot always
        remains and the insertion never fails; the retry after a failed insertion is never
        needed. Only a put that has to grow a table of 2^32 slots or more leaves entries
        behind: all but those of the first 64 old slots. */
    method Put(hash: nat, key: Key, v: Payload) returns (rc: int)
      requires Valid()
      modifies this
      ensures Shape() && rc >= 0
      ensures !old(GrowsBlind()) ==>
                && Valid() && Contents() == old(Contents())[Id(hash, key) := v]
                && rc == if Id(hash, key) in old(Contents()) then 1 else 0
      ensures old(GrowsBlind()) ==>
                Contents() == Merged(map[], old(ctrl), old(slots), 0, 64)[Id(hash, key) := v]
      ensures cap == if old(count + tombstones >= growAt) then 2 * old(cap) else old(cap)
    {
      if count + tombstones >= growAt {
        Grow();
      }
      if oldCtrl != [] {
        MigrateBatch(64);
      }
      rc := InsertFree(hash, key, v);
    }

    /** With an empty slot in the table an insertion cannot fail. */
    method InsertFree(hash: nat, key: Key, v: Payload) returns (rc: int)
      requires Shape() && count + tombstones < cap
      modifies this`ctrl, this`slots, this`count, this`tombstones, this`pos
      ensures Shape() && rc == if Id(hash, key) in old(Contents()) then 1 else 0
      ensures Contents() == old(Contents())[Id(hash, key) := v]
      ensures count + tombstones <= old(count + tombstones) + 1 - rc
    {
      CountFull(ctrl);
      rc := Insert(hash, key, v);
    }

    /** Live entries and map entries are the same number. */
    lemma CountIsSize()
      requires Shape()
      ensures count == |Contents()|
    {
      SizeOfPrefix(ctrl, slots, pos, e, |ctrl|);
      assert ctrl[..|ctrl|] == ctrl;
      assert PrefixMap(ctrl, slots, pos, |ctrl|) == Contents();
    }
  }

  /** A group has no slot of the key when no slot with its tag is one. */
  lemma TagsTell(ctrl: seq<Ctrl>, slots: seq<TSlot>, pos: map<Id, nat>, e: nat, g: nat, id: Id)
    requires TableOK(ctrl, slots, pos, e) && g < Pow2(e)
    requires forall b: nat | b < GROUP && ByteAt(ctrl, g, b) == Tag(id.hash) :: !IsAt(slots[g * GROUP + b], id)
    ensures NotInGroup(ctrl, slots, g, id)
  {
    forall b: nat | b < GROUP ensures !(Live(ByteAt(ctrl, g, b)) && IsAt(slots[g * GROUP + b], id)) {
      if Live(ByteAt(ctrl, g, b)) { assert LiveOK(ctrl, slots, pos, e, g * GROUP + b); }
    }
  }

  lemma {:induction false} SizeOfPrefix(ctrl: seq<Ctrl>, slots: seq<TSlot>, pos: map<Id, nat>, e: nat, n: nat)
    requires TableOK(ctrl, slots, pos, e) && n <= |ctrl|
    ensures |PrefixMap(ctrl, slots, pos, n)| == CountLive(ctrl[..n])
    decreases n
  {
    var q := PrefixMap(ctrl, slots, pos, n);
    if n == 0 {
      assert q == map[];
    } else {
      SizeOfPrefix(ctrl, slots, pos, e, n - 1);
      assert ctrl[..n][..n - 1] == ctrl[..n - 1];
      if Live(ctrl[n - 1]) { assert LiveOK(ctrl, slots, pos, e, n - 1); }
      PrefixStep(ctrl, slots, pos, n - 1);
    }
  }
}
