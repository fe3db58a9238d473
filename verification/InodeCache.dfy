/** The inode cache: occupancy accounting, growth, eviction and what a lookup after a put sees. */
module InodeCache {
  import opened Bits
  import opened PagedLayout
  import SwissGroups

  const CAP_INIT := 16384
  const MAX_ENTRIES := 131072
  const VALID := 0x80
  const PROBES := 16

  datatype Entry = Entry(ctrl: nat, hash: nat, dirty: bool, key: Key, inode: Value)

  /** What `xxfs_os_zalloc` leaves in a slot. */
  const ZERO := Entry(0, 0, false, [], [])

  predicate Used(x: Entry) {
    x.ctrl != 0
  }

  /** The low seven bits of the hash under the valid bit. */
  function CtrlOf(hash: nat): (c: nat)
    ensures c == VALID + hash % 128
  {
    assert Pow2(7) == 128;
    AndMask(hash, 7);
    BitAnd(hash, 0x7F) + VALID
  }

  // ---- the entries as a bag ----

  ghost function One(x: Entry): multiset<Entry> {
    if Used(x) then multiset{x} else multiset{}
  }

  /** The entry an operation reports, if any. */
  ghost function Held(o: Option<Entry>): multiset<Entry> {
    if o.Some? then multiset{o.value} else multiset{}
  }

  /** A zeroed table. */
  function Fresh(n: nat): (t: seq<Entry>)
    ensures |t| == n && forall i | 0 <= i < n :: t[i] == ZERO
  {
    seq(n, _ => ZERO)
  }

  /** The used entries, with multiplicity. */
  ghost function Bag(t: seq<Entry>): multiset<Entry> {
    if t == [] then multiset{} else Bag(t[..|t| - 1]) + One(t[|t| - 1])
  }

  lemma {:induction false} BagUpdate(t: seq<Entry>, i: nat, x: Entry)
    requires i < |t|
    ensures Bag(t[i := x]) + One(t[i]) == Bag(t) + One(x)
    decreases |t|
  {
    var n := |t| - 1;
    if i < n {
      BagUpdate(t[..n], i, x);
      assert t[i := x][..n] == t[..n][i := x];
      calc {
        Bag(t[i := x]) + One(t[i]);
        (Bag(t[..n][i := x]) + One(t[n])) + One(t[i]);
        (Bag(t[..n][i := x]) + One(t[..n][i])) + One(t[n]);
        (Bag(t[..n]) + One(x)) + One(t[n]);
        Bag(t) + One(x);
      }
    } else {
      assert t[i := x][..n] == t[..n];
    }
  }

  /** A slot is free exactly when fewer entries are used than there are slots. */
  lemma {:induction false} BagFull(t: seq<Entry>)
    ensures |Bag(t)| <= |t|
    ensures |Bag(t)| < |t| <==> exists i :: 0 <= i < |t| && !Used(t[i])
    decreases |t|
  {
    if t != [] {
      var n := |t| - 1;
      BagFull(t[..n]);
      if |Bag(t[..n])| < n {
        var i :| 0 <= i < n && !Used(t[..n][i]);
        assert !Used(t[i]);
      } else {
        forall i | 0 <= i < n ensures Used(t[i]) { assert Used(t[..n][i]); }
      }
    }
  }

  lemma {:induction false} BagFresh(n: nat)
    ensures Bag(Fresh(n)) == multiset{}
    decreases n
  {
    if n > 0 {
      BagFresh(n - 1);
      assert Fresh(n)[..n - 1] == Fresh(n - 1);
    }
  }

  lemma BagStep(t: seq<Entry>, i: nat)
    requires i < |t|
    ensures Bag(t[..i + 1]) == Bag(t[..i]) + One(t[i])
  {
    assert t[..i + 1][..i] == t[..i];
  }

  lemma {:induction false} BagHas(t: seq<Entry>, i: nat)
    requires i < |t| && Used(t[i])
    ensures t[i] in Bag(t)
    decreases |t|
  {
    if i < |t| - 1 { BagHas(t[..|t| - 1], i); }
  }

  // ---- probing ----

  /** The slot `d` probes after the home slot of `hash`. */
  function Probe(hash: nat, d: nat, e: nat): (i: nat)
    ensures d <= Pow2(e) ==> i < Pow2(e)
  {
    SwissGroups.At(hash % Pow2(e), d, Pow2(e))
  }

  /** The mask arithmetic of the loops: `hash & mask`, then `(idx + 1) & mask`. */
  lemma ProbeStart(hash: nat, e: nat)
    ensures BitAnd(hash, Pow2(e) - 1) == Probe(hash, 0, e)
  {
    AndMask(hash, e);
  }

  lemma ProbeNext(hash: nat, d: nat, e: nat)
    requires d < Pow2(e)
    ensures BitAnd(Probe(hash, d, e) + 1, Pow2(e) - 1) == Probe(hash, d + 1, e) < Pow2(e)
  {
    SwissGroups.NextWraps(Probe(hash, d, e), e);
  }

  lemma ProbeHits(hash: nat, i: nat, e: nat) returns (d: nat)
    requires i < Pow2(e)
    ensures d < Pow2(e) && Probe(hash, d, e) == i
  {
    d := SwissGroups.Dist(hash % Pow2(e), i, Pow2(e));
  }

  /** A full turn over used slots contradicts a free one. */
  lemma TurnIsAll(t: seq<Entry>, hash: nat, e: nat)
    requires |t| == Pow2(e)
    requires forall d: nat | d < Pow2(e) :: Used(t[Probe(hash, d, e)])
    ensures |Bag(t)| == |t|
  {
    forall i: nat | i < |t| ensures Used(t[i]) {
      var d := ProbeHits(hash, i, e);
      assert Used(t[Probe(hash, d, e)]);
    }
    BagFull(t);
  }

  /** `icache_lookup` from probe `d` on: at most sixteen probes, hash compared, key ignored. */
  function Lookup(t: seq<Entry>, hash: nat, d: nat, e: nat): Option<nat>
    requires |t| == Pow2(e) && PROBES <= |t|
    decreases |t|, PROBES - d
  {
    if d >= PROBES then None
    else
      var x := t[Probe(hash, d, e)];
      if !Used(x) then None
      else if x.ctrl == CtrlOf(hash) && x.hash == hash then Some(Probe(hash, d, e))
      else Lookup(t, hash, d + 1, e)
  }

  /** The probe path of `hash` passes `n` used slots of other hashes. */
  ghost predicate Passes(t: seq<Entry>, hash: nat, n: nat, e: nat)
    requires |t| == Pow2(e) && n <= |t|
  {
    forall d: nat | d < n :: Used(t[Probe(hash, d, e)]) && t[Probe(hash, d, e)].hash != hash
  }

  /** A used slot of the hash at the end of a passed path is found iff it lies within sixteen probes. */
  lemma {:induction false} LookupReaches(t: seq<Entry>, hash: nat, d: nat, n: nat, e: nat)
    requires |t| == Pow2(e) && PROBES <= |t| && d <= n < |t| && Passes(t, hash, n, e)
    requires t[Probe(hash, n, e)].ctrl == CtrlOf(hash) && t[Probe(hash, n, e)].hash == hash
    ensures Lookup(t, hash, d, e) == if n < PROBES then Some(Probe(hash, n, e)) else None
    decreases n - d
  {
    if d < n {
      assert Used(t[Probe(hash, d, e)]) && t[Probe(hash, d, e)].hash != hash;
      if d < PROBES { LookupReaches(t, hash, d + 1, n, e); }
    }
  }

  /** How far slot `i` lies along the probe path of `hash`. */
  function Along(hash: nat, i: nat, e: nat): (d: nat)
    ensures i < Pow2(e) ==> d < Pow2(e) && Probe(hash, d, e) == i
  {
    SwissGroups.Dist(hash % Pow2(e), i, Pow2(e))
  }

  lemma AlongProbe(hash: nat, d: nat, e: nat)
    requires d < Pow2(e)
    ensures Along(hash, Probe(hash, d, e), e) == d
  {
    SwissGroups.AtDist(hash % Pow2(e), d, Pow2(e));
  }

  /** Among the slots a lookup of `hash` sees, is one free or one of that hash? */
  ghost predicate RoomNear(t: seq<Entry>, hash: nat, e: nat)
    requires |t| == Pow2(e) && PROBES <= |t|
  {
    exists d: nat :: d < PROBES && (!Used(t[Probe(hash, d, e)]) || t[Probe(hash, d, e)].hash == hash)
  }

  /** The slots before `i` on its own probe path are all used. */
  ghost predicate OnPath(t: seq<Entry>, e: nat, i: nat)
    requires |t| == Pow2(e) && i < |t|
  {
    forall d: nat | d < Along(t[i].hash, i, e) :: Used(t[Probe(t[i].hash, d, e)])
  }

  /** Every entry can be reached from its home slot without meeting a free one. */
  ghost predicate AllOnPath(t: seq<Entry>, e: nat)
    requires |t| == Pow2(e)
  {
    forall i: nat | i < |t| && Used(t[i]) :: OnPath(t, e, i)
  }

  /** Where that holds, as it does after growing, a lookup misses no hash that lies near. */
  lemma {:induction false} NearIsFound(t: seq<Entry>, e: nat, i: nat, d: nat)
    requires |t| == Pow2(e) && PROBES <= |t| && i < |t| && Used(t[i]) && CtrlsOK(t) && OnPath(t, e, i)
    requires d <= Along(t[i].hash, i, e) < PROBES
    ensures Lookup(t, t[i].hash, d, e).Some?
    decreases PROBES - d
  {
    var x := t[Probe(t[i].hash, d, e)];
    assert CtrlOK(t[i]);
    if d < Along(t[i].hash, i, e) {
      assert Used(x);
      NearIsFound(t, e, i, d + 1);
    }
  }

  /** Slots of a path are distinct, so filling its end leaves the passed part alone. */
  lemma PassesUpdate(t: seq<Entry>, hash: nat, n: nat, e: nat, x: Entry)
    requires |t| == Pow2(e) && n < |t| && Passes(t, hash, n, e)
    ensures Passes(t[Probe(hash, n, e) := x], hash, n, e)
  {
    forall d: nat | d < n ensures t[Probe(hash, n, e) := x][Probe(hash, d, e)] == t[Probe(hash, d, e)] {
      SwissGroups.AtDist(hash % Pow2(e), d, Pow2(e));
      SwissGroups.AtDist(hash % Pow2(e), n, Pow2(e));
    }
  }

  ghost predicate CtrlsOK(t: seq<Entry>) {
    forall i | 0 <= i < |t| :: CtrlOK(t[i])
  }

  predicate CtrlOK(x: Entry) {
    Used(x) ==> x.ctrl == CtrlOf(x.hash)
  }

  /** First slot on the path that is free, or (when `orHash`) holds the hash. */
  method Settle(t: seq<Entry>, hash: nat, orHash: bool, ghost e: nat) returns (i: nat, ghost n: nat)
    requires |t| == Pow2(e) && |Bag(t)| < |t|
    ensures n < |t| && i == Probe(hash, n, e)
    ensures !Used(t[i]) || (orHash && t[i].hash == hash)
    ensures forall d: nat | d < n :: Used(t[Probe(hash, d, e)])
    ensures orHash ==> Passes(t, hash, n, e)
  {
    ProbeStart(hash, e);
    i := BitAnd(hash, |t| - 1);
    var probe := 0;
    while probe < |t| && Used(t[i]) && !(orHash && t[i].hash == hash)
      invariant probe <= |t| && i == Probe(hash, probe, e)
      invariant forall d: nat | d < probe ::
                  Used(t[Probe(hash, d, e)]) && !(orHash && t[Probe(hash, d, e)].hash == hash)
    {
      ProbeNext(hash, probe, e);
      i := BitAnd(i + 1, |t| - 1);
      probe := probe + 1;
    }
    assert probe < |t| by {
      if probe == |t| { TurnIsAll(t, hash, e); }
    }
    n := probe;
  }

  /** Slot `i` is used, and none between the clock position and it. */
  ghost predicate FirstFrom(t: seq<Entry>, tick: nat, e: nat, i: nat)
    requires |t| == Pow2(e)
  {
    i < |t| && Used(t[i]) && forall d: nat | d < Along(tick, i, e) :: !Used(t[Probe(tick, d, e)])
  }

  /** The search of `icache_evict_one`: the first used slot from the clock position on. */
  method FirstUsed(t: seq<Entry>, tick: nat, ghost e: nat) returns (at: Option<nat>)
    requires |t| == Pow2(e)
    ensures at.Some? ==> FirstFrom(t, tick, e, at.value)
    ensures at.None? ==> Bag(t) == multiset{}
  {
    ProbeStart(tick, e);
    var i, probe := BitAnd(tick, |t| - 1), 0;
    while probe < |t| && !Used(t[i])
      invariant probe <= |t| && i == Probe(tick, probe, e) < |t|
      invariant forall d: nat | d < probe :: !Used(t[Probe(tick, d, e)])
    {
      ProbeNext(tick, probe, e);
      i := BitAnd(i + 1, |t| - 1);
      probe := probe + 1;
    }
    if probe < |t| {
      AlongProbe(tick, probe, e);
      return Some(i);
    }
    forall j: nat | j < |t| ensures t[j].ctrl == 0 {
      var d := ProbeHits(tick, j, e);
      assert !Used(t[Probe(tick, d, e)]);
    }
    NoneUsed(t);
    return None;
  }

  /** `icache_lookup`. */
  method LookupSlot(t: seq<Entry>, hash: nat, ghost e: nat) returns (at: Option<nat>)
    requires |t| == Pow2(e) && PROBES <= |t|
    ensures at == Lookup(t, hash, 0, e)
    ensures at.Some? ==> at.value < |t| && Used(t[at.value]) && t[at.value].hash == hash
  {
    ProbeStart(hash, e);
    var i, probe := BitAnd(hash, |t| - 1), 0;
    while probe < PROBES
      invariant probe <= PROBES && i == Probe(hash, probe, e) < |t|
      invariant Lookup(t, hash, 0, e) == Lookup(t, hash, probe, e)
    {
      if !Used(t[i]) { return None; }
      if t[i].ctrl == CtrlOf(hash) && t[i].hash == hash { return Some(i); }
      ProbeNext(hash, probe, e);
      i := BitAnd(i + 1, |t| - 1);
      probe := probe + 1;
    }
    return None;
  }

  /** The copying loop of `icache_grow`. */
  method Rehash(t: seq<Entry>, ghost e: nat) returns (u: seq<Entry>)
    requires 2 * |t| == Pow2(e) && CtrlsOK(t)
    ensures |u| == 2 * |t| && Bag(u) == Bag(t) && CtrlsOK(u) && AllOnPath(u, e)
  {
    u := Fresh(2 * |t|);
    CarriedStart(t, e);
    var i := 0;
    while i < |t|
      invariant i <= |t| && Carried(u, t, i, e)
    {
      u := CarryOver(u, t, i, e);
      i := i + 1;
    }
    CarriedEnd(u, t, e);
  }

  /** The first `i` slots of `t` have been copied to `u`. */
  ghost predicate Carried(u: seq<Entry>, t: seq<Entry>, i: nat, e: nat)
    requires i <= |t|
  {
    |u| == Pow2(e) && CtrlsOK(u) && Bag(u) == Bag(t[..i]) && AllOnPath(u, e)
  }

  lemma CarriedStart(t: seq<Entry>, e: nat)
    requires 2 * |t| == Pow2(e)
    ensures Carried(Fresh(2 * |t|), t, 0, e)
  {
    BagFresh(2 * |t|);
    assert t[..0] == [];
  }

  lemma CarriedEnd(u: seq<Entry>, t: seq<Entry>, e: nat)
    requires 2 * |t| == Pow2(e) && Carried(u, t, |t|, e)
    ensures |u| == 2 * |t| && Bag(u) == Bag(t) && CtrlsOK(u) && AllOnPath(u, e)
  {
    assert t[..|t|] == t;
  }

  /** One turn of that loop: there is always a free slot in the doubled table. */
  method CarryOver(u: seq<Entry>, t: seq<Entry>, i: nat, ghost e: nat) returns (v: seq<Entry>)
    requires i < |t| <= Pow2(e) && CtrlsOK(t) && Carried(u, t, i, e)
    ensures Carried(v, t, i + 1, e)
  {
    BagStep(t, i);
    v := u;
    if Used(t[i]) {
      BagFull(t[..i]);
      ghost var n;
      var k;
      k, n := Settle(u, t[i].hash, false, e);
      BagUpdate(u, k, t[i]);
      PathsGrow(u, e, n, t[i]);
      v := u[k := t[i]];
    }
  }

  /** Filling the first free slot of an entry's own path keeps all entries on theirs. */
  lemma PathsGrow(u: seq<Entry>, e: nat, n: nat, x: Entry)
    requires |u| == Pow2(e) && AllOnPath(u, e) && Used(x) && n < |u|
    requires forall d: nat | d < n :: Used(u[Probe(x.hash, d, e)])
    ensures AllOnPath(u[Probe(x.hash, n, e) := x], e)
  {
    var k := Probe(x.hash, n, e);
    var v := u[k := x];
    AlongProbe(x.hash, n, e);
    forall i: nat | i < |v| && Used(v[i]) ensures OnPath(v, e, i) {
      if i != k { assert OnPath(u, e, i); }
    }
  }

  /**
   * The outcome of a put at `place`: the slot holds the inode, dirty, under the key given, or under the
   * key already there when the hash was met first. It is the first slot of the probe path that was
   * free or held the hash, so a lookup of the hash shows it exactly when it lies within sixteen probes.
   */
  ghost predicate Stored(t: seq<Entry>, e: nat, hash: nat, key: Key, ino: Value, replaced: Option<Entry>, place: nat) {
    && |t| == Pow2(e) && PROBES <= |t| && place < |t|
    && t[place] == Entry(CtrlOf(hash), hash, true, if replaced.Some? then replaced.value.key else key, ino)
    && (replaced.Some? ==> replaced.value.hash == hash)
    && Passes(t, hash, Along(hash, place, e), e)
    && Lookup(t, hash, 0, e) == if Along(hash, place, e) < PROBES then Some(place) else None
  }

  lemma StoredAt(t: seq<Entry>, e: nat, hash: nat, n: nat, x: Entry)
    requires |t| == Pow2(e) && PROBES <= |t| && n < |t| && Passes(t, hash, n, e)
    requires !Used(t[Probe(hash, n, e)]) || t[Probe(hash, n, e)].hash == hash
    requires x.ctrl == CtrlOf(hash) && x.hash == hash
    ensures var place := Probe(hash, n, e);
            && Along(hash, place, e) == n && Passes(t[place := x], hash, n, e)
            && Lookup(t[place := x], hash, 0, e) == (if n < PROBES then Some(place) else None)
            && (RoomNear(t, hash, e) <==> n < PROBES)
  {
    PassesUpdate(t, hash, n, e, x);
    LookupReaches(t[Probe(hash, n, e) := x], hash, 0, n, e);
    AlongProbe(hash, n, e);
  }

  /** What a caller of `icache_put` can rely on: with room near, the next lookup shows the inode. */
  lemma StoredIsSeen(t: seq<Entry>, u: seq<Entry>, e: nat, hash: nat, key: Key, ino: Value, replaced: Option<Entry>, place: nat)
    requires Placed(t, u, e, hash, key, ino, replaced, place) && RoomNear(t, hash, e)
    ensures Lookup(u, hash, 0, e).Some? && u[Lookup(u, hash, 0, e).value].inode == ino
  {
  }

  lemma BagSwap(t: seq<Entry>, i: nat, x: Entry)
    requires i < |t| && Used(x)
    ensures Bag(t[i := x]) + One(t[i]) == Bag(t) + multiset{x}
    ensures |Bag(t[i := x])| == |Bag(t)| + if Used(t[i]) then 0 else 1
  {
    BagUpdate(t, i, x);
    assert |Bag(t[i := x]) + One(t[i])| == |Bag(t[i := x])| + |One(t[i])|;
  }

  lemma Conserved(a: multiset<Entry>, b: multiset<Entry>, c: multiset<Entry>, v: multiset<Entry>, r: multiset<Entry>, x: multiset<Entry>)
    requires b + v == a && c + r == b + x
    ensures c + v + r == a + x
  {
    assert c + v + r == c + r + v == b + x + v == b + v + x;
  }

  /** One slot changed, and the bag with it; the next lookup shows the inode exactly when one of the
      slots it sees was free or held the hash. */
  ghost predicate Placed(t: seq<Entry>, u: seq<Entry>, e: nat, hash: nat, key: Key, ino: Value, replaced: Option<Entry>, place: nat)
  {
    && Stored(u, e, hash, key, ino, replaced, place)
    && |t| == |u| && u == t[place := u[place]]
    && replaced == (if Used(t[place]) then Some(t[place]) else None)
    && (RoomNear(t, hash, e) <==> Lookup(u, hash, 0, e) == Some(place))
    && Bag(u) + Held(replaced) == Bag(t) + multiset{u[place]}
  }

  /** The placing loop of `icache_put`, once there is room. */
  method Place(t: seq<Entry>, hash: nat, key: Key, ino: Value, ghost e: nat)
      returns (u: seq<Entry>, replaced: Option<Entry>, place: nat, added: bool)
    requires |t| == Pow2(e) && PROBES <= |t| && CtrlsOK(t) && |Bag(t)| < |t|
    ensures |u| == |t| && CtrlsOK(u) && Placed(t, u, e, hash, key, ino, replaced, place)
    ensures |Bag(u)| == |Bag(t)| + if added then 1 else 0
  {
    ghost var n;
    place, n := Settle(t, hash, true, e);
    var was := t[place];
    added := !Used(was);
    replaced := if added then None else Some(was);
    var x := if added then Entry(CtrlOf(hash), hash, true, key, ino) else was.(dirty := true, inode := ino);
    u := t[place := x];
    BagSwap(t, place, x);
    StoredAt(t, e, hash, n, x);
  }

  /** The first used entry from the clock position on left its slot. */
  ghost predicate Evicted(t: seq<Entry>, tick: nat, e: nat, u: seq<Entry>, victim: Entry)
    requires |t| == Pow2(e)
  {
    exists i: nat :: FirstFrom(t, tick, e, i) && victim == t[i] && u == t[i := t[i].(ctrl := 0, dirty := false)]
  }

  class Cache {
    var entries: seq<Entry>
    var cap: nat
    var mask: nat
    var count: nat
    const tick: nat
    ghost var e: nat

    /** The counter is the number of used entries and at least half of the slots are free. */
    ghost predicate Valid()
      reads this
    {
      && |entries| == cap == Pow2(e) && mask == cap - 1
      && CAP_INIT <= cap <= 2 * MAX_ENTRIES
      && count == |Bag(entries)| && 2 * count <= cap
      && CtrlsOK(entries)
    }

    constructor ()
      ensures Valid() && Bag(entries) == multiset{} && cap == CAP_INIT
    {
      entries := Fresh(CAP_INIT);
      cap, mask, count, tick, e := CAP_INIT, CAP_INIT - 1, 0, 0, 14;
      assert Pow2(14) == CAP_INIT by {
        assert Pow2(7) == 128;
        Pow2Add(7, 7);
      }
      BagFresh(CAP_INIT);
    }

    /** Empties the first used slot from the clock position on; a dirty victim is handed to `paged_put`. */
    method EvictOne() returns (victim: Option<Entry>)
      requires Valid()
      modifies this`entries, this`count
      ensures Valid()
      ensures victim.Some? <==> old(count) > 0
      ensures Bag(entries) + Held(victim) == old(Bag(entries))
      ensures victim.Some? ==> count == old(count) - 1 && Evicted(old(entries), tick, e, entries, victim.value)
      ensures victim.None? ==> entries == old(entries)
    {
      var at := FirstUsed(entries, tick, e);
      victim := None;
      if at.Some? {
        victim := Some(entries[at.value]);
        BagHas(entries, at.value);
        Release(at.value);
      }
    }

    /** Marks a used slot free; its other bytes stay. */
    method Release(i: nat)
      requires Valid() && i < cap && Used(entries[i])
      modifies this`entries, this`count
      ensures Valid() && count == old(count) - 1
      ensures entries == old(entries)[i := old(entries)[i].(ctrl := 0, dirty := false)]
      ensures Bag(entries) + multiset{old(entries)[i]} == old(Bag(entries))
    {
      var x := entries[i].(ctrl := 0, dirty := false);
      BagUpdate(entries, i, x);
      assert |Bag(entries[i := x])| + 1 == |Bag(entries[i := x]) + One(entries[i])|;
      entries := entries[i := x];
      count := count - 1;
    }

    /** Doubles the table and carries every entry over. */
    method Grow()
      requires Valid() && cap <= MAX_ENTRIES
      modifies this`entries, this`cap, this`mask, this`e
      ensures Valid() && cap == 2 * old(cap) && e == old(e) + 1
      ensures Bag(entries) == old(Bag(entries)) && AllOnPath(entries, e)
    {
      entries := Rehash(entries, e + 1);
      cap, mask, e := 2 * cap, 2 * cap - 1, e + 1;
    }

    /**
     * Stores the inode; never without a slot. Nothing is lost but a reported victim and a reported
     * overwritten copy of the same hash. `mid` is the table once there was room: from there on one
     * slot changes, and the next lookup shows the inode exactly when one of the slots it sees was free
     * or held the hash.
     */
    method Put(hash: nat, key: Key, ino: Value)
        returns (victim: Option<Entry>, replaced: Option<Entry>, place: nat, ghost mid: seq<Entry>)
      requires Valid()
      modifies this
      ensures Valid()
      ensures RoomMade(old(entries), old(e), old(count), tick, mid, e, victim)
      ensures Placed(mid, entries, e, hash, key, ino, replaced, place)
      ensures Bag(entries) + Held(victim) + Held(replaced) == old(Bag(entries)) + multiset{entries[place]}
    {
      ghost var bag := Bag(entries);
      victim := MakeRoom();
      mid := entries;
      replaced, place := StoreAt(hash, key, ino);
      Conserved(bag, Bag(mid), Bag(entries), Held(victim), Held(replaced), multiset{entries[place]});
    }

    method StoreAt(hash: nat, key: Key, ino: Value) returns (replaced: Option<Entry>, place: nat)
      requires Valid() && 2 * count + 2 <= cap
      modifies this`entries, this`count
      ensures Valid() && Placed(old(entries), entries, e, hash, key, ino, replaced, place)
    {
      var added;
      entries, replaced, place, added := Place(entries, hash, key, ino, e);
      count := if added then count + 1 else count;
    }

    /** The first lines of `icache_put`: evict at the limit, else double a half-full table. */
    method MakeRoom() returns (victim: Option<Entry>)
      requires Valid()
      modifies this
      ensures Valid() && 2 * count + 2 <= cap
      ensures RoomMade(old(entries), old(e), old(count), tick, entries, e, victim)
      ensures Bag(entries) + Held(victim) == old(Bag(entries))
    {
      victim := None;
      if count >= MAX_ENTRIES {
        victim := EvictOne();
      } else if count * 2 >= cap {
        PowBelow(e);
        Grow();
      } else {
        EvenCap(e);
      }
    }

    /** Removes what the bounded lookup finds, and nothing when it finds nothing. */
    method Del(hash: nat) returns (gone: Option<Entry>)
      requires Valid()
      modifies this`entries, this`count
      ensures Valid()
      ensures gone == (var at := Lookup(old(entries), hash, 0, e);
                       if at.Some? && at.value < old(|entries|) then Some(old(entries)[at.value]) else None)
      ensures Bag(entries) + Held(gone) == old(Bag(entries))
      ensures gone.Some? ==> gone.value.hash == hash
      ensures gone.None? ==> entries == old(entries)
    {
      var at := LookupSlot(entries, hash, e);
      gone := None;
      if at.Some? {
        gone := Some(entries[at.value]);
        Release(at.value);
      }
    }
  }

  /** At the limit one entry is evicted; a table that is half full is doubled; any other is left. */
  ghost predicate RoomMade(t: seq<Entry>, e: nat, count: nat, tick: nat, u: seq<Entry>, e': nat, victim: Option<Entry>)
    requires |t| == Pow2(e)
  {
    if count >= MAX_ENTRIES then e' == e && |u| == |t| && victim.Some? && Evicted(t, tick, e, u, victim.value)
    else
      && victim == None
      && (if 2 * count >= |t| then e' == e + 1 && |u| == 2 * |t| == Pow2(e') && Bag(u) == Bag(t) && AllOnPath(u, e')
          else e' == e && u == t)
  }

  lemma {:induction false} NoneUsed(t: seq<Entry>)
    requires forall i: nat | i < |t| :: t[i].ctrl == 0
    ensures Bag(t) == multiset{}
    decreases |t|
  {
    if t != [] { NoneUsed(t[..|t| - 1]); }
  }

  lemma EvenCap(e: nat)
    requires Pow2(e) >= CAP_INIT
    ensures Pow2(e) % 2 == 0
  {
  }

  /** A capacity below twice the entry limit is at most the limit, both being powers of two. */
  lemma PowBelow(e: nat)
    requires Pow2(e) < 2 * MAX_ENTRIES
    ensures Pow2(e) <= MAX_ENTRIES
  {
    assert Pow2(17) == MAX_ENTRIES by {
      assert Pow2(8) == 256 && Pow2(9) == 512;
      Pow2Add(8, 9);
    }
    assert e < 18 by {
      assert Pow2(18) == 2 * Pow2(17);
      if e >= 18 { Pow2Monotone(18, e); }
    }
    Pow2Monotone(e, 17);
  }
}
