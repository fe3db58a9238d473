/** Whole runs of index operations, and what every reader sees along them. */
module PagedRun {
  import opened PagedLayout
  import opened PagedState
  import opened PagedEffects
  import opened PagedTransitions
  import opened PagedPage
  import opened PagedIndex
  import opened Allocator
  import opened PagedCost

  /** The four entry points of the index. */
  datatype Op = OpPut(k: Key, v: Value) | OpInsert(k: Key, v: Value) | OpGet(k: Key, cap: nat) | OpDel(k: Key)

  /** What an operation returns; `buf` is the value a get copies out. */
  datatype Reply = Done(status: Status, buf: Value)

  predicate Stores(op: Op) {
    op.OpPut? || op.OpInsert?
  }

  /** For every key, its copies, newest first. */
  type Stacks = imap<Key, seq<Value>>

  /** The specification state; `tight` means that no chain has a gap left by a delete. */
  datatype Spec = Spec(copies: Stacks, tight: bool)

  ghost function SpecOf(hash: HashFn, st: State): Spec {
    Spec(imap k: Key :: Stack(hash, st, k), Dense(st.flat))
  }

  ghost predicate Total(m: Stacks) {
    forall k: Key :: k in m
  }

  ghost function Top(m: Stacks, k: Key): Option<Value>
    requires k in m
  {
    if m[k] == [] then None else Some(m[k][0])
  }

  /** One step of the specification. A put replaces the newest copy; it may cover that copy
      instead, but only after some delete left a gap. */
  ghost predicate SpecStep(s: Spec, op: Op, reply: Reply, s': Spec)
    requires Total(s.copies)
  {
    && (s.tight && !op.OpDel? ==> s'.tight)
    && CopiesStep(s.copies, s.tight, op, reply, s'.copies)
  }

  ghost predicate CopiesStep(m: Stacks, tight: bool, op: Op, reply: Reply, m': Stacks)
    requires Total(m)
  {
    match op
    case OpPut(k, v) =>
      if reply.status == OK
      then exists covers: bool :: m' == m[k := Pushed(covers, m[k], v)] && (covers && tight ==> m[k] == [])
      else m' == m
    case OpInsert(k, v) =>
      m[k] == [] && m' == if reply.status == OK then m[k := [v]] else m
    case OpGet(k, cap) =>
      m' == m && GetResult(Top(m, k), cap, reply.status, reply.buf)
    case OpDel(k) =>
      if m[k] == [] then reply.status == ENOENT && m' == m
      else reply.status == OK && m' == m[k := m[k][1..]]
  }

  /** A run: states before and after every operation, each step allowed. */
  ghost predicate SpecRun(trace: seq<Spec>, ops: seq<Op>, replies: seq<Reply>) {
    && |replies| <= |ops| && |trace| == |replies| + 1
    && (forall i | 0 <= i < |trace| :: Total(trace[i].copies))
    && forall i | 0 <= i < |replies| :: SpecStep(trace[i], ops[i], replies[i], trace[i + 1])
  }

  /** No two keys of the run are taken for one another, and records fit a block. */
  ghost predicate OpsOK(hash: HashFn, ops: seq<Op>) {
    && (forall i, j | 0 <= i < |ops| && 0 <= j < |ops| :: SameIdent(hash, ops[i].k, ops[j].k) ==> ops[i].k == ops[j].k)
    && forall i | 0 <= i < |ops| :: OpFits(ops[i])
  }

  predicate OpFits(op: Op) {
    Stores(op) ==> RECORD_HEADER + |op.k| + |op.v| <= BLOCK_SIZE
  }

  /** No key of the run is taken for a stored one. */
  ghost predicate KeysClear(hash: HashFn, st: State, ops: seq<Op>) {
    forall i | 0 <= i < |ops| :: NoAlias(hash, st, ops[i].k)
  }

  lemma StacksUpdated(hash: HashFn, st: State, st': State, k: Key)
    requires SameOtherStacks(hash, st, st', k)
    ensures SpecOf(hash, st').copies == SpecOf(hash, st).copies[k := Stack(hash, st', k)]
  {
    var m, m' := SpecOf(hash, st).copies, SpecOf(hash, st').copies;
    forall k': Key ensures m'[k'] == m[k := Stack(hash, st', k)][k'] {
    }
  }

  lemma StacksKept(hash: HashFn, st: State, st': State)
    requires SameStacks(hash, st, st')
    ensures SpecOf(hash, st').copies == SpecOf(hash, st).copies
  {
    forall k: Key ensures SpecOf(hash, st').copies[k] == SpecOf(hash, st).copies[k] {
    }
  }

  lemma ClearAfter(hash: HashFn, st: State, st': State, ops: seq<Op>, k: Key)
    requires OpsOK(hash, ops) && KeysClear(hash, st, ops) && AliasAtMost(hash, st, st', k)
    requires exists i :: 0 <= i < |ops| && ops[i].k == k
    ensures KeysClear(hash, st', ops)
  {
  }

  lemma PutStep(hash: HashFn, s0: State, s1: State, k: Key, v: Value, r: Status)
    requires PutResult(hash, s0, s1, k, v, r, true)
    ensures SpecStep(SpecOf(hash, s0), OpPut(k, v), Done(r, []), SpecOf(hash, s1))
  {
    if r == OK {
      StacksUpdated(hash, s0, s1, k);
      var m := SpecOf(hash, s0).copies;
      var covers := Shadows(hash, s0, k);
      if m[k] != [] && Dense(s0.flat) { DenseNeverShadows(hash, s0, k); }
      assert SpecOf(hash, s1).copies == m[k := Pushed(covers, m[k], v)];
    } else {
      StacksKept(hash, s0, s1);
    }
  }

  lemma InsertStep(hash: HashFn, s0: State, s1: State, k: Key, v: Value, r: Status)
    requires Stack(hash, s0, k) == [] && PutResult(hash, s0, s1, k, v, r, true)
    ensures SpecStep(SpecOf(hash, s0), OpInsert(k, v), Done(r, []), SpecOf(hash, s1))
  {
    if r == OK {
      StacksUpdated(hash, s0, s1, k);
      assert Stack(hash, s1, k) == [v];
    } else {
      StacksKept(hash, s0, s1);
    }
  }

  lemma DelStep(hash: HashFn, s0: State, s1: State, k: Key, r: Status)
    requires r == OK <==> Stack(hash, s0, k) != []
    requires if r == OK then Removed(hash, s0, s1, k) else r == ENOENT && s1 == s0
    ensures SpecStep(SpecOf(hash, s0), OpDel(k), Done(r, []), SpecOf(hash, s1))
  {
    if r == OK { StacksUpdated(hash, s0, s1, k); }
  }

  /** When the code keeps the specification: a put or insert cannot split an overflow page,
      and an insert finds its key absent. */
  ghost predicate Allowed(fs: Index, op: Op)
    reads fs, fs.store`flat
  {
    && (Stores(op) ==> fs.Lossless(op.k))
    && (op.OpInsert? ==> Stack(fs.hash, fs.St(), op.k) == [])
  }

  /** One operation of the real index, as a step of the specification, and what it costs; a
      delete in a one-page bucket opens no gap. */
  method Execute(fs: Index, op: Op, ghost ops: seq<Op>) returns (reply: Reply)
    requires fs.Valid() && OpsOK(fs.hash, ops) && KeysClear(fs.hash, fs.St(), ops) && op in ops
    requires Allowed(fs, op)
    modifies fs, fs.store, fs.store.cache
    ensures fs.Valid() && KeysClear(fs.hash, fs.St(), ops)
    ensures SpecStep(old(SpecOf(fs.hash, fs.St())), op, reply, SpecOf(fs.hash, fs.St()))
    ensures Charged(op, old(OpCost(fs.hash, fs.St(), op)), reply, old(fs.Books()), fs.Books())
    ensures op.OpDel? && old(OnePageOnly(fs.hash, fs.St(), op.k) && Dense(fs.St().flat)) ==> Dense(fs.St().flat)
  {
    ghost var i :| 0 <= i < |ops| && ops[i] == op;
    assert OpFits(ops[i]);
    match op {
      case OpPut(k, v) => reply := ExecutePut(fs, k, v, ops);
      case OpInsert(k, v) => reply := ExecuteInsert(fs, k, v, ops);
      case OpGet(k, cap) =>
        var r, buf := fs.Get(k, cap);
        reply := Done(r, buf);
      case OpDel(k) => reply := ExecuteDel(fs, k, ops);
    }
  }

  /** `k` is a key of the run, and the index may be asked about it. */
  ghost predicate KeyOfRun(hash: HashFn, st: State, ops: seq<Op>, k: Key) {
    && OpsOK(hash, ops) && KeysClear(hash, st, ops)
    && exists i :: 0 <= i < |ops| && ops[i].k == k
  }

  method ExecutePut(fs: Index, k: Key, v: Value, ghost ops: seq<Op>) returns (reply: Reply)
    requires fs.Valid() && KeyOfRun(fs.hash, fs.St(), ops, k) && OpFits(OpPut(k, v)) && fs.Lossless(k)
    modifies fs, fs.store, fs.store.cache
    ensures fs.Valid() && KeysClear(fs.hash, fs.St(), ops)
    ensures SpecStep(old(SpecOf(fs.hash, fs.St())), OpPut(k, v), reply, SpecOf(fs.hash, fs.St()))
    ensures Charged(OpPut(k, v), old(OpCost(fs.hash, fs.St(), OpPut(k, v))), reply, old(fs.Books()), fs.Books())
  {
    ghost var s0 := fs.St();
    var r := fs.Put(k, v);
    PutStep(fs.hash, s0, fs.St(), k, v, r);
    ClearAfter(fs.hash, s0, fs.St(), ops, k);
    return Done(r, []);
  }

  method ExecuteInsert(fs: Index, k: Key, v: Value, ghost ops: seq<Op>) returns (reply: Reply)
    requires fs.Valid() && KeyOfRun(fs.hash, fs.St(), ops, k) && OpFits(OpInsert(k, v)) && fs.Lossless(k)
    requires Stack(fs.hash, fs.St(), k) == []
    modifies fs, fs.store, fs.store.cache
    ensures fs.Valid() && KeysClear(fs.hash, fs.St(), ops)
    ensures SpecStep(old(SpecOf(fs.hash, fs.St())), OpInsert(k, v), reply, SpecOf(fs.hash, fs.St()))
    ensures Charged(OpInsert(k, v), old(OpCost(fs.hash, fs.St(), OpInsert(k, v))), reply, old(fs.Books()), fs.Books())
  {
    ghost var s0 := fs.St();
    var r := fs.Insert(k, v);
    InsertStep(fs.hash, s0, fs.St(), k, v, r);
    ClearAfter(fs.hash, s0, fs.St(), ops, k);
    return Done(r, []);
  }

  method ExecuteDel(fs: Index, k: Key, ghost ops: seq<Op>) returns (reply: Reply)
    requires fs.Valid() && KeyOfRun(fs.hash, fs.St(), ops, k)
    modifies fs.store, fs.store.cache
    ensures fs.Valid() && KeysClear(fs.hash, fs.St(), ops)
    ensures SpecStep(old(SpecOf(fs.hash, fs.St())), OpDel(k), reply, SpecOf(fs.hash, fs.St()))
    ensures old(OnePageOnly(fs.hash, fs.St(), k) && Dense(fs.St().flat)) ==> Dense(fs.St().flat)
  {
    ghost var s0 := fs.St();
    var r := fs.Del(k);
    DelStep(fs.hash, s0, fs.St(), k, r);
    if r == OK { ClearAfter(fs.hash, s0, fs.St(), ops, k); }
    return Done(r, []);
  }

  /** The driver of a run asks, before a put or insert, whether the code keeps its promise. */
  method Ready(fs: Index, op: Op) returns (ready: bool)
    requires fs.Valid()
    modifies fs.store`disk, fs.store.cache
    ensures fs.Valid() && fs.St() == old(fs.St())
    ensures ready <==> Allowed(fs, op)
  {
    if !Stores(op) {
      return true;
    }
    var single := fs.SinglePage(op.k);
    ready := fs.freeBlocks > 0 || single;
    if op.OpInsert? {
      var found, buf := fs.Get(op.k, 0);
      ready := ready && found == ENOENT;
    }
  }

  /** Every run of the real index is a run of the specification, up to the first put or insert
      that could split an overflow page, or insert of a key that is present. Where the free
      blocks cover the bills of its operations, every put and insert succeeds and the free count
      falls by exactly their sum; two blocks for each operation always do, and then only a
      present key can stop the run. */
  method Run(fs: Index, ops: seq<Op>) returns (replies: seq<Reply>, ghost trace: seq<Spec>, ghost states: seq<State>)
    requires fs.Valid() && OpsOK(fs.hash, ops) && KeysClear(fs.hash, fs.St(), ops)
    modifies fs, fs.store, fs.store.cache
    ensures fs.Valid()
    ensures Ran(fs.hash, trace, states, ops, replies, old(fs.Books()), fs.Books())
    ensures states[0] == old(fs.St()) && states[|replies|] == fs.St()
    ensures |replies| == |ops| || !Allowed(fs, ops[|replies|])
    ensures old(fs.freeBlocks) >= 2 * |ops| && |replies| < |ops| ==> ops[|replies|].OpInsert?
  {
    ghost var was := fs.Books();
    replies, trace, states := [], [SpecOf(fs.hash, fs.St())], [fs.St()];
    RanStart(fs.hash, fs.St(), ops, was);
    while |replies| < |ops|
      invariant fs.Valid() && KeysClear(fs.hash, fs.St(), ops)
      invariant Ran(fs.hash, trace, states, ops, replies, was, fs.Books())
      invariant states[0] == old(fs.St()) && states[|replies|] == fs.St()
      decreases |ops| - |replies|
    {
      ghost var books := fs.Books();
      var done, reply := Turn(fs, ops[|replies|], ops);
      if !done {
        StillFree(fs.hash, states, ops, replies, was, books);
        return;
      }
      RanGrows(fs.hash, trace, states, fs.St(), ops, replies, reply, was, books, fs.Books());
      replies, trace, states := replies + [reply], trace + [SpecOf(fs.hash, fs.St())], states + [fs.St()];
    }
  }

  /** A run, the states it went through, and what it paid. */
  ghost predicate Ran(hash: HashFn, trace: seq<Spec>, states: seq<State>, ops: seq<Op>, replies: seq<Reply>, was: Ledger, now: Ledger) {
    SpecRun(trace, ops, replies) && trace == Specs(hash, states) && Paid(hash, states, ops, replies, was, now)
  }

  lemma RanStart(hash: HashFn, s: State, ops: seq<Op>, was: Ledger)
    ensures Ran(hash, [SpecOf(hash, s)], [s], ops, [], was, was)
  {
  }

  lemma RanGrows(hash: HashFn, trace: seq<Spec>, states: seq<State>, s: State, ops: seq<Op>, replies: seq<Reply>, reply: Reply,
                 was: Ledger, books: Ledger, books': Ledger)
    requires Ran(hash, trace, states, ops, replies, was, books) && |replies| < |ops|
    requires SpecStep(SpecOf(hash, states[|replies|]), ops[|replies|], reply, SpecOf(hash, s))
    requires Charged(ops[|replies|], OpCost(hash, states[|replies|], ops[|replies|]), reply, books, books')
    ensures Ran(hash, trace + [SpecOf(hash, s)], states + [s], ops, replies + [reply], was, books')
  {
    RunGrows(trace, ops, replies, reply, SpecOf(hash, s));
    PaidGrows(hash, states, s, ops, replies, reply, was, books, books');
  }

  ghost function Specs(hash: HashFn, states: seq<State>): (r: seq<Spec>)
    ensures |r| == |states| && forall i | 0 <= i < |r| :: r[i] == SpecOf(hash, states[i])
  {
    seq(|states|, i requires 0 <= i < |states| => SpecOf(hash, states[i]))
  }

  /** One turn of a run: the operation is carried out if it is allowed. */
  method Turn(fs: Index, op: Op, ghost ops: seq<Op>) returns (done: bool, reply: Reply)
    requires fs.Valid() && OpsOK(fs.hash, ops) && KeysClear(fs.hash, fs.St(), ops) && op in ops
    modifies fs, fs.store, fs.store.cache
    ensures fs.Valid() && KeysClear(fs.hash, fs.St(), ops)
    ensures !done ==> !Allowed(fs, op) && (fs.freeBlocks > 0 ==> op.OpInsert?)
    ensures !done ==> fs.St() == old(fs.St()) && fs.Books() == old(fs.Books())
    ensures done ==> SpecStep(old(SpecOf(fs.hash, fs.St())), op, reply, SpecOf(fs.hash, fs.St()))
    ensures done ==> Charged(op, old(OpCost(fs.hash, fs.St(), op)), reply, old(fs.Books()), fs.Books())
  {
    reply := Done(OK, []);
    done := Ready(fs, op);
    if done {
      reply := Execute(fs, op, ops);
    }
  }

  // ---- what a run costs ----

  /** The blocks an operation asks for in state `st`. */
  ghost function OpCost(hash: HashFn, st: State, op: Op): (c: nat)
    ensures c <= 2
  {
    match op
    case OpPut(k, v) => PutCost(hash, st, k, v)
    case OpInsert(k, v) => InsertCost(hash, st, k, v)
    case _ => 0
  }

  /** A put or insert whose bill is covered succeeds and takes just these blocks; the others
      take none. */
  ghost predicate Charged(op: Op, cost: nat, reply: Reply, was: Ledger, now: Ledger) {
    if Stores(op) then was.c.freeBlocks >= cost ==> reply.status == OK && now == Less(was, cost)
    else now == was
  }

  /** The bills of the first `n` operations. */
  ghost function TotalCost(hash: HashFn, states: seq<State>, ops: seq<Op>, n: nat): (c: nat)
    requires n <= |states| && n <= |ops|
    ensures c <= 2 * n
  {
    if n == 0 then 0 else TotalCost(hash, states, ops, n - 1) + OpCost(hash, states[n - 1], ops[n - 1])
  }

  ghost predicate Paid(hash: HashFn, states: seq<State>, ops: seq<Op>, replies: seq<Reply>, was: Ledger, now: Ledger) {
    && |replies| <= |ops| && |states| == |replies| + 1
    && var total := TotalCost(hash, states, ops, |replies|);
    && (was.c.freeBlocks >= total ==>
          && now == Less(was, total)
          && forall i | 0 <= i < |replies| && Stores(ops[i]) :: replies[i].status == OK)
  }

  lemma {:induction false} TotalKept(hash: HashFn, states: seq<State>, s: State, ops: seq<Op>, n: nat)
    requires n <= |states| && n <= |ops|
    ensures TotalCost(hash, states + [s], ops, n) == TotalCost(hash, states, ops, n)
  {
    if n > 0 { TotalKept(hash, states, s, ops, n - 1); }
  }

  lemma PaidGrows(hash: HashFn, states: seq<State>, s: State, ops: seq<Op>, replies: seq<Reply>, reply: Reply,
                  was: Ledger, books: Ledger, books': Ledger)
    requires |replies| < |ops| && Paid(hash, states, ops, replies, was, books)
    requires Charged(ops[|replies|], OpCost(hash, states[|replies|], ops[|replies|]), reply, books, books')
    ensures Paid(hash, states + [s], ops, replies + [reply], was, books')
  {
    TotalKept(hash, states, s, ops, |replies| + 1);
  }

  /** Before each operation of a run with two blocks for each, a block is free. */
  lemma StillFree(hash: HashFn, states: seq<State>, ops: seq<Op>, replies: seq<Reply>, was: Ledger, books: Ledger)
    requires |replies| < |ops| && Paid(hash, states, ops, replies, was, books)
    ensures was.c.freeBlocks >= 2 * |ops| ==> books.c.freeBlocks > 0
  {
  }

  lemma RunGrows(trace: seq<Spec>, ops: seq<Op>, replies: seq<Reply>, reply: Reply, s: Spec)
    requires SpecRun(trace, ops, replies) && |replies| < |ops| && Total(s.copies)
    requires SpecStep(trace[|replies|], ops[|replies|], reply, s)
    ensures SpecRun(trace + [s], ops, replies + [reply])
  {
    var trace', replies' := trace + [s], replies + [reply];
    forall i | 0 <= i < |replies'| ensures SpecStep(trace'[i], ops[i], replies'[i], trace'[i + 1]) {
      if i < |replies| { assert SpecStep(trace[i], ops[i], replies[i], trace[i + 1]); }
    }
  }

  // ---- what readers see ----

  predicate Writes(op: Op, k: Key) {
    !op.OpGet? && op.k == k
  }

  /** Copies of a key change only when an operation on that key writes. */
  lemma {:induction false} Untouched(trace: seq<Spec>, ops: seq<Op>, replies: seq<Reply>, i: nat, j: nat, k: Key)
    requires SpecRun(trace, ops, replies) && i <= j < |trace|
    requires forall n | i <= n < j :: !Writes(ops[n], k)
    ensures trace[j].copies[k] == trace[i].copies[k]
    decreases j - i
  {
    if i < j {
      Untouched(trace, ops, replies, i, j - 1, k);
      assert SpecStep(trace[j - 1], ops[j - 1], replies[j - 1], trace[j]);
    }
  }

  /** The last successful put or insert before a get decides what the get returns, over any run. */
  lemma LastWriteWins(trace: seq<Spec>, ops: seq<Op>, replies: seq<Reply>, i: nat, j: nat)
    requires SpecRun(trace, ops, replies) && i < j < |replies|
    requires Stores(ops[i]) && replies[i].status == OK
    requires ops[j].OpGet? && ops[j].k == ops[i].k
    requires forall n | i < n < j :: !Writes(ops[n], ops[i].k)
    ensures |ops[i].v| <= ops[j].cap ==> replies[j] == Done(OK, ops[i].v)
    ensures |ops[i].v| > ops[j].cap ==> replies[j].status == ENOSPC
  {
    assert SpecStep(trace[i], ops[i], replies[i], trace[i + 1]);
    Untouched(trace, ops, replies, i + 1, j, ops[i].k);
    assert SpecStep(trace[j], ops[j], replies[j], trace[j + 1]);
  }

  /** After a delete, a get reports absence exactly when the key had a single copy. */
  lemma DeleteThenGet(trace: seq<Spec>, ops: seq<Op>, replies: seq<Reply>, i: nat, j: nat)
    requires SpecRun(trace, ops, replies) && i < j < |replies|
    requires ops[i].OpDel? && replies[i].status == OK
    requires ops[j].OpGet? && ops[j].k == ops[i].k
    requires forall n | i < n < j :: !Writes(ops[n], ops[i].k)
    ensures replies[j].status == ENOENT <==> |trace[i].copies[ops[i].k]| == 1
  {
    assert SpecStep(trace[i], ops[i], replies[i], trace[i + 1]);
    Untouched(trace, ops, replies, i + 1, j, ops[i].k);
    assert SpecStep(trace[j], ops[j], replies[j], trace[j + 1]);
  }

  // ---- runs of a plain map ----

  /** No key has a covered copy. */
  ghost predicate Single(m: Stacks)
    requires Total(m)
  {
    forall k: Key :: |m[k]| <= 1
  }

  /** The plain map a caller has in mind. */
  ghost function Plain(m: Stacks): imap<Key, Value> {
    imap k: Key | k in m && m[k] != [] :: m[k][0]
  }

  ghost predicate PlainStep(p: imap<Key, Value>, op: Op, reply: Reply, p': imap<Key, Value>) {
    match op
    case OpPut(k, v) => p' == if reply.status == OK then p[k := v] else p
    case OpInsert(k, v) => k !in p && p' == if reply.status == OK then p[k := v] else p
    case OpGet(k, cap) =>
      p' == p && GetResult(if k in p then Some(p[k]) else None, cap, reply.status, reply.buf)
    case OpDel(k) =>
      && (reply.status == OK <==> k in p)
      && p' == imap k': Key | k' in p && k' != k :: p[k']
  }

  /** While no key has a covered copy, every step is a step of a plain map. */
  lemma PlainMapStep(s: Spec, op: Op, reply: Reply, s': Spec)
    requires Total(s.copies) && Total(s'.copies) && SpecStep(s, op, reply, s')
    requires Single(s.copies) && Single(s'.copies)
    ensures PlainStep(Plain(s.copies), op, reply, Plain(s'.copies))
  {
    match op {
      case OpPut(k, v) => if reply.status == OK { PlainUpdate(s.copies, k, v, s'.copies); }
      case OpInsert(k, v) => if reply.status == OK { PlainUpdate(s.copies, k, v, s'.copies); }
      case OpGet(k, cap) =>
      case OpDel(k) => PlainRemove(s.copies, k, s'.copies);
    }
  }

  lemma PlainUpdate(m: Stacks, k: Key, v: Value, m': Stacks)
    requires Total(m) && Total(m') && m'[k] != [] && m'[k][0] == v
    requires forall k': Key | k' != k :: m'[k'] == m[k']
    ensures Plain(m') == Plain(m)[k := v]
  {
    forall k': Key ensures k' in Plain(m') <==> k' in Plain(m)[k := v] {
    }
  }

  lemma PlainRemove(m: Stacks, k: Key, m': Stacks)
    requires Total(m) && Total(m') && m'[k] == []
    requires forall k': Key | k' != k :: m'[k'] == m[k']
    ensures Plain(m') == imap k': Key | k' in Plain(m) && k' != k :: Plain(m)[k']
  {
    var q := imap k': Key | k' in Plain(m) && k' != k :: Plain(m)[k'];
    forall k': Key ensures k' in Plain(m') <==> k' in q {
    }
  }

  /** A step covers nothing when chains have no gap, or when it is no put. */
  lemma StaysSingle(s: Spec, op: Op, reply: Reply, s': Spec)
    requires Total(s.copies) && Total(s'.copies) && SpecStep(s, op, reply, s') && Single(s.copies)
    requires s.tight || !op.OpPut?
    ensures Single(s'.copies)
  {
    forall k: Key ensures |s'.copies[k]| <= 1 {
      assert |s.copies[k]| <= 1;
    }
  }

  /** Until the first delete no put covers a copy. */
  lemma {:induction false} SingleUntilDelete(trace: seq<Spec>, ops: seq<Op>, replies: seq<Reply>, n: nat)
    requires SpecRun(trace, ops, replies) && n < |trace|
    requires trace[0].tight && Single(trace[0].copies)
    requires forall i | 0 <= i < n :: !ops[i].OpDel?
    ensures trace[n].tight && Single(trace[n].copies)
  {
    if n > 0 {
      SingleUntilDelete(trace, ops, replies, n - 1);
      StaysSingle(trace[n - 1], ops[n - 1], replies[n - 1], trace[n]);
    }
  }

  /** A run is a run of a plain map for as long as no put meets a chain with a gap: up to the
      first delete that opens one, and beyond it while keys are written by inserts. */
  lemma {:induction false} PlainRun(trace: seq<Spec>, ops: seq<Op>, replies: seq<Reply>, n: nat)
    requires SpecRun(trace, ops, replies) && n < |replies|
    requires Single(trace[0].copies)
    requires forall i | 0 <= i <= n :: trace[i].tight || !ops[i].OpPut?
    ensures Single(trace[n].copies) && Single(trace[n + 1].copies)
    ensures PlainStep(Plain(trace[n].copies), ops[n], replies[n], Plain(trace[n + 1].copies))
    decreases n
  {
    if n > 0 { PlainRun(trace, ops, replies, n - 1); }
    StaysSingle(trace[n], ops[n], replies[n], trace[n + 1]);
    PlainMapStep(trace[n], ops[n], replies[n], trace[n + 1]);
  }

  /** An index that was never written starts such a run. */
  lemma FreshIsPlain(hash: HashFn)
    ensures var st := State([NO_PAGE], 0, map[], map[], map[]);
            && StateOK(hash, st) && SpecOf(hash, st).tight
            && (forall k: Key :: Stack(hash, st, k) == [] && NoAlias(hash, st, k))
            && Single(SpecOf(hash, st).copies)
  {
    var st := State([NO_PAGE], 0, map[], map[], map[]);
    forall k: Key ensures Stack(hash, st, k) == [] {
      DirIndexIsResidue(hash(k), 0);
    }
  }
}
