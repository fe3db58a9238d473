/** File contents: short files inside the inode, longer ones in one extent. */
module FileStore {
  import opened PagedLayout
  import opened Allocator

  const INLINE_MAX := 128

  datatype Status = OK | ENOSPC

  /** The inode fields that locate the data. Inline bytes and extent pointer share storage
      in the original; inline bytes mean nothing once there are blocks. */
  datatype Inode = Inode(size: nat, blocks: nat, extentOff: nat, inlined: seq<Byte>)

  type Disk = map<nat, Byte>

  /** Bytes never written read as zero. */
  function ByteOf(disk: Disk, p: nat): Byte {
    if p in disk then disk[p] else 0
  }

  function Bytes(disk: Disk, at: nat, n: nat): (r: seq<Byte>)
    ensures |r| == n
  {
    seq<Byte>(n, j requires 0 <= j < n => ByteOf(disk, at + j))
  }

  function WriteBytes(disk: Disk, at: nat, buf: seq<Byte>): (d: Disk)
    ensures forall p: nat :: ByteOf(d, p) == if at <= p < at + |buf| then buf[p - at] else ByteOf(disk, p)
  {
    disk + map p: nat | at <= p < at + |buf| :: Pick(buf, at, p)
  }

  function Pick(buf: seq<Byte>, at: nat, p: nat): Byte
    requires at <= p < at + |buf|
  {
    buf[p - at]
  }

  // ---- the reference: a zero-filled byte array ----

  /** `c` after writing `buf` at `off`; a gap before `off` is filled with zeros. */
  function Overlay(c: seq<Byte>, off: nat, buf: seq<Byte>): (r: seq<Byte>)
    ensures |r| == if off + |buf| > |c| then off + |buf| else |c|
    ensures forall j | 0 <= j < |r| ::
              r[j] == if off <= j < off + |buf| then buf[j - off] else if j < |c| then c[j] else 0
  {
    var n := if off + |buf| > |c| then off + |buf| else |c|;
    seq(n, j requires 0 <= j < n =>
      if off <= j < off + |buf| then buf[j - off] else if j < |c| then c[j] else 0)
  }

  /** What a read of up to `len` bytes at `off` should return: as many as there are. */
  function Window(c: seq<Byte>, off: nat, len: nat): (r: seq<Byte>)
    ensures |r| == if off >= |c| then 0 else if len > |c| - off then |c| - off else len
    ensures forall j | 0 <= j < |r| :: r[j] == c[off + j]
  {
    if off >= |c| then [] else if off + len <= |c| then c[off..off + len] else c[off..]
  }

  /** Reading back what was just written. */
  lemma ReadBack(c: seq<Byte>, off: nat, buf: seq<Byte>)
    requires |buf| > 0
    ensures Window(Overlay(c, off, buf), off, |buf|) == buf
  {
  }

  /** Bytes outside a write are read as before; behind the old end they are zeros. */
  lemma ReadAround(c: seq<Byte>, off: nat, buf: seq<Byte>, at: nat, len: nat)
    requires |buf| > 0 && (at + len <= off || off + |buf| <= at)
    ensures var w, w0 := Window(Overlay(c, off, buf), at, len), Window(c, at, len);
            && |w0| <= |w| && w[..|w0|] == w0
            && (forall j | |w0| <= j < |w| :: w[j] == 0)
            && (off + |buf| <= at ==> w == w0)
  {
  }

  // ---- what an inode shows ----

  function ContentOf(disk: Disk, ino: Inode): (c: seq<Byte>)
    ensures ino.blocks > 0 || ino.size <= |ino.inlined| ==> |c| == ino.size
  {
    if ino.blocks > 0 then Bytes(disk, ino.extentOff, ino.size)
    else if ino.size <= |ino.inlined| then ino.inlined[..ino.size] else []
  }

  ghost predicate InodeOK(disk: Disk, top: nat, ino: Inode) {
    && |ino.inlined| == INLINE_MAX
    && (forall p | p in disk :: p < top)
    && (if ino.blocks == 0 then
          && ino.size <= INLINE_MAX
          && forall j | ino.size <= j < INLINE_MAX :: ino.inlined[j] == 0
        else
          && 0 < ino.extentOff && ino.extentOff + ino.blocks * BLOCK_SIZE <= top
          && ino.size <= ino.blocks * BLOCK_SIZE
          && forall p: nat | ino.extentOff + ino.size <= p < ino.extentOff + ino.blocks * BLOCK_SIZE :: ByteOf(disk, p) == 0)
  }

  /** The least number of blocks that hold `end` bytes. */
  function BlocksFor(end: nat): (n: nat)
    ensures end <= n * BLOCK_SIZE && (n > 0 ==> (n - 1) * BLOCK_SIZE < end)
  {
    (end + BLOCK_SIZE - 1) / BLOCK_SIZE
  }

  /** The blocks a write asks for: one for promoted inline data, then all that are missing. */
  function Requests(ino: Inode, end: nat): seq<nat> {
    if end <= INLINE_MAX then []
    else
      PromoteRuns(ino) + EnlargeRuns(ino, BlocksFor(end))
  }

  function PromoteRuns(ino: Inode): seq<nat> {
    if ino.size > 0 && ino.blocks == 0 then [1] else []
  }

  function EnlargeRuns(ino: Inode, need: nat): seq<nat> {
    var have := if ino.size > 0 && ino.blocks == 0 then 1 else ino.blocks;
    if need > have then [need - have] else []
  }

  lemma RunsCovered(grows: nat -> bool, l: Ledger, runs: seq<nat>)
    ensures l.c.freeBlocks >= Sum(runs) ==>
              AffordsRuns(grows, l, runs) && SpendRuns(grows, l, runs) == Less(l, Sum(runs))
  {
    if l.c.freeBlocks >= Sum(runs) { RunsFree(grows, l, runs); }
  }

  /** Altogether the blocks the end needs beyond those the file has. */
  lemma RequestsSum(ino: Inode, end: nat)
    ensures Sum(Requests(ino, end)) ==
            if end <= INLINE_MAX || BlocksFor(end) <= ino.blocks then 0 else BlocksFor(end) - ino.blocks
  {
    var a, b := PromoteRuns(ino), EnlargeRuns(ino, BlocksFor(end));
    if b != [] { assert b[1..] == []; }
    if a == [] {
      assert a + b == b;
    } else {
      assert (a + b)[1..] == b && Sum(a + b) == 1 + Sum(b);
    }
  }

  /** The write has to enlarge an extent that exists or is just being made from inline data. */
  predicate Enlarges(ino: Inode, end: nat) {
    && end > INLINE_MAX
    && (ino.blocks > 0 || ino.size > 0)
    && BlocksFor(end) > (if ino.blocks > 0 then ino.blocks else 1)
  }

  /** The newly allocated blocks follow the extent directly. */
  predicate Contiguous(ino: Inode, top: nat) {
    ino.blocks > 0 ==> top == ino.extentOff + ino.blocks * BLOCK_SIZE
  }

  /** Every old byte outside the written range is zero. */
  ghost predicate RestIsZero(c: seq<Byte>, off: nat, buf: seq<Byte>) {
    forall j | 0 <= j < |c| && !(off <= j < off + |buf|) :: c[j] == 0
  }

  /** One file as it stands: the disk, the first byte no allocation has covered, the inode. */
  datatype State = State(disk: Disk, top: nat, ino: Inode)

  class Store {
    var disk: Disk
    /** The superblock's allocation counters. */
    var sb: Counters
    /** How often the system was asked to extend the file, and what it answers each time. */
    var asked: nat
    const grows: nat -> bool
    var ino: Inode

    ghost predicate CountersOK()
      reads this`sb
    {
      0 < sb.dataOff && sb.freeBlocks <= sb.blockCount
    }

    /** The first byte no allocation has covered yet. */
    ghost function Top(): nat
      requires CountersOK()
      reads this`sb
    {
      sb.dataOff + (sb.blockCount - sb.freeBlocks) * BLOCK_SIZE
    }

    ghost predicate Valid()
      reads this
    {
      CountersOK() && InodeOK(disk, Top(), ino)
    }

    ghost function Now(): State
      requires CountersOK()
      reads this
    {
      State(disk, Top(), ino)
    }

    function Books(): Ledger
      reads this`sb, this`asked
    {
      Ledger(sb, asked)
    }

    ghost function Content(): seq<Byte>
      reads this
    {
      ContentOf(disk, ino)
    }

    /** An empty file. */
    constructor (sb: Counters, grows: nat -> bool)
      requires 0 < sb.dataOff && sb.freeBlocks <= sb.blockCount
      ensures Valid() && Content() == [] && this.sb == sb
    {
      disk, this.sb, asked, this.grows := map[], sb, 0, grows;
      ino := Inode(0, 0, 0, ZeroBytes(INLINE_MAX));
    }

    /** `n` fresh blocks, or 0. While a block is free this is the code's own allocation; with
        none left it stands for "refused, or `n` more blocks past the end". */
    method Alloc(n: nat) returns (off: nat)
      requires CountersOK() && n > 0
      modifies this`sb, this`asked
      ensures CountersOK() && Books() == AfterRun(grows, old(Books()), n)
      ensures off != 0 <==> GrantsRun(grows, old(Books()), n)
      ensures if off == 0 then sb == old(sb) else 0 < off == old(Top()) && Top() == off + n * BLOCK_SIZE
      ensures old(sb.freeBlocks) > 0 ==> (off, sb) == AllocMany(old(sb), n, grows(old(asked)))
    {
      var l := AfterRun(grows, Books(), n);
      if sb.freeBlocks > 0 {
        var r := AllocMany(sb, n, grows(asked));
        off, sb := r.0, r.1;
      } else if grows(asked) {
        off := sb.dataOff + sb.blockCount * BLOCK_SIZE;
        sb := sb.(blockCount := sb.blockCount + n);
      } else {
        off := 0;
      }
      asked := l.asked;
    }

    /** `xxfs_read`. */
    method Read(off: nat, len: nat) returns (buf: seq<Byte>)
      requires Valid()
      ensures |buf| == if off >= |Content()| then 0 else if len > |Content()| - off then |Content()| - off else len
      ensures forall j | 0 <= j < |buf| :: buf[j] == Content()[off + j]
      ensures buf == Window(Content(), off, len)
    {
      if off >= ino.size {
        return [];
      }
      var n := if len > ino.size - off then ino.size - off else len;
      if ino.size <= INLINE_MAX && ino.blocks == 0 {
        buf := ino.inlined[off..off + n];
      } else {
        buf := Bytes(disk, ino.extentOff + off, n);
      }
      ghost var c := Content();
      assert |c| == ino.size && forall j | 0 <= j < n :: buf[j] == c[off + j];
      assert buf == c[off..off + n];
    }

    /** `xxfs_write`, except short writes to a file that already has an extent. A write that
        does not enlarge an extent is a write to a zero-filled byte array; one that does
        moves the extent pointer to the new blocks, and is right exactly when those blocks
        do not follow the old ones or nothing but zeros was left behind. Its extent then
        reaches into blocks that were never allocated. The write succeeds exactly when its
        `Requests` are granted and takes just these blocks; with as many free it takes them
        from there. */
    method Write(off: nat, buf: seq<Byte>) returns (r: Status)
      requires Valid() && |buf| > 0
      requires off + |buf| <= INLINE_MAX ==> ino.blocks == 0
      modifies this
      ensures r == ENOSPC ==> Valid() && Content() == old(Content())
      ensures r == OK && !Enlarges(old(ino), off + |buf|) ==> Valid() && Content() == Overlay(old(Content()), off, buf)
      ensures r == OK && Enlarges(old(ino), off + |buf|) ==>
                (Content() == Overlay(old(Content()), off, buf) <==>
                   !Contiguous(old(ino), old(Top())) || RestIsZero(old(Content()), off, buf))
      ensures r == OK && Enlarges(old(ino), off + |buf|) && Contiguous(old(ino), old(Top())) ==>
                Content() == Overlay(ZeroBytes(|old(Content())|), off, buf)
      ensures CountersOK()
      ensures r == OK && Enlarges(old(ino), off + |buf|) ==> ino.extentOff + ino.blocks * BLOCK_SIZE > Top()
      ensures r == OK ==> ino.size == if off + |buf| > old(ino.size) then off + |buf| else old(ino.size)
      ensures r == OK && off + |buf| > INLINE_MAX ==>
                ino.blocks == if BlocksFor(off + |buf|) > old(ino.blocks) then BlocksFor(off + |buf|) else old(ino.blocks)
      ensures r == if AffordsRuns(grows, old(Books()), Requests(old(ino), off + |buf|)) then OK else ENOSPC
      ensures Books() == SpendRuns(grows, old(Books()), Requests(old(ino), off + |buf|))
      ensures var missing := Sum(Requests(old(ino), off + |buf|));
              old(sb.freeBlocks) >= missing ==> r == OK && Books() == Less(old(Books()), missing)
    {
      var end := off + |buf|;
      RunsCovered(grows, Books(), Requests(ino, end));
      if end <= INLINE_MAX {
        WriteInline(off, buf);
        r := OK;
      } else {
        r := WriteLong(off, buf);
      }
    }

    /** A write that ends beyond the inline area. */
    method WriteLong(off: nat, buf: seq<Byte>) returns (r: Status)
      requires Valid() && |buf| > 0 && off + |buf| > INLINE_MAX
      modifies this
      ensures CountersOK() && (r == ENOSPC ==> Valid() && Content() == old(Content()))
      ensures r == OK && !Enlarges(old(ino), off + |buf|) ==> Valid() && Content() == Overlay(old(Content()), off, buf)
      ensures r == OK && Enlarges(old(ino), off + |buf|) ==>
                && (Content() == Overlay(old(Content()), off, buf) <==>
                      !Contiguous(old(ino), old(Top())) || RestIsZero(old(Content()), off, buf))
                && (Contiguous(old(ino), old(Top())) ==> Content() == Overlay(ZeroBytes(|old(Content())|), off, buf))
                && ino.extentOff + ino.blocks * BLOCK_SIZE > Top()
      ensures r == OK ==>
                && ino.size == (if off + |buf| > old(ino.size) then off + |buf| else old(ino.size))
                && ino.blocks == (if BlocksFor(off + |buf|) > old(ino.blocks) then BlocksFor(off + |buf|) else old(ino.blocks))
      ensures r == if AffordsRuns(grows, old(Books()), Requests(old(ino), off + |buf|)) then OK else ENOSPC
      ensures Books() == SpendRuns(grows, old(Books()), Requests(old(ino), off + |buf|))
    {
      ghost var st := Now();
      r := WriteExtent(off, buf);
      if r == OK {
        WrittenInode(st, off, buf);
        if Enlarges(st.ino, off + |buf|) { EnlargingExact(st, off, buf); } else { WriteRefines(st, off, buf); }
      }
    }

    method WriteInline(off: nat, buf: seq<Byte>)
      requires Valid() && ino.blocks == 0 && 0 < off + |buf| <= INLINE_MAX
      modifies this`ino
      ensures Valid() && Content() == Overlay(old(Content()), off, buf)
      ensures ino.size == if off + |buf| > old(ino.size) then off + |buf| else old(ino.size)
    {
      var end := off + |buf|;
      ino := ino.(inlined := Splice(ino.inlined, off, buf),
                  size := if end > ino.size then end else ino.size);
      assert Content() == Overlay(old(Content()), off, buf);
    }

    method WriteExtent(off: nat, buf: seq<Byte>) returns (r: Status)
      requires Valid() && |buf| > 0 && off + |buf| > INLINE_MAX
      modifies this
      ensures CountersOK() && (r == ENOSPC ==> Valid() && Content() == old(Content()))
      ensures r == OK ==> Now() == Written(old(Now()), off, buf)
      ensures r == if AffordsRuns(grows, old(Books()), Requests(old(ino), off + |buf|)) then OK else ENOSPC
      ensures Books() == SpendRuns(grows, old(Books()), Requests(old(ino), off + |buf|))
    {
      var need := BlocksFor(off + |buf|);
      var ok, cur := Grown(need);
      if !ok {
        return ENOSPC;
      }
      Commit(cur, off, buf);
      r := OK;
    }

    method Commit(cur: Inode, off: nat, buf: seq<Byte>)
      requires CountersOK()
      modifies this`disk, this`ino
      ensures Now() == After(State(old(disk), Top(), cur), off, buf)
    {
      disk := WriteBytes(disk, cur.extentOff + off, buf);
      ino := Stored(cur, off, buf);
    }

    /** Promotion and enlargement: the inode in memory covers `need` blocks. */
    method Grown(need: nat) returns (ok: bool, cur: Inode)
      requires Valid() && need > 0
      modifies this`disk, this`sb, this`asked
      ensures CountersOK() && (!ok ==> Valid() && Content() == old(Content()))
      ensures ok ==> State(disk, Top(), cur) == Enlarged(Promoted(old(Now())), need)
      ensures ok <==> AffordsRuns(grows, old(Books()), PromoteRuns(ino) + EnlargeRuns(ino, need))
      ensures Books() == SpendRuns(grows, old(Books()), PromoteRuns(ino) + EnlargeRuns(ino, need))
    {
      RunsInTurn(grows, Books(), PromoteRuns(ino), EnlargeRuns(ino, need));
      ok, cur := Promote();
      if ok {
        if need > cur.blocks { OneRun(grows, Books(), need - cur.blocks); }
        ok, cur := Enlarge(cur, need);
      }
    }

    /** Move inline data into a first block; the inode in memory is not stored yet. */
    method Promote() returns (ok: bool, cur: Inode)
      requires Valid()
      modifies this`disk, this`sb, this`asked
      ensures Valid() && Content() == old(Content())
      ensures ok ==> State(disk, Top(), cur) == Promoted(old(Now()))
      ensures ok <==> AffordsRuns(grows, old(Books()), PromoteRuns(ino))
      ensures Books() == SpendRuns(grows, old(Books()), PromoteRuns(ino))
    {
      cur := ino;
      if cur.size > 0 && cur.blocks == 0 {
        OneRun(grows, Books(), 1);
        var first := Alloc(1);
        if first == 0 {
          return false, cur;
        }
        disk := WriteBytes(disk, first, cur.inlined[..cur.size]);
        cur := cur.(extentOff := first, blocks := 1);
      }
      ok := true;
    }

    /** Allocate missing blocks and move the extent pointer to them. */
    method Enlarge(cur: Inode, need: nat) returns (ok: bool, next: Inode)
      requires CountersOK()
      modifies this`disk, this`sb, this`asked
      ensures CountersOK()
      ensures !ok ==> disk == old(disk) && sb == old(sb)
      ensures ok ==> State(disk, Top(), next) == Enlarged(State(old(disk), old(Top()), cur), need)
      ensures ok <==> need <= cur.blocks || GrantsRun(grows, old(Books()), need - cur.blocks)
      ensures Books() == if need <= cur.blocks then old(Books()) else AfterRun(grows, old(Books()), need - cur.blocks)
    {
      next := cur;
      if need > cur.blocks {
        var more := Alloc(need - cur.blocks);
        if more == 0 {
          return false, cur;
        }
        if cur.blocks > 0 && more != cur.extentOff + cur.blocks * BLOCK_SIZE {
          disk := WriteBytes(disk, more, Bytes(disk, cur.extentOff, cur.blocks * BLOCK_SIZE));
        }
        next := cur.(extentOff := more, blocks := need);
      }
      ok := true;
    }
  }

  // ---- a successful write, step by step ----

  /** Inline data moved into a first block. */
  function Promoted(st: State): State
    requires |st.ino.inlined| == INLINE_MAX && (st.ino.blocks == 0 ==> st.ino.size <= INLINE_MAX)
  {
    if st.ino.size > 0 && st.ino.blocks == 0 then
      State(WriteBytes(st.disk, st.top, st.ino.inlined[..st.ino.size]), st.top + BLOCK_SIZE,
            st.ino.(extentOff := st.top, blocks := 1))
    else st
  }

  /** Missing blocks allocated, and the extent pointer moved to them. */
  function Enlarged(st: State, need: nat): State {
    if need <= st.ino.blocks then st
    else
      var copied :=
        if st.ino.blocks > 0 && st.top != st.ino.extentOff + st.ino.blocks * BLOCK_SIZE
        then WriteBytes(st.disk, st.top, Bytes(st.disk, st.ino.extentOff, st.ino.blocks * BLOCK_SIZE))
        else st.disk;
      State(copied, st.top + (need - st.ino.blocks) * BLOCK_SIZE, st.ino.(extentOff := st.top, blocks := need))
  }

  function Written(st: State, off: nat, buf: seq<Byte>): State
    requires |st.ino.inlined| == INLINE_MAX && (st.ino.blocks == 0 ==> st.ino.size <= INLINE_MAX)
  {
    After(Enlarged(Promoted(st), BlocksFor(off + |buf|)), off, buf)
  }

  /** Size and blocks of the inode after a write, and where an enlarged extent ends. */
  lemma WrittenInode(st: State, off: nat, buf: seq<Byte>)
    requires StateOK(st) && |buf| > 0 && off + |buf| > INLINE_MAX
    ensures var end, st' := off + |buf|, Written(st, off, buf);
            && st'.ino.size == (if end > st.ino.size then end else st.ino.size)
            && st'.ino.blocks == (if BlocksFor(end) > st.ino.blocks then BlocksFor(end) else st.ino.blocks)
            && (Enlarges(st.ino, end) ==> st'.ino.extentOff + st'.ino.blocks * BLOCK_SIZE > st'.top)
  {
  }

  /** `buf` written into the extent, and the size raised if it ends beyond. */
  function After(st: State, off: nat, buf: seq<Byte>): State {
    State(WriteBytes(st.disk, st.ino.extentOff + off, buf), st.top, Stored(st.ino, off, buf))
  }

  /** The file became `c` with `buf` laid over it. */
  ghost predicate Lays(st: State, c: seq<Byte>, off: nat, buf: seq<Byte>) {
    ContentOf(After(st, off, buf).disk, After(st, off, buf).ino) == Overlay(c, off, buf)
  }

  ghost predicate StateOK(st: State) {
    0 < st.top && InodeOK(st.disk, st.top, st.ino)
  }

  lemma PromotedOK(st: State)
    requires StateOK(st)
    ensures StateOK(Promoted(st)) && ContentOf(Promoted(st).disk, Promoted(st).ino) == ContentOf(st.disk, st.ino)
  {
    var st1 := Promoted(st);
    assert ContentOf(st1.disk, st1.ino) == ContentOf(st.disk, st.ino);
  }

  /** A write that does not enlarge an extent is a write to a zero-filled byte array. */
  lemma WriteRefines(st: State, off: nat, buf: seq<Byte>)
    requires StateOK(st) && |buf| > 0 && off + |buf| > INLINE_MAX && !Enlarges(st.ino, off + |buf|)
    ensures var st' := Written(st, off, buf);
            StateOK(st') && ContentOf(st'.disk, st'.ino) == Overlay(ContentOf(st.disk, st.ino), off, buf)
  {
    PromotedOK(st);
    EnlargedLays(Promoted(st), BlocksFor(off + |buf|), off, buf);
  }

  /** A write that enlarges an extent is right exactly when the new blocks do not follow the
      old ones, or nothing but zeros is left behind in the old ones. */
  lemma EnlargingExact(st: State, off: nat, buf: seq<Byte>)
    requires StateOK(st) && |buf| > 0 && Enlarges(st.ino, off + |buf|)
    ensures var st', c := Written(st, off, buf), ContentOf(st.disk, st.ino);
            && (ContentOf(st'.disk, st'.ino) == Overlay(c, off, buf) <==> !Contiguous(st.ino, st.top) || RestIsZero(c, off, buf))
            && (Contiguous(st.ino, st.top) ==> ContentOf(st'.disk, st'.ino) == Overlay(ZeroBytes(|c|), off, buf))
  {
    PromotedOK(st);
    EnlargedLays(Promoted(st), BlocksFor(off + |buf|), off, buf);
  }

  lemma EnlargedLays(st1: State, need: nat, off: nat, buf: seq<Byte>)
    requires StateOK(st1) && |buf| > 0 && need == BlocksFor(off + |buf|) && (st1.ino.blocks == 0 ==> st1.ino.size == 0)
    ensures var st2, c := Enlarged(st1, need), ContentOf(st1.disk, st1.ino);
            if st1.ino.blocks == 0 || need <= st1.ino.blocks then StateOK(After(st2, off, buf)) && Lays(st2, c, off, buf)
            else
              && (Lays(st2, c, off, buf) <==>
                    st1.top != st1.ino.extentOff + st1.ino.blocks * BLOCK_SIZE || RestIsZero(c, off, buf))
              && (st1.top == st1.ino.extentOff + st1.ino.blocks * BLOCK_SIZE ==> Lays(st2, ZeroBytes(|c|), off, buf))
  {
    if st1.ino.blocks == 0 {
      FirstExtent(st1, need, off, buf);
    } else if need <= st1.ino.blocks {
      WithinExtent(st1, off, buf);
    } else if st1.top != st1.ino.extentOff + st1.ino.blocks * BLOCK_SIZE {
      EnlargeCopies(st1, need, off, buf);
    } else {
      EnlargeMoves(st1, need, off, buf);
    }
  }

  /** The failing case is reached: a one-byte file that grows past one block loses its byte. */
  lemma EnlargingLoses()
    ensures var st := State(map[], 4096, Inode(1, 0, 0, [7] + ZeroBytes(127)));
            var buf := ZeroBytes(1);
            && StateOK(st) && Enlarges(st.ino, 4096 + |buf|)
            && ContentOf(Written(st, 4096, buf).disk, Written(st, 4096, buf).ino) !=
               Overlay(ContentOf(st.disk, st.ino), 4096, buf)
  {
    var st := State(map[], 4096, Inode(1, 0, 0, [7] + ZeroBytes(127)));
    EnlargingExact(st, 4096, ZeroBytes(1));
    assert ContentOf(st.disk, st.ino)[0] == 7;
  }

  /** The inode and the disk after a write of `buf` at `off` into the extent of `cur`. */
  function Stored(cur: Inode, off: nat, buf: seq<Byte>): Inode {
    cur.(size := if off + |buf| > cur.size then off + |buf| else cur.size)
  }

  lemma WithinExtent(st: State, off: nat, buf: seq<Byte>)
    requires StateOK(st) && st.ino.blocks > 0 && BlocksFor(off + |buf|) <= st.ino.blocks
    ensures StateOK(After(st, off, buf)) && Lays(st, ContentOf(st.disk, st.ino), off, buf)
  {
    var st' := After(st, off, buf);
    assert forall p | p in st'.disk :: p < st'.top;
    assert ContentOf(st'.disk, st'.ino) == Overlay(ContentOf(st.disk, st.ino), off, buf);
  }

  /** From `at` on the disk holds `c` and then zeros. */
  ghost predicate ZeroFilled(disk: Disk, at: nat, c: seq<Byte>) {
    forall p: nat | at <= p :: ByteOf(disk, p) == if p < at + |c| then c[p - at] else 0
  }

  /** On a zero-filled extent a write is a write to a zero-filled array. */
  lemma LaysOver(st: State, c: seq<Byte>, off: nat, buf: seq<Byte>)
    requires st.ino.blocks > 0 && st.ino.size == |c| && ZeroFilled(st.disk, st.ino.extentOff, c)
    ensures Lays(st, c, off, buf)
  {
    var st' := After(st, off, buf);
    assert ContentOf(st'.disk, st'.ino) == Overlay(c, off, buf);
  }

  lemma FirstExtent(st: State, need: nat, off: nat, buf: seq<Byte>)
    requires StateOK(st) && st.ino.blocks == 0 && st.ino.size == 0 && need == BlocksFor(off + |buf|) > 0
    ensures StateOK(After(Enlarged(st, need), off, buf)) && Lays(Enlarged(st, need), ContentOf(st.disk, st.ino), off, buf)
  {
    var st2 := Enlarged(st, need);
    var st' := After(st2, off, buf);
    assert forall p | p in st'.disk :: p < st'.top;
    assert ContentOf(st.disk, st.ino) == [];
    LaysOver(st2, [], off, buf);
  }

  /** The new blocks do not follow the old ones: the data is copied first. */
  lemma EnlargeCopies(st: State, need: nat, off: nat, buf: seq<Byte>)
    requires StateOK(st) && 0 < st.ino.blocks < need && st.top != st.ino.extentOff + st.ino.blocks * BLOCK_SIZE
    ensures Lays(Enlarged(st, need), ContentOf(st.disk, st.ino), off, buf)
  {
    var n := st.ino.blocks * BLOCK_SIZE;
    var data := Bytes(st.disk, st.ino.extentOff, n);
    assert ContentOf(st.disk, st.ino) == data[..st.ino.size];
    CopyExtends(st.disk, st.top, data, st.ino.size);
    LaysOver(Enlarged(st, need), ContentOf(st.disk, st.ino), off, buf);
  }

  /** A copied extent and the fresh space behind it, as a zero-filled array. */
  lemma CopyExtends(disk: Disk, top: nat, data: seq<Byte>, size: nat)
    requires (forall p | p in disk :: p < top) && size <= |data|
    requires forall j | size <= j < |data| :: data[j] == 0
    ensures ZeroFilled(WriteBytes(disk, top, data), top, data[..size])
  {
  }

  /** The new blocks follow the old ones: nothing is copied, yet the pointer moves. */
  lemma EnlargeMoves(st: State, need: nat, off: nat, buf: seq<Byte>)
    requires StateOK(st) && 0 < st.ino.blocks < need && st.top == st.ino.extentOff + st.ino.blocks * BLOCK_SIZE
    ensures Lays(Enlarged(st, need), ContentOf(st.disk, st.ino), off, buf) <==>
            RestIsZero(ContentOf(st.disk, st.ino), off, buf)
    ensures Lays(Enlarged(st, need), ZeroBytes(|ContentOf(st.disk, st.ino)|), off, buf)
  {
    var z := ZeroBytes(st.ino.size);
    LaysOver(Enlarged(st, need), z, off, buf);
    OverlayZeros(ContentOf(st.disk, st.ino), z, off, buf);
  }

  lemma OverlayZeros(c: seq<Byte>, z: seq<Byte>, off: nat, buf: seq<Byte>)
    requires |c| == |z| && forall j | 0 <= j < |z| :: z[j] == 0
    ensures Overlay(z, off, buf) == Overlay(c, off, buf) <==> RestIsZero(c, off, buf)
  {
    var a, b := Overlay(z, off, buf), Overlay(c, off, buf);
    forall j | 0 <= j < |c| && !(off <= j < off + |buf|) ensures a[j] == 0 && b[j] == c[j] {
    }
    if RestIsZero(c, off, buf) { assert a == b; }
  }
}
