/** CRC-32C: the table, the byte loop, and what the checksum detects. */
module Crc32c {
  import opened Bits
  import PagedLayout

  type Byte = PagedLayout.Byte
  type Word = w: nat | w < 0x1_0000_0000

  /** The Castagnoli polynomial, bits reversed. */
  const POLY: Word := 0x82F63B78
  const ALL_ONES: Word := 0xFFFF_FFFF
  /** The checksum of every message with its own checksum behind it. */
  const RESIDUE: Word := 0x48674BC7

  /** The polynomial has the terms x^32, which the register shifts out, and x^e at bit 31 - e for
      each of Castagnoli's exponents e. */
  lemma PolyTerms()
    ensures POLY == Pow2(31 - 28) + Pow2(31 - 27) + Pow2(31 - 26) + Pow2(31 - 25) + Pow2(31 - 23) + Pow2(31 - 22)
                  + Pow2(31 - 20) + Pow2(31 - 19) + Pow2(31 - 18) + Pow2(31 - 14) + Pow2(31 - 13) + Pow2(31 - 11)
                  + Pow2(31 - 10) + Pow2(31 - 9) + Pow2(31 - 8) + Pow2(31 - 6) + Pow2(31 - 0)
  {
    assert Pow2(8) == 256;
    Pow2Add(8, 8);
    Pow2Add(16, 8);
    assert Pow2(24) == 0x100_0000;
    assert Pow2(31) == 128 * Pow2(24);
  }

  // ---- exclusive or ----

  function Xor(a: nat, b: nat): nat
    decreases a + b
  {
    if a == 0 && b == 0 then 0 else (a + b) % 2 + 2 * Xor(a / 2, b / 2)
  }

  lemma {:induction false} XorBits(a: nat, b: nat)
    ensures Xor(a, b) % 2 == (a + b) % 2
    ensures Xor(a, b) / 2 == Xor(a / 2, b / 2)
  {
    if a > 0 || b > 0 { TwoParts((a + b) % 2, Xor(a / 2, b / 2)); }
  }

  lemma TwoParts(m: nat, q: nat)
    requires m < 2
    ensures (m + 2 * q) % 2 == m && (m + 2 * q) / 2 == q
  {
  }

  lemma {:induction false} XorZero(a: nat)
    ensures Xor(a, 0) == a
  {
    if a > 0 { XorZero(a / 2); }
  }

  lemma {:induction false} XorSelf(a: nat)
    ensures Xor(a, a) == 0
    decreases a
  {
    if a > 0 { XorSelf(a / 2); }
  }

  lemma {:induction false} XorComm(a: nat, b: nat)
    ensures Xor(a, b) == Xor(b, a)
    decreases a + b
  {
    if a > 0 || b > 0 { XorComm(a / 2, b / 2); }
  }

  lemma {:induction false} XorAssoc(a: nat, b: nat, c: nat)
    ensures Xor(Xor(a, b), c) == Xor(a, Xor(b, c))
    decreases a + b + c
  {
    if a > 0 || b > 0 || c > 0 {
      XorAssoc(a / 2, b / 2, c / 2);
      XorBits(a, b);
      XorBits(b, c);
      var x, y := Xor(a, b), Xor(b, c);
      XorBits(x, c);
      XorBits(a, y);
      ParityAssoc(a, b, c, x, y);
      SameNumber(Xor(x, c), Xor(a, y));
    }
  }

  lemma ParityAssoc(a: nat, b: nat, c: nat, x: nat, y: nat)
    requires x % 2 == (a + b) % 2 && y % 2 == (b + c) % 2
    ensures (x + c) % 2 == (a + y) % 2
  {
  }

  lemma SameNumber(l: nat, r: nat)
    requires l % 2 == r % 2 && l / 2 == r / 2
    ensures l == r
  {
  }

  lemma {:induction false} XorBound(a: nat, b: nat, n: nat)
    requires a < Pow2(n) && b < Pow2(n)
    ensures Xor(a, b) < Pow2(n)
    decreases n
  {
    if n > 0 { XorBound(a / 2, b / 2, n - 1); }
  }

  /** The top bit of the first operand survives. */
  lemma {:induction false} XorTop(a: nat, b: nat, n: nat)
    requires Pow2(n) <= a < Pow2(n + 1) && b < Pow2(n)
    ensures Pow2(n) <= Xor(a, b)
    decreases n
  {
    if n > 0 { XorTop(a / 2, b / 2, n - 1); }
  }

  /** (a ^ x) ^ (b ^ y) = (a ^ b) ^ (x ^ y). */
  lemma XorSwap(a: nat, x: nat, b: nat, y: nat)
    ensures Xor(Xor(a, x), Xor(b, y)) == Xor(Xor(a, b), Xor(x, y))
  {
    XorAssoc(a, x, Xor(b, y));
    XorAssoc(x, b, y);
    XorComm(x, b);
    XorAssoc(b, x, y);
    XorAssoc(a, b, Xor(x, y));
  }

  lemma XorCancel(a: nat, b: nat, x: nat)
    requires Xor(a, x) == Xor(b, x)
    ensures a == b
  {
    XorAssoc(a, x, x);
    XorAssoc(b, x, x);
    XorSelf(x);
    XorZero(a);
    XorZero(b);
  }

  lemma XorWord(a: Word, b: Word)
    ensures Xor(a, b) < 0x1_0000_0000
  {
    Pow32();
    XorBound(a, b, 32);
  }

  lemma Pow32()
    ensures Pow2(31) == 0x8000_0000 && Pow2(32) == 0x1_0000_0000
  {
    assert Pow2(8) == 256;
    Pow2Add(8, 8);
    Pow2Add(16, 15);
    assert Pow2(15) == 32768;
  }

  // ---- the reference: one bit at a time ----

  /** One step of division by the polynomial. */
  function Shift(c: Word): Word {
    XorWord(POLY, c / 2);
    if c % 2 == 1 then Xor(POLY, c / 2) else c / 2
  }

  function Steps(c: Word, n: nat): Word
    decreases n
  {
    if n == 0 then c else Steps(Shift(c), n - 1)
  }

  function AsWord(bit: bool): Word {
    if bit then 1 else 0
  }

  /** Feed message bits into the register, one division step a bit. */
  function Feed(c: Word, bits: seq<bool>): Word
    decreases |bits|
  {
    if bits == [] then c
    else XorWord(c, AsWord(bits[0])); Feed(Shift(Xor(c, AsWord(bits[0]))), bits[1..])
  }

  /** The lowest `n` bits of a number, lowest first, as the reflected checksum consumes them. */
  function LowBits(b: nat, n: nat): (r: seq<bool>)
    ensures |r| == n
  {
    if n == 0 then [] else [b % 2 == 1] + LowBits(b / 2, n - 1)
  }

  function MessageBits(data: seq<Byte>): seq<bool> {
    if data == [] then [] else LowBits(data[0], 8) + MessageBits(data[1..])
  }

  /** The checksum by bit-by-bit division: preset to ones, complemented at the end. */
  function Checksum(data: seq<Byte>): Word {
    XorWord(Feed(ALL_ONES, MessageBits(data)), ALL_ONES);
    Xor(Feed(ALL_ONES, MessageBits(data)), ALL_ONES)
  }

  // ---- the code ----

  /** The inner loop of `crc32c_init`: a table entry is eight single-bit steps. */
  method TableEntry(i: Word) returns (c: Word)
    ensures c == Steps(i, 8)
  {
    c := i;
    var j := 0;
    while j < 8
      invariant 0 <= j <= 8
      invariant Steps(c, 8 - j) == Steps(i, 8)
    {
      XorWord(POLY, c / 2);
      AndMask(c, 1);
      c := if BitAnd(c, 1) != 0 then Xor(POLY, c / 2) else c / 2;
      j := j + 1;
    }
  }

  /** `crc32c_init`. */
  method MakeTable() returns (table: array<Word>)
    ensures fresh(table) && table.Length == 256
    ensures forall i | 0 <= i < 256 :: table[i] == Steps(i, 8)
  {
    table := new Word[256](_ => 0);
    var i := 0;
    while i < 256
      invariant 0 <= i <= 256
      invariant forall j | 0 <= j < i :: table[j] == Steps(j, 8)
    {
      var c := TableEntry(i);
      table[i] := c;
      i := i + 1;
    }
  }

  /** The table-driven branch of `xxfs_os_crc32c` computes the bit-by-bit checksum. */
  method Crc(data: seq<Byte>) returns (crc: Word)
    ensures crc == Checksum(data)
  {
    var table := MakeTable();
    crc := ALL_ONES;
    var i := 0;
    assert data[0..] == data;
    while i < |data|
      invariant 0 <= i <= |data|
      invariant table.Length == 256 && forall n | 0 <= n < 256 :: table[n] == Steps(n, 8)
      invariant Feed(crc, MessageBits(data[i..])) == Feed(ALL_ONES, MessageBits(data))
    {
      ghost var rest := MessageBits(data[i + 1..]);
      NextByte(crc, data, i);
      var index := TableIndex(crc, data[i]);
      assert table[index] == Steps(Xor(crc, data[i]) % 256, 8);
      XorWord(table[index], crc / 256);
      crc := Xor(table[index], crc / 256);
      assert Feed(crc, rest) == Feed(ALL_ONES, MessageBits(data));
      i := i + 1;
    }
    assert data[i..] == [];
    XorWord(crc, ALL_ONES);
    crc := Xor(crc, ALL_ONES);
  }

  /** `(crc ^ p[i]) & 0xFF`. */
  function TableIndex(crc: Word, b: Byte): (i: nat)
    ensures i == Xor(crc, b) % 256
  {
    LowByte(Xor(crc, b));
    BitAnd(Xor(crc, b), 0xFF)
  }

  lemma LowByte(x: nat)
    ensures BitAnd(x, 0xFF) == x % 256
  {
    assert Pow2(8) == 256;
    AndMask(x, 8);
  }

  lemma NextByte(crc: Word, data: seq<Byte>, i: nat)
    requires i < |data|
    ensures var c := Xor(Steps(Xor(crc, data[i]) % 256, 8), crc / 256);
            c < 0x1_0000_0000 && Feed(c, MessageBits(data[i + 1..])) == Feed(crc, MessageBits(data[i..]))
  {
    ByteStep(crc, data[i]);
    assert data[i..][1..] == data[i + 1..];
    FeedAppend(crc, LowBits(data[i], 8), MessageBits(data[i + 1..]));
  }

  // ---- the register step is linear and injective ----

  lemma ShiftLinear(a: Word, b: Word)
    ensures Xor(a, b) < 0x1_0000_0000
    ensures Shift(Xor(a, b)) == Xor(Shift(a), Shift(b))
  {
    XorWord(a, b);
    XorBits(a, b);
    PolyLinear(a / 2, b / 2);
    ParityOfSum(a, b);
  }

  lemma ParityOfSum(a: nat, b: nat)
    ensures (a + b) % 2 == 1 <==> a % 2 != b % 2
  {
  }

  /** The polynomial on one side, the other, or both. */
  lemma PolyLinear(x: nat, y: nat)
    ensures Xor(Xor(POLY, x), Xor(POLY, y)) == Xor(x, y)
    ensures Xor(Xor(POLY, x), y) == Xor(POLY, Xor(x, y)) == Xor(x, Xor(POLY, y))
  {
    XorSwap(POLY, x, POLY, y);
    XorSelf(POLY);
    XorComm(0, Xor(x, y));
    XorZero(Xor(x, y));
    XorAssoc(POLY, x, y);
    XorComm(x, Xor(POLY, y));
    XorAssoc(POLY, y, x);
    XorComm(y, x);
  }

  lemma {:induction false} StepsLinear(a: Word, b: Word, n: nat)
    ensures Xor(a, b) < 0x1_0000_0000
    ensures Steps(Xor(a, b), n) == Xor(Steps(a, n), Steps(b, n))
    decreases n
  {
    XorWord(a, b);
    if n > 0 {
      ShiftLinear(a, b);
      StepsLinear(Shift(a), Shift(b), n - 1);
    }
  }

  /** A step that fed the polynomial in left the top bit set. */
  lemma ShiftTop(c: Word)
    requires c % 2 == 1
    ensures Shift(c) >= 0x8000_0000
  {
    Pow32();
    XorTop(POLY, c / 2, 31);
  }

  lemma ShiftInjective(a: Word, b: Word)
    requires Shift(a) == Shift(b)
    ensures a == b
  {
    if a % 2 == 1 { ShiftTop(a); }
    if b % 2 == 1 { ShiftTop(b); }
    if a % 2 == 1 && b % 2 == 1 {
      XorComm(POLY, a / 2);
      XorComm(POLY, b / 2);
      XorCancel(a / 2, b / 2, POLY);
    }
  }

  lemma {:induction false} FeedAppend(c: Word, a: seq<bool>, b: seq<bool>)
    ensures Feed(c, a + b) == Feed(Feed(c, a), b)
    decreases |a|
  {
    if a == [] {
      assert a + b == b;
    } else {
      assert (a + b)[1..] == a[1..] + b;
      XorWord(c, AsWord(a[0]));
      FeedAppend(Shift(Xor(c, AsWord(a[0]))), a[1..], b);
    }
  }

  // ---- one byte at once ----

  /** A register with `n` empty low bits is only shifted by `n` steps. */
  lemma {:induction false} HighShift(h: nat, n: nat)
    requires h * Pow2(n) < 0x1_0000_0000
    ensures Steps(h * Pow2(n), n) == h
    decreases n
  {
    if n > 0 {
      var x := h * Pow2(n - 1);
      assert h * Pow2(n) == 2 * x;
      HighShift(h, n - 1);
    }
  }

  /** `h` shifted left by `n` bits. */
  function Raised(h: nat, n: nat): nat {
    if n == 0 then h else 2 * Raised(h, n - 1)
  }

  lemma {:induction false} RaisedIs(h: nat, n: nat)
    ensures Raised(h, n) == h * Pow2(n)
  {
    if n > 0 {
      RaisedIs(h, n - 1);
      assert h * Pow2(n) == 2 * (h * Pow2(n - 1));
    }
  }

  lemma {:induction false} XorRaised(lo: nat, h: nat, n: nat)
    requires lo < Pow2(n)
    ensures Xor(lo, Raised(h, n)) == lo + Raised(h, n)
    decreases n
  {
    if n == 0 {
      XorComm(0, h);
      XorZero(h);
    } else {
      XorRaised(lo / 2, h, n - 1);
      XorEven(lo, Raised(h, n - 1));
    }
  }

  lemma XorEven(lo: nat, hi: nat)
    ensures Xor(lo, 2 * hi) == lo % 2 + 2 * Xor(lo / 2, hi)
  {
    var b := 2 * hi;
    assert b / 2 == hi && (lo + b) % 2 == lo % 2;
    if lo > 0 || b > 0 { assert Xor(lo, b) == (lo + b) % 2 + 2 * Xor(lo / 2, b / 2); }
  }

  /** Low and high part of a number, put together without carries. */
  lemma XorParts(lo: nat, h: nat, n: nat)
    requires lo < Pow2(n)
    ensures Xor(lo, h * Pow2(n)) == lo + h * Pow2(n)
  {
    RaisedIs(h, n);
    XorRaised(lo, h, n);
  }

  lemma DivTwice(x: nat, p: nat)
    requires p > 0
    ensures x / (2 * p) == (x / 2) / p
  {
    HalfMod(x, p);
    var q, r := (x / 2) / p, (x / 2) % p;
    assert x / 2 == q * p + r;
    assert x == (2 * p) * q + (x % 2 + 2 * r);
    ModUnique(x, 2 * p, q, x % 2 + 2 * r);
  }

  /** By linearity eight steps look up the low byte and shift the rest. */
  lemma TableStep(x: Word)
    ensures Steps(x, 8) == Xor(Steps(x % 256, 8), x / 256)
  {
    assert Pow2(8) == 256;
    XorParts(x % 256, x / 256, 8);
    StepsLinear(x % 256, x / 256 * 256, 8);
    HighShift(x / 256, 8);
  }

  /** The bits of `w`, lowest first, are exactly `bits`. */
  predicate Ahead(w: nat, bits: seq<bool>)
    decreases |bits|
  {
    if bits == [] then w == 0 else bits[0] == (w % 2 == 1) && Ahead(w / 2, bits[1..])
  }

  lemma {:induction false} LowBitsAhead(b: nat, n: nat)
    requires b < Pow2(n)
    ensures Ahead(b, LowBits(b, n))
    decreases n
  {
    if n > 0 {
      LowBitsAhead(b / 2, n - 1);
      assert LowBits(b, n)[1..] == LowBits(b / 2, n - 1);
    }
  }

  /** Feeding bits one at a time is shifting a register that already holds them. */
  lemma {:induction false} FeedAhead(c: Word, w: Word, bits: seq<bool>)
    requires Ahead(w, bits)
    ensures Xor(c, w) < 0x1_0000_0000
    ensures Feed(c, bits) == Steps(Xor(c, w), |bits|)
    decreases |bits|
  {
    XorWord(c, w);
    if bits == [] {
      XorZero(c);
    } else {
      XorWord(c, w % 2);
      StepTogether(c, w);
      FeedAhead(Shift(Xor(c, w % 2)), w / 2, bits[1..]);
    }
  }

  lemma StepTogether(c: Word, w: Word)
    ensures Xor(c, w) < 0x1_0000_0000 && Xor(c, w % 2) < 0x1_0000_0000
    ensures Shift(Xor(c, w)) == Xor(Shift(Xor(c, w % 2)), w / 2)
  {
    XorWord(c, w);
    XorWord(c, w % 2);
    XorBits(c, w);
    XorBits(c, w % 2);
    XorZero(c / 2);
    SameParity(c, w);
    assert Xor(c, w) / 2 == Xor(c / 2, w / 2);
    assert Xor(c, w % 2) / 2 == Xor(c / 2, (w % 2) / 2) == c / 2;
    ShiftParts(Xor(c, w), Xor(c, w % 2), w / 2);
  }

  lemma SameParity(c: nat, w: nat)
    ensures (c + w) % 2 == (c + w % 2) % 2
    ensures (w % 2) / 2 == 0
  {
  }

  /** Bits above the lowest pass through a step unchanged. */
  lemma ShiftParts(x: Word, y: Word, w: nat)
    requires x % 2 == y % 2 && x / 2 == Xor(y / 2, w)
    ensures Shift(x) == Xor(Shift(y), w)
  {
    XorAssoc(POLY, y / 2, w);
  }

  /** The byte update of the loop is eight bit steps. */
  lemma ByteStep(c: Word, b: Byte)
    ensures Feed(c, LowBits(b, 8)) == Xor(Steps(Xor(c, b) % 256, 8), c / 256)
  {
    assert Pow2(8) == 256;
    LowBitsAhead(b, 8);
    FeedAhead(c, b, LowBits(b, 8));
    TableStep(Xor(c, b));
    XorHigh(c, b, 8);
  }

  lemma {:induction false} XorHigh(c: nat, b: nat, n: nat)
    requires b < Pow2(n)
    ensures Xor(c, b) / Pow2(n) == c / Pow2(n)
    decreases n
  {
    if n == 0 {
      XorZero(c);
    } else {
      XorBits(c, b);
      XorHigh(c / 2, b / 2, n - 1);
      DivTwice(Xor(c, b), Pow2(n - 1));
      DivTwice(c, Pow2(n - 1));
    }
  }

  // ---- error detection ----

  /** Only a register below 2^m can be brought to zero by m bits. */
  lemma {:induction false} ZeroReach(c: Word, bits: seq<bool>)
    requires |bits| <= 31 && Feed(c, bits) == 0
    ensures c < Pow2(|bits|)
    decreases |bits|
  {
    if bits != [] {
      var x := AsWord(bits[0]);
      XorWord(c, x);
      var d := Shift(Xor(c, x));
      ZeroReach(d, bits[1..]);
      Pow32();
      Pow2Monotone(|bits| - 1, 30);
      if Xor(c, x) % 2 == 1 { ShiftTop(Xor(c, x)); }
      XorBits(c, x);
      XorZero(c / 2);
    }
  }

  /** A burst of at most 32 bits never cancels out. */
  lemma {:induction false} BurstShows(bits: seq<bool>)
    requires |bits| <= 32 && true in bits
    ensures Feed(0, bits) != 0
    decreases |bits|
  {
    if !bits[0] {
      assert bits == [bits[0]] + bits[1..];
      BurstShows(bits[1..]);
    } else if Feed(0, bits) == 0 {
      assert Xor(0, 1) == 1;
      XorZero(POLY);
      assert Shift(1) == POLY;
      ZeroReach(POLY, bits[1..]);
      Pow32();
      Pow2Monotone(|bits| - 1, 31);
    }
  }

  /** Where two bit strings of one length differ. */
  function Differ(a: seq<bool>, b: seq<bool>): (d: seq<bool>)
    requires |a| == |b|
    ensures |d| == |a|
  {
    seq(|a|, i requires 0 <= i < |a| => a[i] != b[i])
  }

  /** The final registers of two messages differ by the register of their difference. */
  lemma {:induction false} FeedDiffer(c: Word, c': Word, a: seq<bool>, b: seq<bool>)
    requires |a| == |b|
    ensures Xor(c, c') < 0x1_0000_0000
    ensures Xor(Feed(c, a), Feed(c', b)) == Feed(Xor(c, c'), Differ(a, b))
    decreases |a|
  {
    XorWord(c, c');
    if a != [] {
      var x, y := AsWord(a[0]), AsWord(b[0]);
      XorWord(c, x);
      XorWord(c', y);
      assert Differ(a, b)[1..] == Differ(a[1..], b[1..]);
      XorSwap(c, x, c', y);
      assert Xor(x, y) == AsWord(a[0] != b[0]);
      ShiftLinear(Xor(c, x), Xor(c', y));
      FeedDiffer(Shift(Xor(c, x)), Shift(Xor(c', y)), a[1..], b[1..]);
    }
  }

  /** Registers that differ keep differing whatever is fed to both. */
  lemma {:induction false} FeedInjective(c: Word, c': Word, bits: seq<bool>)
    requires Feed(c, bits) == Feed(c', bits)
    ensures c == c'
    decreases |bits|
  {
    if bits != [] {
      var x := AsWord(bits[0]);
      XorWord(c, x);
      XorWord(c', x);
      FeedInjective(Shift(Xor(c, x)), Shift(Xor(c', x)), bits[1..]);
      ShiftInjective(Xor(c, x), Xor(c', x));
      XorCancel(c, c', x);
    }
  }

  /** Two messages whose bits differ, but only within 32 consecutive positions, have
      different checksums, at any length and any position. */
  lemma BurstDetected(data: seq<Byte>, data': seq<Byte>, pre: seq<bool>, a: seq<bool>, b: seq<bool>, post: seq<bool>)
    requires MessageBits(data) == pre + a + post && MessageBits(data') == pre + b + post
    requires |a| == |b| <= 32 && a != b
    ensures Checksum(data) != Checksum(data')
  {
    var c := Feed(ALL_ONES, pre);
    FeedAppend(ALL_ONES, pre + a, post);
    FeedAppend(ALL_ONES, pre + b, post);
    FeedAppend(ALL_ONES, pre, a);
    FeedAppend(ALL_ONES, pre, b);
    var x, y := Feed(c, a), Feed(c, b);
    WindowShows(c, a, b);
    if Checksum(data) == Checksum(data') {
      XorCancel(Feed(x, post), Feed(y, post), ALL_ONES);
      FeedInjective(x, y, post);
    }
  }

  lemma WindowShows(c: Word, a: seq<bool>, b: seq<bool>)
    requires |a| == |b| <= 32 && a != b
    ensures Feed(c, a) != Feed(c, b)
  {
    FeedDiffer(c, c, a, b);
    XorSelf(c);
    var i :| 0 <= i < |a| && a[i] != b[i];
    assert Differ(a, b)[i];
    BurstShows(Differ(a, b));
    XorSelf(Feed(c, a));
  }

  // ---- values: the same register in machine words ----

  function Byte0(a: bv32): bv8 {
    (a & 0xFF) as bv8
  }

  function Byte1(a: bv32): bv8 {
    ((a >> 8) & 0xFF) as bv8
  }

  function Byte2(a: bv32): bv8 {
    ((a >> 16) & 0xFF) as bv8
  }

  function Byte3(a: bv32): bv8 {
    (a >> 24) as bv8
  }

  function AsByte(b: bv8): Byte {
    b as int
  }

  /** The number with these four bytes, lowest first. */
  function OfBytes(b0: Byte, b1: Byte, b2: Byte, b3: Byte): Word {
    b0 as nat + 256 * (b1 as nat + 256 * (b2 as nat + 256 * b3 as nat))
  }

  /** The number that a machine word holds. */
  function Number(a: bv32): Word {
    OfBytes(AsByte(Byte0(a)), AsByte(Byte1(a)), AsByte(Byte2(a)), AsByte(Byte3(a)))
  }

  lemma BytesXor(a: bv32, b: bv32)
    ensures Byte0(a ^ b) == Byte0(a) ^ Byte0(b) && Byte1(a ^ b) == Byte1(a) ^ Byte1(b)
    ensures Byte2(a ^ b) == Byte2(a) ^ Byte2(b) && Byte3(a ^ b) == Byte3(a) ^ Byte3(b)
  {
  }

  lemma BytesHalved(a: bv32)
    ensures Byte0(a >> 1) == (Byte0(a) >> 1) | (Byte1(a) << 7)
    ensures Byte1(a >> 1) == (Byte1(a) >> 1) | (Byte2(a) << 7)
    ensures Byte2(a >> 1) == (Byte2(a) >> 1) | (Byte3(a) << 7)
    ensures Byte3(a >> 1) == Byte3(a) >> 1
  {
  }

  lemma ByteDigits(a: bv8)
    ensures a as nat == (a & 1) as nat + 2 * (a >> 1) as nat && (a & 1) as nat < 2
  {
  }

  /** The lowest bit of the next byte comes in at the top. */
  lemma BytePair(x: bv8, y: bv8)
    ensures ((x >> 1) | (y << 7)) as nat == (x >> 1) as nat + 128 * (y & 1) as nat
  {
    var z := (x >> 1) | (y << 7);
    assert z & 0x7F == x >> 1 && z >> 7 == y & 1;
    TopBit(z);
  }

  lemma TopBit(z: bv8)
    ensures z as nat == (z & 0x7F) as nat + 128 * (z >> 7) as nat
  {
  }

  lemma NumberHalved(a: bv32)
    ensures Number(a) % 2 == (Byte0(a) & 1) as nat && Number(a) / 2 == Number(a >> 1)
  {
    BytePair(Byte0(a), Byte1(a));
    BytePair(Byte1(a), Byte2(a));
    BytePair(Byte2(a), Byte3(a));
    ByteDigits(Byte0(a));
    ByteDigits(Byte1(a));
    ByteDigits(Byte2(a));
    ByteDigits(Byte3(a));
    BytesHalved(a);
    assert Number(a) == (Byte0(a) & 1) as nat + 2 * Number(a >> 1);
    TwoParts((Byte0(a) & 1) as nat, Number(a >> 1));
  }

  lemma {:induction false} ByteXor(a: bv8, b: bv8, c: bv8, n: nat)
    requires c == a ^ b && a as nat < Pow2(n) && b as nat < Pow2(n)
    ensures Xor(a as nat, b as nat) == c as nat
    decreases n
  {
    if n == 0 {
      NothingXor(a, b, c);
    } else {
      HalfBound(a, n);
      HalfBound(b, n);
      HalfXor(a, b, c);
      ByteXor(a >> 1, b >> 1, c >> 1, n - 1);
      ByteXorDigit(a, b, c);
    }
  }

  lemma HalfBound(a: bv8, n: nat)
    requires n > 0 && a as nat < Pow2(n)
    ensures (a >> 1) as nat < Pow2(n - 1)
  {
    ByteDigits(a);
  }

  lemma NothingXor(a: bv8, b: bv8, c: bv8)
    requires c == a ^ b && a as nat == 0 && b as nat == 0
    ensures Xor(a as nat, b as nat) == c as nat
  {
    assert a == 0 && b == 0;
  }

  lemma HalfXor(a: bv8, b: bv8, c: bv8)
    requires c == a ^ b
    ensures c >> 1 == (a >> 1) ^ (b >> 1)
  {
  }

  lemma ByteXorDigit(a: bv8, b: bv8, c: bv8)
    requires c == a ^ b && Xor((a >> 1) as nat, (b >> 1) as nat) == (c >> 1) as nat
    ensures Xor(a as nat, b as nat) == c as nat
  {
    ByteDigits(a);
    ByteDigits(b);
    ByteDigits(c);
    LowestXor(a, b, c);
    XorDigit(a as nat, b as nat, c as nat, (a & 1) as nat, (b & 1) as nat, (a >> 1) as nat, (b >> 1) as nat);
  }

  lemma LowestXor(a: bv8, b: bv8, c: bv8)
    requires c == a ^ b
    ensures (c & 1) as nat == ((a & 1) as nat + (b & 1) as nat) % 2
  {
  }

  lemma XorDigit(a: nat, b: nat, c: nat, p: nat, q: nat, x: nat, y: nat)
    requires p < 2 && q < 2 && a == p + 2 * x && b == q + 2 * y && c == (p + q) % 2 + 2 * Xor(x, y)
    ensures Xor(a, b) == c
  {
    DigitSum(a, b, p, q, x, y);
    XorBits(a, b);
    Rejoin(Xor(a, b), (p + q) % 2, Xor(x, y));
  }

  lemma DigitSum(a: nat, b: nat, p: nat, q: nat, x: nat, y: nat)
    requires p < 2 && q < 2 && a == p + 2 * x && b == q + 2 * y
    ensures a / 2 == x && b / 2 == y && (a + b) % 2 == (p + q) % 2
  {
  }

  lemma Rejoin(v: nat, m: nat, h: nat)
    requires v % 2 == m && v / 2 == h
    ensures v == m + 2 * h
  {
  }

  lemma {:induction false} XorJoin(a: nat, b: nat, c: nat, a0: nat, h: nat, b0: nat, k: nat, n: nat)
    requires a0 < Pow2(n) && b0 < Pow2(n)
    requires a == a0 + Raised(h, n) && b == b0 + Raised(k, n) && c == Xor(a0, b0) + Raised(Xor(h, k), n)
    ensures Xor(a, b) == c
    decreases n
  {
    if n > 0 {
      var x, y, z := Raised(h, n - 1), Raised(k, n - 1), Raised(Xor(h, k), n - 1);
      XorJoin(a0 / 2 + x, b0 / 2 + y, Xor(a0 / 2, b0 / 2) + z, a0 / 2, h, b0 / 2, k, n - 1);
      JoinDigit(a, b, c, a0, b0, x, y, z);
    }
  }

  lemma JoinDigit(a: nat, b: nat, c: nat, a0: nat, b0: nat, x: nat, y: nat, z: nat)
    requires Xor(a0 / 2 + x, b0 / 2 + y) == Xor(a0 / 2, b0 / 2) + z
    requires a == a0 + 2 * x && b == b0 + 2 * y && c == Xor(a0, b0) + 2 * z
    ensures Xor(a, b) == c
  {
    XorBits(a0, b0);
    ParityOfParts(a0, b0);
    Rejoin(Xor(a0, b0), (a0 % 2 + b0 % 2) % 2, Xor(a0 / 2, b0 / 2));
    XorDigit(a, b, c, a0 % 2, b0 % 2, a0 / 2 + x, b0 / 2 + y);
  }

  lemma ParityOfParts(a: nat, b: nat)
    ensures (a + b) % 2 == (a % 2 + b % 2) % 2
  {
  }

  lemma XorJoinByte(a: nat, b: nat, c: nat, a0: Byte, h: nat, b0: Byte, k: nat, c0: Byte)
    requires a == a0 as nat + 256 * h && b == b0 as nat + 256 * k && c == c0 as nat + 256 * Xor(h, k)
    requires Xor(a0, b0) == c0
    ensures Xor(a, b) == c
  {
    RaisedByte(h);
    RaisedByte(k);
    RaisedByte(Xor(h, k));
    assert Pow2(8) == 256;
    XorJoin(a, b, c, a0, h, b0, k, 8);
  }

  lemma RaisedByte(h: nat)
    ensures Raised(h, 8) == 256 * h
  {
    assert Pow2(8) == 256;
    RaisedIs(h, 8);
  }

  lemma XorBytes(a0: Byte, a1: Byte, a2: Byte, a3: Byte, b0: Byte, b1: Byte, b2: Byte, b3: Byte,
                 c0: Byte, c1: Byte, c2: Byte, c3: Byte)
    requires Xor(a0, b0) == c0 && Xor(a1, b1) == c1 && Xor(a2, b2) == c2 && Xor(a3, b3) == c3
    ensures Xor(OfBytes(a0, a1, a2, a3), OfBytes(b0, b1, b2, b3)) == OfBytes(c0, c1, c2, c3)
  {
    var x, y, z := a2 as nat + 256 * a3 as nat, b2 as nat + 256 * b3 as nat, c2 as nat + 256 * c3 as nat;
    XorJoinByte(x, y, z, a2, a3, b2, b3, c2);
    var u, v, w := a1 as nat + 256 * x, b1 as nat + 256 * y, c1 as nat + 256 * z;
    XorJoinByte(u, v, w, a1, x, b1, y, c1);
    XorJoinByte(OfBytes(a0, a1, a2, a3), OfBytes(b0, b1, b2, b3), OfBytes(c0, c1, c2, c3), a0, u, b0, v, c0);
  }

  lemma NumberXor(a: bv32, b: bv32, c: bv32)
    requires c == a ^ b
    ensures Xor(Number(a), Number(b)) == Number(c)
  {
    Byte0Xor(a, b, c);
    Byte1Xor(a, b, c);
    Byte2Xor(a, b, c);
    Byte3Xor(a, b, c);
    var a0, a1, a2, a3 := AsByte(Byte0(a)), AsByte(Byte1(a)), AsByte(Byte2(a)), AsByte(Byte3(a));
    var b0, b1, b2, b3 := AsByte(Byte0(b)), AsByte(Byte1(b)), AsByte(Byte2(b)), AsByte(Byte3(b));
    var c0, c1, c2, c3 := AsByte(Byte0(c)), AsByte(Byte1(c)), AsByte(Byte2(c)), AsByte(Byte3(c));
    XorBytes(a0, a1, a2, a3, b0, b1, b2, b3, c0, c1, c2, c3);
  }

  lemma Byte0Xor(a: bv32, b: bv32, c: bv32)
    requires c == a ^ b
    ensures Xor(AsByte(Byte0(a)), AsByte(Byte0(b))) == AsByte(Byte0(c))
  {
    BytesXor(a, b);
    FullByteXor(Byte0(a), Byte0(b), Byte0(c));
  }

  lemma Byte1Xor(a: bv32, b: bv32, c: bv32)
    requires c == a ^ b
    ensures Xor(AsByte(Byte1(a)), AsByte(Byte1(b))) == AsByte(Byte1(c))
  {
    BytesXor(a, b);
    FullByteXor(Byte1(a), Byte1(b), Byte1(c));
  }

  lemma Byte2Xor(a: bv32, b: bv32, c: bv32)
    requires c == a ^ b
    ensures Xor(AsByte(Byte2(a)), AsByte(Byte2(b))) == AsByte(Byte2(c))
  {
    BytesXor(a, b);
    FullByteXor(Byte2(a), Byte2(b), Byte2(c));
  }

  lemma Byte3Xor(a: bv32, b: bv32, c: bv32)
    requires c == a ^ b
    ensures Xor(AsByte(Byte3(a)), AsByte(Byte3(b))) == AsByte(Byte3(c))
  {
    BytesXor(a, b);
    FullByteXor(Byte3(a), Byte3(b), Byte3(c));
  }

  lemma FullByteXor(a: bv8, b: bv8, c: bv8)
    requires c == a ^ b
    ensures Xor(AsByte(a), AsByte(b)) == AsByte(c)
  {
    assert Pow2(8) == 256;
    ByteXor(a, b, c, 8);
  }

  /** One division step on a machine word. */
  function ShiftWord(c: bv32): bv32 {
    if c & 1 == 1 then 0x82F63B78 ^ (c >> 1) else c >> 1
  }

  function ByteWord(c: bv32): bv32 {
    ShiftWord(ShiftWord(ShiftWord(ShiftWord(ShiftWord(ShiftWord(ShiftWord(ShiftWord(c))))))))
  }

  lemma ShiftIs(c: bv32)
    ensures Shift(Number(c)) == Number(ShiftWord(c))
  {
    NumberHalved(c);
    LowestBit(c);
    assert Number(0x82F63B78) == POLY;
    NumberXor(0x82F63B78, c >> 1, 0x82F63B78 ^ (c >> 1));
  }

  lemma LowestBit(c: bv32)
    ensures c & 1 == 1 <==> (Byte0(c) & 1) as nat == 1
  {
  }

  lemma ByteIs(c: bv32)
    ensures Steps(Number(c), 8) == Number(ByteWord(c))
  {
    var c1 := ShiftWord(c);
    var c2 := ShiftWord(c1);
    var c3 := ShiftWord(c2);
    var c4 := ShiftWord(c3);
    var c5 := ShiftWord(c4);
    var c6 := ShiftWord(c5);
    var c7 := ShiftWord(c6);
    ShiftIs(c);
    ShiftIs(c1);
    ShiftIs(c2);
    ShiftIs(c3);
    ShiftIs(c4);
    ShiftIs(c5);
    ShiftIs(c6);
    ShiftIs(c7);
  }

  /** One byte fed into a register held in a machine word. */
  lemma Fed(c: bv32, b: bv32, x: Byte)
    requires x as int == Number(b)
    ensures Feed(Number(c), LowBits(x, 8)) == Number(ByteWord(c ^ b))
  {
    assert Pow2(8) == 256;
    LowBitsAhead(x, 8);
    FeedAhead(Number(c), x, LowBits(x, 8));
    NumberXor(c, b, c ^ b);
    ByteIs(c ^ b);
  }

  lemma ResidueValue()
    ensures Steps(ALL_ONES, 32) < 0x1_0000_0000 && Xor(Steps(ALL_ONES, 32), ALL_ONES) == RESIDUE
  {
    assert Number(0xFFFF_FFFF) == ALL_ONES && Number(0x4867_4BC7) == RESIDUE;
    FirstHalf();
    SecondHalf();
    NumberXor(0xB798_B438, 0xFFFF_FFFF, 0x4867_4BC7);
  }

  lemma FirstHalf()
    ensures Steps(Number(0xFFFF_FFFF), 32) == Steps(Number(0x0E9E_882D), 16)
  {
    FullByte(0xFFFF_FFFF, 0xAD82_ACAE, 24);
    FullByte(0xAD82_ACAE, 0x0E9E_882D, 16);
  }

  lemma SecondHalf()
    ensures Steps(Number(0x0E9E_882D), 16) == Number(0xB798_B438)
  {
    FullByte(0x0E9E_882D, 0x9F9B_5C85, 8);
    FullByte(0x9F9B_5C85, 0xB798_B438, 0);
  }

  lemma FullByte(c: bv32, c': bv32, n: nat)
    requires c' == ByteWord(c)
    ensures Steps(Number(c), 8 + n) == Steps(Number(c'), n)
  {
    ByteIs(c);
    StepsAdd(Number(c), 8, n);
  }

  lemma {:induction false} StepsAdd(c: Word, n: nat, m: nat)
    ensures Steps(c, n + m) == Steps(Steps(c, n), m)
    decreases n
  {
    if n > 0 { StepsAdd(Shift(c), n - 1, m); }
  }

  const CHECK_TEXT: seq<Byte> := [0x31, 0x32, 0x33, 0x34, 0x35, 0x36, 0x37, 0x38, 0x39]

  /** The digits 1 to 9 in ASCII have the checksum that CRC-32C is known by. */
  lemma CheckValue()
    ensures Checksum(CHECK_TEXT) == 0xE3069283
  {
    Digit1();
    Digits23();
    Digits45();
    Digits67();
    Digits89();
    assert CHECK_TEXT[9..] == [];
    assert Number(0xFFFF_FFFF) == ALL_ONES && Number(0xE306_9283) == 0xE3069283;
    NumberXor(0x1CF9_6D7C, 0xFFFF_FFFF, 0xE306_9283);
  }

  lemma Digit1()
    ensures Feed(Number(0xFFFF_FFFF), MessageBits(CHECK_TEXT)) == Feed(Number(0x6F0A_661C), MessageBits(CHECK_TEXT[1..]))
  {
    FeedFirst(0xFFFF_FFFF, 0x31, 0x6F0A_661C, CHECK_TEXT);
  }

  lemma Digits23()
    ensures Feed(Number(0x6F0A_661C), MessageBits(CHECK_TEXT[1..])) == Feed(Number(0xEF84_D04D), MessageBits(CHECK_TEXT[3..]))
  {
    FeedByte(0x6F0A_661C, 0x32, 0x8CAA_3B9F, CHECK_TEXT, 1);
    FeedByte(0x8CAA_3B9F, 0x33, 0xEF84_D04D, CHECK_TEXT, 2);
  }

  lemma Digits45()
    ensures Feed(Number(0xEF84_D04D), MessageBits(CHECK_TEXT[3..])) == Feed(Number(0xE72E_DCCA), MessageBits(CHECK_TEXT[5..]))
  {
    FeedByte(0xEF84_D04D, 0x34, 0x09C5_0B11, CHECK_TEXT, 3);
    FeedByte(0x09C5_0B11, 0x35, 0xE72E_DCCA, CHECK_TEXT, 4);
  }

  lemma Digits67()
    ensures Feed(Number(0xE72E_DCCA), MessageBits(CHECK_TEXT[5..])) == Feed(Number(0xEDBD_6815), MessageBits(CHECK_TEXT[7..]))
  {
    FeedByte(0xE72E_DCCA, 0x36, 0xBECA_8E79, CHECK_TEXT, 5);
    FeedByte(0xBECA_8E79, 0x37, 0xEDBD_6815, CHECK_TEXT, 6);
  }

  lemma Digits89()
    ensures Feed(Number(0xEDBD_6815), MessageBits(CHECK_TEXT[7..])) == Feed(Number(0x1CF9_6D7C), MessageBits(CHECK_TEXT[9..]))
  {
    FeedByte(0xEDBD_6815, 0x38, 0x9F78_7F65, CHECK_TEXT, 7);
    FeedByte(0x9F78_7F65, 0x39, 0x1CF9_6D7C, CHECK_TEXT, 8);
  }

  lemma FeedByte(c: bv32, b: bv32, c': bv32, data: seq<Byte>, i: nat)
    requires i < |data| && data[i] as int == Number(b) && c' == ByteWord(c ^ b)
    ensures Feed(Number(c), MessageBits(data[i..])) == Feed(Number(c'), MessageBits(data[i + 1..]))
  {
    FeedFirst(c, b, c', data[i..]);
    assert data[i..][1..] == data[i + 1..];
  }

  lemma FeedFirst(c: bv32, b: bv32, c': bv32, data: seq<Byte>)
    requires data != [] && data[0] as int == Number(b) && c' == ByteWord(c ^ b)
    ensures Feed(Number(c), MessageBits(data)) == Feed(Number(c'), MessageBits(data[1..]))
  {
    Fed(c, b, data[0]);
    OneByte(data);
    FeedAppend(Number(c), LowBits(data[0], 8), MessageBits(data[1..]));
  }

  // ---- the checksum behind its message ----

  lemma {:induction false} LowBitsSplit(b: nat, lo: nat, hi: nat, n: nat, m: nat)
    requires lo < Pow2(n) && b == lo + Raised(hi, n)
    ensures LowBits(b, n + m) == LowBits(lo, n) + LowBits(hi, m)
    decreases n
  {
    if n > 0 {
      var r := Raised(hi, n - 1);
      Halves(b, lo, r);
      LowBitsSplit(b / 2, lo / 2, hi, n - 1, m);
      assert LowBits(b, n + m) == [lo % 2 == 1] + (LowBits(lo / 2, n - 1) + LowBits(hi, m));
    }
  }

  lemma Halves(b: nat, lo: nat, r: nat)
    requires b == lo + 2 * r
    ensures b % 2 == lo % 2 && b / 2 == lo / 2 + r
  {
  }

  lemma ByteSplit(b: nat, lo: Byte, hi: nat, m: nat)
    requires b == lo as int + 256 * hi
    ensures LowBits(b, 8 + m) == LowBits(lo, 8) + LowBits(hi, m)
  {
    assert Pow2(8) == 256;
    RaisedIs(hi, 8);
    LowBitsSplit(b, lo, hi, 8, m);
  }

  /** Four bytes in little-endian order are the word's bits, lowest first. */
  lemma Le32Bits(w: Word)
    ensures MessageBits(PagedLayout.Le32(w)) == LowBits(w, 32)
  {
    var r := PagedLayout.Le32(w);
    var z := r[3] as int;
    var y := r[2] as int + 256 * z;
    var x := r[1] as int + 256 * y;
    ByteSplit(w, r[0], x, 24);
    ByteSplit(x, r[1], y, 16);
    ByteSplit(y, r[2], z, 8);
    OneByte(r);
    OneByte(r[1..]);
    OneByte(r[2..]);
    OneByte(r[3..]);
    assert r[1..][1..] == r[2..] && r[2..][1..] == r[3..] && r[3..][1..] == [];
    Regroup(LowBits(r[0], 8), LowBits(r[1], 8), LowBits(r[2], 8), LowBits(r[3], 8));
  }

  lemma Regroup(a: seq<bool>, b: seq<bool>, c: seq<bool>, d: seq<bool>)
    ensures a + (b + (c + (d + []))) == a + (b + (c + d))
  {
  }

  lemma OneByte(r: seq<Byte>)
    requires r != []
    ensures MessageBits(r) == LowBits(r[0], 8) + MessageBits(r[1..])
  {
  }

  lemma {:induction false} StepsInjective(a: Word, b: Word, n: nat)
    requires Steps(a, n) == Steps(b, n)
    ensures a == b
    decreases n
  {
    if n > 0 {
      StepsInjective(Shift(a), Shift(b), n - 1);
      ShiftInjective(a, b);
    }
  }

  /** Whatever the message, four further bytes give one fixed checksum exactly when they are the
      message's own checksum in little-endian order. */
  lemma Residue(data: seq<Byte>, w: Word)
    ensures Checksum(data + PagedLayout.Le32(w)) == RESIDUE <==> w == Checksum(data)
  {
    Appended(data, w);
    Complemented(data);
    ResidueValue();
    var c := Feed(ALL_ONES, MessageBits(data));
    if Checksum(data + PagedLayout.Le32(w)) == RESIDUE {
      XorCancel(Steps(Xor(c, w), 32), Steps(ALL_ONES, 32), ALL_ONES);
      StepsInjective(Xor(c, w), ALL_ONES, 32);
      XorComm(c, w);
      XorComm(c, Checksum(data));
      XorCancel(w, Checksum(data), c);
    }
  }

  lemma Appended(data: seq<Byte>, w: Word)
    ensures var c := Feed(ALL_ONES, MessageBits(data));
            && Xor(c, w) < 0x1_0000_0000
            && Checksum(data + PagedLayout.Le32(w)) == Xor(Steps(Xor(c, w), 32), ALL_ONES)
  {
    BitsConcat(data, PagedLayout.Le32(w));
    Le32Bits(w);
    FeedAppend(ALL_ONES, MessageBits(data), LowBits(w, 32));
    Pow32();
    LowBitsAhead(w, 32);
    FeedAhead(Feed(ALL_ONES, MessageBits(data)), w, LowBits(w, 32));
  }

  lemma Complemented(data: seq<Byte>)
    ensures Xor(Feed(ALL_ONES, MessageBits(data)), Checksum(data)) == ALL_ONES
  {
    var c := Feed(ALL_ONES, MessageBits(data));
    XorAssoc(c, c, ALL_ONES);
    XorSelf(c);
    XorComm(0, ALL_ONES);
    XorZero(ALL_ONES);
  }

  // ---- bytes and bits ----

  lemma {:induction false} BitsConcat(a: seq<Byte>, b: seq<Byte>)
    ensures MessageBits(a + b) == MessageBits(a) + MessageBits(b)
  {
    if a == [] {
      assert a + b == b;
    } else {
      assert (a + b)[1..] == a[1..] + b;
      BitsConcat(a[1..], b);
    }
  }

  lemma {:induction false} BitsInjective(a: seq<Byte>, b: seq<Byte>)
    requires |a| == |b|
    ensures |MessageBits(a)| == |MessageBits(b)| == 8 * |a|
    ensures MessageBits(a) == MessageBits(b) ==> a == b
    decreases |a|
  {
    if a != [] {
      BitsInjective(a[1..], b[1..]);
      var x, y := MessageBits(a), MessageBits(b);
      assert x[..8] == LowBits(a[0], 8) && y[..8] == LowBits(b[0], 8);
      assert x[8..] == MessageBits(a[1..]) && y[8..] == MessageBits(b[1..]);
      if x == y {
        assert Pow2(8) == 256;
        LowBitsInjective(a[0], b[0], 8);
        assert a == [a[0]] + a[1..] && b == [b[0]] + b[1..];
      }
    }
  }

  lemma {:induction false} LowBitsInjective(a: nat, b: nat, n: nat)
    requires a < Pow2(n) && b < Pow2(n) && LowBits(a, n) == LowBits(b, n)
    ensures a == b
    decreases n
  {
    if n > 0 {
      assert LowBits(a, n)[0] == LowBits(b, n)[0];
      assert LowBits(a, n)[1..] == LowBits(a / 2, n - 1) && LowBits(b, n)[1..] == LowBits(b / 2, n - 1);
      LowBitsInjective(a / 2, b / 2, n - 1);
    }
  }

  /** Any change confined to four consecutive bytes is detected. */
  lemma FourBytesDetected(p: seq<Byte>, x: seq<Byte>, y: seq<Byte>, s: seq<Byte>)
    requires |x| == |y| <= 4 && x != y
    ensures Checksum(p + x + s) != Checksum(p + y + s)
  {
    BitsConcat(p + x, s);
    BitsConcat(p, x);
    BitsConcat(p + y, s);
    BitsConcat(p, y);
    BitsInjective(x, y);
    BurstDetected(p + x + s, p + y + s, MessageBits(p), MessageBits(x), MessageBits(y), MessageBits(s));
  }
}
