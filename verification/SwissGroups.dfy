/** Control bytes of the Swiss table: groups of sixteen, bitmask matching, probe order. */
module SwissGroups {
  import opened Bits

  const GROUP := 16
  const EMPTY := 0x80
  const DELETED := 0xFE

  type Ctrl = c: nat | c < 256

  predicate Live(c: Ctrl) {
    c != EMPTY && c != DELETED
  }

  /** `ctrl_tag`: the low seven bits of the hash. */
  function Tag(hash: nat): (t: Ctrl)
    ensures t < 128 && Live(t)
    ensures t == hash % 128
  {
    assert Pow2(7) == 128;
    AndMask(hash, 7);
    BitAnd(hash, 0x7F)
  }

  /** Byte `b` of group `g`. */
  function ByteAt(ctrl: seq<Ctrl>, g: nat, b: nat): Ctrl
    requires g * GROUP + GROUP <= |ctrl| && b < GROUP
  {
    ctrl[g * GROUP + b]
  }

  ghost predicate GroupHas(ctrl: seq<Ctrl>, g: nat, tag: Ctrl)
    requires g * GROUP + GROUP <= |ctrl|
  {
    exists b: nat :: b < GROUP && ByteAt(ctrl, g, b) == tag
  }

  /** Every bit that is set in `m` is a position of the group that holds `tag`. */
  ghost predicate MaskOf(ctrl: seq<Ctrl>, g: nat, tag: Ctrl, m: nat)
    requires g * GROUP + GROUP <= |ctrl|
  {
    && m < Pow2(GROUP)
    && forall b: nat | b < GROUP :: Bit(m, b) <==> ByteAt(ctrl, g, b) == tag
  }

  /** `match_group` (and `match_empty`, with tag EMPTY): bit i for each byte that matches. */
  method MatchGroup(ctrl: seq<Ctrl>, g: nat, tag: Ctrl) returns (m: nat)
    requires g * GROUP + GROUP <= |ctrl|
    ensures MaskOf(ctrl, g, tag, m)
  {
    m := 0;
    var i := 0;
    forall b: nat | b < GROUP ensures !Bit(0, b) { ZeroBits(b); }
    while i < GROUP
      invariant 0 <= i <= GROUP && m < Pow2(i)
      invariant forall b: nat | b < GROUP :: Bit(m, b) <==> b < i && ByteAt(ctrl, g, b) == tag
    {
      Pow2Monotone(i, i + 1);
      if ByteAt(ctrl, g, i) == tag {
        ghost var m0 := m;
        m := m + Pow2(i);
        forall b: nat | b < GROUP ensures Bit(m, b) <==> b < i + 1 && ByteAt(ctrl, g, b) == tag {
          SetBit(m0, i, b);
          assert Bit(m0, b) <==> b < i && ByteAt(ctrl, g, b) == tag;
        }
        SetBit(m0, i, 0);
      }
      i := i + 1;
    }
  }

  /** The lowest matching position of a nonzero mask. */
  lemma LowestMatch(ctrl: seq<Ctrl>, g: nat, tag: Ctrl, m: nat)
    requires g * GROUP + GROUP <= |ctrl| && MaskOf(ctrl, g, tag, m) && m != 0
    ensures Ctz(m) < GROUP && ByteAt(ctrl, g, Ctz(m)) == tag
    ensures forall b: nat | b < Ctz(m) :: ByteAt(ctrl, g, b) != tag
  {
    CtzBound(m, GROUP);
    CtzIsLowest(m);
  }

  /** A zero mask means that no byte of the group matches. */
  lemma NoMatch(ctrl: seq<Ctrl>, g: nat, tag: Ctrl, m: nat)
    requires g * GROUP + GROUP <= |ctrl| && MaskOf(ctrl, g, tag, m)
    ensures m != 0 <==> GroupHas(ctrl, g, tag)
  {
    if m == 0 {
      forall b: nat | b < GROUP ensures !Bit(0, b) { ZeroBits(b); }
    } else {
      LowestMatch(ctrl, g, tag, m);
      assert ByteAt(ctrl, g, Ctz(m)) == tag;
    }
  }

  // ---- probe order ----

  /** `group_idx`, for a table of 16 * 2^e slots. */
  function HomeGroup(hash: nat, e: nat): nat {
    BitAnd(hash / 128, (GROUP * Pow2(e) - 1) / GROUP)
  }

  lemma HomeInRange(hash: nat, e: nat)
    ensures HomeGroup(hash, e) == (hash / 128) % Pow2(e) < Pow2(e)
  {
    assert (GROUP * Pow2(e) - 1) / GROUP == Pow2(e) - 1;
    AndMask(hash / 128, e);
  }

  /** `(g + 1) & (nr - 1)`. */
  function NextGroup(g: nat, e: nat): nat {
    BitAnd(g + 1, Pow2(e) - 1)
  }

  lemma NextWraps(g: nat, e: nat)
    requires g < Pow2(e)
    ensures NextGroup(g, e) == if g + 1 == Pow2(e) then 0 else g + 1
  {
    AndMask(g + 1, e);
    if g + 1 < Pow2(e) {
      SmallMod(g + 1, Pow2(e));
    } else {
      ModUnique(g + 1, Pow2(e), 1, 0);
    }
  }

  /** The group probed after `d` steps from group `h`. */
  function At(h: nat, d: nat, nr: nat): nat {
    if h + d < nr then h + d else h + d - nr
  }

  /** How many steps from group `h` to group `g`. */
  function Dist(h: nat, g: nat, nr: nat): nat
    requires h < nr
  {
    if g >= h then g - h else g + nr - h
  }

  lemma DistAt(h: nat, g: nat, nr: nat)
    requires h < nr && g < nr
    ensures Dist(h, g, nr) < nr && At(h, Dist(h, g, nr), nr) == g
  {
  }

  lemma AtDist(h: nat, d: nat, nr: nat)
    requires h < nr && d < nr
    ensures At(h, d, nr) < nr && Dist(h, At(h, d, nr), nr) == d
  {
  }

  // ---- counting ----

  function CountLive(ctrl: seq<Ctrl>): nat {
    if ctrl == [] then 0 else CountLive(ctrl[..|ctrl| - 1]) + (if Live(ctrl[|ctrl| - 1]) then 1 else 0)
  }

  function CountDeleted(ctrl: seq<Ctrl>): nat {
    if ctrl == [] then 0 else CountDeleted(ctrl[..|ctrl| - 1]) + (if ctrl[|ctrl| - 1] == DELETED then 1 else 0)
  }

  lemma {:induction false} CountUpdate(ctrl: seq<Ctrl>, i: nat, c: Ctrl)
    requires i < |ctrl|
    ensures CountLive(ctrl[i := c]) == CountLive(ctrl) + (if Live(c) then 1 else 0) - (if Live(ctrl[i]) then 1 else 0)
    ensures CountDeleted(ctrl[i := c]) ==
            CountDeleted(ctrl) + (if c == DELETED then 1 else 0) - (if ctrl[i] == DELETED then 1 else 0)
    decreases |ctrl|
  {
    var n := |ctrl| - 1;
    if i < n {
      CountUpdate(ctrl[..n], i, c);
      assert ctrl[i := c][..n] == ctrl[..n][i := c];
    } else {
      assert ctrl[i := c][..n] == ctrl[..n];
    }
  }

  /** Live and deleted slots fill the table only when no slot is empty. */
  lemma {:induction false} CountFull(ctrl: seq<Ctrl>)
    ensures CountLive(ctrl) + CountDeleted(ctrl) <= |ctrl|
    ensures CountLive(ctrl) + CountDeleted(ctrl) < |ctrl| <==> EMPTY in ctrl
    decreases |ctrl|
  {
    if ctrl != [] {
      var init, last := ctrl[..|ctrl| - 1], ctrl[|ctrl| - 1];
      CountFull(init);
      assert ctrl == init + [last];
    }
  }

  lemma {:induction false} CountFresh(n: nat)
    ensures CountLive(seq(n, _ => EMPTY)) == 0 && CountDeleted(seq(n, _ => EMPTY)) == 0
    decreases n
  {
    if n > 0 {
      CountFresh(n - 1);
      assert seq(n, _ => EMPTY)[..n - 1] == seq(n - 1, _ => EMPTY);
    }
  }
}
