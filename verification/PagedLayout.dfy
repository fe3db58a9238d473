/** The on-disk layout of the paged hash: slots, pages, blocks, and the constants of
    `lib/xxfs.c` that fix their sizes. */
module PagedLayout {

  datatype Option<+T> = None | Some(value: T)

  type Byte = b: int | 0 <= b < 256
  type Key = seq<Byte>
  type Value = seq<Byte>

  const BLOCK_SIZE := 4096
  const SLOTS_PER_PAGE := 56
  /** 16 bytes of page header, 48 bytes a slot, the rest holds inline entries. */
  const INLINE_SPACE := BLOCK_SIZE - (16 + SLOTS_PER_PAGE * 48)
  const KEY_PREFIX_LEN := 16
  const RECORD_HEADER := 8
  /** A directory of this many 64-bit entries fills its block. */
  const DIR_BLOCK_ENTRIES := BLOCK_SIZE / 8
  /** Directory entries that have no page yet hold `(u64)-1`. */
  const NO_PAGE := 0xFFFF_FFFF_FFFF_FFFF
  /** File offsets are signed 64-bit: every block lies below this bound. */
  const FILE_LIMIT := 0x8000_0000_0000_0000

  datatype Slot = Slot(hash: nat, fileOff: nat, klen: nat, vlen: nat, prefix: seq<Byte>, inlined: bool)

  /** A page as it lies in memory and on disk: a fixed array of 56 slots, of which the
      first `count` are live. */
  datatype Page = Page(count: nat, depth: nat, inlineUsed: nat, next: nat, slots: seq<Slot>, area: seq<Byte>)

  /** What a reader can observe of a page: only its live slots. */
  datatype PageView = PageView(depth: nat, inlineUsed: nat, next: nat, slots: seq<Slot>, area: seq<Byte>)

  /** What lies in a block of the file. Only the directory's own block holds entries. */
  datatype Block = PageBlock(page: Page) | RecordBlock(bytes: seq<Byte>) | DirBlock(entries: seq<nat>)

  /** The observable content of a page or record. */
  datatype Content = PageC(view: PageView) | RecC(bytes: seq<Byte>)

  predicate WellShaped(p: Page) {
    && p.count <= SLOTS_PER_PAGE == |p.slots|
    && |p.area| == INLINE_SPACE
  }

  function ViewOf(p: Page): PageView
    requires WellShaped(p)
  {
    PageView(p.depth, p.inlineUsed, p.next, p.slots[..p.count], p.area)
  }

  function ZeroBytes(n: nat): (z: seq<Byte>)
    ensures |z| == n
  {
    seq(n, _ => 0)
  }

  const BLANK_SLOT := Slot(0, 0, 0, 0, [], false)

  /** The page `memset` to zero with only its depth set. */
  function EmptyPage(depth: nat): (p: Page)
    ensures WellShaped(p)
    ensures ViewOf(p) == EmptyView(depth)
  {
    Page(0, depth, 0, 0, seq(SLOTS_PER_PAGE, _ => BLANK_SLOT), ZeroBytes(INLINE_SPACE))
  }

  function EmptyView(depth: nat): PageView {
    PageView(depth, 0, 0, [], ZeroBytes(INLINE_SPACE))
  }

  /** The first bytes of a key that a slot keeps for comparison. */
  function KeyPrefix(k: Key): (p: seq<Byte>)
  {
    if |k| < KEY_PREFIX_LEN then k else k[..KEY_PREFIX_LEN]
  }

  /** Overwrite `|src|` bytes of `dst` from position `at`. */
  function Splice(dst: seq<Byte>, at: nat, src: seq<Byte>): (r: seq<Byte>)
    requires at + |src| <= |dst|
    ensures |r| == |dst|
    ensures r[at..at + |src|] == src
    ensures forall i | 0 <= i < |dst| && !(at <= i < at + |src|) :: r[i] == dst[i]
  {
    dst[..at] + src + dst[at + |src|..]
  }

  /** Little-endian encoding of a 32-bit length field. */
  function Le32(n: nat): (r: seq<Byte>)
    ensures |r| == 4
    ensures n < 0x1_0000_0000 ==>
              n == r[0] as int + 256 * (r[1] as int + 256 * (r[2] as int + 256 * r[3] as int))
  {
    [n % 256, n / 256 % 256, n / 65536 % 256, n / 16777216 % 256]
  }

  /** An out-of-line record: both lengths, the key, the value. */
  function RecordBytes(k: Key, v: Value): (r: seq<Byte>)
    ensures |r| == RECORD_HEADER + |k| + |v|
    ensures r[RECORD_HEADER..RECORD_HEADER + |k|] == k
    ensures r[RECORD_HEADER + |k|..] == v
  {
    Le32(|k|) + Le32(|v|) + k + v
  }
}
