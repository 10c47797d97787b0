/** `display`'s traffic as data: the page and column commands and the slice of
    the screen buffer sent in each bulk write. The bus itself is not modelled. */
module Transfer {
  import opened Framebuffer

  /** The most bytes `display` sends in one bulk write. */
  const BlockLen: int := 32

  /** Pages (8-pixel rows) of the panel. */
  const Pages: int := 6

  /** Blocks per page: ceil(64 / 32). */
  const BlocksPerPage: int := 2

  /** One bulk write of `display`: the page command, the two column commands and the bytes. */
  datatype BulkWrite = BulkWrite(pageCommand: int, column: int, columnCommands: seq<int>, data: seq<bv8>)

  /** `0x10 | h` for a non-negative h: sets bit 4 unless it is already set. */
  function Or16(h: nat): (r: nat)
    ensures r % 16 == h % 16 && (r / 16) % 2 == 1 && r / 32 == h / 32
  {
    if (h / 16) % 2 == 1 then h else h + 16
  }

  /** `setColumnAddress(add)`: the command bytes `(0x10 | (add >> 4)) + 0x02` and `0x0f & add`. */
  function ColumnAddress(add: nat): seq<int> {
    [Or16(add / 16) + 2, add % 16]
  }

  /** `setPageAddress(i)` for a page index below 16: `0xb0 | i`. */
  function PageAddress(i: nat): int
    requires i < 16
  {
    0xB0 + i
  }

  /** The bulk write for block k of page p. */
  function PageBlock(b: seq<bv8>, p: nat, k: nat): (r: BulkWrite)
    requires |b| == BufferSize && p < Pages && k < BlocksPerPage
    ensures r.column % BlockLen == 0 && |r.data| <= BlockLen
  {
    var lineStart, start := p * Width, k * BlockLen;
    var end := start + if Width - start < BlockLen then Width - start else BlockLen;
    BulkWrite(PageAddress(p), start, ColumnAddress(start), b[lineStart + start .. lineStart + end])
  }

  /** Everything `display` sends, in order: pages 0..5, two blocks each. */
  function Plan(b: seq<bv8>): (plan: seq<BulkWrite>)
    requires |b| == BufferSize
    ensures |plan| == Pages * BlocksPerPage
  {
    seq(Pages * BlocksPerPage, n requires 0 <= n < Pages * BlocksPerPage => PageBlock(b, n / BlocksPerPage, n % BlocksPerPage))
  }

  /** The bytes of a sequence of bulk writes, concatenated. */
  function Sent(plan: seq<BulkWrite>): seq<bv8>
    decreases |plan|
  {
    if |plan| == 0 then [] else Sent(plan[..|plan| - 1]) + plan[|plan| - 1].data
  }

  // ---------------------------------------------------------------- lemmas

  /** The column command pair addresses column add + 32 of the controller (the
      64-pixel panel sits 32 columns in): a high-nibble command 0x1h and a
      low-nibble command 0x0l with 16h + l == add + 32, for add < 224. */
  lemma ColumnAddressMeaning(add: nat)
    requires add < 224
    ensures var cmds := ColumnAddress(add);
      && 0x10 <= cmds[0] <= 0x1F && 0x00 <= cmds[1] <= 0x0F
      && (cmds[0] - 0x10) * 16 + cmds[1] == add + 32
  {
  }

  /** Every block holds exactly 32 bytes of the page it is sent to. */
  lemma PlanBlocks(b: seq<bv8>, n: nat)
    requires |b| == BufferSize && n < Pages * BlocksPerPage
    ensures var blk := Plan(b)[n];
      && blk.pageCommand == 0xB0 + n / 2
      && blk.column == (n % 2) * BlockLen
      && blk.data == b[n * BlockLen .. n * BlockLen + BlockLen]
  {
  }

  /** The writes sent, in order, are exactly the screen buffer. */
  lemma PlanSendsBuffer(b: seq<bv8>)
    requires |b| == BufferSize
    ensures Sent(Plan(b)) == b
  {
    SentPrefix(b, Pages * BlocksPerPage);
    assert Plan(b)[..Pages * BlocksPerPage] == Plan(b);
  }

  lemma {:induction false} SentPrefix(b: seq<bv8>, n: nat)
    requires |b| == BufferSize && n <= Pages * BlocksPerPage
    ensures Sent(Plan(b)[..n]) == b[..n * BlockLen]
    decreases n
  {
    if n > 0 {
      var plan := Plan(b)[..n];
      assert plan[..n - 1] == Plan(b)[..n - 1];
      SentPrefix(b, n - 1);
      PlanBlocks(b, n - 1);
      assert b[..n * BlockLen] == b[..(n - 1) * BlockLen] + b[(n - 1) * BlockLen .. n * BlockLen];
    }
  }
}
