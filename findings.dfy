/** The allocator in lectures/4-malloc/mymallocSpring24.c as its text reads,
    for the places where that text does not do what its comments and
    structure mean. Each as-written definition comes with an input that shows
    the difference; the rest of the project uses the intended definitions
    (Layout.AlignSize, Layout.NextBlock, Layout.PrevBlock, Blocks.Fits,
    Blocks.Carve, Blocks.Place, Blocks.Coalesce, Malloc.Allocator.Scan). */
module AsWritten {
  import opened Layout
  import opened Blocks

  // ---------------------------------------------------------------------
  // align_size

  /** align_size as written: the block count n16 is multiplied by the
      request itself instead of by 16. */
  function AlignSizeAsWritten(size: nat): nat {
    var n16 := (size + TAG_SIZE + TAG_SIZE + 15) / 16;
    size * n16
  }

  /** The source's own request, 14 bytes, becomes 42: not a multiple of 16,
      where the intended rounding gives 16. */
  lemma AlignSizeCounterexample()
    ensures AlignSizeAsWritten(14) == 42 && AlignSizeAsWritten(14) % ALIGNMENT != 0
    ensures AlignSize(14) == 16
  {
  }

  // ---------------------------------------------------------------------
  // find_free_block

  /** The loop condition of the scan as written: keep going past a block
      while it is allocated and too small. */
  predicate ScanContinuesAsWritten(t: Tag, req: int) {
    !t.free && t.size < req
  }

  /** The scan as written stops at an allocated block that merely has room,
      where the intended scan passes it by. */
  lemma ScanConditionCounterexample()
    ensures !ScanContinuesAsWritten(Tag(16, false), 16)
    ensures !Fits(Blk(0, 16, false), 16)
  {
  }

  /** The step of the scan as written: a constant 16 + 8 + 16 bytes, whatever
      the block's payload. */
  function ScanStepAsWritten(b: int): int {
    b + TAG_SIZE + 8 + TAG_SIZE
  }

  /** On the fresh arena the first block ends at heap_end, so next_block finds
      nothing after it, while the constant step lands at offset 40, inside the
      block's payload. The walk reaches this step only once the condition at
      :48-49 lets it pass a block that does not fit; as written it stops on the
      fresh free block (WalkAsWritten). */
  lemma ScanStepCounterexample(m: seq<Tag>)
    requires |m| == HEAP_SIZE
    ensures ScanStepAsWritten(0) == 40
    ensures NextBlock(WriteTags(m, 0, HEAP_SIZE - OVERHEAD, true), 0) == None
    ensures var b := Initial()[0]; b.off < ScanStepAsWritten(0) < End(b)
  {
  }

  /** The FIRST_FIT walk as written: from b, while below stop and the loop
      condition holds, take the constant step; the final position. */
  function WalkAsWritten(m: seq<Tag>, b: int, stop: int, req: int): (r: int)
    requires 0 <= b && stop <= |m|
    ensures b <= r
    decreases stop - b
  {
    if b < stop && ScanContinuesAsWritten(m[b], req) then WalkAsWritten(m, ScanStepAsWritten(b), stop, req)
    else b
  }

  /** FIRST_FIT as written: the walk's end counts as found only when it lies
      below heap_start. */
  function FindFreeBlockAsWritten(m: seq<Tag>, req: int): Option<int>
    requires |m| == HEAP_SIZE
  {
    var b := WalkAsWritten(m, 0, HEAP_SIZE, req);
    if b < 0 then Some(b) else None
  }

  /** The success test can never pass: as written, find_free_block finds
      nothing on any arena, for any request, while the intended first-fit
      scan finds the fresh arena's block for the source's request. */
  lemma FindFreeBlockCounterexample(m: seq<Tag>, req: int)
    requires |m| == HEAP_SIZE
    ensures FindFreeBlockAsWritten(m, req) == None
    ensures FirstFitScan(Initial(), 16) == Some(0)
  {
    assert 0 <= WalkAsWritten(m, 0, HEAP_SIZE, req);
  }

  // ---------------------------------------------------------------------
  // mymalloc and split_block

  /** mymalloc's test before splitting, as written: the payload must be
      strictly larger than the request. */
  predicate SplitsAsWritten(req: int, payload: int) {
    req < payload
  }

  /** The test at :130 refuses a rounded request of 992 bytes on the fresh
      block, although the block fits it exactly. This is what `mymalloc(992)`
      meets once align_size and the scan are corrected; as written it is
      already refused by those. */
  lemma ExactFitCounterexample()
    ensures AlignSize(992) == 992
    ensures !SplitsAsWritten(992, Initial()[0].size)
    ensures Fits(Initial()[0], 992) && FirstFitScan(Initial(), 992) == Some(0)
  {
  }

  /** The remainder's payload as written: size_t subtraction, so it wraps
      when the request leaves less than 32 bytes. */
  function RemainderAsWritten(payload: nat, req: nat): nat {
    (payload - req - TAG_SIZE - TAG_SIZE) % SIZE_T_MODULUS
  }

  /** split_block on the fresh 992-byte block with data_size 976 passes the
      test and asks for a remainder of 992 - 976 - 32 bytes, which wraps to
      2^64 - 16; the intended placement hands out the whole block instead.
      `mymalloc(976)` reaches this once align_size and the scan are corrected;
      as written they refuse it first. */
  lemma RemainderCounterexample()
    ensures AlignSize(976) == 976 && SplitsAsWritten(976, 992)
    ensures RemainderAsWritten(992, 976) == SIZE_T_MODULUS - 16
    ensures Place(Initial(), 0, 976) == [Blk(0, 992, false)]
  {
  }

  /** The right block's offset as written: Block* arithmetic scales the byte
      count by sizeof(Block). */
  function RightAsWritten(left: int, req: int): int {
    left + TAG_SIZE * (TAG_SIZE + TAG_SIZE + req)
  }

  /** Splitting the fresh block for 64 bytes puts the remainder at 1536,
      outside the arena, instead of at 96. */
  lemma RightCounterexample()
    ensures RightAsWritten(0, 64) == 1536 && HEAP_SIZE < RightAsWritten(0, 64)
    ensures Carve(Initial(), 0, 64)[1].off == 96
  {
  }

  /** The footer's offset as written in split_block and myfree: block start
      plus payload, without the header. */
  function FooterAsWritten(start: int, size: int): int {
    start + size
  }

  /** For a 16-byte block at 0 the footer as written lands at 16, the first
      byte of the payload handed to the caller, instead of at 32. */
  lemma FooterCounterexample()
    ensures FooterAsWritten(0, 16) == Payload(Blk(0, 16, false))
    ensures Footer(Blk(0, 16, false)) == 32
  {
  }

  /** The tags of the left block as split_block and mymalloc leave them, with
      the footer placed where it belongs: both are written free, then only the
      header is flipped to allocated. */
  function LeftTagsAsWritten(m: seq<Tag>, off: int, req: int): seq<Tag>
    requires 0 <= off && 0 <= req && off + OVERHEAD + req <= |m|
  {
    WriteTags(m, off, req, true)[off := Tag(req, false)]
  }

  /** The handed-out block's header says allocated while its footer says
      free, so a later prev_block from the right neighbour would take it for
      a free block; the intended writes agree with Carve. */
  lemma LeftTagsCounterexample(m: seq<Tag>)
    requires |m| == HEAP_SIZE
    ensures var m' := LeftTagsAsWritten(m, 0, 16); m'[0] != m'[Footer(Blk(0, 16, false))]
    ensures !TagsAt(LeftTagsAsWritten(m, 0, 16), Blk(0, 16, false))
    ensures TagsAgree(WriteTags(WriteTags(m, 48, 944, true), 0, 16, false), Carve(Initial(), 0, 16))
  {
    WriteTagsSpan(m, 0, HEAP_SIZE - OVERHEAD, true);
    WriteCarved(WriteTags(m, 0, HEAP_SIZE - OVERHEAD, true), Initial(), 0, 16);
    assert WriteTags(WriteTags(WriteTags(m, 0, HEAP_SIZE - OVERHEAD, true), 48, 944, true), 0, 16, false)
        == WriteTags(WriteTags(m, 48, 944, true), 0, 16, false);
  }

  // ---------------------------------------------------------------------
  // myfree, prev_block

  /** Where myfree looks for the left neighbour's footer, as written:
      sizeof(Tag *) = 8 bytes past the block's own header. */
  function LeftFooterAsWritten(b: int): int {
    b + 8
  }

  /** Freeing the block at 48 whose left neighbour spans [0, 48): the footer
      as written is read at 56, inside the freed block's own header, while the
      neighbour's footer is at 32 and prev_block steps back to 0. */
  lemma LeftFooterCounterexample(m: seq<Tag>)
    requires |m| == HEAP_SIZE
    ensures var bs := [Blk(0, 16, true), Blk(48, 944, false)];
      && WellFormed(bs)
      && LeftFooterAsWritten(48) == 56 && 48 <= LeftFooterAsWritten(48) < 48 + TAG_SIZE
      && Footer(bs[0]) == 32
      && (TagsAgree(m, bs) ==> PrevBlock(m, 48) == Some(0))
  {
    var bs := [Blk(0, 16, true), Blk(48, 944, false)];
    if TagsAgree(m, bs) {
      PrevBlockPrecedes(m, bs, 1);
    }
  }

  /** prev_block as written: a stub that finds nothing. */
  function PrevBlockAsWritten(b: int): Option<int> {
    None
  }

  /** myfree's coalescing as written once its left step is read as meant:
      the right step is empty. */
  function CoalesceAsWritten(bs: seq<Blk>, i: nat): seq<Blk>
    requires i < |bs|
  {
    if 0 < i && bs[i - 1].free then MergeNext(bs, i - 1) else bs
  }

  /** Freeing the first of two blocks whose right neighbour is free leaves
      two free neighbours as written, and prev_block as written misses the
      left neighbour of the block at 48; the intended coalescing merges the
      arena back into one free block. */
  lemma CoalesceCounterexample()
    ensures var f := MarkFree([Blk(0, 16, false), Blk(48, 944, true)], 0);
      && !NoAdjacentFree(CoalesceAsWritten(f, 0))
      && Coalesce(f, 0) == Initial()
    ensures PrevBlockAsWritten(48) == None
  {
    var f := MarkFree([Blk(0, 16, false), Blk(48, 944, true)], 0);
    assert f == [Blk(0, 16, true), Blk(48, 944, true)];
    assert MergeNext(f, 0) == [Blk(0, 992, true)];
  }
}
