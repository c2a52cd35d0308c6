/** The allocator of lectures/4-malloc/mymallocSpring24.c as an object: the
    globals heap_start / heap_end / last_block and the static `first` flag
    become fields, the arena is a fixed array of tag slots, and pointers are
    byte offsets from heap_start (so heap_start is 0 and heap_end is HEAP_SIZE).

    Every method keeps the ghost block list `blocks` in step with the tags it
    writes, so the arena's contents are always described by Blocks.WellFormed
    and Blocks.TagsAgree. */
module Malloc {
  import opened Layout
  import opened Blocks

  /** The allocator's state on values: the tags in m describe the tiling bs
      and the cursor `last` is the header of block li. */
  ghost predicate Heap(m: seq<Tag>, bs: seq<Blk>, last: int, li: nat) {
    && |m| == HEAP_SIZE
    && WellFormed(bs)
    && TagsAgree(m, bs)
    && li < |bs| && bs[li].off == last
  }

  /** split_block's two tag writes keep the state consistent with Carve. */
  lemma CarveStep(m: seq<Tag>, m': seq<Tag>, bs: seq<Blk>, last: int, li: nat, i: nat, req: int)
    requires Heap(m, bs, last, li) && NoAdjacentFree(bs)
    requires i < |bs| && bs[i].free && 0 <= req && req % ALIGNMENT == 0 && req + OVERHEAD <= bs[i].size
    requires 0 <= bs[i].off && bs[i].off + OVERHEAD + bs[i].size <= |m|
    requires m' == WriteTags(WriteTags(m, bs[i].off + OVERHEAD + req, bs[i].size - req - OVERHEAD, true), bs[i].off, req, false)
    ensures Heap(m', Carve(bs, i, req), last, CarvedIndex(li, i)) && NoAdjacentFree(Carve(bs, i, req))
    ensures AgreeOutside(m, m', bs[i].off, End(bs[i]))
  {
    assert AgreeOutside(m, m', bs[i].off, End(bs[i])) by {
      CarvedPair(m, bs[i], req);
    }
    WriteCarved(m, bs, i, req);
    CarveKeepsLayout(bs, i, req);
  }

  /** Rewriting the flag in both tags of block i keeps the state consistent. */
  lemma FlagStep(m: seq<Tag>, m': seq<Tag>, bs: seq<Blk>, last: int, li: nat, i: nat, free: bool)
    requires Heap(m, bs, last, li) && i < |bs|
    requires 0 <= bs[i].off && 0 <= bs[i].size && bs[i].off + OVERHEAD + bs[i].size <= |m|
    requires m' == WriteTags(m, bs[i].off, bs[i].size, free)
    ensures Heap(m', bs[i := bs[i].(free := free)], last, li)
  {
    WriteFlag(m, bs, i, free);
    SetFlagWellFormed(bs, i, free);
  }

  /** Merging block j with block j + 1 keeps the state consistent, with the
      cursor moved onto the merged block when it pointed at the absorbed one. */
  lemma MergeStep(m: seq<Tag>, m': seq<Tag>, bs: seq<Blk>, last: int, li: nat, j: nat)
    requires Heap(m, bs, last, li) && j + 1 < |bs|
    requires var size := bs[j].size + OVERHEAD + bs[j + 1].size;
      && 0 <= bs[j].off && 0 <= size && bs[j].off + OVERHEAD + size <= |m|
      && m' == WriteTags(m, bs[j].off, size, true)
    ensures Heap(m', MergeNext(bs, j), if last == bs[j + 1].off then bs[j].off else last, MergedIndex(li, j))
  {
    WriteMerged(m, bs, j);
    MergeNextWellFormed(bs, j);
    if li != j + 1 {
      PayloadInjective(bs, li, j + 1);
    }
  }

  /** create_block over the whole arena starts a consistent state. */
  lemma InitialStep(m: seq<Tag>)
    requires |m| == HEAP_SIZE
    ensures Heap(WriteTags(m, 0, HEAP_SIZE - OVERHEAD, true), Initial(), 0, 0)
  {
    WriteTagsSpan(m, 0, HEAP_SIZE - OVERHEAD, true);
  }

  /** What mymalloc's placement of block i does to the list and the live set. */
  lemma PlaceFacts(bs: seq<Blk>, i: nat, req: int)
    requires WellFormed(bs) && NoAdjacentFree(bs) && i < |bs| && Fits(bs[i], req)
    requires 0 <= req && req % ALIGNMENT == 0
    ensures NoAdjacentFree(Place(bs, i, req))
    ensures Payload(bs[i]) % ALIGNMENT == 0 && Payload(bs[i]) !in Live(bs)
    ensures Live(Place(bs, i, req)) == Live(bs) + {Payload(bs[i])}
    ensures i < |Place(bs, i, req)| && Payload(Place(bs, i, req)[i]) == Payload(bs[i])
    ensures !Place(bs, i, req)[i].free && req <= Place(bs, i, req)[i].size
  {
    PlaceKeepsLayout(bs, i, req);
    PlaceLive(bs, i, req);
    LiveAligned(Place(bs, i, req), Payload(bs[i]));
  }

  /** What myfree does to the list and the live set: p names block i only. */
  lemma ReleaseFacts(bs: seq<Blk>, i: nat, p: int)
    requires WellFormed(bs) && NoAdjacentFree(bs) && i < |bs| && !bs[i].free && Payload(bs[i]) == p
    ensures NoAdjacentFree(Release(bs, i))
    ensures Live(Release(bs, i)) == Live(bs) - {p}
    ensures forall k :: 0 <= k < |bs| && Payload(bs[k]) == p ==> k == i
  {
    ReleaseKeepsLayout(bs, i);
    ReleaseLive(bs, i);
    forall k | 0 <= k < |bs| && Payload(bs[k]) == p
      ensures k == i
    {
      PayloadInjective(bs, i, k);
    }
  }

  /** Where myfree leaves last_block when it frees block i of bs while the
      cursor is on block li at offset last: on the merged block when the
      cursor's block was absorbed into it, otherwise where it was. */
  function CursorAfter(bs: seq<Blk>, i: nat, li: nat, last: int): int
    requires i < |bs|
  {
    var s := MergeStart(bs, i);
    if s <= li < MergeStop(bs, i) then bs[s].off else last
  }

  /** Offsets of distinct blocks differ, so the cursor's block can be told by
      its offset: CursorAfter moves a cursor on block i, or on a free right
      neighbour that gets merged, to the start of the merged extent. */
  lemma CursorByOffset(bs: seq<Blk>, i: nat, li: nat, last: int)
    requires WellFormed(bs) && i < |bs| && li < |bs| && last == bs[li].off
    ensures CursorAfter(bs, i, li, last)
         == if last == bs[i].off || (MergeStop(bs, i) == i + 2 && last == bs[i + 1].off)
            then bs[MergeStart(bs, i)].off else last
  {
    PayloadInjective(bs, li, i);
    if i + 1 < |bs| {
      PayloadInjective(bs, li, i + 1);
    }
  }

  /** When block i has no free left neighbour, Coalesce and CursorAfter
      come down to myfree's right step on block i. */
  lemma WithoutLeftMerge(f: seq<Blk>, i: nat, li: nat, last: int)
    requires WellFormed(f) && i < |f| && !(0 < i && f[i - 1].free)
    requires li < |f| && last == f[li].off
    ensures var rightFree := i + 1 < |f| && f[i + 1].free;
      && Coalesce(f, i) == (if rightFree then MergeNext(f, i) else f)
      && CursorAfter(f, i, li, last) == (if rightFree && last == f[i + 1].off then f[i].off else last)
  {
    CursorByOffset(f, i, li, last);
  }

  /** When block i was merged into its free left neighbour (the cursor moving
      along with it), what is left of Coalesce and CursorAfter is myfree's
      right step on block i - 1 of the merged list. */
  lemma AfterLeftMerge(f: seq<Blk>, i: nat, li: nat, last: int)
    requires WellFormed(f) && 0 < i < |f| && f[i - 1].free
    requires li < |f| && last == f[li].off
    ensures var g := MergeNext(f, i - 1);
      var last1 := if last == f[i].off then f[i - 1].off else last;
      var rightFree := i < |g| && g[i].free;
      && Coalesce(f, i) == (if rightFree then MergeNext(g, i - 1) else g)
      && CursorAfter(f, i, li, last) == (if rightFree && last1 == g[i].off then f[i - 1].off else last1)
  {
    MergeNextAt(f, i - 1);
    CursorByOffset(f, i, li, last);
    assert f[i].off == End(f[i - 1]);
    if i + 1 < |f| {
      assert f[i + 1].off == End(f[i]);
    }
  }

  /** Marking block i free leaves its neighbours, and so the cursor's fate, alone. */
  lemma MarkFreeCursor(bs: seq<Blk>, i: nat, li: nat, last: int)
    requires i < |bs|
    ensures CursorAfter(MarkFree(bs, i), i, li, last) == CursorAfter(bs, i, li, last)
  {
  }

  class Allocator {
    /** The arena, tag by tag: arena[o] is the tag whose first byte is at o. */
    const arena: array<Tag>
    /** Set by the first successful mymalloc (the source's `first`, negated). */
    var initialized: bool
    /** last_block: the block where the last search succeeded. */
    var lastBlock: int
    /** The blocks that tile the arena, in address order. */
    ghost var blocks: seq<Blk>
    /** The index of lastBlock in blocks. */
    ghost var lastIndex: nat

    /** The tags describe a tiling of the arena and lastBlock is one of its
        blocks. */
    ghost predicate Consistent()
      reads this, arena
    {
      arena.Length == HEAP_SIZE && Heap(arena[..], blocks, lastBlock, lastIndex)
    }

    ghost predicate Valid()
      reads this, arena
    {
      && arena.Length == HEAP_SIZE
      && (!initialized ==> blocks == [])
      && (initialized ==> Consistent() && NoAdjacentFree(blocks))
    }

    /** Payload offsets currently handed out. */
    ghost function Allocations(): set<int>
      reads this
    {
      Live(blocks)
    }

    constructor ()
      ensures Valid() && !initialized && Allocations() == {}
      ensures fresh(arena)
    {
      arena := new Tag[HEAP_SIZE];
      initialized := false;
      lastBlock := 0;
      blocks := [];
      lastIndex := 0;
    }

    /** Write the same tag as header and footer of the block at off. */
    method SetTags(off: int, size: int, free: bool)
      requires arena.Length == HEAP_SIZE
      requires 0 <= off && 0 <= size && off + OVERHEAD + size <= HEAP_SIZE
      modifies arena
      ensures arena[..] == WriteTags(old(arena[..]), off, size, free)
    {
      arena[off] := Tag(size, free);
      arena[off + TAG_SIZE + size] := Tag(size, free);
    }

    /** create_block: make the span of `size` bytes at start one free block
        whose payload is size - 32; a span too small for the two tags yields
        None and writes nothing. */
    method CreateBlock(start: int, size: int) returns (b: Option<int>)
      requires arena.Length == HEAP_SIZE
      requires 0 <= start && 0 <= size && start + size <= HEAP_SIZE
      modifies arena
      ensures size < OVERHEAD ==> b.None? && arena[..] == old(arena[..])
      ensures OVERHEAD <= size ==>
        && b == Some(start)
        && arena[..] == WriteTags(old(arena[..]), start, size - OVERHEAD, true)
    {
      var dataSize := size - TAG_SIZE - TAG_SIZE;
      if dataSize < 0 {
        return None;
      }
      SetTags(start, dataSize, true);
      b := Some(start);
    }

    /** The walk of find_free_block: from the header at `from`, while below
        `stop`, step over header, payload and footer to the next header, and
        stop at the first free block whose payload holds req bytes. */
    method Scan(from: int, stop: int, req: int, ghost lo: nat, ghost hi: nat) returns (r: Option<int>)
      requires Valid() && initialized
      requires lo <= hi <= |blocks| && from == OffsetAt(blocks, lo) && stop == OffsetAt(blocks, hi)
      ensures r == OffsetOf(blocks, FirstFitIn(blocks, lo, hi, req))
    {
      var b := from;
      ghost var k := lo;
      OffsetBelow(blocks, k, hi);
      while b < stop && !(arena[b].free && arena[b].size >= req)
        invariant lo <= k <= hi && b == OffsetAt(blocks, k)
        invariant b < stop <==> k < hi
        invariant k < |blocks| ==> TagsAt(arena[..], blocks[k])
        invariant FirstFitIn(blocks, k, hi, req) == FirstFitIn(blocks, lo, hi, req)
        decreases hi - k
      {
        // next_block's step (Layout.NextBlock), taken inline because the loop
        // test already compares b with stop; Blocks.NextBlockFollows relates the two
        b := b + TAG_SIZE + arena[b].size + TAG_SIZE;
        OffsetAtStep(blocks, k);
        k := k + 1;
        OffsetBelow(blocks, k, hi);
      }
      if b < stop {
        r := Some(b);
      } else {
        r := None;
      }
    }

    /** find_free_block: FIRST_FIT scans from heap_start to heap_end; NEXT_FIT
        scans from last_block to heap_end and then from heap_start up to
        last_block. A success moves last_block to the block found. BEST_FIT
        and WORST_FIT have no branch and find nothing. */
    method FindFreeBlock(req: int, strategy: Strategy) returns (r: Option<int>)
      requires Valid() && initialized
      modifies this`lastBlock, this`lastIndex
      ensures Valid() && blocks == old(blocks)
      ensures r == OffsetOf(blocks, Choose(blocks, old(lastIndex), req, strategy))
      ensures r.Some? ==> lastBlock == r.value
      ensures r.None? ==> lastBlock == old(lastBlock)
    {
      ghost var choice := Choose(blocks, lastIndex, req, strategy);
      match strategy {
        case FirstFit =>
          r := Scan(0, HEAP_SIZE, req, 0, |blocks|);
        case NextFit =>
          r := Scan(lastBlock, HEAP_SIZE, req, lastIndex, |blocks|);
          if r.None? {
            r := Scan(0, lastBlock, req, 0, lastIndex);
          }
        case BestFit =>
          r := None;
        case WorstFit =>
          r := None;
      }
      if r.Some? {
        lastBlock := r.value;
        lastIndex := choice.value;
      }
    }

    /** split_block: block i (free, at b) becomes an allocated block of
        exactly req bytes and a free remainder made by create_block over the
        rest of the old span. */
    method SplitBlock(b: int, req: int, ghost i: nat) returns (left: int)
      requires Valid() && initialized
      requires i < |blocks| && blocks[i].off == b && blocks[i].free
      requires 0 <= req && req % ALIGNMENT == 0 && req + OVERHEAD <= blocks[i].size
      modifies arena, this`blocks, this`lastIndex
      ensures Valid() && left == b
      ensures blocks == Carve(old(blocks), i, req)
      ensures AgreeOutside(old(arena[..]), arena[..], b, End(old(blocks)[i]))
    {
      ghost var bs := blocks;
      ghost var m := arena[..];
      ghost var li := lastIndex;
      assert TagsAt(m, bs[i]);
      var total := arena[b].size;
      var right := b + TAG_SIZE + TAG_SIZE + req;
      var rest := CreateBlock(right, total - req);
      SetTags(b, req, false);
      left := b;
      blocks := Carve(bs, i, req);
      lastIndex := CarvedIndex(lastIndex, i);
      CarveStep(m, arena[..], bs, lastBlock, li, i, req);
    }

    /** Rewrite both tags of block i (at b) with the flag `free`, keeping its
        size: mymalloc's hand-out of a whole block and myfree's first step. */
    method MarkBlock(b: int, free: bool, ghost i: nat)
      requires Consistent()
      requires i < |blocks| && blocks[i].off == b
      modifies arena, this`blocks
      ensures Consistent()
      ensures blocks == old(blocks)[i := old(blocks)[i].(free := free)]
    {
      ghost var bs := blocks;
      ghost var m := arena[..];
      assert TagsAt(m, bs[i]);
      SetTags(b, arena[b].size, free);
      blocks := bs[i := bs[i].(free := free)];
      FlagStep(m, arena[..], bs, lastBlock, lastIndex, i, free);
    }

    /** One coalescing step of myfree: the block at cur absorbs its right
        neighbour; a last_block that pointed at the absorbed block is moved to
        the merged one. */
    method MergeNextBlock(cur: int, ghost j: nat)
      requires Consistent()
      requires j + 1 < |blocks| && blocks[j].off == cur
      modifies arena, this`blocks, this`lastBlock, this`lastIndex
      ensures Consistent()
      ensures blocks == MergeNext(old(blocks), j)
      ensures lastBlock == if old(lastBlock) == old(blocks)[j + 1].off then old(blocks)[j].off else old(lastBlock)
      ensures lastIndex == MergedIndex(old(lastIndex), j)
    {
      ghost var bs := blocks;
      ghost var m := arena[..];
      ghost var last := lastBlock;
      ghost var li := lastIndex;
      assert TagsAt(m, bs[j]) && TagsAt(m, bs[j + 1]);
      assert bs[j + 1].off == End(bs[j]);
      // the header next_block finds after cur (Layout.NextBlock, related to
      // block j + 1 by Blocks.NextBlockFollows); the caller knows it exists
      var right := cur + TAG_SIZE + arena[cur].size + TAG_SIZE;
      var merged := arena[cur].size + TAG_SIZE + TAG_SIZE + arena[right].size;
      SetTags(cur, merged, true);
      blocks := MergeNext(bs, j);
      if lastBlock == right {
        lastBlock := cur;
      }
      lastIndex := MergedIndex(lastIndex, j);
      MergeStep(m, arena[..], bs, last, li, j);
    }

    /** The first-call branch of mymalloc: the arena becomes one free block
        and last_block its header. */
    method InitArena()
      requires Valid() && !initialized
      modifies this, arena
      ensures Valid() && initialized && blocks == Initial()
    {
      InitialStep(arena[..]);
      var whole := CreateBlock(0, HEAP_SIZE);
      initialized := true;
      lastBlock := 0;
      blocks := Initial();
      lastIndex := 0;
    }

    /** mymalloc: on the first call obtain the arena (hostGrants says whether
        the host supplied it) and make it one free block; then round the
        request, find a block first-fit, split it when the remainder can hold
        a block, and return the payload just past its header. The request
        is a size_t. */
    method Malloc(size: nat, hostGrants: bool) returns (p: Option<int>)
      requires size < SIZE_T_MODULUS
      requires Valid()
      modifies this, arena
      ensures Valid()
      ensures initialized == (old(initialized) || hostGrants)
      ensures !initialized ==> p.None? && blocks == old(blocks)
      ensures initialized ==>
        var bs := if old(initialized) then old(blocks) else Initial();
        var req := AlignSize(size);
        match FirstFitScan(bs, req)
        case None => p.None? && blocks == bs
        case Some(i) => p == Some(Payload(bs[i])) && blocks == Place(bs, i, req)
      ensures p.Some? ==>
        && p.value % ALIGNMENT == 0
        && p.value !in old(Allocations())
        && Allocations() == old(Allocations()) + {p.value}
        && exists k :: 0 <= k < |blocks| && Payload(blocks[k]) == p.value && !blocks[k].free && size <= blocks[k].size
      ensures p.None? ==> Allocations() == old(Allocations())
      ensures p.Some? ==> lastBlock == p.value - TAG_SIZE
      ensures p.None? ==> lastBlock == if initialized && !old(initialized) then 0 else old(lastBlock)
    {
      if !initialized {
        if !hostGrants {
          return None;
        }
        InitArena();
      }
      ghost var bs := blocks;
      var req := AlignSize(size);
      var b := FindFreeBlock(req, FirstFit);
      if b.None? {
        return None;
      }
      ghost var i := FirstFitScan(bs, req).value;
      var q := PlaceBlock(b.value, req, i);
      p := Some(q);
    }

    /** The end of mymalloc for the block i (at b) that the search found:
        split it when the remainder can hold a block of its own, otherwise
        hand out all of it; the caller gets the payload past the header. */
    method PlaceBlock(b: int, req: int, ghost i: nat) returns (p: int)
      requires Valid() && initialized
      requires i < |blocks| && blocks[i].off == b && Fits(blocks[i], req)
      requires 0 <= req && req % ALIGNMENT == 0
      modifies arena, this`blocks, this`lastIndex
      ensures Valid()
      ensures blocks == Place(old(blocks), i, req) && p == Payload(old(blocks)[i])
      ensures p % ALIGNMENT == 0 && p !in old(Allocations())
      ensures Allocations() == old(Allocations()) + {p}
      ensures i < |blocks| && Payload(blocks[i]) == p && !blocks[i].free && req <= blocks[i].size
    {
      ghost var bs := blocks;
      PlaceFacts(bs, i, req);
      assert TagsAt(arena[..], bs[i]);
      if arena[b].size - req >= OVERHEAD {
        var left := SplitBlock(b, req, i);
        p := left + TAG_SIZE;
      } else {
        MarkBlock(b, false, i);
        p := b + TAG_SIZE;
      }
      assert blocks == Place(bs, i, req);
    }

    /** The coalescing half of myfree for the free block i at b: merge it
        into a free left neighbour (found through the footer just before its
        header), then merge the result with a free right neighbour. */
    method CoalesceBlock(b: int, ghost i: nat)
      requires Consistent()
      requires i < |blocks| && blocks[i].off == b
      modifies arena, this`blocks, this`lastBlock, this`lastIndex
      ensures Consistent()
      ensures blocks == Coalesce(old(blocks), i)
      ensures lastBlock == CursorAfter(old(blocks), i, old(lastIndex), old(lastBlock))
    {
      ghost var f, li, last := blocks, lastIndex, lastBlock;
      var cur, j := MergeLeft(b, i);
      MergeRight(cur, j);
    }

    /** myfree's left step: when prev_block finds a free block before b, it
        absorbs block i; the block to carry on with is returned. */
    method MergeLeft(b: int, ghost i: nat) returns (cur: int, ghost j: nat)
      requires Consistent()
      requires i < |blocks| && blocks[i].off == b
      modifies arena, this`blocks, this`lastBlock, this`lastIndex
      ensures Consistent()
      ensures var leftFree := 0 < i && old(blocks)[i - 1].free;
        && j == (if leftFree then i - 1 else i)
        && blocks == (if leftFree then MergeNext(old(blocks), i - 1) else old(blocks))
        && j < |blocks| && blocks[j].off == cur
      ensures var leftFree := 0 < i && old(blocks)[i - 1].free;
        && lastBlock == (if leftFree && old(lastBlock) == b then cur else old(lastBlock))
        && (!leftFree ==> arena[..] == old(arena[..]) && lastIndex == old(lastIndex))
      ensures var rightFree := j + 1 < |blocks| && blocks[j + 1].free;
        && Coalesce(old(blocks), i) == (if rightFree then MergeNext(blocks, j) else blocks)
        && CursorAfter(old(blocks), i, old(lastIndex), old(lastBlock))
           == (if rightFree && lastBlock == blocks[j + 1].off then cur else lastBlock)
    {
      ghost var f, li, last := blocks, lastIndex, lastBlock;
      var left := FreeLeftNeighbour(b, i);
      if left.Some? {
        MergeNextBlock(left.value, i - 1);
        cur := left.value;
        j := i - 1;
        AfterLeftMerge(f, i, li, last);
      } else {
        cur := b;
        j := i;
        WithoutLeftMerge(f, i, li, last);
      }
    }

    /** The test of myfree's left step: prev_block finds the block before b
        through the footer just below b's header, and that footer says
        whether it is free. */
    method FreeLeftNeighbour(b: int, ghost i: nat) returns (left: Option<int>)
      requires Consistent()
      requires i < |blocks| && blocks[i].off == b
      ensures left.Some? <==> 0 < i && blocks[i - 1].free
      ensures left.Some? ==> left.value == blocks[i - 1].off
    {
      PrevBlockPrecedes(arena[..], blocks, i);
      var prev := PrevBlock(arena[..], b);
      if prev.Some? {
        assert TagsAt(arena[..], blocks[i - 1]) && Footer(blocks[i - 1]) == b - TAG_SIZE;
      }
      if prev.Some? && arena[b - TAG_SIZE].free {
        left := prev;
      } else {
        left := None;
      }
    }

    /** myfree's right step: when next_block finds a free block after cur
        (block j), block j absorbs it. */
    method MergeRight(cur: int, ghost j: nat)
      requires Consistent()
      requires j < |blocks| && blocks[j].off == cur
      modifies arena, this`blocks, this`lastBlock, this`lastIndex
      ensures Consistent()
      ensures blocks == if j + 1 < |old(blocks)| && old(blocks)[j + 1].free then MergeNext(old(blocks), j) else old(blocks)
      ensures var rightFree := j + 1 < |old(blocks)| && old(blocks)[j + 1].free;
        && lastBlock == (if rightFree && old(lastBlock) == old(blocks)[j + 1].off then cur else old(lastBlock))
        && (!rightFree ==> arena[..] == old(arena[..]) && lastIndex == old(lastIndex))
    {
      ghost var g := blocks;
      NextBlockFollows(arena[..], g, j);
      var right := NextBlock(arena[..], cur);
      if right.Some? {
        assert TagsAt(arena[..], g[j + 1]);
        if arena[right.value].free {
          MergeNextBlock(cur, j);
        }
      }
    }

    /** myfree on the block i at b: mark both its tags free, then coalesce
        it with its free neighbours. */
    method FreeBlock(b: int, ghost i: nat)
      requires Consistent()
      requires i < |blocks| && blocks[i].off == b
      modifies arena, this`blocks, this`lastBlock, this`lastIndex
      ensures Consistent()
      ensures blocks == Release(old(blocks), i)
      ensures lastBlock == CursorAfter(old(blocks), i, old(lastIndex), old(lastBlock))
    {
      ghost var bs, li, last := blocks, lastIndex, lastBlock;
      MarkBlock(b, true, i);
      assert blocks == MarkFree(bs, i);
      CoalesceBlock(b, i);
      MarkFreeCursor(bs, i, li, last);
    }

    /** myfree: the block of payload p starts 16 bytes below it. */
    method Free(p: int)
      requires Valid() && initialized && p in Allocations()
      modifies arena, this`blocks, this`lastBlock, this`lastIndex
      ensures Valid()
      ensures forall i :: 0 <= i < |old(blocks)| && Payload(old(blocks)[i]) == p ==>
        blocks == Release(old(blocks), i)
      ensures Allocations() == old(Allocations()) - {p}
      ensures forall i :: 0 <= i < |old(blocks)| && Payload(old(blocks)[i]) == p ==>
        lastBlock == CursorAfter(old(blocks), i, old(lastIndex), old(lastBlock))
    {
      ghost var bs := blocks;
      ghost var i :| 0 <= i < |bs| && !bs[i].free && Payload(bs[i]) == p;
      FreeBlock(p - TAG_SIZE, i);
      ReleaseFacts(bs, i, p);
    }
  }

  /** The block lists the scenario below passes through. */
  lemma ScenarioLists()
    ensures AlignSize(14) == 16
    ensures FirstFitScan(Initial(), 16) == Some(0)
    ensures Place(Initial(), 0, 16) == [Blk(0, 16, false), Blk(48, 944, true)]
    ensures FirstFitScan([Blk(0, 16, false), Blk(48, 944, true)], 16) == Some(1)
    ensures Place([Blk(0, 16, false), Blk(48, 944, true)], 1, 16)
         == [Blk(0, 16, false), Blk(48, 16, false), Blk(96, 896, true)]
    ensures Release([Blk(0, 16, false), Blk(48, 16, false), Blk(96, 896, true)], 0)
         == [Blk(0, 16, true), Blk(48, 16, false), Blk(96, 896, true)]
    ensures FirstFitScan([Blk(0, 16, true), Blk(48, 16, false), Blk(96, 896, true)], 16) == Some(0)
  {
    var s1 := [Blk(0, 16, false), Blk(48, 944, true)];
    assert Place(Initial(), 0, 16) == s1;
    var s2 := [Blk(0, 16, false), Blk(48, 16, false), Blk(96, 896, true)];
    assert Place(s1, 1, 16) == s2;
  }

  /** The scenario of the source's main: two mymalloc(14) calls on a fresh
      arena hand out payloads 16 and 64, whose 14 requested bytes do not
      overlap; freeing the first and asking again hands the same payload back. */
  method MainScenario() returns (a: Option<int>, b: Option<int>, c: Option<int>)
    ensures a == Some(16) && b == Some(64) && c == a
    ensures a.value + 14 <= b.value
  {
    ScenarioLists();
    ghost var s1 := [Blk(0, 16, false), Blk(48, 944, true)];
    ghost var s2 := [Blk(0, 16, false), Blk(48, 16, false), Blk(96, 896, true)];
    ghost var s3 := [Blk(0, 16, true), Blk(48, 16, false), Blk(96, 896, true)];
    var heap := new Allocator();
    a := heap.Malloc(14, true);
    assert heap.initialized && heap.blocks == s1 && a == Some(16);
    b := heap.Malloc(14, true);
    assert heap.blocks == s2 && b == Some(64);
    heap.Free(16);
    assert Payload(s2[0]) == 16;
    assert heap.blocks == s3;
    c := heap.Malloc(14, true);
    assert c == Some(Payload(s3[0]));
  }
}
