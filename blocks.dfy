/** The implicit block list of the allocator as a value: the sequence of blocks
    that tile the arena from heap_start to heap_end, the tags the arena must hold
    for them, and what placement, splitting and coalescing do to the list. */
module Blocks {
  import opened Layout

  /** One block: offset of its header, payload size, free flag. */
  datatype Blk = Blk(off: int, size: int, free: bool)

  /** First byte after the block's footer. */
  function End(b: Blk): int { b.off + OVERHEAD + b.size }

  /** Offset of the block's footer tag. */
  function Footer(b: Blk): int { b.off + TAG_SIZE + b.size }

  /** The pointer handed to the caller: just past the header. */
  function Payload(b: Blk): int { b.off + TAG_SIZE }

  /** The blocks tile [0, HEAP_SIZE) exactly, in address order, and every
      payload is a multiple of 16 bytes. */
  predicate WellFormed(bs: seq<Blk>) {
    && |bs| > 0
    && bs[0].off == 0
    && End(bs[|bs| - 1]) == HEAP_SIZE
    && (forall k :: 0 <= k < |bs| ==> 0 <= bs[k].size && bs[k].size % ALIGNMENT == 0)
    && (forall k :: 0 < k < |bs| ==> bs[k].off == End(bs[k - 1]))
  }

  /** Coalescing is eager: no two neighbours are both free. */
  predicate NoAdjacentFree(bs: seq<Blk>) {
    forall k :: 0 < k < |bs| ==> !(bs[k - 1].free && bs[k].free)
  }

  /** Header and footer of b both hold b's size and flag. */
  predicate TagsAt(m: seq<Tag>, b: Blk) {
    && 0 <= b.off && 0 <= b.size && End(b) <= |m|
    && m[b.off] == Tag(b.size, b.free)
    && m[Footer(b)] == Tag(b.size, b.free)
  }

  predicate TagsAgree(m: seq<Tag>, bs: seq<Blk>) {
    forall k :: 0 <= k < |bs| ==> TagsAt(m, bs[k])
  }

  /** Payload offsets of the allocated blocks: the live allocations. */
  function Live(bs: seq<Blk>): set<int> {
    set k | 0 <= k < |bs| && !bs[k].free :: Payload(bs[k])
  }

  /** The header offset of block k, or heap_end past the last block. */
  function OffsetAt(bs: seq<Blk>, k: nat): int
    requires k <= |bs|
  {
    if k < |bs| then bs[k].off else HEAP_SIZE
  }

  function OffsetOf(bs: seq<Blk>, r: Option<nat>): Option<int>
    requires r.Some? ==> r.value < |bs|
  {
    if r.Some? then Some(bs[r.value].off) else None
  }

  /** The total size of every block, header and footer included. */
  function TotalSize(bs: seq<Blk>): int {
    if bs == [] then 0 else End(bs[0]) - bs[0].off + TotalSize(bs[1..])
  }

  // ---------------------------------------------------------------------
  // Layout facts

  lemma {:induction false} Ordered(bs: seq<Blk>, i: int, j: int)
    requires WellFormed(bs) && 0 <= i < j < |bs|
    ensures End(bs[i]) <= bs[j].off
  {
    assert bs[j].off == End(bs[j - 1]);
    if i + 1 < j {
      Ordered(bs, i, j - 1);
      assert 0 <= bs[j - 1].size;
    }
  }

  /** Every block lies inside the arena and starts on a 16-byte boundary. */
  lemma {:induction false} Bounds(bs: seq<Blk>, k: int)
    requires WellFormed(bs) && 0 <= k < |bs|
    ensures 0 <= bs[k].off && End(bs[k]) <= HEAP_SIZE
    ensures bs[k].off % ALIGNMENT == 0
  {
    if k > 0 {
      Bounds(bs, k - 1);
      assert bs[k].off == End(bs[k - 1]);
      assert bs[k - 1].size % ALIGNMENT == 0;
    }
    if k < |bs| - 1 {
      Ordered(bs, k, |bs| - 1);
    }
    assert 0 <= bs[|bs| - 1].size;
  }

  lemma OffsetAtStep(bs: seq<Blk>, k: nat)
    requires WellFormed(bs) && k < |bs|
    ensures OffsetAt(bs, k + 1) == End(bs[k])
  {
    if k + 1 < |bs| {
      assert bs[k + 1].off == End(bs[k]);
    }
  }

  lemma OffsetAtMonotone(bs: seq<Blk>, i: nat, j: nat)
    requires WellFormed(bs) && i < j <= |bs|
    ensures OffsetAt(bs, i) < OffsetAt(bs, j)
  {
    assert 0 <= bs[i].size;
    if j < |bs| {
      Ordered(bs, i, j);
    } else {
      Bounds(bs, i);
    }
  }

  /** The partition invariant: the blocks' total sizes add up to HEAP_SIZE. */
  lemma TotalSizeIsHeapSize(bs: seq<Blk>)
    requires WellFormed(bs)
    ensures TotalSize(bs) == HEAP_SIZE
  {
    TotalSizeFrom(bs, 0);
  }

  lemma {:induction false} TotalSizeFrom(bs: seq<Blk>, k: nat)
    requires WellFormed(bs) && k < |bs|
    ensures TotalSize(bs[k..]) == HEAP_SIZE - bs[k].off
    decreases |bs| - k
  {
    assert bs[k..][0] == bs[k];
    if k + 1 < |bs| {
      TotalSizeFrom(bs, k + 1);
      assert bs[k..][1..] == bs[k + 1..];
      assert bs[k + 1].off == End(bs[k]);
    } else {
      assert bs[k..][1..] == [];
    }
  }

  /** Live allocations never overlap: distinct blocks have disjoint spans,
      and so disjoint payloads. */
  lemma PayloadsDisjoint(bs: seq<Blk>, i: int, j: int)
    requires WellFormed(bs) && 0 <= i < |bs| && 0 <= j < |bs| && i != j
    ensures Payload(bs[i]) + bs[i].size <= bs[j].off || Payload(bs[j]) + bs[j].size <= bs[i].off
  {
    if i < j { Ordered(bs, i, j); } else { Ordered(bs, j, i); }
  }

  /** Every live payload is 16-byte aligned and lies inside the arena. */
  lemma LiveAligned(bs: seq<Blk>, p: int)
    requires WellFormed(bs) && p in Live(bs)
    ensures p % ALIGNMENT == 0 && TAG_SIZE <= p <= HEAP_SIZE - TAG_SIZE
  {
    var k :| 0 <= k < |bs| && !bs[k].free && Payload(bs[k]) == p;
    Bounds(bs, k);
    assert 0 <= bs[k].size;
  }

  /** Distinct blocks have distinct payload offsets. */
  lemma PayloadInjective(bs: seq<Blk>, i: int, j: int)
    requires WellFormed(bs) && 0 <= i < |bs| && 0 <= j < |bs|
    ensures Payload(bs[i]) == Payload(bs[j]) ==> i == j
  {
    if i != j { PayloadsDisjoint(bs, i, j); assert 0 <= bs[i].size && 0 <= bs[j].size; }
  }

  // ---------------------------------------------------------------------
  // Replacing a run of blocks by another run over the same span

  function Splice(bs: seq<Blk>, i: nat, j: nat, ns: seq<Blk>): seq<Blk>
    requires i <= j <= |bs|
  {
    bs[..i] + ns + bs[j..]
  }

  lemma SpliceAt(bs: seq<Blk>, i: nat, j: nat, ns: seq<Blk>)
    requires i <= j <= |bs|
    ensures var r := Splice(bs, i, j, ns);
      && |r| == |bs| - (j - i) + |ns|
      && (forall k :: 0 <= k < i ==> r[k] == bs[k])
      && (forall k :: 0 <= k < |ns| ==> r[i + k] == ns[k])
      && (forall k :: j <= k < |bs| ==> r[k - j + i + |ns|] == bs[k])
  {
  }

  /** ns tiles exactly the span [lo, hi) with 16-byte multiples. */
  predicate Tiles(ns: seq<Blk>, lo: int, hi: int) {
    && |ns| > 0
    && ns[0].off == lo
    && End(ns[|ns| - 1]) == hi
    && (forall k :: 0 <= k < |ns| ==> 0 <= ns[k].size && ns[k].size % ALIGNMENT == 0)
    && (forall k :: 0 < k < |ns| ==> ns[k].off == End(ns[k - 1]))
  }

  lemma SpliceWellFormed(bs: seq<Blk>, i: nat, j: nat, ns: seq<Blk>)
    requires WellFormed(bs) && i < j <= |bs|
    requires Tiles(ns, bs[i].off, End(bs[j - 1]))
    ensures WellFormed(Splice(bs, i, j, ns))
  {
    var r := Splice(bs, i, j, ns);
    var d := i + |ns|;
    assert |r| == |bs| - (j - i) + |ns|;
    assert forall k :: 0 <= k < i ==> r[k] == bs[k];
    assert forall k :: i <= k < d ==> r[k] == ns[k - i];
    assert forall k :: d <= k < |r| ==> r[k] == bs[k - d + j];
    forall k | 0 <= k < |r|
      ensures 0 <= r[k].size && r[k].size % ALIGNMENT == 0
    {
      if k < i { assert r[k] == bs[k]; }
      else if k < d { assert r[k] == ns[k - i]; }
      else { assert r[k] == bs[k - d + j]; }
    }
    forall k | 0 < k < |r|
      ensures r[k].off == End(r[k - 1])
    {
      if k < i {
        assert r[k] == bs[k] && r[k - 1] == bs[k - 1];
      } else if k == i {
        assert r[k] == ns[0] && r[k - 1] == bs[i - 1];
      } else if k < d {
        assert r[k] == ns[k - i] && r[k - 1] == ns[k - 1 - i];
      } else if k == d {
        assert r[k] == bs[j] && r[k - 1] == ns[|ns| - 1];
      } else {
        assert r[k] == bs[k - d + j] && r[k - 1] == bs[k - 1 - d + j];
      }
    }
    if i == 0 { assert r[0] == ns[0]; } else { assert r[0] == bs[0]; }
    if j == |bs| { assert r[|r| - 1] == ns[|ns| - 1]; } else { assert r[|r| - 1] == bs[|bs| - 1]; }
  }

  /** m' holds what m holds everywhere outside [lo, hi). */
  predicate AgreeOutside(m: seq<Tag>, m': seq<Tag>, lo: int, hi: int) {
    |m'| == |m| && forall p :: 0 <= p < |m| && (p < lo || hi <= p) ==> m'[p] == m[p]
  }

  /** Rewriting tags only inside the replaced span keeps every other block's
      tags, so the arena agrees with the spliced list. */
  lemma SpliceTags(m: seq<Tag>, m': seq<Tag>, bs: seq<Blk>, i: nat, j: nat, ns: seq<Blk>)
    requires WellFormed(bs) && i < j <= |bs|
    requires TagsAgree(m, bs) && TagsAgree(m', ns)
    requires AgreeOutside(m, m', bs[i].off, End(bs[j - 1]))
    ensures TagsAgree(m', Splice(bs, i, j, ns))
  {
    var r := Splice(bs, i, j, ns);
    var d := i + |ns|;
    forall k | 0 <= k < |r|
      ensures TagsAt(m', r[k])
    {
      if k < i {
        assert r[k] == bs[k];
        Ordered(bs, k, i);
        assert TagsAt(m, bs[k]);
      } else if k < d {
        assert r[k] == ns[k - i];
      } else {
        var k' := k - d + j;
        assert r[k] == bs[k'];
        if j - 1 < k' { Ordered(bs, j - 1, k'); }
        assert TagsAt(m, bs[k']);
      }
    }
  }

  /** WriteTags installs a block's tags and touches nothing outside its span. */
  lemma WriteTagsSpan(m: seq<Tag>, off: int, size: int, free: bool)
    requires 0 <= off && 0 <= size && off + OVERHEAD + size <= |m|
    ensures TagsAt(WriteTags(m, off, size, free), Blk(off, size, free))
    ensures |WriteTags(m, off, size, free)| == |m|
    ensures AgreeOutside(m, WriteTags(m, off, size, free), off, off + OVERHEAD + size)
  {
  }

  // ---------------------------------------------------------------------
  // Initialisation

  /** create_block over the whole arena: one free block of payload 992. */
  function Initial(): (bs: seq<Blk>)
    ensures WellFormed(bs) && NoAdjacentFree(bs) && Live(bs) == {}
    ensures |bs| == 1 && bs[0].free && bs[0].size == HEAP_SIZE - OVERHEAD
  {
    [Blk(0, HEAP_SIZE - OVERHEAD, true)]
  }

  // ---------------------------------------------------------------------
  // Placement

  /** Block k can serve a request of req bytes. */
  predicate Fits(b: Blk, req: int) {
    b.free && b.size >= req
  }

  /** The lowest-index block in [lo, hi) that fits, if any. */
  function FirstFitIn(bs: seq<Blk>, lo: nat, hi: nat, req: int): (r: Option<nat>)
    requires lo <= hi <= |bs|
    ensures r.Some? ==> lo <= r.value < hi && Fits(bs[r.value], req)
    ensures r.Some? ==> forall k :: lo <= k < r.value ==> !Fits(bs[k], req)
    ensures r.None? ==> forall k :: lo <= k < hi ==> !Fits(bs[k], req)
    decreases hi - lo
  {
    if lo == hi then None
    else if Fits(bs[lo], req) then Some(lo)
    else FirstFitIn(bs, lo + 1, hi, req)
  }

  /** FIRST_FIT: scan from heap_start. */
  function FirstFitScan(bs: seq<Blk>, req: int): (r: Option<nat>)
    requires |bs| > 0
    ensures r.None? <==> forall k :: 0 <= k < |bs| ==> !Fits(bs[k], req)
    ensures r.Some? ==> r.value < |bs| && Fits(bs[r.value], req)
    ensures r.Some? ==> forall k :: 0 <= k < r.value ==> !Fits(bs[k], req)
  {
    FirstFitIn(bs, 0, |bs|, req)
  }

  /** NEXT_FIT: scan from the roving cursor to heap_end, then wrap around
      from heap_start up to the cursor. */
  function NextFitScan(bs: seq<Blk>, cursor: nat, req: int): (r: Option<nat>)
    requires cursor < |bs|
    ensures r.Some? ==> r.value < |bs| && Fits(bs[r.value], req)
    ensures r.None? ==> forall k :: 0 <= k < |bs| ==> !Fits(bs[k], req)
  {
    var r := FirstFitIn(bs, cursor, |bs|, req);
    if r.Some? then r else FirstFitIn(bs, 0, cursor, req)
  }

  /** The placement strategies of find_free_block. */
  datatype Strategy = FirstFit | NextFit | BestFit | WorstFit

  /** find_free_block: only FIRST_FIT and NEXT_FIT have a branch; the other
      strategies fall through to NULL. */
  function Choose(bs: seq<Blk>, cursor: nat, req: int, s: Strategy): Option<nat>
    requires cursor < |bs|
  {
    match s
    case FirstFit => FirstFitScan(bs, req)
    case NextFit => NextFitScan(bs, cursor, req)
    case _ => None
  }

  /** FIRST_FIT returns the lowest-offset block that is free with payload
      >= req, and none exactly when no block qualifies. */
  lemma FirstFitLowest(bs: seq<Blk>, req: int)
    requires WellFormed(bs)
    ensures FirstFitScan(bs, req).None? <==> forall k :: 0 <= k < |bs| ==> !Fits(bs[k], req)
    ensures FirstFitScan(bs, req).Some? ==>
      var i := FirstFitScan(bs, req).value;
      i < |bs| && Fits(bs[i], req) &&
      forall k :: 0 <= k < |bs| && Fits(bs[k], req) ==> bs[i].off <= bs[k].off
  {
    var r := FirstFitScan(bs, req);
    if r.Some? {
      forall k | 0 <= k < |bs| && Fits(bs[k], req)
        ensures bs[r.value].off <= bs[k].off
      {
        if k != r.value {
          assert r.value < k;
          OffsetAtMonotone(bs, r.value, k);
        }
      }
    }
  }

  /** NEXT_FIT takes the first fitting block at or after the cursor; only when
      there is none does it take the first fitting block before the cursor. It
      finds nothing exactly when FIRST_FIT finds nothing. */
  lemma NextFitOrder(bs: seq<Blk>, cursor: nat, req: int)
    requires cursor < |bs|
    ensures NextFitScan(bs, cursor, req).None? <==> FirstFitScan(bs, req).None?
    ensures NextFitScan(bs, cursor, req).Some? ==>
      var i := NextFitScan(bs, cursor, req).value;
      && i < |bs| && Fits(bs[i], req)
      && (cursor <= i ==> forall k :: cursor <= k < i ==> !Fits(bs[k], req))
      && (i < cursor ==>
            && (forall k :: cursor <= k < |bs| ==> !Fits(bs[k], req))
            && (forall k :: 0 <= k < i ==> !Fits(bs[k], req)))
  {
  }

  /** With the cursor at heap_start NEXT_FIT is FIRST_FIT. */
  lemma NextFitFromStart(bs: seq<Blk>, req: int)
    requires |bs| > 0
    ensures NextFitScan(bs, 0, req) == FirstFitScan(bs, req)
  {
    assert FirstFitIn(bs, 0, 0, req) == None;
  }

  // ---------------------------------------------------------------------
  // Splitting and allocation (split_block and the end of mymalloc)

  /** split_block on block i: an allocated left block of exactly req bytes and
      a free right remainder of the old payload - req - 32 bytes. */
  function Carve(bs: seq<Blk>, i: nat, req: int): (r: seq<Blk>)
    requires i < |bs|
    ensures |r| == |bs| + 1
    ensures r[i] == Blk(bs[i].off, req, false)
    ensures r[i + 1].free && r[i + 1].off == End(r[i]) && End(r[i + 1]) == End(bs[i])
  {
    var b := bs[i];
    Splice(bs, i, i + 1, [Blk(b.off, req, false), Blk(b.off + OVERHEAD + req, b.size - req - OVERHEAD, true)])
  }

  /** Allocate block i for req bytes: split when the remainder can hold a block
      (32 bytes of tags), otherwise hand out the whole block. */
  function Place(bs: seq<Blk>, i: nat, req: int): (r: seq<Blk>)
    requires i < |bs|
    ensures |r| == |bs| || |r| == |bs| + 1
    ensures i < |r| && r[i].off == bs[i].off && !r[i].free
    ensures Fits(bs[i], req) ==> req <= r[i].size
  {
    if bs[i].size - req >= OVERHEAD then Carve(bs, i, req)
    else bs[i := bs[i].(free := false)]
  }

  /** The two halves of a split tile the old block, so their totals add up to
      the old total. */
  lemma CarveWellFormed(bs: seq<Blk>, i: nat, req: int)
    requires WellFormed(bs) && i < |bs|
    requires 0 <= req && req % ALIGNMENT == 0 && req + OVERHEAD <= bs[i].size
    ensures WellFormed(Carve(bs, i, req))
    ensures |Carve(bs, i, req)| == |bs| + 1
    ensures var c := Carve(bs, i, req);
      End(c[i]) == c[i + 1].off && End(c[i + 1]) == End(bs[i]) &&
      (End(c[i]) - c[i].off) + (End(c[i + 1]) - c[i + 1].off) == End(bs[i]) - bs[i].off
  {
    var r := Carve(bs, i, req);
    CarveAt(bs, i, req);
    forall k | 0 <= k < |r|
      ensures 0 <= r[k].size && r[k].size % ALIGNMENT == 0
    {
      if k < i { assert r[k] == bs[k]; }
      else if k > i + 1 { assert r[k] == bs[k - 1]; }
    }
    forall k | 0 < k < |r|
      ensures r[k].off == End(r[k - 1])
    {
      if k < i { assert r[k] == bs[k] && r[k - 1] == bs[k - 1]; }
      else if k == i { assert r[k - 1] == bs[k - 1]; }
      else if k == i + 2 { assert r[k] == bs[i + 1]; }
      else if k > i + 2 { assert r[k] == bs[k - 1] && r[k - 1] == bs[k - 2]; }
    }
    if i > 0 { assert r[0] == bs[0]; }
    if i + 1 < |bs| { assert r[|r| - 1] == bs[|bs| - 1]; }
  }

  lemma SetFlagWellFormed(bs: seq<Blk>, i: nat, free: bool)
    requires WellFormed(bs) && i < |bs|
    ensures WellFormed(bs[i := bs[i].(free := free)])
    ensures bs[i := bs[i].(free := free)] == Splice(bs, i, i + 1, [bs[i].(free := free)])
  {
    var ns := [bs[i].(free := free)];
    SpliceWellFormed(bs, i, i + 1, ns);
    assert bs[i := bs[i].(free := free)] == Splice(bs, i, i + 1, ns);
  }

  /** Placement keeps the tiling and eager coalescing, and the block handed
      out sits where block i was, is allocated, and has a payload of at least
      req bytes that wastes less than one block overhead. */
  lemma PlaceKeepsLayout(bs: seq<Blk>, i: nat, req: int)
    requires WellFormed(bs) && NoAdjacentFree(bs) && i < |bs| && Fits(bs[i], req)
    requires 0 <= req && req % ALIGNMENT == 0
    ensures WellFormed(Place(bs, i, req)) && NoAdjacentFree(Place(bs, i, req))
    ensures i < |Place(bs, i, req)|
    ensures var b := Place(bs, i, req)[i];
      b.off == bs[i].off && !b.free && req <= b.size < req + OVERHEAD
  {
    if bs[i].size - req >= OVERHEAD {
      CarveKeepsLayout(bs, i, req);
    } else {
      SetFlagWellFormed(bs, i, false);
    }
  }

  /** Where block k of bs sits after Carve(bs, i, _). */
  function CarvedIndex(k: nat, i: nat): nat {
    if k > i then k + 1 else k
  }

  /** A split keeps the tiling and eager coalescing, and every old block but
      i is still there, one place further on past i. */
  lemma CarveKeepsLayout(bs: seq<Blk>, i: nat, req: int)
    requires WellFormed(bs) && NoAdjacentFree(bs) && i < |bs| && bs[i].free
    requires 0 <= req && req % ALIGNMENT == 0 && req + OVERHEAD <= bs[i].size
    ensures WellFormed(Carve(bs, i, req)) && NoAdjacentFree(Carve(bs, i, req))
    ensures forall k :: 0 <= k < |bs| && k != i ==> Carve(bs, i, req)[CarvedIndex(k, i)] == bs[k]
    ensures Carve(bs, i, req)[i].off == bs[i].off
  {
    CarveWellFormed(bs, i, req);
    CarveNoAdjacentFree(bs, i, req);
    CarveAt(bs, i, req);
    forall k | 0 <= k < |bs| && k != i
      ensures Carve(bs, i, req)[CarvedIndex(k, i)] == bs[k]
    {
    }
  }

  /** The blocks of Carve(bs, i, req), one by one. */
  lemma CarveAt(bs: seq<Blk>, i: nat, req: int)
    requires i < |bs|
    ensures var r := Carve(bs, i, req);
      && |r| == |bs| + 1
      && (forall k :: 0 <= k < i ==> r[k] == bs[k])
      && r[i] == Blk(bs[i].off, req, false)
      && r[i + 1] == Blk(bs[i].off + OVERHEAD + req, bs[i].size - req - OVERHEAD, true)
      && (forall k :: i < k < |bs| ==> r[k + 1] == bs[k])
  {
    var b := bs[i];
    var ns := [Blk(b.off, req, false), Blk(b.off + OVERHEAD + req, b.size - req - OVERHEAD, true)];
    var r := Carve(bs, i, req);
    assert r == bs[..i] + ns + bs[i + 1..];
    forall k | i < k < |bs|
      ensures r[k + 1] == bs[k]
    {
      assert r[k + 1] == bs[i + 1..][k - i - 1];
    }
  }

  /** The free remainder's right neighbour was next to the free block i, so
      it is allocated: a split leaves no two free neighbours. */
  lemma CarveNoAdjacentFree(bs: seq<Blk>, i: nat, req: int)
    requires NoAdjacentFree(bs) && i < |bs| && bs[i].free
    ensures NoAdjacentFree(Carve(bs, i, req))
  {
    var r := Carve(bs, i, req);
    CarveAt(bs, i, req);
    forall k | 0 < k < |r|
      ensures !(r[k - 1].free && r[k].free)
    {
      if k < i { assert r[k] == bs[k] && r[k - 1] == bs[k - 1]; }
      else if k == i { assert !r[k].free; }
      else if k == i + 1 { assert !r[k - 1].free; }
      else if k == i + 2 { assert r[k] == bs[i + 1] && !bs[i + 1].free; }
      else { assert r[k] == bs[k - 1] && r[k - 1] == bs[k - 2]; }
    }
  }

  /** mymalloc adds exactly the handed-out payload to the live allocations;
      it was not live before. */
  lemma PlaceLive(bs: seq<Blk>, i: nat, req: int)
    requires WellFormed(bs) && i < |bs| && Fits(bs[i], req)
    ensures Payload(bs[i]) !in Live(bs)
    ensures Live(Place(bs, i, req)) == Live(bs) + {Payload(bs[i])}
  {
    if Payload(bs[i]) in Live(bs) {
      var k :| 0 <= k < |bs| && !bs[k].free && Payload(bs[k]) == Payload(bs[i]);
      PayloadInjective(bs, i, k);
    }
    var r := Place(bs, i, req);
    if bs[i].size - req >= OVERHEAD {
      assert |r| == |bs| + 1;
      forall x | x in Live(r) ensures x in Live(bs) + {Payload(bs[i])} {
        var k :| 0 <= k < |r| && !r[k].free && Payload(r[k]) == x;
        if k < i { assert r[k] == bs[k]; }
        else if k > i + 1 { assert r[k] == bs[k - 1]; }
      }
      forall x | x in Live(bs) + {Payload(bs[i])} ensures x in Live(r) {
        if x == Payload(bs[i]) {
          assert !r[i].free && Payload(r[i]) == x;
        } else {
          var k :| 0 <= k < |bs| && !bs[k].free && Payload(bs[k]) == x;
          if k < i { assert r[k] == bs[k]; }
          else { assert r[k + 1] == bs[k]; }
        }
      }
    } else {
      forall x | x in Live(r) ensures x in Live(bs) + {Payload(bs[i])} {
        var k :| 0 <= k < |r| && !r[k].free && Payload(r[k]) == x;
      }
      forall x | x in Live(bs) + {Payload(bs[i])} ensures x in Live(r) {
        if x == Payload(bs[i]) {
          assert !r[i].free && Payload(r[i]) == x;
        } else {
          var k :| 0 <= k < |bs| && !bs[k].free && Payload(bs[k]) == x;
          assert r[k] == bs[k];
        }
      }
    }
  }

  // ---------------------------------------------------------------------
  // Coalescing (myfree)

  /** Merge block i with its right neighbour into one free block. */
  function MergeNext(bs: seq<Blk>, i: nat): seq<Blk>
    requires i + 1 < |bs|
  {
    Splice(bs, i, i + 2, [Blk(bs[i].off, bs[i].size + OVERHEAD + bs[i + 1].size, true)])
  }

  /** Where block k of bs sits after MergeNext(bs, i). */
  function MergedIndex(k: nat, i: nat): nat {
    if k <= i then k else k - 1
  }

  lemma MergeNextWellFormed(bs: seq<Blk>, i: nat)
    requires WellFormed(bs) && i + 1 < |bs|
    ensures WellFormed(MergeNext(bs, i))
    ensures |MergeNext(bs, i)| == |bs| - 1
    ensures var b := MergeNext(bs, i)[i]; b.off == bs[i].off && End(b) == End(bs[i + 1])
    ensures forall k :: 0 <= k < |bs| && k != i + 1 ==> MergeNext(bs, i)[MergedIndex(k, i)].off == bs[k].off
  {
    assert bs[i + 1].off == End(bs[i]);
    var ns := [Blk(bs[i].off, bs[i].size + OVERHEAD + bs[i + 1].size, true)];
    SpliceWellFormed(bs, i, i + 2, ns);
    var r := MergeNext(bs, i);
    forall k | 0 <= k < |bs| && k != i + 1
      ensures r[MergedIndex(k, i)].off == bs[k].off
    {
      if k < i { assert r[k] == bs[k]; }
      else if k > i + 1 { assert r[k - 1] == bs[k]; }
    }
  }

  /** Mark block i free (both tags of myfree's first step). */
  function MarkFree(bs: seq<Blk>, i: nat): seq<Blk>
    requires i < |bs|
  {
    bs[i := bs[i].(free := true)]
  }

  /** myfree's coalescing of the free block i, in the order the source writes
      it: first into a free left neighbour, then with a free right neighbour. */
  function Coalesce(bs: seq<Blk>, i: nat): seq<Blk>
    requires i < |bs|
  {
    var leftFree := 0 < i && bs[i - 1].free;
    var j := if leftFree then i - 1 else i;
    var bs1 := if leftFree then MergeNext(bs, i - 1) else bs;
    if j + 1 < |bs1| && bs1[j + 1].free then MergeNext(bs1, j) else bs1
  }

  /** The same coalescing with the right neighbour merged first. */
  function CoalesceRightFirst(bs: seq<Blk>, i: nat): seq<Blk>
    requires i < |bs|
  {
    var bs1 := if i + 1 < |bs| && bs[i + 1].free then MergeNext(bs, i) else bs;
    if 0 < i && bs1[i - 1].free then MergeNext(bs1, i - 1) else bs1
  }

  /** myfree: mark block i free, then coalesce it with its free neighbours. */
  function Release(bs: seq<Blk>, i: nat): (r: seq<Blk>)
    requires i < |bs|
    ensures |bs| - 2 <= |r| <= |bs|
    ensures var s := MergeStart(bs, i); s < |r| && r[s].free && r[s].off == bs[s].off
  {
    Coalesce(MarkFree(bs, i), i)
  }

  lemma MergeNextAt(bs: seq<Blk>, i: nat)
    requires i + 1 < |bs|
    ensures var r := MergeNext(bs, i);
      && |r| == |bs| - 1
      && (forall k :: 0 <= k < i ==> r[k] == bs[k])
      && r[i] == Blk(bs[i].off, bs[i].size + OVERHEAD + bs[i + 1].size, true)
      && (forall k :: i + 2 <= k < |bs| ==> r[k - 1] == bs[k])
  {
    SpliceAt(bs, i, i + 2, [Blk(bs[i].off, bs[i].size + OVERHEAD + bs[i + 1].size, true)]);
  }

  /** The merged extent does not depend on the order of the two merges. */
  lemma CoalesceOrderIndependent(bs: seq<Blk>, i: nat)
    requires i < |bs|
    ensures Coalesce(bs, i) == CoalesceRightFirst(bs, i)
  {
    var leftFree := 0 < i && bs[i - 1].free;
    var rightFree := i + 1 < |bs| && bs[i + 1].free;
    if leftFree && rightFree {
      DoubleMerge(bs, i);
    } else if leftFree {
      var l1 := MergeNext(bs, i - 1);
      MergeNextAt(bs, i - 1);
      if i < |l1| { assert l1[i] == bs[i + 1]; }
    } else if rightFree {
      var r1 := MergeNext(bs, i);
      MergeNextAt(bs, i);
      if 0 < i { assert r1[i - 1] == bs[i - 1]; }
    }
  }

  /** Merging block i into its left neighbour and then the right neighbour
      in, or the right neighbour first and then into the left neighbour,
      gives the same list. */
  lemma DoubleMerge(bs: seq<Blk>, i: nat)
    requires 0 < i && i + 1 < |bs|
    ensures MergeNext(bs, i - 1)[i] == bs[i + 1] && MergeNext(bs, i)[i - 1] == bs[i - 1]
    ensures MergeNext(MergeNext(bs, i - 1), i - 1) == MergeNext(MergeNext(bs, i), i - 1)
  {
    var l1 := MergeNext(bs, i - 1);
    var r1 := MergeNext(bs, i);
    MergeNextAt(bs, i - 1);
    MergeNextAt(bs, i);
    var a := MergeNext(l1, i - 1);
    var b := MergeNext(r1, i - 1);
    MergeNextAt(l1, i - 1);
    MergeNextAt(r1, i - 1);
    forall k | 0 <= k < |a|
      ensures a[k] == b[k]
    {
      if k < i - 1 {
        assert a[k] == l1[k] == bs[k];
        assert b[k] == r1[k] == bs[k];
      } else if k > i - 1 {
        assert a[k] == l1[k + 1] == bs[k + 2];
        assert b[k] == r1[k + 1] == bs[k + 2];
      }
    }
  }

  /** Blocks a..z-1 replaced by one free block over the same span. */
  function MergedSpan(bs: seq<Blk>, a: nat, z: nat): seq<Blk>
    requires a < z <= |bs|
  {
    Splice(bs, a, z, [Blk(bs[a].off, End(bs[z - 1]) - bs[a].off - OVERHEAD, true)])
  }

  /** The blocks of MergedSpan(bs, a, z), one by one. */
  lemma MergedSpanAt(bs: seq<Blk>, a: nat, z: nat)
    requires a < z <= |bs|
    ensures var r := MergedSpan(bs, a, z);
      && |r| == |bs| - (z - a) + 1
      && (forall k :: 0 <= k < a ==> r[k] == bs[k])
      && r[a] == Blk(bs[a].off, End(bs[z - 1]) - bs[a].off - OVERHEAD, true)
      && (forall k :: a < k < |r| ==> r[k] == bs[k + z - a - 1])
  {
    var ns := [Blk(bs[a].off, End(bs[z - 1]) - bs[a].off - OVERHEAD, true)];
    var r := MergedSpan(bs, a, z);
    assert r == bs[..a] + ns + bs[z..];
    forall k | a < k < |r|
      ensures r[k] == bs[k + z - a - 1]
    {
      assert r[k] == bs[z..][k - a - 1];
    }
  }

  /** The first block index of the extent myfree merges block i into. */
  function MergeStart(bs: seq<Blk>, i: nat): nat
    requires i < |bs|
  {
    if 0 < i && bs[i - 1].free then i - 1 else i
  }

  /** One past the last block index of that extent. */
  function MergeStop(bs: seq<Blk>, i: nat): nat
    requires i < |bs|
  {
    if i + 1 < |bs| && bs[i + 1].free then i + 2 else i + 1
  }

  /** Marking block i free is merging the one-block run i..i. */
  lemma MarkFreeIsMergedSpan(bs: seq<Blk>, i: nat)
    requires i < |bs|
    ensures MarkFree(bs, i) == MergedSpan(bs, i, i + 1)
  {
    MergedSpanAt(bs, i, i + 1);
  }

  /** Merging a run's block with its right neighbour extends the run right. */
  lemma MergeExtendsRight(bs: seq<Blk>, a: nat, z: nat)
    requires WellFormed(bs) && a < z < |bs|
    ensures a + 1 < |MergedSpan(bs, a, z)|
    ensures MergeNext(MergedSpan(bs, a, z), a) == MergedSpan(bs, a, z + 1)
  {
    var g := MergedSpan(bs, a, z);
    MergedSpanAt(bs, a, z);
    MergedSpanAt(bs, a, z + 1);
    assert g[a + 1] == bs[z];
    assert bs[z].off == End(bs[z - 1]);
    MergeNextAt(g, a);
    var l := MergeNext(g, a);
    var r := MergedSpan(bs, a, z + 1);
    forall k | 0 <= k < |l|
      ensures l[k] == r[k]
    {
      if k < a { assert l[k] == g[k]; }
      else if k > a { assert l[k] == g[k + 1]; }
    }
  }

  /** Merging a run into its left neighbour extends the run left. */
  lemma MergeExtendsLeft(bs: seq<Blk>, a: nat, z: nat)
    requires WellFormed(bs) && 0 < a < z <= |bs|
    ensures a < |MergedSpan(bs, a, z)|
    ensures MergeNext(MergedSpan(bs, a, z), a - 1) == MergedSpan(bs, a - 1, z)
  {
    var g := MergedSpan(bs, a, z);
    MergedSpanAt(bs, a, z);
    MergedSpanAt(bs, a - 1, z);
    assert g[a - 1] == bs[a - 1];
    assert bs[a].off == End(bs[a - 1]);
    MergeNextAt(g, a - 1);
    var l := MergeNext(g, a - 1);
    var r := MergedSpan(bs, a - 1, z);
    forall k | 0 <= k < |l|
      ensures l[k] == r[k]
    {
      if k < a - 1 { assert l[k] == g[k]; }
      else if k > a - 1 { assert l[k] == g[k + 1]; }
    }
  }

  /** myfree's result: block i and whichever neighbours are free become one
      free block running from the leftmost merged header to the rightmost
      merged footer; with a free left neighbour its payload is left + b + 32,
      and a free right neighbour adds its payload + 32 likewise. Every other
      block is untouched. */
  lemma ReleaseShape(bs: seq<Blk>, i: nat)
    requires WellFormed(bs) && i < |bs|
    ensures MergeStart(bs, i) <= i < MergeStop(bs, i) <= |bs|
    ensures Release(bs, i) == MergedSpan(bs, MergeStart(bs, i), MergeStop(bs, i))
  {
    if 0 < i && bs[i - 1].free {
      ReleaseIntoLeft(bs, i);
    } else {
      ReleaseInPlace(bs, i);
    }
  }

  lemma ReleaseIntoLeft(bs: seq<Blk>, i: nat)
    requires WellFormed(bs) && 0 < i < |bs| && bs[i - 1].free
    ensures Release(bs, i) == MergedSpan(bs, i - 1, MergeStop(bs, i))
  {
    var f := MarkFree(bs, i);
    assert f[i - 1] == bs[i - 1];
    var g := MergeNext(f, i - 1);
    MergeLeftIsMergedSpan(bs, i);
    MergedSpanAt(bs, i - 1, i + 1);
    assert Coalesce(f, i) == if i < |g| && g[i].free then MergeNext(g, i - 1) else g;
    if i + 1 < |bs| && bs[i + 1].free {
      assert g[i] == bs[i + 1];
      MergeExtendsRight(bs, i - 1, i + 1);
    } else {
      assert i < |g| ==> g[i] == bs[i + 1];
    }
  }

  /** Freeing block i and merging it into its free left neighbour replaces
      the two by one free block. */
  lemma MergeLeftIsMergedSpan(bs: seq<Blk>, i: nat)
    requires WellFormed(bs) && 0 < i < |bs| && bs[i - 1].free
    ensures MergeNext(MarkFree(bs, i), i - 1) == MergedSpan(bs, i - 1, i + 1)
  {
    MarkFreeIsMergedSpan(bs, i);
    MergedSpanAt(bs, i, i + 1);
    assert MarkFree(bs, i)[i - 1] == bs[i - 1];
    MergeExtendsLeft(bs, i, i + 1);
  }

  lemma ReleaseInPlace(bs: seq<Blk>, i: nat)
    requires WellFormed(bs) && i < |bs| && !(0 < i && bs[i - 1].free)
    ensures Release(bs, i) == MergedSpan(bs, i, MergeStop(bs, i))
  {
    var f := MarkFree(bs, i);
    assert f == MergedSpan(bs, i, i + 1) by { MarkFreeIsMergedSpan(bs, i); }
    assert Release(bs, i) == Coalesce(f, i);
    assert 0 < i ==> !f[i - 1].free;
    if i + 1 < |bs| && bs[i + 1].free {
      assert f[i + 1] == bs[i + 1];
      assert Coalesce(f, i) == MergeNext(f, i);
      MergeExtendsRight(bs, i, i + 1);
    } else {
      assert Coalesce(f, i) == f by {
        assert i + 1 < |f| ==> f[i + 1] == bs[i + 1];
      }
    }
  }

  /** The payload of a block spanning from one 16-byte boundary to the end of
      a block that starts on another one is a multiple of 16. */
  lemma AlignedSpan(lo: int, off: int, size: int)
    requires lo % ALIGNMENT == 0 && off % ALIGNMENT == 0 && size % ALIGNMENT == 0
    ensures (off + size - lo) % ALIGNMENT == 0
  {
  }

  /** Replacing a run by one free block keeps the tiling. */
  lemma MergedSpanWellFormed(bs: seq<Blk>, a: nat, z: nat)
    requires WellFormed(bs) && a < z <= |bs|
    ensures WellFormed(MergedSpan(bs, a, z))
  {
    var ns := [Blk(bs[a].off, End(bs[z - 1]) - bs[a].off - OVERHEAD, true)];
    Bounds(bs, a);
    Bounds(bs, z - 1);
    if a < z - 1 { Ordered(bs, a, z - 1); }
    assert 0 <= bs[a].size && 0 <= bs[z - 1].size && bs[z - 1].size % ALIGNMENT == 0;
    assert Tiles(ns, bs[a].off, End(bs[z - 1])) by {
      AlignedSpan(bs[a].off, bs[z - 1].off, bs[z - 1].size);
    }
    SpliceWellFormed(bs, a, z, ns);
  }

  /** ... and keeps eager coalescing when the run's outer neighbours are
      allocated. */
  lemma MergedSpanNoAdjacentFree(bs: seq<Blk>, a: nat, z: nat)
    requires NoAdjacentFree(bs) && a < z <= |bs|
    requires 0 < a ==> !bs[a - 1].free
    requires z < |bs| ==> !bs[z].free
    ensures NoAdjacentFree(MergedSpan(bs, a, z))
  {
    MergedSpanAt(bs, a, z);
    var r := MergedSpan(bs, a, z);
    forall k | 0 < k < |r|
      ensures !(r[k - 1].free && r[k].free)
    {
      if k < a { assert r[k] == bs[k] && r[k - 1] == bs[k - 1]; }
      else if k == a { assert r[k - 1] == bs[a - 1]; }
      else if k == a + 1 { assert r[k] == bs[z]; }
      else { assert r[k] == bs[k + z - a - 1] && r[k - 1] == bs[k + z - a - 2]; }
    }
  }

  /** Replacing a run in which only block i is allocated by one free block
      removes exactly block i's payload from the live allocations. */
  lemma MergedSpanLive(bs: seq<Blk>, a: nat, z: nat, i: nat)
    requires WellFormed(bs) && a <= i < z <= |bs|
    requires forall k :: a <= k < z && k != i ==> bs[k].free
    ensures Live(MergedSpan(bs, a, z)) == Live(bs) - {Payload(bs[i])}
  {
    MergedSpanAt(bs, a, z);
    var r := MergedSpan(bs, a, z);
    forall x | x in Live(r) ensures x in Live(bs) - {Payload(bs[i])} {
      var k :| 0 <= k < |r| && !r[k].free && Payload(r[k]) == x;
      var k' := if k < a then k else k + z - a - 1;
      assert r[k] == bs[k'];
      PayloadInjective(bs, i, k');
    }
    forall x | x in Live(bs) - {Payload(bs[i])} ensures x in Live(r) {
      var k :| 0 <= k < |bs| && !bs[k].free && Payload(bs[k]) == x;
      assert k != i;
      if k < a { assert r[k] == bs[k]; }
      else { assert z <= k; assert r[k - z + a + 1] == bs[k]; }
    }
  }

  /** myfree keeps the tiling and leaves no two free neighbours. */
  lemma ReleaseKeepsLayout(bs: seq<Blk>, i: nat)
    requires WellFormed(bs) && NoAdjacentFree(bs) && i < |bs|
    ensures WellFormed(Release(bs, i)) && NoAdjacentFree(Release(bs, i))
  {
    ReleaseShape(bs, i);
    var a := MergeStart(bs, i);
    var z := MergeStop(bs, i);
    if a < i && 0 < a {
      assert bs[a].free;
      assert !bs[a - 1].free;
    }
    if i + 1 < z && z < |bs| {
      assert bs[z - 1].free;
      assert !bs[z].free;
    }
    MergedSpanWellFormed(bs, a, z);
    MergedSpanNoAdjacentFree(bs, a, z);
  }

  /** myfree removes exactly the freed payload from the live allocations. */
  lemma ReleaseLive(bs: seq<Blk>, i: nat)
    requires WellFormed(bs) && i < |bs| && !bs[i].free
    ensures Live(Release(bs, i)) == Live(bs) - {Payload(bs[i])}
  {
    ReleaseShape(bs, i);
    MergedSpanLive(bs, MergeStart(bs, i), MergeStop(bs, i), i);
  }

  /** No block's payload exceeds the arena less its two tags, so a request
      beyond that fails in every state, however the blocks lie. */
  lemma Exhaustion(bs: seq<Blk>, size: nat)
    requires WellFormed(bs) && HEAP_SIZE - OVERHEAD < size
    ensures FirstFitScan(bs, AlignSize(size)).None?
  {
    forall k | 0 <= k < |bs|
      ensures !Fits(bs[k], AlignSize(size))
    {
      Bounds(bs, k);
    }
  }

  /** Merging a run that ends just past a merged run's block extends that
      block to the run's end. */
  lemma MergedSpanThenRight(bs: seq<Blk>, a: nat, m: nat, z: nat)
    requires a < m <= z <= |bs|
    ensures a + 1 + (z - m) <= |MergedSpan(bs, a, m)|
    ensures MergedSpan(MergedSpan(bs, a, m), a, a + 1 + (z - m)) == MergedSpan(bs, a, z)
  {
    var g := MergedSpan(bs, a, m);
    MergedSpanAt(bs, a, m);
    var w := a + 1 + (z - m);
    MergedSpanAt(g, a, w);
    MergedSpanAt(bs, a, z);
    var l := MergedSpan(g, a, w);
    var r := MergedSpan(bs, a, z);
    if a + 1 < w {
      assert g[w - 1] == bs[z - 1];
    }
    forall k | 0 <= k < |l|
      ensures l[k] == r[k]
    {
      if k > a { assert l[k] == g[k + w - a - 1]; }
    }
  }

  /** Merging a run that ends at a merged run's block extends that block to
      the run's start. */
  lemma MergedSpanThenLeft(bs: seq<Blk>, a: nat, m: nat, z: nat)
    requires a <= m < z <= |bs|
    ensures m < |MergedSpan(bs, m, z)|
    ensures MergedSpan(MergedSpan(bs, m, z), a, m + 1) == MergedSpan(bs, a, z)
  {
    var g := MergedSpan(bs, m, z);
    MergedSpanAt(bs, m, z);
    MergedSpanAt(g, a, m + 1);
    MergedSpanAt(bs, a, z);
    var l := MergedSpan(g, a, m + 1);
    var r := MergedSpan(bs, a, z);
    assert g[a] == if a < m then bs[a] else g[m];
    forall k | 0 <= k < |l|
      ensures l[k] == r[k]
    {
      if k > a { assert l[k] == g[k + m - a]; }
    }
  }

  /** Freeing the block just after a merged free run joins it to the run,
      with the block's own free right neighbour if it has one. */
  lemma ReleaseAfterRun(bs: seq<Blk>, a: nat, m: nat)
    requires WellFormed(bs) && a < m < |bs|
    ensures a + 1 < |MergedSpan(bs, a, m)|
    ensures Release(MergedSpan(bs, a, m), a + 1) == MergedSpan(bs, a, MergeStop(bs, m))
  {
    var g := MergedSpan(bs, a, m);
    var z := MergeStop(bs, m);
    MergedSpanAt(bs, a, m);
    assert WellFormed(g) by { MergedSpanWellFormed(bs, a, m); }
    assert Release(g, a + 1) == MergedSpan(g, a, MergeStop(g, a + 1)) by {
      assert g[a].free;
      ReleaseShape(g, a + 1);
    }
    assert MergeStop(g, a + 1) == a + 1 + (z - m) by {
      if a + 2 < |g| { assert g[a + 2] == bs[m + 1]; }
    }
    MergedSpanThenRight(bs, a, m, z);
  }

  /** Freeing block i and then block i + 1 (now at MergeStart(bs, i) + 1)
      leaves one free block from the start of i's run to the end of i + 1's. */
  lemma FreeLeftThenRight(bs: seq<Blk>, i: nat)
    requires WellFormed(bs) && i + 1 < |bs| && !bs[i + 1].free
    ensures MergeStart(bs, i) + 1 < |Release(bs, i)|
    ensures Release(Release(bs, i), MergeStart(bs, i) + 1) == MergedSpan(bs, MergeStart(bs, i), MergeStop(bs, i + 1))
  {
    assert Release(bs, i) == MergedSpan(bs, MergeStart(bs, i), i + 1) by { ReleaseShape(bs, i); }
    ReleaseAfterRun(bs, MergeStart(bs, i), i + 1);
  }

  /** Freeing block i + 1 and then block i leaves the same single free
      block. */
  lemma FreeRightThenLeft(bs: seq<Blk>, i: nat)
    requires WellFormed(bs) && i + 1 < |bs| && !bs[i].free
    ensures i < |Release(bs, i + 1)|
    ensures Release(Release(bs, i + 1), i) == MergedSpan(bs, MergeStart(bs, i), MergeStop(bs, i + 1))
  {
    var s := MergeStart(bs, i);
    var z := MergeStop(bs, i + 1);
    var r2 := Release(bs, i + 1);
    assert r2 == MergedSpan(bs, i + 1, z) by { ReleaseShape(bs, i + 1); }
    MergedSpanAt(bs, i + 1, z);
    assert WellFormed(r2) by { MergedSpanWellFormed(bs, i + 1, z); }
    assert r2[i + 1].free;
    assert Release(r2, i) == MergedSpan(r2, MergeStart(r2, i), MergeStop(r2, i)) by { ReleaseShape(r2, i); }
    assert MergeStart(r2, i) == s by {
      if 0 < i { assert r2[i - 1] == bs[i - 1]; }
    }
    assert MergeStop(r2, i) == i + 2;
    MergedSpanThenLeft(bs, s, i + 1, z);
  }

  /** Freeing two neighbouring allocated blocks in either order gives the same
      blocks: one free block over both and over whatever free neighbours
      they had. Block i + 1 of bs is block MergeStart(bs, i) + 1 once block i
      has been freed. */
  lemma FreesCommute(bs: seq<Blk>, i: nat)
    requires WellFormed(bs) && i + 1 < |bs| && !bs[i].free && !bs[i + 1].free
    ensures MergeStart(bs, i) + 1 < |Release(bs, i)|
    ensures i < |Release(bs, i + 1)|
    ensures Release(Release(bs, i), MergeStart(bs, i) + 1) == Release(Release(bs, i + 1), i)
    ensures Release(Release(bs, i + 1), i) == MergedSpan(bs, MergeStart(bs, i), MergeStop(bs, i + 1))
  {
    FreeLeftThenRight(bs, i);
    FreeRightThenLeft(bs, i);
  }

  // ---------------------------------------------------------------------
  // The tags in the arena follow the list through every update

  lemma OffsetBelow(bs: seq<Blk>, k: nat, hi: nat)
    requires WellFormed(bs) && k <= |bs| && hi <= |bs|
    ensures OffsetAt(bs, k) < OffsetAt(bs, hi) <==> k < hi
  {
    if k < hi { OffsetAtMonotone(bs, k, hi); }
    else if hi < k { OffsetAtMonotone(bs, hi, k); }
  }

  /** next_block over the arena's tags steps from block k to block k + 1, and
      yields none after the last block. */
  lemma NextBlockFollows(m: seq<Tag>, bs: seq<Blk>, k: nat)
    requires WellFormed(bs) && TagsAgree(m, bs) && |m| == HEAP_SIZE && k < |bs|
    ensures 0 <= bs[k].off < |m|
    ensures NextBlock(m, bs[k].off) == if k + 1 < |bs| then Some(bs[k + 1].off) else None
  {
    assert TagsAt(m, bs[k]);
    OffsetAtStep(bs, k);
    if k + 1 < |bs| {
      assert TagsAt(m, bs[k + 1]);
    }
  }

  /** prev_block over the arena's tags reads the footer before block k and
      steps back to block k - 1, and yields none at heap_start. */
  lemma PrevBlockPrecedes(m: seq<Tag>, bs: seq<Blk>, k: nat)
    requires WellFormed(bs) && TagsAgree(m, bs) && |m| == HEAP_SIZE && k < |bs|
    ensures bs[k].off == 0 || TAG_SIZE <= bs[k].off <= |m|
    ensures PrevBlock(m, bs[k].off) == if 0 < k then Some(bs[k - 1].off) else None
  {
    assert TagsAt(m, bs[k]);
    if 0 < k {
      assert TagsAt(m, bs[k - 1]);
      assert bs[k].off == End(bs[k - 1]);
      assert Footer(bs[k - 1]) == bs[k].off - TAG_SIZE;
    }
  }

  /** Rewriting block i's tags in place (same size, any flag) keeps the arena
      in agreement with the updated list. */
  lemma WriteFlag(m: seq<Tag>, bs: seq<Blk>, i: nat, free: bool)
    requires WellFormed(bs) && TagsAgree(m, bs) && |m| == HEAP_SIZE && i < |bs|
    ensures 0 <= bs[i].off && 0 <= bs[i].size && bs[i].off + OVERHEAD + bs[i].size <= |m|
    ensures TagsAgree(WriteTags(m, bs[i].off, bs[i].size, free), bs[i := bs[i].(free := free)])
  {
    assert TagsAt(m, bs[i]);
    var m' := WriteTags(m, bs[i].off, bs[i].size, free);
    WriteTagsSpan(m, bs[i].off, bs[i].size, free);
    SetFlagWellFormed(bs, i, free);
    SpliceTags(m, m', bs, i, i + 1, [bs[i].(free := free)]);
  }

  /** Writing the merged tags of blocks j and j + 1 keeps the arena in
      agreement with MergeNext. */
  lemma WriteMerged(m: seq<Tag>, bs: seq<Blk>, j: nat)
    requires WellFormed(bs) && TagsAgree(m, bs) && |m| == HEAP_SIZE && j + 1 < |bs|
    ensures var size := bs[j].size + OVERHEAD + bs[j + 1].size;
      && 0 <= bs[j].off && 0 <= size && bs[j].off + OVERHEAD + size <= |m|
      && TagsAgree(WriteTags(m, bs[j].off, size, true), MergeNext(bs, j))
  {
    var size := bs[j].size + OVERHEAD + bs[j + 1].size;
    assert TagsAt(m, bs[j]) && TagsAt(m, bs[j + 1]);
    assert bs[j + 1].off == End(bs[j]);
    var m' := WriteTags(m, bs[j].off, size, true);
    WriteTagsSpan(m, bs[j].off, size, true);
    SpliceTags(m, m', bs, j, j + 2, [Blk(bs[j].off, size, true)]);
  }

  /** Writing the remainder's tags and then the left block's tags keeps the
      arena in agreement with Carve. */
  lemma WriteCarved(m: seq<Tag>, bs: seq<Blk>, i: nat, req: int)
    requires WellFormed(bs) && TagsAgree(m, bs) && |m| == HEAP_SIZE && i < |bs|
    requires 0 <= req && req + OVERHEAD <= bs[i].size
    ensures var b := bs[i];
      && 0 <= b.off && b.off + OVERHEAD + b.size <= |m|
      && TagsAgree(WriteTags(WriteTags(m, b.off + OVERHEAD + req, b.size - req - OVERHEAD, true), b.off, req, false),
                   Carve(bs, i, req))
  {
    var b := bs[i];
    assert TagsAt(m, b);
    var m2 := WriteTags(WriteTags(m, b.off + OVERHEAD + req, b.size - req - OVERHEAD, true), b.off, req, false);
    var ns := [Blk(b.off, req, false), Blk(b.off + OVERHEAD + req, b.size - req - OVERHEAD, true)];
    CarvedPair(m, b, req);
    SpliceTags(m, m2, bs, i, i + 1, ns);
    assert Carve(bs, i, req) == Splice(bs, i, i + 1, ns);
  }

  /** The two writes of split_block install the tags of both halves and
      touch nothing outside the old block. */
  lemma CarvedPair(m: seq<Tag>, b: Blk, req: int)
    requires 0 <= b.off && End(b) <= |m| && 0 <= req && req + OVERHEAD <= b.size
    ensures var m2 := WriteTags(WriteTags(m, b.off + OVERHEAD + req, b.size - req - OVERHEAD, true), b.off, req, false);
      && |m2| == |m|
      && TagsAgree(m2, [Blk(b.off, req, false), Blk(b.off + OVERHEAD + req, b.size - req - OVERHEAD, true)])
      && AgreeOutside(m, m2, b.off, End(b))
  {
    var rest := Blk(b.off + OVERHEAD + req, b.size - req - OVERHEAD, true);
    var m1 := WriteTags(m, rest.off, rest.size, true);
    WriteTagsSpan(m, rest.off, rest.size, true);
    var m2 := WriteTags(m1, b.off, req, false);
    WriteTagsSpan(m1, b.off, req, false);
    assert TagsAt(m2, rest);
  }
}
