/** Boundary tags of the implicit-list allocator in lectures/4-malloc:
    the arena's constants, the 16-byte Tag record, request rounding and the
    tag-based traversal next_block / prev_block.

    Memory is addressed by byte offsets from heap_start. The arena is seen at
    the granularity of tags: m[o] is the tag whose first byte is at offset o. */
module Layout {

  datatype Option<+T> = None | Some(value: T)

  /** HEAP_SIZE: bytes obtained once from the host. */
  const HEAP_SIZE: int := 1024
  /** sizeof(Tag) == sizeof(Block): one header or one footer. */
  const TAG_SIZE: int := 16
  /** Header plus footer: what every block costs besides its payload. */
  const OVERHEAD: int := 32
  /** "use 16 byte blocks": requests are rounded to this granularity. */
  const ALIGNMENT: int := 16
  /** 2^64: a size_t holds values below this, and its arithmetic wraps
      modulo it. */
  const SIZE_T_MODULUS: int := 0x1_0000_0000_0000_0000

  /** A boundary tag: data_size and isfree (the padding word is not modelled). */
  datatype Tag = Tag(size: int, free: bool)

  /** align_size: the least multiple of 16 that is at least `size`. */
  function AlignSize(size: nat): (r: nat)
    ensures r % ALIGNMENT == 0
    ensures size <= r < size + ALIGNMENT
  {
    (size + ALIGNMENT - 1) / ALIGNMENT * ALIGNMENT
  }

  /** next_block: the header that follows the block whose header is at b
      (header + payload + footer further on), or None once it reaches heap_end. */
  function NextBlock(m: seq<Tag>, b: int): (r: Option<int>)
    requires 0 <= b < |m|
    ensures r.Some? ==> r.value < HEAP_SIZE
    ensures r.Some? && 0 <= m[b].size ==> b + OVERHEAD <= r.value
    ensures r.None? <==> HEAP_SIZE <= b + OVERHEAD + m[b].size
  {
    var right := b + TAG_SIZE + m[b].size + TAG_SIZE;
    if right < HEAP_SIZE then Some(right) else None
  }

  /** prev_block: read the footer just before b and step back over the payload
      and header it describes; None at heap_start. */
  function PrevBlock(m: seq<Tag>, b: int): (r: Option<int>)
    requires b == 0 || TAG_SIZE <= b <= |m|
    ensures r.None? <==> b == 0
    ensures r.Some? && 0 <= m[b - TAG_SIZE].size ==> r.value + OVERHEAD <= b
  {
    if b == 0 then None
    else
      var leftFooter := m[b - TAG_SIZE];
      Some(b - TAG_SIZE - leftFooter.size - TAG_SIZE)
  }

  /** Write the same tag as header at off and as footer just past the payload. */
  function WriteTags(m: seq<Tag>, off: int, size: int, free: bool): seq<Tag>
    requires 0 <= off && 0 <= size && off + OVERHEAD + size <= |m|
  {
    m[off := Tag(size, free)][off + TAG_SIZE + size := Tag(size, free)]
  }
}
