/** What each heap operation does to the node list, and the properties of those
    operations over every heap and every run. */
module HeapOps {
  import opened Common
  import opened HeapLayout
  import opened Arithmetic

  /** A pointer returned by an operation together with the heap it leaves behind. */
  datatype Outcome = Outcome(nodes: seq<Node>, ptr: nat)

  /** The C null pointer. */
  const NULL: nat := 0

  const INITIAL_HEAP: seq<Node> := [Node(KHEAP_START, KHEAP_END - KHEAP_START - HEADER, false)]

  /** A heap between two operations. */
  ghost predicate Heap(ns: seq<Node>) {
    Tiles(ns) && Coalesced(ns)
  }

  // ------------------------------------------------------------ operations

  /** Address of the node after node `k`; KHEAP_END stands in for a null `next_node`. */
  function NextAddr(ns: seq<Node>, k: nat): nat
    requires k < |ns|
  {
    if k + 1 < |ns| then ns[k + 1].addr else KHEAP_END
  }

  /** Give the unaccounted space after node `k` to a new free node if a header and at
      least one byte fit, and to node `k` itself otherwise. */
  function Consume(ns: seq<Node>, k: nat): seq<Node>
    requires k < |ns| && ns[k].End() <= NextAddr(ns, k)
  {
    var gap := NextAddr(ns, k) - ns[k].End();
    if gap > HEADER then ns[..k + 1] + [Node(ns[k].End(), gap - HEADER, false)] + ns[k + 1..]
    else ns[k := ns[k].(size := ns[k].size + gap)]
  }

  predicate Fits(n: Node, size: nat) {
    !n.used && n.size >= size
  }

  /** Index of the first node from `k` on that fits, or `|ns|`. */
  function FirstFit(ns: seq<Node>, size: nat, k: nat): (r: nat)
    requires k <= |ns|
    ensures k <= r <= |ns|
    ensures r < |ns| ==> Fits(ns[r], size)
    ensures forall i | k <= i < r :: !Fits(ns[i], size)
    decreases |ns| - k
  {
    if k == |ns| || Fits(ns[k], size) then k else FirstFit(ns, size, k + 1)
  }

  /** The heap after node `k` has been cut down to `size` bytes and handed out. */
  ghost function Take(ns: seq<Node>, k: nat, size: nat): seq<Node>
    requires k < |ns| && ns[k].addr + HEADER + size <= NextAddr(ns, k)
  {
    Compact(Consume(ns[k := Node(ns[k].addr, size, true)], k))
  }

  ghost function Alloc(ns: seq<Node>, size: nat): Option<Outcome>
    requires Tiles(ns)
  {
    var k := FirstFit(ns, size, 0);
    if k == |ns| then None
    else
      NextIsEnd(ns, k);
      Some(Outcome(Take(ns, k, size), ns[k].Contents()))
  }

  /** Distance from `addr` up to the next multiple of `alignment`. */
  function AlignOffset(addr: nat, alignment: nat): (offset: nat)
    requires alignment > 0
    ensures offset < alignment && (addr + offset) % alignment == 0
  {
    var offset := alignment - addr % alignment;
    AlignUp(addr, alignment);
    if offset == alignment then 0 else offset
  }

  /** Node `n` can hold, after alignment padding, a second header and `size` bytes. */
  predicate FitsAligned(n: Node, size: nat, alignment: nat)
    requires alignment > 0
  {
    !n.used && AlignOffset(n.Contents(), alignment) + HEADER + size <= n.size
  }

  function FirstFitAligned(ns: seq<Node>, size: nat, alignment: nat, k: nat): (r: nat)
    requires k <= |ns| && alignment > 0
    ensures k <= r <= |ns|
    ensures r < |ns| ==> FitsAligned(ns[r], size, alignment)
    ensures forall i | k <= i < r :: !FitsAligned(ns[i], size, alignment)
    decreases |ns| - k
  {
    if k == |ns| || FitsAligned(ns[k], size, alignment) then k else FirstFitAligned(ns, size, alignment, k + 1)
  }

  /** Split free node `k` at `offset` content bytes: the rest becomes a node in use. */
  function SplitOff(ns: seq<Node>, k: nat, offset: nat, size: nat): seq<Node>
    requires k < |ns|
  {
    ns[..k] + [ns[k].(size := offset), Node(ns[k].Contents() + offset, size, true)] + ns[k + 1..]
  }

  ghost function AlignedAlloc(ns: seq<Node>, size: nat, alignment: nat): Option<Outcome>
    requires Tiles(ns) && alignment > 0
  {
    var k := FirstFitAligned(ns, size, alignment, 0);
    if k == |ns| then None
    else
      NextIsEnd(ns, k);
      var offset := AlignOffset(ns[k].Contents(), alignment);
      var split := SplitOff(ns, k, offset, size);
      Some(Outcome(Compact(Consume(split, k + 1)), ns[k].Contents() + offset + HEADER))
  }

  ghost function Free(ns: seq<Node>, k: nat): seq<Node>
    requires k < |ns|
  {
    Compact(ns[k := ns[k].(used := false)])
  }

  /** Index of the first node in use from `k` on, or `|ns|`. */
  function FreeRunEnd(ns: seq<Node>, k: nat): (r: nat)
    requires k <= |ns|
    ensures k <= r <= |ns|
    ensures r < |ns| ==> ns[r].used
    ensures forall i | k <= i < r :: !ns[i].used
    decreases |ns| - k
  {
    if k == |ns| || ns[k].used then k else FreeRunEnd(ns, k + 1)
  }

  /** Content bytes node `k` would have if it absorbed the free nodes behind it. */
  function Room(ns: seq<Node>, k: nat): int
    requires k < |ns|
  {
    NextAddr(ns, FreeRunEnd(ns, k + 1) - 1) - ns[k].Contents()
  }

  /** Node `k` becomes `size` bytes of the `room` bytes up to node `j`; what is left over
      becomes a free node when a header and one byte fit, and otherwise stays with node `k`,
      which then has `slack` bytes. */
  function Resize(ns: seq<Node>, k: nat, j: nat, size: nat, room: nat): seq<Node>
    requires k < j <= |ns| && size <= room
  {
    if room - size >= HEADER + 1 then
      ns[..k] + [ns[k].(size := size), Node(ns[k].Contents() + size, room - size - HEADER, false)] + ns[j..]
    else
      ns[..k] + [ns[k].(size := room)] + ns[j..]
  }

  /** Index of the node whose contents start at `ptr`, or `|ns|`. */
  function IndexOf(ns: seq<Node>, ptr: nat, k: nat): (r: nat)
    requires k <= |ns|
    ensures k <= r <= |ns|
    ensures r < |ns| ==> ns[r].Contents() == ptr
    ensures forall i | k <= i < r :: ns[i].Contents() != ptr
    decreases |ns| - k
  {
    if k == |ns| || ns[k].Contents() == ptr then k else IndexOf(ns, ptr, k + 1)
  }

  ghost function Realloc(ns: seq<Node>, k: nat, size: nat): Option<Outcome>
    requires Tiles(ns) && k < |ns|
  {
    var n := ns[k];
    NextIsEnd(ns, k);
    if size == 0 then Some(Outcome(Free(ns, k), NULL))
    else if size == n.size then Some(Outcome(ns, n.Contents()))
    else if size < n.size then
      if n.size - size >= HEADER + 1 then
        Some(Outcome(Compact(Resize(ns, k, k + 1, size, n.size)), n.Contents()))
      else Some(Outcome(ns, n.Contents()))
    else if size <= Room(ns, k) then
      var j := FreeRunEnd(ns, k + 1);
      var resized := Resize(ns, k, j, size, Room(ns, k));
      Some(Outcome(if Room(ns, k) - size >= HEADER + 1 then Compact(resized) else resized, n.Contents()))
    else
      match Alloc(ns, size)
      case None => None
      case Some(o) =>
        var i := IndexOf(o.nodes, n.Contents(), 0);
        if i < |o.nodes| then Some(Outcome(Free(o.nodes, i), o.ptr)) else None
  }

  // ---------------------------------------------------------------- lemmas

  lemma NextIsEnd(ns: seq<Node>, k: nat)
    requires Tiles(ns) && k < |ns|
    ensures ns[k].End() == NextAddr(ns, k)
  {
    if k + 1 < |ns| { assert ns[k].End() == ns[k + 1].addr; }
  }

  lemma AlignUp(addr: nat, alignment: nat)
    requires alignment > 0
    ensures (addr + (alignment - addr % alignment)) % alignment == 0
    ensures addr % alignment == 0 ==> (addr + 0) % alignment == 0
  {
    var q := addr / alignment;
    assert addr + (alignment - addr % alignment) == (q + 1) * alignment;
    MultipleMod(q + 1, alignment);
  }
}
