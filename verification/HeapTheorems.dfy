/** Properties of the heap operations over every heap and every run. */
module HeapTheorems {
  import opened Common
  import Arithmetic
  import opened HeapLayout
  import opened HeapOps

  // ---------------------------------------------------------------- splices

  ghost function Splice(ns: seq<Node>, k: nat, j: nat, mid: seq<Node>): seq<Node>
    requires k <= j <= |ns|
  {
    ns[..k] + mid + ns[j..]
  }

  lemma SpliceSpan(ns: seq<Node>, k: nat, j: nat, mid: seq<Node>)
    requires Tiles(ns) && k < j <= |ns| && mid != []
    requires Span(mid, ns[k].addr, Cut(ns, j, KHEAP_END))
    ensures Tiles(Splice(ns, k, j, mid))
  {
    SpanSplit(ns, k, KHEAP_START, KHEAP_END);
    SpanSplit(ns, j, KHEAP_START, KHEAP_END);
    var mid' := Cut(ns, j, KHEAP_END);
    SpanConcat(ns[..k], mid, KHEAP_START, ns[k].addr, mid');
    SpanConcat(ns[..k] + mid, ns[j..], KHEAP_START, mid', KHEAP_END);
  }

  lemma SpliceLive(ns: seq<Node>, k: nat, j: nat, mid: seq<Node>)
    requires Separated(ns) && k <= j <= |ns|
    ensures Live(Splice(ns, k, j, mid)) == Live(ns) - Live(ns[k..j]) + Live(mid)
  {
    var r := Splice(ns, k, j, mid);
    forall n ensures n in Live(r) <==> n in Live(ns) - Live(ns[k..j]) + Live(mid) {
      SpliceMember(ns, k, j, mid, n);
    }
  }

  lemma SpliceMember(ns: seq<Node>, k: nat, j: nat, mid: seq<Node>, n: Node)
    requires Separated(ns) && k <= j <= |ns|
    ensures n in Splice(ns, k, j, mid) <==> n in mid || (n in ns && n !in ns[k..j])
  {
    assert ns == ns[..k] + ns[k..j] + ns[j..];
    if n in ns[k..j] {
      var i :| k <= i < j && ns[i] == n;
      forall i' | 0 <= i' < k || j <= i' < |ns| ensures ns[i'] != n {
        Distinct(ns, i, i');
      }
    }
  }

  lemma Distinct(ns: seq<Node>, i: nat, i': nat)
    requires Separated(ns) && i < |ns| && i' < |ns| && i != i'
    ensures ns[i].addr != ns[i'].addr
  {
    assert if i < i' then Before(ns, i, i') else Before(ns, i', i);
  }

  /** Every operation replaces a run of neighbouring nodes by others over the same bytes, and
      mostly coalesces afterwards. */
  lemma SpliceCorrect(ns: seq<Node>, k: nat, j: nat, mid: seq<Node>)
    requires Tiles(ns) && k < j <= |ns| && mid != []
    requires Span(mid, ns[k].addr, Cut(ns, j, KHEAP_END))
    ensures var r := Splice(ns, k, j, mid);
            && Tiles(r) && Heap(Compact(r)) && Live(Compact(r)) == Live(r)
            && Live(r) == Live(ns) - Live(ns[k..j]) + Live(mid)
  {
    SpliceSpan(ns, k, j, mid);
    TilesSeparated(ns);
    SpliceLive(ns, k, j, mid);
    CompactProperties(Splice(ns, k, j, mid), KHEAP_START, KHEAP_END);
  }

  /** The live block a pointer names. */
  ghost function BlockAt(ns: seq<Node>, ptr: nat): Option<Node> {
    var i := IndexOf(ns, ptr, 0);
    if i < |ns| && ns[i].used then Some(ns[i]) else None
  }

  lemma BlockAtLive(ns: seq<Node>, b: Node)
    requires Tiles(ns) && b in Live(ns)
    ensures BlockAt(ns, b.Contents()) == Some(b)
    ensures IndexOf(ns, b.Contents(), 0) < |ns| && ns[IndexOf(ns, b.Contents(), 0)] == b
  {
    TilesSeparated(ns);
    var j :| 0 <= j < |ns| && ns[j] == b;
    var i := IndexOf(ns, b.Contents(), 0);
    if i != j { Distinct(ns, i, j); }
  }

  // ------------------------------------------------------------- allocation

  /** The block `Take` hands out. */
  ghost function Taken(ns: seq<Node>, k: nat, size: nat): Node
    requires k < |ns| && size <= ns[k].size
  {
    Node(ns[k].addr, if ns[k].size - size > HEADER then size else ns[k].size, true)
  }

  lemma TakeCorrect(ns: seq<Node>, k: nat, size: nat)
    requires Heap(ns) && k < |ns| && Fits(ns[k], size)
    requires ns[k].End() == NextAddr(ns, k)
    ensures Tiles(Consume(ns[k := Node(ns[k].addr, size, true)], k)) && Heap(Take(ns, k, size))
    ensures Live(Take(ns, k, size)) == Live(ns) + {Taken(ns, k, size)}
  {
    var n := ns[k];
    var mid := TakenNodes(ns, k, size);
    TakeIsSplice(ns, k, size);
    SpliceCorrect(ns, k, k + 1, mid);
    assert Live(ns[k..k + 1]) == {} by { assert ns[k..k + 1] == [n]; }
    assert Live(mid) == {Taken(ns, k, size)} by { assert mid[0] == Taken(ns, k, size); }
  }

  ghost function TakenNodes(ns: seq<Node>, k: nat, size: nat): seq<Node>
    requires k < |ns| && size <= ns[k].size
  {
    var n, b := ns[k], Taken(ns, k, size);
    if n.size - size > HEADER then [b, Node(b.End(), n.size - size - HEADER, false)] else [b]
  }

  lemma TakeIsSplice(ns: seq<Node>, k: nat, size: nat)
    requires k < |ns| && size <= ns[k].size && ns[k].End() == NextAddr(ns, k)
    ensures Consume(ns[k := Node(ns[k].addr, size, true)], k) == Splice(ns, k, k + 1, TakenNodes(ns, k, size))
  {
    var cut := ns[k := Node(ns[k].addr, size, true)];
    ConsumeIsSplice(cut, k);
    assert cut[..k] == ns[..k] && cut[k + 1..] == ns[k + 1..];
  }

  lemma ConsumeIsSplice(ns: seq<Node>, k: nat)
    requires k < |ns| && ns[k].End() <= NextAddr(ns, k)
    ensures var n, gap := ns[k], NextAddr(ns, k) - ns[k].End();
            Consume(ns, k) == Splice(ns, k, k + 1,
              if gap > HEADER then [n, Node(n.End(), gap - HEADER, false)] else [n.(size := n.size + gap)])
  {
  }

  /** What a successful allocation must leave behind. */
  ghost predicate NewBlock(ns: seq<Node>, size: nat, o: Outcome) {
    && Heap(o.nodes)
    && var b := BlockAt(o.nodes, o.ptr);
    && b.Some? && size <= b.value.size <= size + HEADER
    && b.value !in Live(ns) && Live(o.nodes) == Live(ns) + {b.value}
  }

  /** Allocation fails only when no free node is large enough. Otherwise it takes the lowest
      such node, returns the contents of a new block of the requested size (plus at most a
      header's worth of slack), keeps every live block, and leaves a coalesced tiling. */
  lemma AllocCorrect(ns: seq<Node>, size: nat)
    requires Heap(ns)
    ensures Alloc(ns, size).None? <==> forall n | n in ns :: !Fits(n, size)
    ensures Alloc(ns, size).Some? ==>
              var o := Alloc(ns, size).value;
              && NewBlock(ns, size, o)
              && (exists n :: n in ns && Fits(n, size) && n.Contents() == o.ptr)
              && forall n | n in ns && Fits(n, size) :: o.ptr <= n.Contents()
  {
    var k := FirstFit(ns, size, 0);
    if k < |ns| {
      NextIsEnd(ns, k);
      TakenIsNew(ns, k, size);
      LowerEnds(ns, k);
      assert ns[k] in ns && Fits(ns[k], size);
    }
  }

  lemma TakenIsNew(ns: seq<Node>, k: nat, size: nat)
    requires Heap(ns) && k < |ns| && Fits(ns[k], size)
    requires ns[k].End() == NextAddr(ns, k)
    ensures NewBlock(ns, size, Outcome(Take(ns, k, size), ns[k].Contents()))
  {
    var b := Taken(ns, k, size);
    TakeCorrect(ns, k, size);
    BlockAtLive(Take(ns, k, size), b);
    NewAddress(ns, k, b);
  }

  lemma NewAddress(ns: seq<Node>, k: nat, b: Node)
    requires Tiles(ns) && k < |ns| && !ns[k].used
    requires ns[k].addr <= b.addr < ns[k].End() && b.used
    ensures b !in Live(ns)
  {
    SpanOrdered(ns, KHEAP_START, KHEAP_END);
    forall j | 0 <= j < |ns| ensures ns[j] != b {
      if j < k { assert ns[j].End() <= ns[k].addr; }
      else if k < j { assert ns[k].End() <= ns[j].addr; }
    }
  }

  /** The block an aligned allocation hands out from free node `n`, `offset` bytes in. */
  ghost function PaddedBlock(n: Node, size: nat, offset: nat): Node
    requires offset + HEADER + size <= n.size
  {
    var gap := n.size - (offset + HEADER + size);
    Node(n.Contents() + offset, if gap > HEADER then size else size + gap, true)
  }

  ghost function PaddedTail(n: Node, size: nat, offset: nat): seq<Node>
    requires offset + HEADER + size <= n.size
  {
    var b := PaddedBlock(n, size, offset);
    var gap := n.size - (offset + HEADER + size);
    if gap > HEADER then [b, Node(b.End(), gap - HEADER, false)] else [b]
  }

  lemma AlignedIsSplice(ns: seq<Node>, k: nat, size: nat, offset: nat)
    requires k < |ns| && offset + HEADER + size <= ns[k].size
    requires ns[k].End() == NextAddr(ns, k)
    ensures var split := SplitOff(ns, k, offset, size);
            && split[k + 1].End() <= NextAddr(split, k + 1)
            && Consume(split, k + 1) == Splice(ns, k, k + 1, [ns[k].(size := offset)] + PaddedTail(ns[k], size, offset))
  {
    var split := SplitOff(ns, k, offset, size);
    ConsumeIsSplice(split, k + 1);
    assert split[..k + 1] == ns[..k] + [ns[k].(size := offset)];
    assert split[k + 2..] == ns[k + 1..];
  }

  lemma AlignedSplice(ns: seq<Node>, k: nat, size: nat, offset: nat)
    requires Heap(ns) && k < |ns| && !ns[k].used && offset + HEADER + size <= ns[k].size
    requires ns[k].End() == NextAddr(ns, k)
    ensures var split := SplitOff(ns, k, offset, size);
            && split[k + 1].End() <= NextAddr(split, k + 1)
            && Tiles(Consume(split, k + 1))
            && var c := Compact(Consume(split, k + 1));
            Heap(c) && Live(c) == Live(ns) + {PaddedBlock(ns[k], size, offset)}
  {
    var n, b := ns[k], PaddedBlock(ns[k], size, offset);
    var mid := [n.(size := offset)] + PaddedTail(n, size, offset);
    AlignedIsSplice(ns, k, size, offset);
    SpliceCorrect(ns, k, k + 1, mid);
    assert Live(ns[k..k + 1]) == {} by { assert ns[k..k + 1] == [n]; }
    assert Live(mid) == {b} by { assert mid[1] == b; }
  }

  /** Aligned allocation fails only when no free node has room for padding, a second header and
      the block; otherwise it uses the lowest such node. */
  lemma AlignedAllocFirstFit(ns: seq<Node>, size: nat, alignment: nat)
    requires Heap(ns) && alignment > 0
    ensures AlignedAlloc(ns, size, alignment).None? <==> forall n | n in ns :: !FitsAligned(n, size, alignment)
    ensures AlignedAlloc(ns, size, alignment).Some? ==>
              var ptr := AlignedAlloc(ns, size, alignment).value.ptr;
              && (exists n :: n in ns && FitsAligned(n, size, alignment) && n.Contents() < ptr <= n.End())
              && forall n | n in ns && FitsAligned(n, size, alignment) :: ptr <= n.End()
  {
    var k := FirstFitAligned(ns, size, alignment, 0);
    if k < |ns| {
      var n := ns[k];
      assert n in ns && FitsAligned(n, size, alignment);
      NextIsEnd(ns, k);
      LowerEnds(ns, k);
    }
  }

  /** An aligned allocation returns the contents of a new block of the requested size, keeps
      every live block, and leaves a coalesced tiling. */
  lemma AlignedAllocCorrect(ns: seq<Node>, size: nat, alignment: nat)
    requires Heap(ns) && alignment > 0
    requires AlignedAlloc(ns, size, alignment).Some?
    ensures NewBlock(ns, size, AlignedAlloc(ns, size, alignment).value)
  {
    var k := FirstFitAligned(ns, size, alignment, 0);
    var offset := AlignOffset(ns[k].Contents(), alignment);
    AlignedBlockIsNew(ns, k, size, offset);
    assert AlignedAlloc(ns, size, alignment).value
           == Outcome(Compact(Consume(SplitOff(ns, k, offset, size), k + 1)), ns[k].Contents() + offset + HEADER);
  }

  /** It is the HEADER of the new block that is aligned, so the returned pointer is 11 bytes
      past a multiple of the alignment. */
  lemma AlignedHeader(ns: seq<Node>, size: nat, alignment: nat)
    requires Heap(ns) && alignment > 0
    requires AlignedAlloc(ns, size, alignment).Some?
    ensures (AlignedAlloc(ns, size, alignment).value.ptr - HEADER) % alignment == 0
  {
  }

  lemma AlignedBlockIsNew(ns: seq<Node>, k: nat, size: nat, offset: nat)
    requires Heap(ns) && k < |ns| && !ns[k].used && offset + HEADER + size <= ns[k].size
    ensures ns[k].End() == NextAddr(ns, k)
    ensures var split := SplitOff(ns, k, offset, size);
            && split[k + 1].End() <= NextAddr(split, k + 1)
            && NewBlock(ns, size, Outcome(Compact(Consume(split, k + 1)), ns[k].Contents() + offset + HEADER))
  {
    NextIsEnd(ns, k);
    AlignedSplice(ns, k, size, offset);
    var b := PaddedBlock(ns[k], size, offset);
    BlockAtLive(Compact(Consume(SplitOff(ns, k, offset, size), k + 1)), b);
    NewAddress(ns, k, b);
  }

  lemma LowerEnds(ns: seq<Node>, k: nat)
    requires Tiles(ns) && k < |ns|
    ensures forall i | k <= i < |ns| :: ns[k].addr <= ns[i].addr && ns[k].End() <= ns[i].End()
  {
    SpanOrdered(ns, KHEAP_START, KHEAP_END);
    forall i | k <= i < |ns| ensures ns[k].addr <= ns[i].addr && ns[k].End() <= ns[i].End() {
      if k < i { assert ns[k].End() <= ns[i].addr; }
    }
  }

  /** What precedes the aligned block stays behind as a free node of its own, even when it has
      no content bytes at all: the compactor never finds a free neighbour to merge it with. */
  lemma PaddingStays(ns: seq<Node>, size: nat, alignment: nat)
    requires Heap(ns) && alignment > 0
    requires AlignedAlloc(ns, size, alignment).Some?
    ensures var n := ns[FirstFitAligned(ns, size, alignment, 0)];
            n.(size := AlignOffset(n.Contents(), alignment)) in AlignedAlloc(ns, size, alignment).value.nodes
  {
    var k := FirstFitAligned(ns, size, alignment, 0);
    PaddingStaysAt(ns, k, size, AlignOffset(ns[k].Contents(), alignment));
  }

  lemma PaddingStaysAt(ns: seq<Node>, k: nat, size: nat, offset: nat)
    requires Heap(ns) && k < |ns| && !ns[k].used && offset + HEADER + size <= ns[k].size
    ensures var split := SplitOff(ns, k, offset, size);
            && split[k + 1].End() <= NextAddr(split, k + 1)
            && ns[k].(size := offset) in Compact(Consume(split, k + 1))
  {
    var pre, tail := ns[k].(size := offset), PaddedTail(ns[k], size, offset);
    var r := Splice(ns, k, k + 1, [pre] + tail);
    NextIsEnd(ns, k);
    AlignedIsSplice(ns, k, size, offset);
    SpliceSpan(ns, k, k + 1, [pre] + tail);
    forall i, j | 0 <= i < |r| && j == i + 1 && j < |r| ensures r[i].used || r[j].used {
      if j <= k { assert ns[i].used || ns[j].used; }
      else if k + |tail| < i { assert ns[i - |tail|].used || ns[j - |tail|].used; }
      else if k + |tail| == i && |tail| == 2 { assert ns[k].used || ns[k + 1].used; }
    }
    CompactFixpoint(r);
    assert r[k] == pre;
  }

  /** The pointer an aligned allocation returns is itself aligned exactly when the alignment
      divides the header size. */
  lemma AlignedPointerExactly(ns: seq<Node>, size: nat, alignment: nat)
    requires Heap(ns) && alignment > 0
    requires AlignedAlloc(ns, size, alignment).Some?
    ensures AlignedAlloc(ns, size, alignment).value.ptr % alignment == 0 <==> alignment == 1 || alignment == 11
  {
    var k := FirstFitAligned(ns, size, alignment, 0);
    var header := ns[k].Contents() + AlignOffset(ns[k].Contents(), alignment);
    Arithmetic.ShiftedMultiple(header, 11, alignment);
    ElevenIsPrime(alignment);
  }

  lemma ElevenIsPrime(m: nat)
    requires m > 0
    ensures 11 % m == 0 <==> m == 1 || m == 11
  {
    if m > 11 { Arithmetic.DivUnique(11, m, 0, 11); }
  }

  // ----------------------------------------------------------- deallocation

  /** Freeing removes exactly that block from the live set and re-coalesces. */
  lemma FreeCorrect(ns: seq<Node>, k: nat)
    requires Tiles(ns) && k < |ns|
    ensures Heap(Free(ns, k))
    ensures Live(Free(ns, k)) == Live(ns) - {ns[k]}
  {
    var mid := [ns[k].(used := false)];
    var spliced := Splice(ns, k, k + 1, mid);
    assert ns[k := ns[k].(used := false)] == spliced;
    NextIsEnd(ns, k);
    SpliceCorrect(ns, k, k + 1, mid);
    assert ns[k..k + 1] == [ns[k]];
    CompactProperties(spliced, KHEAP_START, KHEAP_END);
  }

  /** Freeing what was just allocated restores the previous node list exactly, whether or not
      the chosen node was split and whether or not padding was inserted before it. */
  lemma AllocThenFree(ns: seq<Node>, size: nat, alignment: nat)
    requires Heap(ns) && alignment > 0
    ensures Alloc(ns, size).Some? ==>
              var o := Alloc(ns, size).value;
              var k := IndexOf(o.nodes, o.ptr, 0);
              k < |o.nodes| && Free(o.nodes, k) == ns
    ensures AlignedAlloc(ns, size, alignment).Some? ==>
              var o := AlignedAlloc(ns, size, alignment).value;
              var k := IndexOf(o.nodes, o.ptr, 0);
              k < |o.nodes| && Free(o.nodes, k) == ns
  {
    if Alloc(ns, size).Some? {
      AllocCorrect(ns, size);
      FreeingTheNewBlock(ns, Alloc(ns, size).value);
    }
    if AlignedAlloc(ns, size, alignment).Some? {
      AlignedAllocCorrect(ns, size, alignment);
      FreeingTheNewBlock(ns, AlignedAlloc(ns, size, alignment).value);
    }
  }

  lemma FreeingTheNewBlock(ns: seq<Node>, o: Outcome)
    requires Heap(ns) && exists size :: NewBlock(ns, size, o)
    ensures Free(o.nodes, IndexOf(o.nodes, o.ptr, 0)) == ns
  {
    var k := IndexOf(o.nodes, o.ptr, 0);
    FreeCorrect(o.nodes, k);
    assert Live(Free(o.nodes, k)) == Live(ns);
    Canonical(Free(o.nodes, k), ns);
  }

  // ----------------------------------------------------------- reallocation

  lemma RoomCorrect(ns: seq<Node>, k: nat)
    requires Tiles(ns) && k < |ns|
    ensures Room(ns, k) >= ns[k].size
    ensures Cut(ns, FreeRunEnd(ns, k + 1), KHEAP_END) == ns[k].Contents() + Room(ns, k)
  {
    SpanOrdered(ns, KHEAP_START, KHEAP_END);
    var j := FreeRunEnd(ns, k + 1);
    NextIsEnd(ns, j - 1);
    NextIsEnd(ns, k);
    if j - 1 > k { assert ns[k].End() <= ns[j - 1].addr; }
  }

  /** The block that `Resize` leaves at node `k`. */
  ghost function Resized(n: Node, size: nat, room: nat): Node
    requires size <= room
  {
    if room - size >= HEADER + 1 then n.(size := size) else n.(size := room)
  }

  ghost function ResizedNodes(n: Node, size: nat, room: nat): seq<Node>
    requires size <= room
  {
    var b := Resized(n, size, room);
    if room - size >= HEADER + 1 then [b, Node(b.End(), room - size - HEADER, false)] else [b]
  }

  lemma ResizeIsSplice(ns: seq<Node>, k: nat, j: nat, size: nat, room: nat)
    requires k < j <= |ns| && size <= room
    ensures Resize(ns, k, j, size, room) == Splice(ns, k, j, ResizedNodes(ns[k], size, room))
  {
  }

  lemma ResizeCorrect(ns: seq<Node>, k: nat, j: nat, size: nat, room: nat)
    requires Heap(ns) && k < j <= |ns| && ns[k].used && size <= room
    requires Cut(ns, j, KHEAP_END) == ns[k].Contents() + room
    requires forall i | k < i < j :: !ns[i].used
    ensures var r := Resize(ns, k, j, size, room);
            && Tiles(r) && Heap(Compact(r))
            && Live(r) == Live(ns) - {ns[k]} + {Resized(ns[k], size, room)}
            && Live(Compact(r)) == Live(r)
            && (room - size < HEADER + 1 ==> Coalesced(r))
  {
    var n, b, mid := ns[k], Resized(ns[k], size, room), ResizedNodes(ns[k], size, room);
    ResizeIsSplice(ns, k, j, size, room);
    SpliceCorrect(ns, k, j, mid);
    assert Live(ns[k..j]) == {n} by { assert n == ns[k..j][0]; }
    assert Live(mid) == {b} by { assert mid[0] == b; }
    if room - size < HEADER + 1 { ReplaceUsed(ns, k, j, b); }
  }

  lemma ReplaceUsed(ns: seq<Node>, k: nat, j: nat, b: Node)
    requires Coalesced(ns) && k < j <= |ns| && ns[k].used && b.used
    ensures Coalesced(Splice(ns, k, j, [b]))
  {
    var r := Splice(ns, k, j, [b]);
    {
      forall i, i' | 0 <= i < |r| && i' == i + 1 && i' < |r| ensures r[i].used || r[i'].used {
        if i' < k { assert ns[i].used || ns[i'].used; }
        else if k < i { assert ns[i + j - k - 1].used || ns[i' + j - k - 1].used; }
      }
    }
  }

  /** Reallocation in every branch: to zero bytes it frees; otherwise it returns a block of the
      requested size (with at most a header's worth of slack) and touches no other live block. It
      stays in place exactly when the block plus the free space behind it suffice, and fails
      exactly when moreover no free node does. */
  lemma ReallocCorrect(ns: seq<Node>, k: nat, size: nat)
    requires Heap(ns) && k < |ns| && ns[k].used
    ensures Realloc(ns, k, size).None? <==> size > Room(ns, k) && forall n | n in ns :: !Fits(n, size)
    ensures Realloc(ns, k, size).Some? ==>
              var o := Realloc(ns, k, size).value;
              && Heap(o.nodes)
              && (size == 0 ==> o.ptr == NULL && Live(o.nodes) == Live(ns) - {ns[k]})
              && (size > 0 ==>
                    var b := BlockAt(o.nodes, o.ptr);
                    && b.Some? && size <= b.value.size <= size + HEADER
                    && Live(o.nodes) == Live(ns) - {ns[k]} + {b.value}
                    && (o.ptr == ns[k].Contents() <==> size <= Room(ns, k))
                    && (o.ptr != ns[k].Contents() ==> b.value !in Live(ns)))
  {
    var n := ns[k];
    NextIsEnd(ns, k);
    RoomCorrect(ns, k);
    assert n in Live(ns);
    if size == 0 {
      FreeCorrect(ns, k);
    } else if size <= Room(ns, k) {
      ReallocInPlace(ns, k, size);
    } else if Alloc(ns, size).Some? {
      AllocCorrect(ns, size);
      ReallocMoves(ns, k, size);
    } else {
      AllocCorrect(ns, size);
    }
  }

  /** What reallocating block `n` in place must leave behind. */
  ghost predicate InPlace(ns: seq<Node>, n: Node, size: nat, o: Outcome) {
    && Heap(o.nodes) && o.ptr == n.Contents()
    && var b := BlockAt(o.nodes, o.ptr);
    && b.Some? && size <= b.value.size <= size + HEADER
    && Live(o.nodes) == Live(ns) - {n} + {b.value}
  }

  lemma ReallocInPlace(ns: seq<Node>, k: nat, size: nat)
    requires Heap(ns) && k < |ns| && ns[k].used && 0 < size <= Room(ns, k)
    ensures Realloc(ns, k, size).Some? && InPlace(ns, ns[k], size, Realloc(ns, k, size).value)
  {
    NextIsEnd(ns, k);
    RoomCorrect(ns, k);
    var n := ns[k];
    if size <= n.size && n.size - size < HEADER + 1 {
      assert n in Live(ns);
      BlockAtLive(ns, n);
      assert Live(ns) == Live(ns) - {n} + {n};
    } else if size <= n.size {
      ResizeInPlace(ns, k, k + 1, size, n.size);
    } else {
      ResizeInPlace(ns, k, FreeRunEnd(ns, k + 1), size, Room(ns, k));
    }
  }

  lemma ResizeInPlace(ns: seq<Node>, k: nat, j: nat, size: nat, room: nat)
    requires Heap(ns) && k < j <= |ns| && ns[k].used && size <= room
    requires Cut(ns, j, KHEAP_END) == ns[k].Contents() + room
    requires forall i | k < i < j :: !ns[i].used
    ensures var r := Resize(ns, k, j, size, room);
            InPlace(ns, ns[k], size,
              Outcome(if room - size >= HEADER + 1 then Compact(r) else r, ns[k].Contents()))
    ensures InPlace(ns, ns[k], size, Outcome(Compact(Resize(ns, k, j, size, room)), ns[k].Contents()))
  {
    var r := Resize(ns, k, j, size, room);
    ResizeCorrect(ns, k, j, size, room);
    var b := Resized(ns[k], size, room);
    assert b in Live(r);
    BlockAtLive(r, b);
    BlockAtLive(Compact(r), b);
  }

  lemma ReallocMoves(ns: seq<Node>, k: nat, size: nat)
    requires Heap(ns) && k < |ns| && ns[k].used && size > Room(ns, k) && size > 0
    requires Alloc(ns, size).Some?
    ensures Realloc(ns, k, size).Some?
    ensures var o := Realloc(ns, k, size).value;
            var b := BlockAt(o.nodes, o.ptr);
            && Heap(o.nodes) && o.ptr != ns[k].Contents()
            && b.Some? && size <= b.value.size <= size + HEADER && b.value !in Live(ns)
            && Live(o.nodes) == Live(ns) - {ns[k]} + {b.value}
  {
    var n := ns[k];
    NextIsEnd(ns, k);
    RoomCorrect(ns, k);
    AllocCorrect(ns, size);
    var a := Alloc(ns, size).value;
    var b := BlockAt(a.nodes, a.ptr).value;
    assert n in Live(ns) && n in Live(a.nodes);
    BlockAtLive(a.nodes, n);
    var i := IndexOf(a.nodes, n.Contents(), 0);
    FreeCorrect(a.nodes, i);
    var o := Realloc(ns, k, size).value;
    assert o == Outcome(Free(a.nodes, i), a.ptr);
    assert b in Live(o.nodes);
    BlockAtLive(o.nodes, b);
    assert b.Contents() == a.ptr;
    assert a.ptr != n.Contents() by {
      if a.ptr == n.Contents() { assert false; }
    }
  }

  /** Growing in place and shrinking back restores the heap exactly when the block has grown by
      enough to hold a header and a byte; otherwise it keeps the bytes it gained. */
  lemma GrowShrinkRestoresExactly(ns: seq<Node>, k: nat, size: nat)
    requires Heap(ns) && k < |ns| && ns[k].used && 0 < ns[k].size < size <= Room(ns, k)
    ensures Realloc(ns, k, size).Some?
    ensures var o := Realloc(ns, k, size).value;
            var i := IndexOf(o.nodes, o.ptr, 0);
            && Heap(o.nodes) && i < |o.nodes| && Realloc(o.nodes, i, ns[k].size).Some?
            && ((Realloc(o.nodes, i, ns[k].size).value.nodes == ns)
                <==> (Resized(ns[k], size, Room(ns, k)).size - ns[k].size >= HEADER + 1))
  {
    var n, b := ns[k], Resized(ns[k], size, Room(ns, k));
    GrownHeap(ns, k, size);
    var o := Realloc(ns, k, size).value;
    var i := IndexOf(o.nodes, o.ptr, 0);
    assert n in Live(ns);
    if b.size - n.size >= HEADER + 1 {
      ShrinkBack(o.nodes, i, n);
      Canonical(Realloc(o.nodes, i, n.size).value.nodes, ns);
    }
  }

  lemma GrownHeap(ns: seq<Node>, k: nat, size: nat)
    requires Heap(ns) && k < |ns| && ns[k].used && 0 < ns[k].size < size <= Room(ns, k)
    ensures Realloc(ns, k, size).Some?
    ensures var o := Realloc(ns, k, size).value;
            var i := IndexOf(o.nodes, o.ptr, 0);
            var b := Resized(ns[k], size, Room(ns, k));
            && Heap(o.nodes) && i < |o.nodes| && o.nodes[i] == b
            && Live(o.nodes) == Live(ns) - {ns[k]} + {b} && b !in Live(ns)
  {
    var b := Resized(ns[k], size, Room(ns, k));
    NextIsEnd(ns, k);
    RoomCorrect(ns, k);
    ResizeCorrect(ns, k, FreeRunEnd(ns, k + 1), size, Room(ns, k));
    var o := Realloc(ns, k, size).value;
    assert b in Live(o.nodes);
    BlockAtLive(o.nodes, b);
    OnlyBlockAt(ns, k, b);
  }

  lemma OnlyBlockAt(ns: seq<Node>, k: nat, b: Node)
    requires Tiles(ns) && k < |ns| && b.addr == ns[k].addr && b != ns[k]
    ensures b !in Live(ns)
  {
    TilesSeparated(ns);
    forall i | 0 <= i < |ns| ensures ns[i] != b {
      if i != k { Distinct(ns, i, k); }
    }
  }

  lemma ShrinkBack(ns: seq<Node>, i: nat, n: Node)
    requires Heap(ns) && i < |ns| && ns[i].used && n.used && n.addr == ns[i].addr
    requires 0 < n.size && n.size + HEADER + 1 <= ns[i].size
    ensures Realloc(ns, i, n.size).Some?
    ensures var o := Realloc(ns, i, n.size).value;
            Heap(o.nodes) && Live(o.nodes) == Live(ns) - {ns[i]} + {n}
  {
    NextIsEnd(ns, i);
    ResizeCorrect(ns, i, i + 1, n.size, ns[i].size);
  }

  // -------------------------------------------------------------------- runs

  datatype Op =
    | OpAlloc(size: nat)
    | OpAlignedAlloc(size: nat, alignment: nat)
    | OpRealloc(ptr: nat, size: nat)
    | OpFree(ptr: nat)

  /** One call. Where the source spins for ever (no space, or a pointer that names no live
      block) the heap stays as it was. */
  ghost function Step(ns: seq<Node>, op: Op): seq<Node>
    requires Tiles(ns)
  {
    match op
    case OpAlloc(size) =>
      var r := Alloc(ns, size);
      if r.Some? then r.value.nodes else ns
    case OpAlignedAlloc(size, alignment) =>
      if alignment == 0 then ns
      else
        var r := AlignedAlloc(ns, size, alignment);
        if r.Some? then r.value.nodes else ns
    case OpRealloc(ptr, size) =>
      if BlockAt(ns, ptr).None? then ns
      else
        var r := Realloc(ns, IndexOf(ns, ptr, 0), size);
        if r.Some? then r.value.nodes else ns
    case OpFree(ptr) =>
      if BlockAt(ns, ptr).None? then ns else Free(ns, IndexOf(ns, ptr, 0))
  }

  lemma StepKeepsHeap(ns: seq<Node>, op: Op)
    requires Heap(ns)
    ensures Heap(Step(ns, op))
  {
    match op
    case OpAlloc(size) => AllocCorrect(ns, size);
    case OpAlignedAlloc(size, alignment) => if alignment > 0 && AlignedAlloc(ns, size, alignment).Some? { AlignedAllocCorrect(ns, size, alignment); }
    case OpRealloc(ptr, size) => if BlockAt(ns, ptr).Some? { ReallocCorrect(ns, IndexOf(ns, ptr, 0), size); }
    case OpFree(ptr) => if BlockAt(ns, ptr).Some? { FreeCorrect(ns, IndexOf(ns, ptr, 0)); }
  }

  /** The heap after `ops`, starting from `kheapInit`. */
  ghost function Run(ops: seq<Op>): (ns: seq<Node>)
    ensures Heap(ns)
  {
    if ops == [] then INITIAL_HEAP
    else
      StepKeepsHeap(Run(ops[..|ops| - 1]), ops[|ops| - 1]);
      Step(Run(ops[..|ops| - 1]), ops[|ops| - 1])
  }

  /** After any run the nodes tile [KHEAP_START, KHEAP_END) exactly, in address order, with no
      byte lost and no two free neighbours. */
  lemma RunTiles(ops: seq<Op>)
    ensures Tiles(Run(ops)) && Separated(Run(ops)) && Coalesced(Run(ops))
    ensures TotalBytes(Run(ops)) == KHEAP_END - KHEAP_START
  {
    TilesSeparated(Run(ops));
    SpanConservesBytes(Run(ops), KHEAP_START, KHEAP_END);
  }

  /** The allocator has no memory of how it got somewhere: two runs that leave the same blocks
      live leave byte for byte the same node list. */
  lemma HistoryIndependent(ops: seq<Op>, ops': seq<Op>)
    requires Live(Run(ops)) == Live(Run(ops'))
    ensures Run(ops) == Run(ops')
  {
    Canonical(Run(ops), Run(ops'));
  }

  /** Once everything has been freed the heap is the single free node it started as. */
  lemma AllFreedIsInitial(ops: seq<Op>)
    ensures Live(Run(ops)) == {} <==> Run(ops) == INITIAL_HEAP
  {
    if Live(Run(ops)) == {} { Canonical(Run(ops), INITIAL_HEAP); }
  }

  /** A block in use keeps its address and size, whatever runs, until a free or a realloc
      names it. */
  lemma LiveBlockStays(ns: seq<Node>, op: Op, b: Node)
    requires Heap(ns) && b in Live(ns)
    requires op.OpFree? || op.OpRealloc? ==> op.ptr != b.Contents()
    ensures b in Live(Step(ns, op))
  {
    BlockAtLive(ns, b);
    match op
    case OpAlloc(size) => AllocCorrect(ns, size);
    case OpAlignedAlloc(size, alignment) => if alignment > 0 && AlignedAlloc(ns, size, alignment).Some? { AlignedAllocCorrect(ns, size, alignment); }
    case OpRealloc(ptr, size) => if BlockAt(ns, ptr).Some? { ReallocCorrect(ns, IndexOf(ns, ptr, 0), size); }
    case OpFree(ptr) => if BlockAt(ns, ptr).Some? { FreeCorrect(ns, IndexOf(ns, ptr, 0)); }
  }
}
