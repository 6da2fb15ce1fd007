/** What each heap operation returns and leaves behind, in terms of addresses and sizes alone. The
    live blocks determine the whole node list (`Canonical`), so these statements determine it. */
module HeapExactly {
  import opened Common
  import opened HeapLayout
  import opened HeapOps
  import opened HeapTheorems

  /** The operation returns `ptr` and leaves a coalesced tiling with exactly these live blocks. */
  ghost predicate Leaves(o: Outcome, ptr: nat, live: set<Node>) {
    o.ptr == ptr && Heap(o.nodes) && Live(o.nodes) == live
  }

  /** The heap starts as one free node over 16 MiB less a byte. */
  lemma InitialExactly()
    ensures INITIAL_HEAP == [Node(0xf00_0000, 0xff_ffff - 11, false)] && Heap(INITIAL_HEAP)
  {
  }

  // ------------------------------------------------------------- allocation

  /** Allocation fails exactly when every free node is smaller than the request. */
  lemma AllocFailsExactly(ns: seq<Node>, size: nat)
    requires Heap(ns)
    ensures Alloc(ns, size).None? <==> forall n | n in ns :: n.used || n.size < size
  {
    AllocCorrect(ns, size);
    if forall n | n in ns :: n.used || n.size < size {
      assert forall n | n in ns :: !Fits(n, size);
    }
    forall n | n in ns && !n.used && size <= n.size ensures Fits(n, size) {}
  }

  /** Otherwise it takes the lowest free node that is as large as the request. The block gets
      exactly the size asked for when more than a header is left over, and the whole node if not. */
  lemma AllocTakesExactly(ns: seq<Node>, size: nat) returns (n: Node)
    requires Heap(ns) && Alloc(ns, size).Some?
    ensures n in ns && !n.used && size <= n.size
    ensures forall m | m in ns && !m.used && size <= m.size :: n.addr <= m.addr
    ensures Leaves(Alloc(ns, size).value, n.addr + 11,
                   Live(ns) + {Node(n.addr, if n.size > size + 11 then size else n.size, true)})
  {
    var k := FirstFit(ns, size, 0);
    n := ns[k];
    NextIsEnd(ns, k);
    TakeCorrect(ns, k, size);
    LowerEnds(ns, k);
    forall m | m in ns && !m.used && size <= m.size ensures n.addr <= m.addr {
      var i :| 0 <= i < |ns| && ns[i] == m;
      assert Fits(ns[i], size);
    }
  }

  // ----------------------------------------------------- aligned allocation

  /** A free node that can hold padding, a second header and the block. */
  predicate HasAlignedRoom(n: Node, size: nat, alignment: nat)
    requires alignment > 0
  {
    !n.used && AlignOffset(n.addr + 11, alignment) + 11 + size <= n.size
  }

  /** Aligned allocation fails exactly when no free node has room for padding, header and block. */
  lemma AlignedAllocFailsExactly(ns: seq<Node>, size: nat, alignment: nat)
    requires Heap(ns) && alignment > 0
    ensures AlignedAlloc(ns, size, alignment).None? <==> forall n | n in ns :: !HasAlignedRoom(n, size, alignment)
  {
    AlignedAllocFirstFit(ns, size, alignment);
    forall n: Node ensures FitsAligned(n, size, alignment) <==> HasAlignedRoom(n, size, alignment) {}
  }

  /** Otherwise it takes the lowest such node. The block's header stands behind the node's own header
      and the padding, and what is left over goes to the block if it is no more than a header. */
  lemma AlignedAllocTakesExactly(ns: seq<Node>, size: nat, alignment: nat) returns (n: Node)
    requires Heap(ns) && alignment > 0 && AlignedAlloc(ns, size, alignment).Some?
    ensures LowestAlignedRoom(ns, n, size, alignment)
    ensures var padding := AlignOffset(n.addr + 11, alignment);
            PlacedIn(ns, n, size, padding, AlignedAlloc(ns, size, alignment).value)
  {
    var k := FirstFitAligned(ns, size, alignment, 0);
    n := ns[k];
    LowestAligned(ns, k, size, alignment);
    AlignedOutcome(ns, k, size, alignment, AlignOffset(n.addr + 11, alignment));
  }

  ghost predicate LowestAlignedRoom(ns: seq<Node>, n: Node, size: nat, alignment: nat)
    requires alignment > 0
  {
    && n in ns && HasAlignedRoom(n, size, alignment)
    && forall m | m in ns && HasAlignedRoom(m, size, alignment) :: n.addr <= m.addr
  }

  ghost predicate PlacedIn(ns: seq<Node>, n: Node, size: nat, padding: nat, o: Outcome) {
    && padding + 11 + size <= n.size
    && var room := n.size - 11 - padding;
    Leaves(o, n.addr + 22 + padding,
           Live(ns) + {Node(n.addr + 11 + padding, if room > size + 11 then size else room, true)})
  }

  lemma AlignedOutcome(ns: seq<Node>, k: nat, size: nat, alignment: nat, offset: nat)
    requires Heap(ns) && alignment > 0 && k == FirstFitAligned(ns, size, alignment, 0) < |ns|
    requires offset == AlignOffset(ns[k].Contents(), alignment)
    ensures AlignedAlloc(ns, size, alignment).Some?
    ensures PlacedIn(ns, ns[k], size, offset, AlignedAlloc(ns, size, alignment).value)
  {
    NextIsEnd(ns, k);
    AlignedBlock(ns, k, size, offset);
    AlignedValue(ns, k, size, alignment, offset);
  }

  lemma AlignedValue(ns: seq<Node>, k: nat, size: nat, alignment: nat, offset: nat)
    requires Tiles(ns) && alignment > 0 && k == FirstFitAligned(ns, size, alignment, 0) < |ns|
    requires offset == AlignOffset(ns[k].Contents(), alignment)
    ensures AlignedAlloc(ns, size, alignment).Some?
    ensures var split := SplitOff(ns, k, offset, size);
            && split[k + 1].End() <= NextAddr(split, k + 1)
            && AlignedAlloc(ns, size, alignment).value
               == Outcome(Compact(Consume(split, k + 1)), ns[k].Contents() + offset + HEADER)
  {
    NextIsEnd(ns, k);
    var split := SplitOff(ns, k, offset, size);
    assert NextAddr(split, k + 1) == NextAddr(ns, k);
  }

  lemma AlignedBlock(ns: seq<Node>, k: nat, size: nat, offset: nat)
    requires Heap(ns) && k < |ns| && !ns[k].used && offset + 11 + size <= ns[k].size
    requires ns[k].End() == NextAddr(ns, k)
    ensures var split := SplitOff(ns, k, offset, size);
            && split[k + 1].End() <= NextAddr(split, k + 1)
            && PlacedIn(ns, ns[k], size, offset, Outcome(Compact(Consume(split, k + 1)), ns[k].Contents() + offset + HEADER))
  {
    AlignedSplice(ns, k, size, offset);
    var room := ns[k].size - 11 - offset;
    assert PaddedBlock(ns[k], size, offset) == Node(ns[k].addr + 11 + offset, if room > size + 11 then size else room, true);
  }

  lemma LowestAligned(ns: seq<Node>, k: nat, size: nat, alignment: nat)
    requires Tiles(ns) && alignment > 0 && k == FirstFitAligned(ns, size, alignment, 0) < |ns|
    ensures LowestAlignedRoom(ns, ns[k], size, alignment)
  {
    LowerEnds(ns, k);
    forall m | m in ns && HasAlignedRoom(m, size, alignment) ensures ns[k].addr <= m.addr {
      var i :| 0 <= i < |ns| && ns[i] == m;
      assert FitsAligned(ns[i], size, alignment);
    }
  }

  // ----------------------------------------------------------- reallocation

  /** Content bytes block `k` can have where it is: its own, and all of a free node behind it. */
  function RoomInPlace(ns: seq<Node>, k: nat): nat
    requires k < |ns|
  {
    ns[k].size + if k + 1 < |ns| && !ns[k + 1].used then 11 + ns[k + 1].size else 0
  }

  lemma RoomIsInPlace(ns: seq<Node>, k: nat)
    requires Heap(ns) && k < |ns|
    ensures Room(ns, k) == RoomInPlace(ns, k)
  {
    NextIsEnd(ns, k);
    if k + 1 < |ns| && !ns[k + 1].used {
      NextIsEnd(ns, k + 1);
      if k + 2 < |ns| { assert ns[k + 1].used || ns[k + 2].used; }
      assert FreeRunEnd(ns, k + 1) == FreeRunEnd(ns, k + 2) == k + 2;
    }
  }

  /** Reallocation within the room stays in place. A block that shrinks gives up what it does not
      need, and one that grows takes the free node behind it and gives back what it does not need,
      in both cases only if that is more than a header. */
  lemma ReallocInPlaceExactly(ns: seq<Node>, k: nat, size: nat)
    requires Heap(ns) && k < |ns| && ns[k].used && 0 < size <= RoomInPlace(ns, k)
    ensures Realloc(ns, k, size).Some?
    ensures var n := ns[k];
            var room := if size <= n.size then n.size else RoomInPlace(ns, k);
            Leaves(Realloc(ns, k, size).value, n.addr + 11,
                   Live(ns) - {n} + {Node(n.addr, if room > size + 11 then size else room, true)})
  {
    RoomIsInPlace(ns, k);
    if size > ns[k].size { GrowsInPlace(ns, k, size); } else { ShrinksInPlace(ns, k, size); }
  }

  lemma GrowsInPlace(ns: seq<Node>, k: nat, size: nat)
    requires Heap(ns) && k < |ns| && ns[k].used && ns[k].size < size <= Room(ns, k)
    ensures Realloc(ns, k, size).Some?
    ensures var n, room := ns[k], Room(ns, k);
            Leaves(Realloc(ns, k, size).value, n.addr + 11,
                   Live(ns) - {n} + {Node(n.addr, if room > size + 11 then size else room, true)})
  {
    NextIsEnd(ns, k);
    RoomCorrect(ns, k);
    var j, room := FreeRunEnd(ns, k + 1), Room(ns, k);
    var resized := Resize(ns, k, j, size, room);
    ResizeCorrect(ns, k, j, size, room);
    var nodes := if room - size >= HEADER + 1 then Compact(resized) else resized;
    assert Leaves(Outcome(nodes, ns[k].Contents()), ns[k].addr + 11, Live(ns) - {ns[k]} + {Resized(ns[k], size, room)});
    assert Realloc(ns, k, size) == Some(Outcome(nodes, ns[k].Contents()));
  }

  lemma ShrinksInPlace(ns: seq<Node>, k: nat, size: nat)
    requires Heap(ns) && k < |ns| && ns[k].used && 0 < size <= ns[k].size
    ensures Realloc(ns, k, size).Some?
    ensures var n := ns[k];
            Leaves(Realloc(ns, k, size).value, n.addr + 11,
                   Live(ns) - {n} + {Node(n.addr, if n.size > size + 11 then size else n.size, true)})
  {
    if ns[k].size > size + 11 { ShrinksBySplit(ns, k, size); } else { ShrinksToItself(ns, k, size); }
  }

  lemma ShrinksBySplit(ns: seq<Node>, k: nat, size: nat)
    requires Heap(ns) && k < |ns| && ns[k].used && 0 < size && ns[k].size > size + 11
    ensures Realloc(ns, k, size).Some?
    ensures Leaves(Realloc(ns, k, size).value, ns[k].addr + 11, Live(ns) - {ns[k]} + {Node(ns[k].addr, size, true)})
  {
    var n := ns[k];
    NextIsEnd(ns, k);
    var nodes := Compact(Resize(ns, k, k + 1, size, n.size));
    ResizeCorrect(ns, k, k + 1, size, n.size);
    assert Leaves(Outcome(nodes, n.Contents()), n.addr + 11, Live(ns) - {n} + {n.(size := size)});
    assert Realloc(ns, k, size) == Some(Outcome(nodes, n.Contents()));
  }

  lemma ShrinksToItself(ns: seq<Node>, k: nat, size: nat)
    requires Heap(ns) && k < |ns| && ns[k].used && 0 < size <= ns[k].size <= size + 11
    ensures Realloc(ns, k, size).Some?
    ensures Leaves(Realloc(ns, k, size).value, ns[k].addr + 11, Live(ns) - {ns[k]} + {Node(ns[k].addr, ns[k].size, true)})
  {
    var n := ns[k];
    assert n in Live(ns) && n == Node(n.addr, n.size, true);
    assert Live(ns) - {n} + {n} == Live(ns);
    assert Realloc(ns, k, size) == Some(Outcome(ns, n.Contents()));
  }

  /** Otherwise it fails exactly when every free node is smaller than the request. */
  lemma ReallocFailsExactly(ns: seq<Node>, k: nat, size: nat)
    requires Heap(ns) && k < |ns| && ns[k].used
    ensures Realloc(ns, k, size).None?
            <==> size > RoomInPlace(ns, k) && forall n | n in ns :: n.used || n.size < size
  {
    RoomIsInPlace(ns, k);
    ReallocCorrect(ns, k, size);
    AllocCorrect(ns, size);
    AllocFailsExactly(ns, size);
  }

  /** And if it does not fail it moves the block to the lowest free node as large as the request. */
  lemma ReallocMovesExactly(ns: seq<Node>, k: nat, size: nat) returns (n: Node)
    requires Heap(ns) && k < |ns| && ns[k].used && size > RoomInPlace(ns, k) && Realloc(ns, k, size).Some?
    ensures n in ns && !n.used && size <= n.size
    ensures forall m | m in ns && !m.used && size <= m.size :: n.addr <= m.addr
    ensures Leaves(Realloc(ns, k, size).value, n.addr + 11,
                   Live(ns) - {ns[k]} + {Node(n.addr, if n.size > size + 11 then size else n.size, true)})
  {
    RoomIsInPlace(ns, k);
    ReallocFailsExactly(ns, k, size);
    AllocFailsExactly(ns, size);
    n := AllocTakesExactly(ns, size);
    var b := Node(n.addr, if n.size > size + 11 then size else n.size, true);
    if b == ns[k] { OneNodeAt(ns, n, ns[k]); }
    MoveFrees(ns, k, size, b);
  }

  lemma MoveFrees(ns: seq<Node>, k: nat, size: nat, b: Node)
    requires Heap(ns) && k < |ns| && ns[k].used && size > Room(ns, k) && Alloc(ns, size).Some?
    requires Heap(Alloc(ns, size).value.nodes) && Live(Alloc(ns, size).value.nodes) == Live(ns) + {b} && b != ns[k]
    ensures Realloc(ns, k, size).Some?
    ensures Leaves(Realloc(ns, k, size).value, Alloc(ns, size).value.ptr, Live(ns) - {ns[k]} + {b})
  {
    var i := FreeAfterMove(ns, ns[k], Alloc(ns, size).value, b);
    RoomCorrect(ns, k);
    ReallocIsMove(ns, k, size, i);
  }

  lemma FreeAfterMove(ns: seq<Node>, n: Node, a: Outcome, b: Node) returns (i: nat)
    requires Tiles(ns) && n in Live(ns) && Heap(a.nodes) && Live(a.nodes) == Live(ns) + {b} && b != n
    ensures i == IndexOf(a.nodes, n.Contents(), 0) < |a.nodes|
    ensures Leaves(Outcome(Free(a.nodes, i), a.ptr), a.ptr, Live(ns) - {n} + {b})
  {
    i := IndexOf(a.nodes, n.Contents(), 0);
    assert n in Live(a.nodes);
    BlockAtLive(a.nodes, n);
    FreeCorrect(a.nodes, i);
  }

  lemma ReallocIsMove(ns: seq<Node>, k: nat, size: nat, i: nat)
    requires Tiles(ns) && k < |ns| && size > Room(ns, k) && size > ns[k].size && Alloc(ns, size).Some?
    requires i == IndexOf(Alloc(ns, size).value.nodes, ns[k].Contents(), 0) < |Alloc(ns, size).value.nodes|
    ensures Realloc(ns, k, size)
            == Some(Outcome(Free(Alloc(ns, size).value.nodes, i), Alloc(ns, size).value.ptr))
  {
    NextIsEnd(ns, k);
  }

  lemma OneNodeAt(ns: seq<Node>, a: Node, b: Node)
    requires Tiles(ns) && a in ns && b in ns && a.addr == b.addr
    ensures a == b
  {
    TilesSeparated(ns);
    var i :| 0 <= i < |ns| && ns[i] == a;
    var j :| 0 <= j < |ns| && ns[j] == b;
    if i != j { Distinct(ns, i, j); }
  }
}
