/** Several expressions of the heap allocator compute something other than the comments beside
    them say. HeapOps models what the comments say; this module models the expressions as they
    stand, in 32-bit arithmetic, and proves exactly when the two agree. */
module HeapAsWritten {
  import opened Common
  import opened HeapLayout
  import opened HeapOps
  import opened HeapTheorems

  // ------------------------------------------- the gap behind a shrunken node

  /** `((uint8_t*) node->next_node) - ((uint8_t*) node) + node->size`. */
  function Gap(addr: nat, size: nat, next: nat): nat {
    (next - addr + size) % U32
  }

  /** What the comment describes: the bytes between the end of the node and the next one, or the
      end of the heap. */
  function MeantGap(addr: nat, size: nat, next: nat): int {
    (if next == NULL then KHEAP_END else next) - (addr + HEADER + size)
  }

  /** The expression is right only behind the last node and for one impossible size modulo 2^31;
      a block that fits in the heap never has it. */
  lemma GapExactly(addr: nat, size: nat, next: nat)
    requires KHEAP_START <= addr && size < U32 && next <= KHEAP_END
    requires MeantGap(addr, size, next) >= 0 || next == NULL
    ensures (Gap(addr, size, next) == MeantGap(addr, size, next) % U32)
            <==> (next == NULL && size % 0x8000_0000 == 0x7ff_fffa)
    ensures size < 0x7ff_fffa ==> Gap(addr, size, next) != MeantGap(addr, size, next)
  {
    var a, b := next - addr + size, MeantGap(addr, size, next);
    SameModulo(a, b);
    if next == NULL {
      assert a - b == 2 * size - 0xfff_fff4;
    } else {
      assert a - b == 2 * size + 11;
    }
  }

  lemma SameModulo(a: int, b: int)
    ensures a % U32 == b % U32 <==> (a - b) % U32 == 0
  {
    var qa, qb := a / U32, b / U32;
    assert a - b == (qa - qb) * U32 + (a % U32 - b % U32);
  }

  /** Filling the space behind node `k` as if it had `gap` bytes. */
  function Fill(ns: seq<Node>, k: nat, gap: nat): seq<Node>
    requires k < |ns|
  {
    if gap > HEADER then ns[..k + 1] + [Node(ns[k].End() % U32, gap - HEADER, false)] + ns[k + 1..]
    else ns[k := ns[k].(size := (ns[k].size + gap) % U32)]
  }

  /** Value of the `next_node` field of node `k`. */
  function NextPointer(ns: seq<Node>, k: nat): nat
    requires k < |ns|
  {
    if k + 1 < |ns| then ns[k + 1].addr else NULL
  }

  /** `consumeEmptySpace` with the gap as written. */
  function ConsumeAsWritten(ns: seq<Node>, k: nat): seq<Node>
    requires k < |ns|
  {
    Fill(ns, k, Gap(ns[k].addr, ns[k].size, NextPointer(ns, k)))
  }

  /** So with the expression as written no allocation, from any heap, leaves a tiling: not after
      `consumeEmptySpace`, and `compactHeap` does not mend it. */
  lemma AllocAsWrittenNeverTiles(ns: seq<Node>, k: nat, size: nat)
    requires Heap(ns) && k < |ns| && Fits(ns[k], size)
    ensures var taken := ConsumeAsWritten(ns[k := Node(ns[k].addr, size, true)], k);
            !Tiles(taken) && Compact(taken) == taken
  {
    TilesSeparated(ns);
    assert InHeap(ns, k);
    TakingNeverTiles(ns, k, ns[k := Node(ns[k].addr, size, true)]);
  }

  /** Nor does any aligned allocation, even from a node that only the guards as written accept. */
  lemma AlignedAllocAsWrittenNeverTiles(ns: seq<Node>, k: nat, size: nat, alignment: nat)
    requires Heap(ns) && k < |ns| && 0 < alignment < U32 && size < U32 && AcceptsAligned(ns[k], size, alignment)
    ensures var taken := ConsumeAsWritten(SplitOffAsWritten(ns, k, AlignOffset(ns[k].Contents(), alignment), size), k + 1);
            !Tiles(taken) && Compact(taken) == taken
  {
    var split := SplitOffAsWritten(ns, k, AlignOffset(ns[k].Contents(), alignment), size);
    TakingNeverTiles(ns, k, split);
  }

  /** Replacing free node `k` by one or two nodes of which the last is in use and then consuming
      the space behind that one leaves no tiling. */
  lemma TakingNeverTiles(ns: seq<Node>, k: nat, r: seq<Node>)
    requires Heap(ns) && k < |ns| && !ns[k].used && |ns| <= |r| <= |ns| + 1
    requires r[k + |r| - |ns|].used && r[k + |r| - |ns|].size < U32
    requires forall i | 0 <= i < k :: r[i] == ns[i]
    requires forall i | k < i < |ns| :: r[i + |r| - |ns|] == ns[i]
    ensures var taken := ConsumeAsWritten(r, k + |r| - |ns|);
            !Tiles(taken) && Compact(taken) == taken
  {
    var last := k + |r| - |ns|;
    TilesSeparated(ns);
    if k + 1 < |ns| {
      assert InHeap(ns, k + 1) && r[last + 1] == ns[k + 1];
      assert ns[k].used || ns[k + 1].used;
    }
    ConsumeNeverTiles(r, last);
    StaysCoalesced(ns, k, r);
    FillStaysCoalesced(r, last, Gap(r[last].addr, r[last].size, NextPointer(r, last)));
  }

  /** The two nodes an aligned allocation makes of node `k`, addresses taken modulo 2^32. */
  function SplitOffAsWritten(ns: seq<Node>, k: nat, offset: nat, size: nat): seq<Node>
    requires k < |ns|
  {
    ns[..k] + [ns[k].(size := offset), Node((ns[k].Contents() + offset) % U32, size, true)] + ns[k + 1..]
  }

  /** The gap as written never closes the chain behind a node, whatever the node's size. */
  lemma ConsumeNeverTiles(ns: seq<Node>, k: nat)
    requires k < |ns| && ns[k].size < U32 && NextAddr(ns, k) <= KHEAP_END
    ensures !Tiles(ConsumeAsWritten(ns, k))
  {
    var n, next, gap := ns[k], NextPointer(ns, k), Gap(ns[k].addr, ns[k].size, NextPointer(ns, k));
    var filled := ConsumeAsWritten(ns, k);
    if Tiles(filled) {
      var last := if gap > HEADER then k + 1 else k;
      TilesSeparated(filled);
      assert InHeap(filled, k);
      assert InHeap(filled, last);
      assert NextAddr(filled, last) == NextAddr(ns, k);
      NextIsEnd(filled, k);
      NextIsEnd(filled, last);
      GapNeverCloses(n, next, gap);
    }
  }

  /** The gap would have to leave the end of the filled space at the next node. */
  lemma GapNeverCloses(n: Node, next: nat, gap: nat)
    requires KHEAP_START <= n.addr && n.size < U32 && (next == NULL || KHEAP_START <= next <= KHEAP_END)
    requires gap == Gap(n.addr, n.size, next)
    ensures var end := if next == NULL then KHEAP_END else next;
            if gap > HEADER then n.End() + gap != end else n.addr + HEADER + (n.size + gap) % U32 != end
  {
    var end := if next == NULL then KHEAP_END else next;
    if n.End() + gap == end { GapExactly(n.addr, n.size, next); }
  }

  lemma FillStaysCoalesced(ns: seq<Node>, k: nat, gap: nat)
    requires Coalesced(ns) && k < |ns| && ns[k].used && (k + 1 < |ns| ==> ns[k + 1].used)
    ensures Compact(Fill(ns, k, gap)) == Fill(ns, k, gap)
  {
    var f := Fill(ns, k, gap);
    var d := |f| - |ns|;
    forall i, j | 0 <= i < |f| && j == i + 1 && j < |f| ensures f[i].used || f[j].used {
      if j < k { assert ns[i].used || ns[j].used; }
      else if k + 1 < i { assert f[i] == ns[i - d] && f[j] == ns[j - d]; assert ns[i - d].used || ns[j - d].used; }
    }
    CompactIdentity(f);
  }

  /** Replacing free node `k` by one or two nodes of which the last is in use leaves no two free
      neighbours. */
  lemma StaysCoalesced(ns: seq<Node>, k: nat, r: seq<Node>)
    requires Coalesced(ns) && k < |ns| && !ns[k].used
    requires |ns| <= |r| <= |ns| + 1 && r[k + |r| - |ns|].used
    requires forall i | 0 <= i < k :: r[i] == ns[i]
    requires forall i | k < i < |ns| :: r[i + |r| - |ns|] == ns[i]
    ensures Coalesced(r)
  {
    var d := |r| - |ns|;
    forall i, j | 0 <= i < |r| && j == i + 1 && j < |r| ensures r[i].used || r[j].used {
      if j <= k { assert ns[i].used || ns[j].used; }
      else if k + d < i { assert r[i] == ns[i - d] && r[j] == ns[j - d]; assert ns[i - d].used || ns[j - d].used; }
    }
  }

  lemma {:induction false} CompactIdentity(ns: seq<Node>)
    requires Coalesced(ns)
    ensures Compact(ns) == ns
  {
    if |ns| >= 2 {
      assert ns[0].used || ns[1].used;
      forall i, j | 0 <= i < |ns[1..]| && j == i + 1 && j < |ns[1..]| ensures ns[1..][i].used || ns[1..][j].used {
        assert ns[i + 1].used || ns[j + 1].used;
      }
      CompactIdentity(ns[1..]);
    }
  }

  // -------------------------------------------------- where realloc splits

  /** `NODE_TO_CONTENTS(current_node) + size`: pointer arithmetic in units of a header. */
  function SplitAddress(contents: nat, size: nat): nat {
    (contents + HEADER * size) % U32
  }

  /** It names the byte after the resized block for no size a caller can ask for. */
  lemma SplitAddressExactly(contents: nat, size: nat)
    requires size < U32
    ensures SplitAddress(contents, size) == (contents + size) % U32 <==> size == 0 || size == 0x8000_0000
  {
    SameModulo(contents + HEADER * size, contents + size);
    assert (contents + HEADER * size) - (contents + size) == 10 * size;
  }

  /** Resizing node `k` within `room` bytes with the new header where the source puts it. */
  function ResizeAsWritten(ns: seq<Node>, k: nat, j: nat, size: nat, room: nat): seq<Node>
    requires k < j <= |ns| && size <= room
  {
    if room - size >= HEADER + 1 then
      ns[..k] + [ns[k].(size := size), Node(SplitAddress(ns[k].Contents(), size), room - size - HEADER, false)] + ns[j..]
    else
      ns[..k] + [ns[k].(size := room)] + ns[j..]
  }

  /** A resize that splits breaks the chain right behind the block, and `compactHeap` does not mend it. */
  lemma SplitAsWrittenNeverTiles(ns: seq<Node>, k: nat, j: nat, size: nat, room: nat)
    requires k < j <= |ns| && ns[k].used && 0 < size && size + HEADER + 1 <= room
    requires ns[k].Contents() + size < 0x8000_0000
    ensures var r := ResizeAsWritten(ns, k, j, size, room);
            !Tiles(r) && !Tiles(Compact(r))
  {
    var r := ResizeAsWritten(ns, k, j, size, room);
    SplitAddressExactly(ns[k].Contents(), size);
    assert r[k].End() != r[k + 1].addr;
    if Tiles(r) { NextIsEnd(r, k); }
    CompactKeepsBreak(r, k);
  }

  /** Coalescing does not close a break behind a node in use. */
  lemma {:induction false} CompactKeepsBreak(ns: seq<Node>, k: nat)
    requires k + 1 < |ns| && ns[k].used && ns[k].End() != ns[k + 1].addr
    ensures exists i, j | 0 <= i < |Compact(ns)| && j == i + 1 && j < |Compact(ns)| ::
              Compact(ns)[i].End() != Compact(ns)[j].addr
    decreases |ns|
  {
    var c := Compact(ns);
    if k == 0 {
      CompactHead(ns[1..]);
      assert c[0] == ns[0] && c[1].addr == ns[1].addr;
    } else if !ns[0].used && !ns[1].used {
      var m := [Node(ns[0].addr, ns[0].size + HEADER + ns[1].size, false)] + ns[2..];
      assert m[k - 1] == ns[k] && m[k] == ns[k + 1];
      CompactKeepsBreak(m, k - 1);
    } else {
      CompactKeepsBreak(ns[1..], k - 1);
      var d := Compact(ns[1..]);
      var i, j :| 0 <= i < |d| && j == i + 1 && j < |d| && d[i].End() != d[j].addr;
      assert c[i + 1] == d[i] && c[j + 1] == d[j];
    }
  }

  lemma {:induction false} CompactHead(ns: seq<Node>)
    requires ns != []
    ensures Compact(ns) != [] && Compact(ns)[0].addr == ns[0].addr
    decreases |ns|
  {
    if |ns| >= 2 && !ns[0].used && !ns[1].used {
      CompactHead([Node(ns[0].addr, ns[0].size + HEADER + ns[1].size, false)] + ns[2..]);
    }
  }

  /** Shrinking a block far enough to split it never leaves a tiling. */
  lemma ShrinkAsWrittenNeverTiles(ns: seq<Node>, k: nat, size: nat)
    requires Heap(ns) && k < |ns| && ns[k].used && 0 < size && size + HEADER + 1 <= ns[k].size
    ensures var r := ResizeAsWritten(ns, k, k + 1, size, ns[k].size);
            !Tiles(r) && !Tiles(Compact(r))
  {
    TilesSeparated(ns);
    assert InHeap(ns, k);
    SplitAsWrittenNeverTiles(ns, k, k + 1, size, ns[k].size);
  }

  // ------------------------------------------------- room in an aligned node

  /** The two guards of `kheapAlignedAlloc`, with unsigned 32-bit addition and subtraction. */
  predicate AcceptsAligned(n: Node, size: nat, alignment: nat)
    requires alignment > 0
  {
    !n.used && n.size >= (HEADER + size) % U32
    && (n.size - AlignOffset(n.Contents(), alignment)) % U32 >= (HEADER + size) % U32
  }

  /** The guards go wrong in two ways. Padding larger than the node wraps around and is taken for
      enough; and for a size in the last 11 below 2^32 the sum with the header wraps around, and
      every free node that has those few bytes before and after the padding is accepted. */
  lemma AcceptsAlignedExactly(n: Node, size: nat, alignment: nat)
    requires 0 < alignment < U32 && size < U32 && n.size < U32
    ensures var offset := AlignOffset(n.Contents(), alignment);
            (AcceptsAligned(n, size, alignment) <==> FitsAligned(n, size, alignment))
            <==> (n.used || n.size < (HEADER + size) % U32
                  || if HEADER + size < U32 then offset <= n.size
                     else (n.size - offset) % U32 < HEADER + size - U32)
  {
    GuardsExactly(n.size, AlignOffset(n.Contents(), alignment), size);
  }

  lemma GuardsExactly(a: nat, offset: nat, size: nat)
    requires a < U32 && offset < U32 && size < U32
    ensures var want := (HEADER + size) % U32;
            ((a >= want && (a - offset) % U32 >= want) <==> offset + HEADER + size <= a)
            <==> (a < want || if HEADER + size < U32 then offset <= a else (a - offset) % U32 < HEADER + size - U32)
  {
    assert (a - offset) % U32 == if offset <= a then a - offset else U32 + a - offset;
    assert (HEADER + size) % U32 == if HEADER + size < U32 then HEADER + size else HEADER + size - U32;
  }

  /** A fresh heap is granted a request for 2^32 - 11 bytes. */
  lemma HugeSizeCounterexample()
    ensures AcceptsAligned(INITIAL_HEAP[0], 0xFFFF_FFF5, 1) && !FitsAligned(INITIAL_HEAP[0], 0xFFFF_FFF5, 1)
  {
  }

  /** A fresh heap, one byte aligned to 2^31: the guards pass and the block would start far
      outside the heap. */
  lemma AcceptsAlignedCounterexample()
    ensures AcceptsAligned(INITIAL_HEAP[0], 1, 0x8000_0000) && !FitsAligned(INITIAL_HEAP[0], 1, 0x8000_0000)
    ensures INITIAL_HEAP[0].Contents() + AlignOffset(INITIAL_HEAP[0].Contents(), 0x8000_0000) == 0x8000_0000 > KHEAP_END
  {
    assert INITIAL_HEAP[0].Contents() == 0xf00000b;
    assert 0xf00000b % 0x8000_0000 == 0xf00000b;
  }

  // --------------------------------------------------- room to grow in place

  /** Headers and contents of the free nodes from `i` on: `possible_size`, which starts at 0. */
  function FreeBehind(ns: seq<Node>, i: nat): nat
    requires i <= |ns|
    decreases |ns| - i
  {
    if i == |ns| || ns[i].used then 0 else HEADER + ns[i].size + FreeBehind(ns, i + 1)
  }

  /** `possible_size` misses the block's own bytes. */
  lemma PossibleSizeExactly(ns: seq<Node>, k: nat)
    requires Tiles(ns) && k < |ns|
    ensures FreeBehind(ns, k + 1) == Room(ns, k) - ns[k].size
  {
    FreeBehindReaches(ns, k + 1);
  }

  lemma {:induction false} FreeBehindReaches(ns: seq<Node>, i: nat)
    requires Tiles(ns) && 0 < i <= |ns|
    ensures ns[i - 1].End() + FreeBehind(ns, i) == NextAddr(ns, FreeRunEnd(ns, i) - 1)
    decreases |ns| - i
  {
    NextIsEnd(ns, i - 1);
    if i < |ns| && !ns[i].used {
      FreeBehindReaches(ns, i + 1);
    }
  }

  /** Growing in place with `possible_size` and the split address as written leaves a tiling
      exactly when the block was empty to begin with and what is left over is too little for a
      node. When it splits, `compactHeap` does not mend the chain either. */
  lemma GrowAsWrittenExactly(ns: seq<Node>, k: nat, size: nat)
    requires Heap(ns) && k < |ns| && ns[k].used
    requires ns[k].size < size <= FreeBehind(ns, k + 1)
    ensures var room := FreeBehind(ns, k + 1);
            var r := ResizeAsWritten(ns, k, FreeRunEnd(ns, k + 1), size, room);
            && (Tiles(r) <==> ns[k].size == 0 && room - size < HEADER + 1)
            && (room - size >= HEADER + 1 ==> !Tiles(Compact(r)))
  {
    var j, room := FreeRunEnd(ns, k + 1), FreeBehind(ns, k + 1);
    PossibleSizeExactly(ns, k);
    RoomCorrect(ns, k);
    RoomInHeap(ns, k);
    if room - size >= HEADER + 1 {
      SplitAsWrittenNeverTiles(ns, k, j, size, room);
    } else if ns[k].size == 0 {
      ResizeCorrect(ns, k, j, size, room);
    } else {
      var r := ResizeAsWritten(ns, k, j, size, room);
      assert r[k].End() == ns[k].Contents() + room;
      assert NextAddr(r, k) == Cut(ns, j, KHEAP_END);
      if Tiles(r) { NextIsEnd(r, k); }
    }
  }

  lemma RoomInHeap(ns: seq<Node>, k: nat)
    requires Tiles(ns) && k < |ns|
    ensures ns[k].Contents() + Room(ns, k) <= KHEAP_END && ns[k].End() <= KHEAP_END
  {
    var j := FreeRunEnd(ns, k + 1);
    TilesSeparated(ns);
    RoomCorrect(ns, k);
    assert InHeap(ns, k);
    if j < |ns| { assert InHeap(ns, j); }
  }
}
