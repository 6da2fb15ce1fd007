/** The kernel heap seen as a chain of nodes that tile the region
    [KHEAP_START, KHEAP_END): the shape invariants, the coalescing normal form
    and the set of live blocks. Addresses are absolute, as in the source. */
module HeapLayout {
  const KHEAP_START: nat := 0xf000000
  const KHEAP_END: nat := 0xfffffff
  /** `sizeof(HeapNode)`: 2 + 4 + 4 + 1 bytes, packed. */
  const HEADER: nat := 11

  datatype Node = Node(addr: nat, size: nat, used: bool) {
    /** NODE_TO_CONTENTS, in bytes. */
    function Contents(): nat { addr + HEADER }
    /** First byte after the node. */
    function End(): nat { addr + HEADER + size }
  }

  /** The nodes start at `lo`, each begins where the previous one ends, and the last ends at `hi`. */
  ghost predicate Span(ns: seq<Node>, lo: nat, hi: nat) {
    && (if ns == [] then lo == hi else ns[0].addr == lo && ns[|ns| - 1].End() == hi)
    && forall i, j | 0 <= i < |ns| && j == i + 1 && j < |ns| :: ns[i].End() == ns[j].addr
  }

  /** The chain tiles the whole heap. */
  ghost predicate Tiles(ns: seq<Node>) {
    ns != [] && Span(ns, KHEAP_START, KHEAP_END)
  }

  ghost predicate InHeap(ns: seq<Node>, i: nat)
    requires i < |ns|
  {
    KHEAP_START <= ns[i].addr && ns[i].End() <= KHEAP_END
  }

  ghost predicate Before(ns: seq<Node>, i: nat, j: nat)
    requires i < j < |ns|
  {
    ns[i].End() <= ns[j].addr
  }

  /** Nodes are address-ordered and pairwise disjoint, but may leave gaps. */
  ghost predicate Separated(ns: seq<Node>) {
    && (forall i | 0 <= i < |ns| :: InHeap(ns, i))
    && forall i, j | 0 <= i < j < |ns| :: Before(ns, i, j)
  }

  /** No two adjacent free nodes. */
  ghost predicate Coalesced(ns: seq<Node>) {
    forall i, j | 0 <= i < |ns| && j == i + 1 && j < |ns| :: ns[i].used || ns[j].used
  }

  /** The allocated nodes. */
  ghost function Live(ns: seq<Node>): set<Node> {
    set n | n in ns && n.used
  }

  /** Header and content bytes of all nodes. */
  ghost function TotalBytes(ns: seq<Node>): nat {
    if ns == [] then 0 else HEADER + ns[0].size + TotalBytes(ns[1..])
  }

  // ---------------------------------------------------------------- spans

  lemma {:induction false} SpanOrdered(ns: seq<Node>, lo: nat, hi: nat)
    requires Span(ns, lo, hi)
    ensures lo <= hi
    ensures forall i | 0 <= i < |ns| :: lo <= ns[i].addr && ns[i].End() <= hi
    ensures forall i, j | 0 <= i < j < |ns| :: ns[i].End() <= ns[j].addr
  {
    if ns != [] {
      SpanOrdered(ns[1..], ns[0].End(), hi);
      forall i, j | 0 <= i < j < |ns| ensures ns[i].End() <= ns[j].addr {
        assert ns[j] == ns[1..][j - 1];
        if i > 0 { assert ns[i] == ns[1..][i - 1]; }
      }
      forall i | 0 <= i < |ns| ensures lo <= ns[i].addr && ns[i].End() <= hi {
        if i > 0 { assert ns[i] == ns[1..][i - 1]; }
      }
    }
  }

  /** A tiling is acyclic and address-ordered. */
  lemma TilesSeparated(ns: seq<Node>)
    requires Tiles(ns)
    ensures Separated(ns)
  {
    SpanOrdered(ns, KHEAP_START, KHEAP_END);
  }

  lemma SpanConcat(a: seq<Node>, b: seq<Node>, lo: nat, mid: nat, hi: nat)
    requires Span(a, lo, mid) && Span(b, mid, hi)
    ensures Span(a + b, lo, hi)
  {
    var c := a + b;
    forall i, j | 0 <= i < |c| && j == i + 1 && j < |c| ensures c[i].End() == c[j].addr {
      if j < |a| { assert a[i].End() == a[j].addr; }
      else if i >= |a| { assert b[i - |a|].End() == b[j - |a|].addr; }
    }
  }

  /** Where the node list continues after its first `k` nodes. */
  ghost function Cut(ns: seq<Node>, k: nat, hi: nat): nat
    requires k <= |ns|
  {
    if k < |ns| then ns[k].addr else hi
  }

  lemma SpanSplit(ns: seq<Node>, k: nat, lo: nat, hi: nat)
    requires Span(ns, lo, hi) && k <= |ns|
    ensures Span(ns[..k], lo, Cut(ns, k, hi)) && Span(ns[k..], Cut(ns, k, hi), hi)
  {
    if 0 < k < |ns| { assert ns[k - 1].End() == ns[k].addr; }
  }

  /** A tiling accounts for every byte of its span: nothing lost, nothing counted twice. */
  lemma {:induction false} SpanConservesBytes(ns: seq<Node>, lo: nat, hi: nat)
    requires Span(ns, lo, hi)
    ensures TotalBytes(ns) == hi - lo
  {
    if ns != [] { SpanConservesBytes(ns[1..], ns[0].End(), hi); }
  }

  lemma LiveConcat(a: seq<Node>, b: seq<Node>)
    ensures Live(a + b) == Live(a) + Live(b)
  {
  }

  // ---------------------------------------------------------- coalescing

  /** One left-to-right pass that merges adjacent free nodes. */
  ghost function Compact(ns: seq<Node>): seq<Node>
    decreases |ns|
  {
    if |ns| < 2 then ns
    else if !ns[0].used && !ns[1].used then
      Compact([Node(ns[0].addr, ns[0].size + HEADER + ns[1].size, false)] + ns[2..])
    else [ns[0]] + Compact(ns[1..])
  }

  /** Coalescing keeps the span, keeps every live block as it is, and leaves no two free neighbours. */
  lemma {:induction false} CompactProperties(ns: seq<Node>, lo: nat, hi: nat)
    requires Span(ns, lo, hi)
    ensures Span(Compact(ns), lo, hi)
    ensures Live(Compact(ns)) == Live(ns)
    ensures Coalesced(Compact(ns))
    ensures (ns == []) == (Compact(ns) == [])
    ensures ns != [] ==> Compact(ns)[0].used == ns[0].used
    decreases |ns|
  {
    if |ns| >= 2 {
      assert ns[0].End() == ns[1].addr;
      if !ns[0].used && !ns[1].used {
        var m := Node(ns[0].addr, ns[0].size + HEADER + ns[1].size, false);
        SpanSplit(ns, 2, lo, hi);
        SpanConcat([m], ns[2..], lo, m.End(), hi);
        CompactProperties([m] + ns[2..], lo, hi);
        assert ns == ns[..2] + ns[2..];
        LiveConcat(ns[..2], ns[2..]);
        LiveConcat([m], ns[2..]);
        assert Live(ns[..2]) == {} && Live([m]) == {};
      } else {
        SpanSplit(ns, 1, lo, hi);
        CompactProperties(ns[1..], ns[1].addr, hi);
        SpanConcat([ns[0]], Compact(ns[1..]), lo, ns[1].addr, hi);
        assert ns == [ns[0]] + ns[1..];
        LiveConcat([ns[0]], ns[1..]);
        LiveConcat([ns[0]], Compact(ns[1..]));
        var c := [ns[0]] + Compact(ns[1..]);
        forall i, j | 0 <= i < |c| && j == i + 1 && j < |c| ensures c[i].used || c[j].used {
          if i > 0 { assert Compact(ns[1..])[i - 1].used || Compact(ns[1..])[j - 1].used; }
        }
      }
    }
  }

  /** The heap has a normal form: a coalesced tiling of a span is determined by its live
      blocks alone. Every inverse law of the allocator follows from this. */
  lemma {:induction false} CanonicalSpan(a: seq<Node>, b: seq<Node>, lo: nat, hi: nat)
    requires Span(a, lo, hi) && Coalesced(a)
    requires Span(b, lo, hi) && Coalesced(b)
    requires Live(a) == Live(b)
    ensures a == b
    decreases |a|
  {
    SpanOrdered(a, lo, hi);
    SpanOrdered(b, lo, hi);
    if a != [] {
      assert b != [];
      HeadsAgree(a, b, lo, hi);
      assert a[0] == b[0];
      SpanSplit(a, 1, lo, hi);
      SpanSplit(b, 1, lo, hi);
      TailLive(a, lo, hi);
      TailLive(b, lo, hi);
      assert Coalesced(a[1..]) by {
        forall i, j | 0 <= i < |a[1..]| && j == i + 1 && j < |a[1..]| ensures a[1..][i].used || a[1..][j].used {
          assert a[i + 1].used || a[j + 1].used;
        }
      }
      assert Coalesced(b[1..]) by {
        forall i, j | 0 <= i < |b[1..]| && j == i + 1 && j < |b[1..]| ensures b[1..][i].used || b[1..][j].used {
          assert b[i + 1].used || b[j + 1].used;
        }
      }
      assert Cut(a, 1, hi) == a[0].End() && Cut(b, 1, hi) == b[0].End();
      CanonicalSpan(a[1..], b[1..], a[0].End(), hi);
      assert a == [a[0]] + a[1..] && b == [b[0]] + b[1..];
    }
  }

  lemma TailLive(a: seq<Node>, lo: nat, hi: nat)
    requires a != [] && Span(a, lo, hi)
    ensures Live(a[1..]) == Live(a) - {a[0]}
  {
    SpanOrdered(a, lo, hi);
    assert forall j | 1 <= j < |a| :: a[0].End() <= a[j].addr;
    assert a == [a[0]] + a[1..];
    LiveConcat([a[0]], a[1..]);
    assert a[0] !in a[1..];
  }

  lemma HeadsAgree(a: seq<Node>, b: seq<Node>, lo: nat, hi: nat)
    requires a != [] && Span(a, lo, hi) && Coalesced(a)
    requires b != [] && Span(b, lo, hi) && Coalesced(b)
    requires Live(a) == Live(b)
    ensures a[0] == b[0]
  {
    SpanOrdered(a, lo, hi);
    SpanOrdered(b, lo, hi);
    if a[0].used {
      AllocatedHead(a, b, lo, hi);
    } else if b[0].used {
      AllocatedHead(b, a, lo, hi);
    } else {
      FreeHeadEnd(a, b, lo, hi);
      FreeHeadEnd(b, a, lo, hi);
    }
  }

  lemma AllocatedHead(a: seq<Node>, b: seq<Node>, lo: nat, hi: nat)
    requires a != [] && Span(a, lo, hi) && a[0].used
    requires b != [] && Span(b, lo, hi)
    requires Live(a) == Live(b)
    ensures a[0] == b[0]
  {
    SpanOrdered(b, lo, hi);
    assert a[0] in Live(a);
    var j :| 0 <= j < |b| && b[j] == a[0];
    assert j == 0;
  }

  lemma FreeHeadEnd(a: seq<Node>, b: seq<Node>, lo: nat, hi: nat)
    requires a != [] && Span(a, lo, hi) && Coalesced(a) && !a[0].used
    requires b != [] && Span(b, lo, hi) && !b[0].used
    requires Live(a) == Live(b)
    ensures b[0].End() <= a[0].End()
  {
    SpanOrdered(b, lo, hi);
    if |a| > 1 {
      assert a[1].used && a[0].End() == a[1].addr;
      assert a[1] in Live(a);
      var j :| 0 <= j < |b| && b[j] == a[1];
      assert j > 0 && b[0].End() <= b[j].addr;
    }
  }

  /** Two coalesced heaps with the same live blocks are the same heap. */
  lemma Canonical(a: seq<Node>, b: seq<Node>)
    requires Tiles(a) && Coalesced(a) && Tiles(b) && Coalesced(b)
    requires Live(a) == Live(b)
    ensures a == b
  {
    CanonicalSpan(a, b, KHEAP_START, KHEAP_END);
  }

  /** Coalescing is idempotent, and the identity on heaps that need none. */
  lemma CompactFixpoint(ns: seq<Node>)
    requires Tiles(ns)
    ensures Coalesced(ns) <==> Compact(ns) == ns
    ensures Compact(Compact(ns)) == Compact(ns)
  {
    CompactProperties(ns, KHEAP_START, KHEAP_END);
    var c := Compact(ns);
    CompactProperties(c, KHEAP_START, KHEAP_END);
    Canonical(Compact(c), c);
    if Coalesced(ns) { Canonical(c, ns); }
  }
}
