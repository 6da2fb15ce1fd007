/** The kernel heap in memory: one byte array holding packed 11-byte node headers and block
    contents side by side, updated in place. Each method is proved to do to the chain of
    headers what the function of HeapOps does to the node list, and to leave the contents of
    every other live block alone. */
module Kheap {
  import opened Common
  import opened Bytes
  import opened HeapLayout
  import opened HeapOps
  import opened HeapTheorems

  const KHEAP_MAGIC: nat := 0x7ea4

  /** The header stored in memory for node `n`. */
  ghost predicate HeaderIs(m: seq<byte>, n: Node, next: nat) {
    && KHEAP_START <= n.addr && n.addr - KHEAP_START + HEADER <= |m|
    && var at := n.addr - KHEAP_START;
    && Le16(m, at) == KHEAP_MAGIC
    && Le32(m, at + 2) == n.size
    && Le32(m, at + 6) == next
    && m[at + 10] == if n.used then 1 else 0
  }

  /** The eleven packed bytes of a header: magic, size, next and flag, lowest byte first. */
  lemma HeaderBytes(m: seq<byte>, n: Node, next: nat)
    requires HeaderIs(m, n, next)
    ensures var at := n.addr - KHEAP_START;
            && m[at] == 0xa4 && m[at + 1] == 0x7e
            && m[at + 2] == n.size % 0x100 && m[at + 3] == n.size / 0x100 % 0x100
            && m[at + 4] == n.size / 0x1_0000 % 0x100 && m[at + 5] == n.size / 0x100_0000
            && m[at + 6] == next % 0x100 && m[at + 7] == next / 0x100 % 0x100
            && m[at + 8] == next / 0x1_0000 % 0x100 && m[at + 9] == next / 0x100_0000
            && m[at + 10] == if n.used then 1 else 0
  {
    var at := n.addr - KHEAP_START;
    LittleEndian(m[at..at + 4], 0);
    LittleEndian(m, at + 2);
    LittleEndian(m, at + 6);
  }

  /** Value of the `next_node` field of node `k`. */
  ghost function NextField(ns: seq<Node>, k: nat): nat
    requires k < |ns|
  {
    if k + 1 < |ns| then ns[k + 1].addr else NULL
  }

  /** The header of node `k` is in memory. */
  ghost predicate Stored(m: seq<byte>, ns: seq<Node>, k: nat)
    requires k < |ns|
  {
    HeaderIs(m, ns[k], NextField(ns, k))
  }

  /** Memory `m` holds exactly the chain of headers `ns`. */
  ghost predicate Represents(m: seq<byte>, ns: seq<Node>) {
    && |m| == KHEAP_END - KHEAP_START
    && ns != [] && ns[0].addr == KHEAP_START
    && Separated(ns)
    && forall k | 0 <= k < |ns| :: Stored(m, ns, k)
  }

  /** The contents of block `n` are the same in both memories. */
  ghost predicate Kept(n: Node, m: seq<byte>, m': seq<byte>) {
    |m| == |m'| && forall p | 0 <= p < |m| && n.Contents() <= p + KHEAP_START < n.End() :: m'[p] == m[p]
  }

  /** The contents of all live blocks but the one at `ptr` are the same in both memories. */
  ghost predicate OthersKept(ns: seq<Node>, ptr: nat, m: seq<byte>, m': seq<byte>) {
    forall n | n in ns && n.used && n.Contents() != ptr :: Kept(n, m, m')
  }

  lemma SeparatedAt(ns: seq<Node>, k: nat)
    requires Separated(ns) && k < |ns|
    ensures KHEAP_START <= ns[k].addr && ns[k].End() <= NextAddr(ns, k) <= KHEAP_END
    ensures NextAddr(ns, k) == Cut(ns, k + 1, KHEAP_END)
  {
    assert InHeap(ns, k);
    if k + 1 < |ns| { assert Before(ns, k, k + 1) && InHeap(ns, k + 1); }
  }

  /** Only bytes at addresses in [lo, hi) differ. */
  ghost predicate ChangedOnly(m: seq<byte>, m': seq<byte>, lo: nat, hi: nat) {
    |m| == |m'| && forall p | 0 <= p < |m| && !(lo <= p + KHEAP_START < hi) :: m'[p] == m[p]
  }

  /** `len` bytes from address `at` on are the same in both memories. */
  ghost predicate SameBytes(m: seq<byte>, m': seq<byte>, at: nat, len: nat) {
    |m| == |m'| && forall p | 0 <= p < |m| && at <= p + KHEAP_START < at + len :: m'[p] == m[p]
  }

  lemma HeaderFrame(m: seq<byte>, m': seq<byte>, lo: nat, hi: nat, n: Node, next: nat)
    requires HeaderIs(m, n, next) && ChangedOnly(m, m', lo, hi)
    requires n.addr + HEADER <= lo || hi <= n.addr
    ensures HeaderIs(m', n, next)
  {
    var at := n.addr - KHEAP_START;
    assert forall p | at <= p < at + HEADER :: m'[p] == m[p];
  }

  /** Rewriting the headers of neighbouring nodes `k..j` and nothing outside their bytes
      replaces them in the chain. */
  lemma Rechain(m: seq<byte>, m': seq<byte>, ns: seq<Node>, k: nat, j: nat, mid: seq<Node>)
    requires Represents(m, ns) && k < j <= |ns| && mid != [] && mid[0].addr == ns[k].addr
    requires ChangedOnly(m, m', ns[k].addr, Cut(ns, j, KHEAP_END))
    requires Separated(Splice(ns, k, j, mid))
    requires forall i | k <= i < k + |mid| :: Stored(m', Splice(ns, k, j, mid), i)
    ensures Represents(m', Splice(ns, k, j, mid))
  {
    var r := Splice(ns, k, j, mid);
    forall i | 0 <= i < |r| ensures Stored(m', r, i) {
      if i < k {
        KeptBefore(m, m', ns, k, j, mid, i);
      } else if k + |mid| <= i {
        KeptAfter(m, m', ns, k, j, mid, i - k - |mid| + j);
      }
    }
  }

  lemma ChangedWider(m: seq<byte>, m': seq<byte>, lo: nat, hi: nat, lo': nat, hi': nat)
    requires ChangedOnly(m, m', lo, hi) && lo' <= lo && hi <= hi'
    ensures ChangedOnly(m, m', lo', hi')
  {
  }

  lemma KeptBefore(m: seq<byte>, m': seq<byte>, ns: seq<Node>, k: nat, j: nat, mid: seq<Node>, i: nat)
    requires Represents(m, ns) && i < k < j <= |ns| && mid != [] && mid[0].addr == ns[k].addr
    requires ChangedOnly(m, m', ns[k].addr, Cut(ns, j, KHEAP_END))
    ensures Stored(m', Splice(ns, k, j, mid), i)
  {
    var r := Splice(ns, k, j, mid);
    assert Before(ns, i, k) && Stored(m, ns, i);
    HeaderFrame(m, m', ns[k].addr, Cut(ns, j, KHEAP_END), ns[i], NextField(ns, i));
    assert r[i] == ns[i] && r[i + 1].addr == ns[i + 1].addr;
  }

  lemma KeptAfter(m: seq<byte>, m': seq<byte>, ns: seq<Node>, k: nat, j: nat, mid: seq<Node>, i: nat)
    requires Represents(m, ns) && k < j <= i < |ns| && mid != []
    requires ChangedOnly(m, m', ns[k].addr, Cut(ns, j, KHEAP_END))
    ensures Stored(m', Splice(ns, k, j, mid), i - j + k + |mid|)
  {
    var o := i - j + k + |mid|;
    SpliceTail(ns, k, j, mid, i);
    assert Stored(m, ns, i);
    assert Cut(ns, j, KHEAP_END) <= ns[i].addr by { if j < i { assert Before(ns, j, i); } }
    HeaderFrame(m, m', ns[k].addr, Cut(ns, j, KHEAP_END), ns[i], NextField(ns, i));
  }

  lemma SpliceTail(ns: seq<Node>, k: nat, j: nat, mid: seq<Node>, i: nat)
    requires k < j <= i < |ns|
    ensures var r, o := Splice(ns, k, j, mid), i - j + k + |mid|;
            o < |r| && r[o] == ns[i] && NextField(r, o) == NextField(ns, i)
  {
    var r, o := Splice(ns, k, j, mid), i - j + k + |mid|;
    assert r[o] == ns[j..][i - j];
    if i + 1 < |ns| { assert r[o + 1] == ns[j..][i + 1 - j]; }
  }

  lemma SpliceSeparated(ns: seq<Node>, k: nat, j: nat, mid: seq<Node>)
    requires Separated(ns) && k < j <= |ns| && Separated(mid) && mid != []
    requires ns[k].addr <= mid[0].addr && mid[|mid| - 1].End() <= Cut(ns, j, KHEAP_END)
    ensures Separated(Splice(ns, k, j, mid))
  {
    var r := Splice(ns, k, j, mid);
    forall a: nat, b: nat | a < b < |r| ensures Before(r, a, b) {
      SpliceBefore(ns, k, j, mid, a, b);
    }
    forall a: nat | a < |r| ensures InHeap(r, a) {
      if a < k { assert InHeap(ns, a); }
      else if a < k + |mid| { assert InHeap(mid, a - k); }
      else { assert InHeap(ns, a - k - |mid| + j); }
    }
  }

  lemma SpliceBefore(ns: seq<Node>, k: nat, j: nat, mid: seq<Node>, a: nat, b: nat)
    requires Separated(ns) && k < j <= |ns| && Separated(mid) && mid != []
    requires ns[k].addr <= mid[0].addr && mid[|mid| - 1].End() <= Cut(ns, j, KHEAP_END)
    requires a < b < |Splice(ns, k, j, mid)|
    ensures Before(Splice(ns, k, j, mid), a, b)
  {
    var d, e := j - k - |mid|, |mid| - 1;
    if b < k {
      assert Before(ns, a, b);
    } else if k + |mid| <= a {
      assert Before(ns, a + d, b + d);
    } else if a < k && b < k + |mid| {
      assert Before(ns, a, k);
      if b > k { assert Before(mid, 0, b - k); }
    } else if a < k {
      assert Before(ns, a, b + d);
    } else if b < k + |mid| {
      assert Before(mid, a - k, b - k);
    } else {
      if a - k < e { assert Before(mid, a - k, e); }
      if b + d > j { assert Before(ns, j, b + d); }
    }
  }

  /** Rewriting nodes `k..j`, of which at most node `k` is in use, keeps all other contents. */
  lemma OthersUntouched(ns: seq<Node>, k: nat, j: nat, m: seq<byte>, m': seq<byte>)
    requires Separated(ns) && k < j <= |ns|
    requires forall i | k < i < j :: !ns[i].used
    requires ChangedOnly(m, m', ns[k].addr, Cut(ns, j, KHEAP_END))
    ensures OthersKept(ns, ns[k].Contents(), m, m')
    ensures !ns[k].used ==> OthersKept(ns, NULL, m, m')
  {
    forall n | n in ns && n.used && n != ns[k] ensures Kept(n, m, m') {
      var i :| 0 <= i < |ns| && ns[i] == n;
      if i < k { assert Before(ns, i, k); }
      else if j < i { assert Before(ns, j, i); }
    }
  }

  /** Nodes `k..j`, of which at most node `k` is in use, have become the one node `n`. */
  lemma CommitOne(m: seq<byte>, m': seq<byte>, ns: seq<Node>, k: nat, j: nat, n: Node, next: nat, hi: nat)
    requires Represents(m, ns) && k < j <= |ns| && n.addr == ns[k].addr
    requires forall i | k < i < j :: !ns[i].used
    requires ChangedOnly(m, m', ns[k].addr, hi) && hi <= Cut(ns, j, KHEAP_END)
    requires n.End() <= Cut(ns, j, KHEAP_END)
    requires HeaderIs(m', n, next) && next == if j < |ns| then ns[j].addr else NULL
    ensures Represents(m', Splice(ns, k, j, [n]))
    ensures OthersKept(ns, ns[k].Contents(), m, m')
    ensures !ns[k].used ==> OthersKept(ns, NULL, m, m')
  {
    var r := Splice(ns, k, j, [n]);
    ChangedWider(m, m', ns[k].addr, hi, ns[k].addr, Cut(ns, j, KHEAP_END));
    SeparatedAt(ns, k);
    SeparatedAt(ns, j - 1);
    SpliceSeparated(ns, k, j, [n]);
    assert Stored(m', r, k) by { if j < |ns| { assert r[k + 1] == ns[j]; } }
    Rechain(m, m', ns, k, j, [n]);
    OthersUntouched(ns, k, j, m, m');
  }

  /** Nodes `k..j`, of which at most node `k` is in use, have become the two nodes `a` and `b`. */
  lemma CommitTwo(m: seq<byte>, m': seq<byte>, ns: seq<Node>, k: nat, j: nat, a: Node, b: Node, next: nat, hi: nat)
    requires Represents(m, ns) && k < j <= |ns| && a.addr == ns[k].addr
    requires forall i | k < i < j :: !ns[i].used
    requires ChangedOnly(m, m', ns[k].addr, hi) && hi <= Cut(ns, j, KHEAP_END)
    requires a.End() <= b.addr && b.End() <= Cut(ns, j, KHEAP_END)
    requires HeaderIs(m', a, b.addr) && HeaderIs(m', b, next)
    requires next == if j < |ns| then ns[j].addr else NULL
    ensures Represents(m', Splice(ns, k, j, [a, b]))
    ensures OthersKept(ns, ns[k].Contents(), m, m')
    ensures !ns[k].used ==> OthersKept(ns, NULL, m, m')
  {
    var r := Splice(ns, k, j, [a, b]);
    ChangedWider(m, m', ns[k].addr, hi, ns[k].addr, Cut(ns, j, KHEAP_END));
    SeparatedAt(ns, k);
    SeparatedAt(ns, j - 1);
    SpliceSeparated(ns, k, j, [a, b]);
    assert Stored(m', r, k);
    assert Stored(m', r, k + 1) by {
      assert r[k + 1] == b;
      if j < |ns| { assert r[k + 2] == ns[j]; }
    }
    Rechain(m, m', ns, k, j, [a, b]);
    OthersUntouched(ns, k, j, m, m');
  }

  class KernelHeap {
    /** Memory from KHEAP_START up to KHEAP_END. */
    const mem: array<byte>
    var root: nat
    ghost var Nodes: seq<Node>

    ghost predicate Linked()
      reads this, mem
    {
      root == KHEAP_START && Represents(mem[..], Nodes)
    }

    ghost predicate Valid()
      reads this, mem
    {
      Linked() && Heap(Nodes)
    }

    constructor (memory: array<byte>)
      requires memory.Length == KHEAP_END - KHEAP_START
      modifies memory
      ensures mem == memory && Valid() && Nodes == INITIAL_HEAP
    {
      mem := memory;
      root := KHEAP_START;
      Nodes := INITIAL_HEAP;
      new;
      KheapInit();
    }

    /** `kheapInit` on memory with arbitrary contents. */
    method KheapInit()
      requires mem.Length == KHEAP_END - KHEAP_START
      modifies this`root, this`Nodes, mem
      ensures Valid() && Nodes == INITIAL_HEAP
    {
      root := KHEAP_START;
      Nodes := INITIAL_HEAP;
      WriteHeader(KHEAP_START, KHEAP_END - KHEAP_START - HEADER, NULL, false);
    }

    // ------------------------------------------------------- header fields

    method WriteHeader(place: nat, size: nat, next: nat, used: bool)
      requires KHEAP_START <= place && place - KHEAP_START + HEADER <= mem.Length
      requires size < U32 && next < U32
      modifies mem
      ensures HeaderIs(mem[..], Node(place, size, used), next)
      ensures ChangedOnly(old(mem[..]), mem[..], place, place + HEADER)
    {
      var at := place - KHEAP_START;
      Store16(mem, at, KHEAP_MAGIC);
      Store32(mem, at + 2, size);
      Store32(mem, at + 6, next);
      mem[at + 10] := if used then 1 else 0;
    }

    method SetSize(a: nat, size: nat, ghost n: Node, ghost next: nat)
      requires HeaderIs(mem[..], n, next) && n.addr == a && size < U32
      modifies mem
      ensures HeaderIs(mem[..], n.(size := size), next)
      ensures ChangedOnly(old(mem[..]), mem[..], a, a + HEADER)
    {
      Store32(mem, a - KHEAP_START + 2, size);
    }

    method SetNext(a: nat, next: nat, ghost n: Node, ghost was: nat)
      requires HeaderIs(mem[..], n, was) && n.addr == a && next < U32
      modifies mem
      ensures HeaderIs(mem[..], n, next)
      ensures ChangedOnly(old(mem[..]), mem[..], a, a + HEADER)
    {
      Store32(mem, a - KHEAP_START + 6, next);
    }

    method SetSizeAndNext(a: nat, size: nat, next: nat, ghost n: Node, ghost was: nat, ghost n': Node)
      requires HeaderIs(mem[..], n, was) && n.addr == a && size < U32 && next < U32
      requires n' == n.(size := size)
      modifies mem
      ensures HeaderIs(mem[..], n', next)
      ensures ChangedOnly(old(mem[..]), mem[..], a, a + HEADER)
    {
      SetSize(a, size, n, was);
      SetNext(a, next, n.(size := size), was);
    }

    method SetUsed(a: nat, used: bool, ghost n: Node, ghost next: nat)
      requires HeaderIs(mem[..], n, next) && n.addr == a
      modifies mem
      ensures HeaderIs(mem[..], n.(used := used), next)
      ensures ChangedOnly(old(mem[..]), mem[..], a, a + HEADER)
    {
      mem[a - KHEAP_START + 10] := if used then 1 else 0;
    }

    method ReadMagic(a: nat) returns (magic: nat)
      requires KHEAP_START <= a && a - KHEAP_START + HEADER <= mem.Length
      ensures magic == Le16(mem[..], a - KHEAP_START)
    {
      magic := mem[a - KHEAP_START] as int + 0x100 * (mem[a - KHEAP_START + 1] as int);
    }

    method GetSize(a: nat, ghost n: Node, ghost next: nat) returns (size: nat)
      requires HeaderIs(mem[..], n, next) && n.addr == a
      ensures size == n.size
    {
      size := Load32(mem, a - KHEAP_START + 2);
    }

    method GetNext(a: nat, ghost n: Node, ghost next: nat) returns (r: nat)
      requires HeaderIs(mem[..], n, next) && n.addr == a
      ensures r == next
    {
      r := Load32(mem, a - KHEAP_START + 6);
    }

    method GetUsed(a: nat, ghost n: Node, ghost next: nat) returns (used: bool)
      requires HeaderIs(mem[..], n, next) && n.addr == a
      ensures used == n.used
    {
      used := mem[a - KHEAP_START + 10] != 0;
    }

    // ---------------------------------------------------------- coalescing

    /** `compactHeap`: merge runs of free nodes in place. It ends although a merge does not
        advance, because each merge removes a node. */
    method CompactHeap()
      requires Linked() && Tiles(Nodes)
      modifies this`Nodes, mem
      ensures Linked() && Nodes == Compact(old(Nodes))
      ensures OthersKept(old(Nodes), NULL, old(mem[..]), mem[..])
    {
      ghost var ns0, m0 := Nodes, mem[..];
      var iter := root;
      ghost var i := 0;
      while iter != NULL
        invariant Linked() && Tiles(Nodes)
        invariant iter != NULL && i < |Nodes| && Nodes[i].addr == iter
        invariant Nodes[..i] + Compact(Nodes[i..]) == Compact(ns0)
        invariant Live(Nodes) == Live(ns0) && OthersKept(ns0, NULL, m0, mem[..])
        decreases |Nodes| - i
      {
        ghost var n, next := Nodes[i], NextField(Nodes, i);
        assert Stored(mem[..], Nodes, i);
        var following := GetNext(iter, n, next);
        if following == NULL { break; }
        assert following == Nodes[i + 1].addr;
        ghost var n2, next2 := Nodes[i + 1], NextField(Nodes, i + 1);
        assert Stored(mem[..], Nodes, i + 1);
        var used := GetUsed(iter, n, next);
        var used2 := GetUsed(following, n2, next2);
        if !used && !used2 {
          ghost var ns, m := Nodes, mem[..];
          MergeAt(iter, i);
          OthersTransitive(ns0, ns, NULL, NULL, m0, m, mem[..]);
          continue;
        }
        CompactAdvance(Nodes, i);
        iter := following;
        i := i + 1;
      }
    }

    /** One merge: the free node at `iter` swallows the free node behind it. */
    method MergeAt(iter: nat, ghost i: nat)
      requires Linked() && Tiles(Nodes) && i + 1 < |Nodes| && Nodes[i].addr == iter
      requires !Nodes[i].used && !Nodes[i + 1].used
      modifies this`Nodes, mem
      ensures Linked() && Tiles(Nodes)
      ensures |Nodes| == |old(Nodes)| - 1 && Nodes[i].addr == iter
      ensures Live(Nodes) == Live(old(Nodes))
      ensures Nodes[..i] == old(Nodes[..i]) && Compact(Nodes[i..]) == Compact(old(Nodes[i..]))
      ensures OthersKept(old(Nodes), NULL, old(mem[..]), mem[..])
    {
      ghost var ns, m := Nodes, mem[..];
      ghost var n, n2, next, next2 := ns[i], ns[i + 1], NextField(ns, i), NextField(ns, i + 1);
      assert Stored(mem[..], ns, i);
      assert Stored(mem[..], ns, i + 1);
      NextIsEnd(ns, i);
      ghost var merged := Merged(ns, i);
      MergeEnds(ns, i);
      MergeIsSplice(ns, i);
      var size := GetSize(iter, n, next);
      var following := GetNext(iter, n, next);
      var size2 := GetSize(following, n2, next2);
      var beyond := GetNext(following, n2, next2);
      SetSizeAndNext(iter, size + HEADER + size2, beyond, n, next, merged);
      ghost var m' := mem[..];
      CommitOne(m, m', ns, i, i + 2, merged, beyond, n.addr + HEADER);
      MergeCompacts(ns, i);
      Nodes := Splice(ns, i, i + 2, [merged]);
      assert mem[..] == m';
    }

    // ---------------------------------------------------- splitting a node

    /** Write a new header at `place`, behind the header of `n`, and link `n` to it. */
    method LinkBehind(a: nat, ghost n: Node, ghost was: nat,
                      place: nat, size: nat, next: nat, used: bool, ghost new2: Node)
      requires HeaderIs(mem[..], n, was) && n.addr == a && a + HEADER <= place < U32
      requires new2 == Node(place, size, used)
      requires place - KHEAP_START + HEADER <= mem.Length && size < U32 && next < U32
      modifies mem
      ensures HeaderIs(mem[..], n, place) && HeaderIs(mem[..], new2, next)
      ensures ChangedOnly(old(mem[..]), mem[..], a, place + HEADER)
      ensures forall p | 0 <= p < mem.Length && a + HEADER <= p + KHEAP_START < place :: mem[p] == old(mem[p])
    {
      ghost var m0 := mem[..];
      WriteHeader(place, size, next, used);
      HeaderFrame(m0, mem[..], place, place + HEADER, n, was);
      ghost var m1 := mem[..];
      SetNext(a, place, n, was);
      HeaderFrame(m1, mem[..], a, a + HEADER, new2, next);
    }

    /** Write a new header at `place`, cut `n` down to `n'` in front of it and link the two. */
    method CutAndLink(a: nat, ghost n: Node, ghost was: nat, size: nat, ghost n': Node,
                      place: nat, size2: nat, next: nat, used2: bool, ghost new2: Node)
      requires HeaderIs(mem[..], n, was) && n.addr == a && n' == n.(size := size) && n'.End() <= place < U32
      requires new2 == Node(place, size2, used2)
      requires place - KHEAP_START + HEADER <= mem.Length && size < U32 && size2 < U32 && next < U32
      modifies mem
      ensures HeaderIs(mem[..], n', place) && HeaderIs(mem[..], new2, next)
      ensures ChangedOnly(old(mem[..]), mem[..], a, place + HEADER)
      ensures SameBytes(old(mem[..]), mem[..], a + HEADER, size)
    {
      ghost var m0 := mem[..];
      WriteHeader(place, size2, next, used2);
      HeaderFrame(m0, mem[..], place, place + HEADER, n, was);
      ghost var m1 := mem[..];
      SetSizeAndNext(a, size, place, n, was, n');
      HeaderFrame(m1, mem[..], a, a + HEADER, new2, next);
    }

    /** `consumeEmptySpace`, with the gap its comment describes. */
    method ConsumeEmptySpace(node: nat, ghost k: nat)
      requires Linked() && k < |Nodes| && Nodes[k].addr == node
      requires Nodes[k].End() <= NextAddr(Nodes, k)
      modifies this`Nodes, mem
      ensures Linked() && Nodes == Consume(old(Nodes), k)
      ensures OthersKept(old(Nodes), old(Nodes)[k].Contents(), old(mem[..]), mem[..])
    {
      ghost var ns, m := Nodes, mem[..];
      ghost var n, next := ns[k], NextField(ns, k);
      assert Stored(mem[..], ns, k);
      SeparatedAt(ns, k);
      var following := GetNext(node, n, next);
      var size := GetSize(node, n, next);
      var limit := if following == NULL then KHEAP_END else following;
      var gap := limit - (node + HEADER + size);
      assert gap == NextAddr(ns, k) - n.End() && node + HEADER + size == n.End();
      if gap > HEADER {
        ghost var rest := Node(n.End(), NextAddr(ns, k) - n.End() - HEADER, false);
        LinkBehind(node, n, next, node + HEADER + size, gap - HEADER, following, false, rest);
        ghost var m1 := mem[..];
        ConsumedBySplit(m, m1, ns, k, n, rest, next);
      } else {
        ghost var grown := n.(size := size + gap);
        SetSize(node, size + gap, n, next);
        ghost var m1 := mem[..];
        ConsumedByGrowing(m, m1, ns, k, grown, next);
      }
      ghost var ns', m' := Consume(ns, k), mem[..];
      assert Represents(m', ns') && OthersKept(ns, ns[k].Contents(), m, m');
      Nodes := ns';
      assert mem[..] == m';
    }

    // ---------------------------------------------------------- allocation

    /** The search of `__kheapAlloc`. On a heap that has been initialised it never comes across a
        header without its magic number. */
    method FindFit(size: nat) returns (iter: nat, ghost k: nat)
      requires Linked()
      ensures k == FirstFit(Nodes, size, 0)
      ensures var fit := FirstFit(Nodes, size, 0);
              iter == (if fit < |Nodes| then Nodes[fit].addr else NULL) && (iter != NULL <==> fit < |Nodes|)
    {
      iter, k := root, 0;
      while iter != NULL
        invariant k <= |Nodes| && iter == if k < |Nodes| then Nodes[k].addr else NULL
        invariant FirstFit(Nodes, size, k) == FirstFit(Nodes, size, 0)
        invariant iter != NULL <==> k < |Nodes|
        decreases |Nodes| - k
      {
        ghost var n, next := Nodes[k], NextField(Nodes, k);
        assert Stored(mem[..], Nodes, k);
        SeparatedAt(Nodes, k);
        var magic := ReadMagic(iter);
        assert magic == KHEAP_MAGIC;
        var used := GetUsed(iter, n, next);
        var room := GetSize(iter, n, next);
        if !used && room >= size { break; }
        iter := GetNext(iter, n, next);
        k := k + 1;
      }
    }

    /** Cut free node `k` down to `size` bytes and mark it as in use. */
    method Take(node: nat, size: nat, ghost k: nat)
      requires Linked() && k < |Nodes| && Nodes[k].addr == node && Fits(Nodes[k], size)
      modifies this`Nodes, mem
      ensures Linked() && Nodes == old(Nodes)[k := Node(node, size, true)]
      ensures OthersKept(old(Nodes), NULL, old(mem[..]), mem[..])
    {
      ghost var ns, m := Nodes, mem[..];
      ghost var n, next := ns[k], NextField(ns, k);
      assert Stored(mem[..], ns, k);
      SeparatedAt(ns, k);
      SetSize(node, size, n, next);
      SetUsed(node, true, n.(size := size), next);
      ghost var m' := mem[..];
      Replaced(m, m', ns, k, Node(node, size, true));
      Nodes := ns[k := Node(node, size, true)];
      assert mem[..] == m';
    }

    /** `kheapAlloc`; NULL where the source reports that there is no space and spins. Memory whose
        first header is missing, as when a page fault has just supplied it, is initialised first. */
    method KheapAlloc(size: nat) returns (ptr: nat)
      requires mem.Length == KHEAP_END - KHEAP_START && root == KHEAP_START
      requires Valid() || Le16(mem[..], 0) != KHEAP_MAGIC
      modifies this`root, this`Nodes, mem
      ensures Valid() && Allocated(if old(Valid()) then old(Nodes) else INITIAL_HEAP, size, ptr, Nodes)
      ensures Nodes == Step(if old(Valid()) then old(Nodes) else INITIAL_HEAP, OpAlloc(size))
      ensures old(Valid()) ==> OthersKept(old(Nodes), NULL, old(mem[..]), mem[..])
      ensures old(Valid()) && ptr == NULL ==> mem[..] == old(mem[..])
    {
      ptr := AllocOrRetry(size, true);
    }

    /** `__kheapAlloc`, which calls itself once when it finds the first header missing. */
    method AllocOrRetry(size: nat, firstTime: bool) returns (ptr: nat)
      requires mem.Length == KHEAP_END - KHEAP_START && root == KHEAP_START
      requires Valid() || (firstTime && Le16(mem[..], 0) != KHEAP_MAGIC)
      modifies this`root, this`Nodes, mem
      ensures Valid() && Allocated(if old(Valid()) then old(Nodes) else INITIAL_HEAP, size, ptr, Nodes)
      ensures old(Valid()) ==> OthersKept(old(Nodes), NULL, old(mem[..]), mem[..])
      ensures old(Valid()) && ptr == NULL ==> mem[..] == old(mem[..])
      decreases firstTime
    {
      assert Linked() ==> Stored(mem[..], Nodes, 0);
      var magic := ReadMagic(root);
      if magic != KHEAP_MAGIC {
        KheapInit();
        ptr := AllocOrRetry(size, false);
        return;
      }
      ptr := AllocFirstFit(size);
    }

    /** The rest of `__kheapAlloc`. */
    method AllocFirstFit(size: nat) returns (ptr: nat)
      requires Valid()
      modifies this`Nodes, mem
      ensures Valid() && Allocated(old(Nodes), size, ptr, Nodes)
      ensures OthersKept(old(Nodes), NULL, old(mem[..]), mem[..])
      ensures ptr == NULL ==> mem[..] == old(mem[..])
    {
      ghost var ns, m := Nodes, mem[..];
      AllocCorrect(ns, size);
      var iter, k := FindFit(size);
      if iter == NULL { return NULL; }
      AllocSteps(ns, k, size);
      Take(iter, size, k);
      ghost var ns1, m1 := Nodes, mem[..];
      ConsumeEmptySpace(iter, k);
      ghost var ns2, m2 := Nodes, mem[..];
      CompactHeap();
      KeptThrough(ns, ns1, ns2, k, m, m1, m2, mem[..]);
      return iter + HEADER;
    }

    /** The search of `kheapAlignedAlloc`, with the subtraction in its second guard taken
        without wrap-around. */
    method FindAlignedFit(size: nat, alignment: nat) returns (iter: nat, chosen: nat, ghost k: nat)
      requires Linked() && alignment > 0
      ensures k == FirstFitAligned(Nodes, size, alignment, 0)
      ensures var fit := FirstFitAligned(Nodes, size, alignment, 0);
              && iter == (if fit < |Nodes| then Nodes[fit].addr else NULL) && (iter != NULL <==> fit < |Nodes|)
              && (fit < |Nodes| ==> chosen == Nodes[fit].Contents() + AlignOffset(Nodes[fit].Contents(), alignment))
    {
      iter, chosen, k := root, NULL, 0;
      while iter != NULL
        invariant k <= |Nodes| && iter == if k < |Nodes| then Nodes[k].addr else NULL
        invariant iter != NULL <==> k < |Nodes|
        invariant FirstFitAligned(Nodes, size, alignment, k) == FirstFitAligned(Nodes, size, alignment, 0)
        decreases |Nodes| - k
      {
        ghost var n, next := Nodes[k], NextField(Nodes, k);
        assert Stored(mem[..], Nodes, k);
        SeparatedAt(Nodes, k);
        var magic := ReadMagic(iter);
        assert magic == KHEAP_MAGIC;
        var used := GetUsed(iter, n, next);
        var room := GetSize(iter, n, next);
        if !used && room >= HEADER + size {
          var firstByte := iter + HEADER;
          var offset := alignment - firstByte % alignment;
          if offset == alignment { offset := 0; }
          if room < offset + HEADER + size {
            iter := GetNext(iter, n, next);
            k := k + 1;
            continue;
          }
          chosen := firstByte + offset;
          break;
        }
        iter := GetNext(iter, n, next);
        k := k + 1;
      }
    }

    /** Put a block of `size` bytes at `chosen`, inside free node `k`, which keeps what precedes it. */
    method PlaceInside(node: nat, chosen: nat, size: nat, ghost k: nat)
      requires Linked() && k < |Nodes| && Nodes[k].addr == node && !Nodes[k].used
      requires Nodes[k].Contents() <= chosen && chosen + HEADER + size <= Nodes[k].End()
      modifies this`Nodes, mem
      ensures Linked() && Nodes == SplitOff(old(Nodes), k, chosen - old(Nodes)[k].Contents(), size)
      ensures OthersKept(old(Nodes), NULL, old(mem[..]), mem[..])
    {
      ghost var ns, m := Nodes, mem[..];
      ghost var n, next := ns[k], NextField(ns, k);
      assert Stored(mem[..], ns, k);
      SeparatedAt(ns, k);
      var following := GetNext(node, n, next);
      ghost var block := Node(chosen, size, true);
      ghost var padding := n.(size := chosen - node - HEADER);
      CutAndLink(node, n, next, chosen - node - HEADER, padding, chosen, size, following, true, block);
      ghost var m' := mem[..];
      PlacedInside(m, m', ns, k, padding, block);
      Nodes := SplitOff(ns, k, chosen - n.Contents(), size);
      assert mem[..] == m';
    }

    /** `kheapAlignedAlloc`; NULL where the source reports that there is no space and spins. */
    method KheapAlignedAlloc(size: nat, alignment: nat) returns (ptr: nat)
      requires Valid() && alignment > 0
      modifies this`Nodes, mem
      ensures Valid()
      ensures match AlignedAlloc(old(Nodes), size, alignment)
              case None => ptr == NULL && Nodes == old(Nodes) && mem[..] == old(mem[..])
              case Some(o) => ptr == o.ptr && Nodes == o.nodes
      ensures Nodes == Step(old(Nodes), OpAlignedAlloc(size, alignment))
      ensures OthersKept(old(Nodes), NULL, old(mem[..]), mem[..])
    {
      ghost var ns, m := Nodes, mem[..];
      var iter, chosen, k := FindAlignedFit(size, alignment);
      if iter == NULL { return NULL; }
      ghost var offset := AlignedSteps(ns, k, size, alignment);
      PlaceInside(iter, chosen, size, k);
      ghost var ns1, m1 := Nodes, mem[..];
      ConsumeEmptySpace(chosen, k + 1);
      ghost var ns2, m2 := Nodes, mem[..];
      CompactHeap();
      KeptThrough(ns, ns1, ns2, k + 1, m, m1, m2, mem[..]);
      return chosen + HEADER;
    }

    // -------------------------------------------------------- deallocation

    /** `kheapFree`; false where the source finds no header magic before `ptr` and spins. */
    method KheapFree(ptr: nat) returns (ok: bool)
      requires Valid() && KHEAP_START + HEADER <= ptr <= KHEAP_END
      requires IndexOf(Nodes, ptr, 0) < |Nodes| || Le16(mem[..], ptr - HEADER - KHEAP_START) != KHEAP_MAGIC
      modifies this`Nodes, mem
      ensures Valid()
      ensures ok <==> IndexOf(old(Nodes), ptr, 0) < |old(Nodes)|
      ensures Nodes == if ok then Free(old(Nodes), IndexOf(old(Nodes), ptr, 0)) else old(Nodes)
      ensures Nodes == Step(old(Nodes), OpFree(ptr))
      ensures !ok ==> mem[..] == old(mem[..])
      ensures OthersKept(old(Nodes), ptr, old(mem[..]), mem[..])
    {
      ghost var ns, m := Nodes, mem[..];
      ghost var k := IndexOf(ns, ptr, 0);
      assert k < |ns| ==> Stored(mem[..], ns, k);
      var node := ptr - HEADER;
      var magic := ReadMagic(node);
      if magic != KHEAP_MAGIC { return false; }
      FreeCorrect(ns, k);
      FreeSteps(ns, k);
      FreeIsStep(ns, ptr);
      ghost var n := ns[k].(used := false);
      SetUsed(node, false, ns[k], NextField(ns, k));
      ghost var m1 := mem[..];
      Replaced(m, m1, ns, k, n);
      Nodes := ns[k := n];
      assert mem[..] == m1;
      CompactHeap();
      OthersTransitive(ns, ns[k := n], ptr, NULL, m, m1, mem[..]);
      return true;
    }

    // -------------------------------------------------------- reallocation

    /** Rewrite block `k` as `size` bytes followed by a free node filling the rest of the `room`
        bytes up to node `j`, whose address is `beyond`. */
    method Carve(node: nat, size: nat, room: nat, beyond: nat, ghost k: nat, ghost j: nat)
      requires Linked() && k < j <= |Nodes| && Nodes[k].addr == node
      requires size + HEADER + 1 <= room && Cut(Nodes, j, KHEAP_END) == Nodes[k].Contents() + room
      requires beyond == if j < |Nodes| then Nodes[j].addr else NULL
      requires forall i | k < i < j :: !Nodes[i].used
      modifies this`Nodes, mem
      ensures Linked() && Nodes == Resize(old(Nodes), k, j, size, room)
      ensures OthersKept(old(Nodes), old(Nodes)[k].Contents(), old(mem[..]), mem[..])
      ensures SameBytes(old(mem[..]), mem[..], node + HEADER, size)
    {
      ghost var ns, m := Nodes, mem[..];
      ghost var n, next := ns[k], NextField(ns, k);
      assert Stored(mem[..], ns, k);
      SeparatedAt(ns, k);
      SeparatedAt(ns, j - 1);
      ghost var cut, rest := n.(size := size), Node(n.Contents() + size, room - size - HEADER, false);
      var place := node + HEADER + size;
      CutAndLink(node, n, next, size, cut, place, room - size - HEADER, beyond, false, rest);
      ghost var m' := mem[..];
      ResizedBySplit(m, m', ns, k, j, cut, rest, size, room);
      Nodes := Resize(ns, k, j, size, room);
      assert mem[..] == m';
    }

    /** Rewrite block `k` as all the `room` bytes up to node `j`, whose address is `beyond`. */
    method Absorb(node: nat, room: nat, beyond: nat, ghost k: nat, ghost j: nat)
      requires Linked() && k < j <= |Nodes| && Nodes[k].addr == node
      requires Cut(Nodes, j, KHEAP_END) == Nodes[k].Contents() + room
      requires beyond == if j < |Nodes| then Nodes[j].addr else NULL
      requires forall i | k < i < j :: !Nodes[i].used
      modifies this`Nodes, mem
      ensures Linked() && Nodes == Resize(old(Nodes), k, j, room, room)
      ensures OthersKept(old(Nodes), old(Nodes)[k].Contents(), old(mem[..]), mem[..])
      ensures SameBytes(old(mem[..]), mem[..], node + HEADER, room)
    {
      ghost var ns, m := Nodes, mem[..];
      ghost var n, next := ns[k], NextField(ns, k);
      assert Stored(mem[..], ns, k);
      SeparatedAt(ns, k);
      SeparatedAt(ns, j - 1);
      ghost var n' := n.(size := room);
      SetSizeAndNext(node, room, beyond, n, next, n');
      ghost var m' := mem[..];
      CommitOne(m, m', ns, k, j, n', beyond, node + HEADER);
      ResizeIsSplice(ns, k, j, room, room);
      Nodes := Resize(ns, k, j, room, room);
      assert mem[..] == m';
    }

    /** Bytes the block at `node` would have with the free space behind it, and what follows. */
    method MeasureRoom(node: nat, ghost k: nat) returns (room: nat, beyond: nat)
      requires Valid() && k < |Nodes| && Nodes[k].addr == node
      ensures room == Room(Nodes, k)
      ensures var j := FreeRunEnd(Nodes, k + 1); beyond == if j < |Nodes| then Nodes[j].addr else NULL
    {
      assert Stored(mem[..], Nodes, k);
      SeparatedAt(Nodes, k);
      room := GetSize(node, Nodes[k], NextField(Nodes, k));
      beyond := GetNext(node, Nodes[k], NextField(Nodes, k));
      ghost var j := k + 1;
      while beyond != NULL
        invariant k < j <= |Nodes| && (beyond != NULL <==> j < |Nodes|) && beyond == if j < |Nodes| then Nodes[j].addr else NULL
        invariant FreeRunEnd(Nodes, j) == FreeRunEnd(Nodes, k + 1)
        invariant Nodes[j - 1].End() == Nodes[k].Contents() + room
        decreases |Nodes| - j
      {
        assert Stored(mem[..], Nodes, j);
        SeparatedAt(Nodes, j);
        var used := GetUsed(beyond, Nodes[j], NextField(Nodes, j));
        if used { break; }
        var size := GetSize(beyond, Nodes[j], NextField(Nodes, j));
        room := room + HEADER + size;
        NextIsEnd(Nodes, j - 1);
        beyond := GetNext(beyond, Nodes[j], NextField(Nodes, j));
        j := j + 1;
      }
      NextIsEnd(Nodes, j - 1);
    }

    /** Resize block `k` within the `room` bytes up to node `j`, whose address is `beyond`;
        coalesce when that leaves a new free node. */
    method ResizeWithin(node: nat, size: nat, room: nat, beyond: nat, ghost k: nat, ghost j: nat)
      requires Valid() && k < j <= |Nodes| && Nodes[k].addr == node && Nodes[k].used && size <= room
      requires Cut(Nodes, j, KHEAP_END) == Nodes[k].Contents() + room
      requires beyond == if j < |Nodes| then Nodes[j].addr else NULL
      requires forall i | k < i < j :: !Nodes[i].used
      modifies this`Nodes, mem
      ensures Valid()
      ensures Nodes == if room - size >= HEADER + 1 then Compact(Resize(old(Nodes), k, j, size, room))
                       else Resize(old(Nodes), k, j, size, room)
      ensures OthersKept(old(Nodes), old(Nodes)[k].Contents(), old(mem[..]), mem[..])
      ensures SameContents(old(mem[..]), node + HEADER, mem[..], node + HEADER, size)
    {
      ghost var ns, m := Nodes, mem[..];
      ResizeCorrect(ns, k, j, size, room);
      SeparatedAt(ns, k);
      SeparatedAt(ns, j - 1);
      if room - size >= HEADER + 1 {
        Carve(node, size, room, beyond, k, j);
        CompactResized(ns, m, k, j, size, room);
      } else {
        Absorb(node, room, beyond, k, j);
        assert Resize(ns, k, j, size, room) == Resize(ns, k, j, room, room);
      }
      ghost var m', at := mem[..], node + HEADER;
      SameBytesContents(m, m', at, size);
      assert mem[..] == m' && at == ns[k].Contents();
    }

    /** `kheapRealloc` on the live block at `ptr`, with byte-wise addressing and room that counts
        the block's own bytes. False where the source spins: no header magic, or no space. */
    method KheapRealloc(ptr: nat, size: nat) returns (ok: bool, p: nat)
      requires Valid() && KHEAP_START + HEADER <= ptr <= KHEAP_END
      requires BlockAt(Nodes, ptr).Some? || Le16(mem[..], ptr - HEADER - KHEAP_START) != KHEAP_MAGIC
      modifies this`root, this`Nodes, mem
      ensures Valid() && Reallocated(old(Nodes), old(mem[..]), ptr, size, ok, p, Nodes, mem[..])
      ensures Nodes == Step(old(Nodes), OpRealloc(ptr, size))
    {
      ghost var k := IndexOf(Nodes, ptr, 0);
      assert k < |Nodes| ==> Stored(mem[..], Nodes, k);
      if size == 0 {
        ok := KheapFree(ptr);
        return ok, NULL;
      }
      var node := ptr - HEADER;
      var magic := ReadMagic(node);
      if magic != KHEAP_MAGIC { return false, NULL; }
      var current := GetSize(node, Nodes[k], NextField(Nodes, k));
      if size == current {
        LeftAsIs(Nodes, mem[..], ptr, size);
        return true, ptr;
      }
      if size < current {
        p := Shrink(ptr, size, current, k);
        return true, p;
      }
      ok, p := Grow(ptr, size, k);
    }

    /** The part of `kheapRealloc` for sizes below the current one. */
    method Shrink(ptr: nat, size: nat, current: nat, ghost k: nat) returns (p: nat)
      requires Valid() && KHEAP_START + HEADER <= ptr <= KHEAP_END
      requires k == IndexOf(Nodes, ptr, 0) < |Nodes| && Nodes[k].used && 0 < size < current == Nodes[k].size
      modifies this`Nodes, mem
      ensures Valid() && Reallocated(old(Nodes), old(mem[..]), ptr, size, true, p, Nodes, mem[..])
    {
      ghost var ns, m := Nodes, mem[..];
      if current - size >= HEADER + 1 {
        NextIsEnd(ns, k);
        assert Stored(m, ns, k);
        var following := GetNext(ptr - HEADER, ns[k], NextField(ns, k));
        ResizeWithin(ptr - HEADER, size, current, following, k, k + 1);
        ghost var m' := mem[..];
        ShrunkInPlace(ns, m, ptr, k, size, Nodes, m');
        assert mem[..] == m';
        return ptr;
      }
      LeftAsIs(ns, m, ptr, size);
      return ptr;
    }

    /** The part of `kheapRealloc` for sizes above the current one. */
    method Grow(ptr: nat, size: nat, ghost k: nat) returns (ok: bool, p: nat)
      requires Valid() && KHEAP_START + HEADER <= ptr <= KHEAP_END
      requires k == IndexOf(Nodes, ptr, 0) < |Nodes| && Nodes[k].used && size > Nodes[k].size
      modifies this`root, this`Nodes, mem
      ensures Valid() && Reallocated(old(Nodes), old(mem[..]), ptr, size, ok, p, Nodes, mem[..])
    {
      ghost var ns, m := Nodes, mem[..];
      RoomCorrect(ns, k);
      var room, beyond := MeasureRoom(ptr - HEADER, k);
      if size <= room {
        ResizeWithin(ptr - HEADER, size, room, beyond, k, FreeRunEnd(ns, k + 1));
        GrownInPlace(ns, m, ptr, k, size, Nodes, mem[..]);
        return true, ptr;
      }
      ok, p := Move(ptr, size, k);
    }

    /** The `compactHeap` that ends an in-place resize. */
    method CompactResized(ghost ns: seq<Node>, ghost m: seq<byte>, ghost k: nat, ghost j: nat, ghost size: nat, ghost room: nat)
      requires Linked() && Heap(ns) && k < j <= |ns| && ns[k].used && size + HEADER + 1 <= room
      requires Nodes == Resize(ns, k, j, size, room) && Tiles(Nodes) && Heap(Compact(Nodes))
      requires Live(Nodes) == Live(ns) - {ns[k]} + {Resized(ns[k], size, room)}
      requires OthersKept(ns, ns[k].Contents(), m, mem[..])
      requires SameBytes(m, mem[..], ns[k].Contents(), size)
      modifies this`Nodes, mem
      ensures Valid() && Nodes == Compact(Resize(ns, k, j, size, room))
      ensures OthersKept(ns, ns[k].Contents(), m, mem[..])
      ensures SameBytes(m, mem[..], ns[k].Contents(), size)
    {
      ghost var ns1, m1 := Nodes, mem[..];
      TilesSeparated(ns);
      CompactHeap();
      forall n | n in ns && n.used && n.Contents() != ns[k].Contents() ensures n in Live(ns1) && n.Contents() != NULL {
        assert n in Live(ns);
      }
      OthersTransitive(ns, ns1, ns[k].Contents(), NULL, m, m1, mem[..]);
      assert Resized(ns[k], size, room) in Live(ns1);
      assert Kept(Resized(ns[k], size, room), m1, mem[..]);
    }

    /** Copy the contents of block `n` to the front of block `b`. */
    method CopyBlock(ptr: nat, p: nat, ghost n: Node, ghost b: Node)
      requires Linked() && n in Live(Nodes) && b in Live(Nodes) && n != b && n.size <= b.size
      requires ptr == n.Contents() && p == b.Contents()
      modifies mem
      ensures Linked()
      ensures OthersKept(Nodes, b.Contents(), old(mem[..]), mem[..])
      ensures SameContents(old(mem[..]), ptr, mem[..], p, n.size)
    {
      ghost var i, j := Positions(Nodes, n, b);
      ghost var m := mem[..];
      assert Stored(m, Nodes, i);
      var current := GetSize(ptr - HEADER, n, NextField(Nodes, i));
      var dest, src := p - KHEAP_START, ptr - KHEAP_START;
      var written := MemCopy(mem, dest, src, current);
      ghost var m' := mem[..];
      assert m'[dest..][..current] == m'[dest..dest + current] && m[src..][..current] == m[src..src + current];
      ContentsWritten(m, m', Nodes, b);
    }

    /** The last resort of `kheapRealloc`: allocate, copy, free. */
    method Move(ptr: nat, size: nat, ghost k: nat) returns (ok: bool, p: nat)
      requires Valid() && KHEAP_START + HEADER <= ptr <= KHEAP_END
      requires k == IndexOf(Nodes, ptr, 0) < |Nodes| && Nodes[k].used
      requires size > Room(Nodes, k) && size > 0
      modifies this`root, this`Nodes, mem
      ensures Valid()
      ensures Reallocated(old(Nodes), old(mem[..]), ptr, size, ok, p, Nodes, mem[..])
    {
      ghost var ns, m := Nodes, mem[..];
      p := KheapAlloc(size);
      MoveFails(ns, k, size);
      if p == NULL {
        NotMoved(ns, m, ptr, size);
        return false, NULL;
      }
      ghost var ns1, m1 := Nodes, mem[..];
      ghost var b := MoveFacts(ns, k, size);
      CopyBlock(ptr, p, ns[k], b);
      ghost var m2 := mem[..];
      ok := KheapFree(ptr);
      MoveKeeps(ns, ns1, ns[k], b, m, m1, m2, mem[..]);
    }
  }

  /** `kheapAlloc` has done to the node list what `Alloc` does; without space it has done nothing. */
  ghost predicate Allocated(ns: seq<Node>, size: nat, ptr: nat, ns': seq<Node>)
    requires Tiles(ns)
  {
    match HeapOps.Alloc(ns, size)
    case None => ptr == NULL && ns' == ns
    case Some(o) => ptr == o.ptr && ns' == o.nodes
  }

  /** What `kheapRealloc` promises. The node list becomes what `Realloc` makes it, and the result
      is its pointer; a bad pointer or a lack of space leaves everything as it was. The first
      min(old size, new size) content bytes are at the returned pointer, and the contents of
      every other live block are untouched. */
  ghost predicate Reallocated(ns: seq<Node>, m: seq<byte>, ptr: nat, size: nat, ok: bool, p: nat,
                              ns': seq<Node>, m': seq<byte>)
    requires Tiles(ns)
  {
    var b := BlockAt(ns, ptr);
    var r := if b.None? then None else Realloc(ns, IndexOf(ns, ptr, 0), size);
    && ok == r.Some?
    && (!ok ==> ns' == ns && m' == m)
    && (ok ==> r.value == Outcome(ns', p))
    && (ok && size > 0 ==> SameContents(m, ptr, m', p, Min(b.value.size, size)))
    && OthersKept(ns, ptr, m, m')
  }

  /** A block asked to keep its size, or to give up too little for a new node, stays as it is. */
  lemma LeftAsIs(ns: seq<Node>, m: seq<byte>, ptr: nat, size: nat)
    requires Heap(ns) && Represents(m, ns) && BlockAt(ns, ptr).Some?
    requires 0 < size <= BlockAt(ns, ptr).value.size < size + HEADER + 1
    ensures Reallocated(ns, m, ptr, size, true, ptr, ns, m)
  {
    var k := IndexOf(ns, ptr, 0);
    ContentsFit(m, ns, k);
    FewerContents(m, ptr, m, ptr, ns[k].size, size);
  }

  lemma ShrunkInPlace(ns: seq<Node>, m: seq<byte>, ptr: nat, k: nat, size: nat, ns': seq<Node>, m': seq<byte>)
    requires Heap(ns) && k == IndexOf(ns, ptr, 0) < |ns| && ns[k].used && 0 < size < size + HEADER < ns[k].size
    requires ns' == Compact(Resize(ns, k, k + 1, size, ns[k].size))
    requires OthersKept(ns, ptr, m, m') && SameContents(m, ptr, m', ptr, size)
    ensures Reallocated(ns, m, ptr, size, true, ptr, ns', m')
  {
  }

  lemma GrownInPlace(ns: seq<Node>, m: seq<byte>, ptr: nat, k: nat, size: nat, ns': seq<Node>, m': seq<byte>)
    requires Heap(ns) && k == IndexOf(ns, ptr, 0) < |ns| && ns[k].used && ns[k].size < size <= Room(ns, k)
    requires var resized := Resize(ns, k, FreeRunEnd(ns, k + 1), size, Room(ns, k));
             ns' == if Room(ns, k) - size >= HEADER + 1 then Compact(resized) else resized
    requires OthersKept(ns, ptr, m, m') && SameContents(m, ptr, m', ptr, size)
    ensures Reallocated(ns, m, ptr, size, true, ptr, ns', m')
  {
    FewerContents(m, ptr, m', ptr, size, ns[k].size);
  }

  lemma NotMoved(ns: seq<Node>, m: seq<byte>, ptr: nat, size: nat)
    requires Heap(ns) && BlockAt(ns, ptr).Some?
    requires Realloc(ns, IndexOf(ns, ptr, 0), size).None?
    ensures Reallocated(ns, m, ptr, size, false, NULL, ns, m)
  {
  }

  lemma SameBytesContents(m: seq<byte>, m': seq<byte>, at: nat, len: nat)
    requires SameBytes(m, m', at, len) && KHEAP_START <= at && at - KHEAP_START + len <= |m|
    ensures SameContents(m, at, m', at, len)
  {
    var p := at - KHEAP_START;
    assert forall i | 0 <= i < len :: m'[p..][..len][i] == m[p..][..len][i];
  }

  lemma ContentsFit(m: seq<byte>, ns: seq<Node>, k: nat)
    requires Represents(m, ns) && k < |ns|
    ensures SameContents(m, ns[k].Contents(), m, ns[k].Contents(), ns[k].size)
  {
    SeparatedAt(ns, k);
  }

  lemma FewerContents(m: seq<byte>, p: nat, m': seq<byte>, p': nat, len: nat, len': nat)
    requires SameContents(m, p, m', p', len) && len' <= len
    ensures SameContents(m, p, m', p', len')
  {
    var a, b := m'[p' - KHEAP_START..], m[p - KHEAP_START..];
    assert a[..len'] == a[..len][..len'] && b[..len'] == b[..len][..len'];
  }

  lemma Positions(ns: seq<Node>, n: Node, b: Node) returns (i: nat, j: nat)
    requires Separated(ns) && n in ns && b in ns && n != b
    ensures i < |ns| && j < |ns| && ns[i] == n && ns[j] == b
    ensures n.End() <= b.addr || b.End() <= n.addr
    ensures KHEAP_START <= n.addr && n.End() <= KHEAP_END
    ensures KHEAP_START <= b.addr && b.End() <= KHEAP_END
    ensures n.addr != b.addr
  {
    i :| 0 <= i < |ns| && ns[i] == n;
    j :| 0 <= j < |ns| && ns[j] == b;
    assert InHeap(ns, i) && InHeap(ns, j);
    assert if i < j then Before(ns, i, j) else Before(ns, j, i);
  }

  function Min(a: nat, b: nat): nat { if a <= b then a else b }

  /** `len` bytes at `p'` in memory `m'` are those that were at `p` in memory `m`. */
  ghost predicate SameContents(m: seq<byte>, p: nat, m': seq<byte>, p': nat, len: nat) {
    && KHEAP_START <= p && p - KHEAP_START + len <= |m|
    && KHEAP_START <= p' && p' - KHEAP_START + len <= |m'|
    && m'[p' - KHEAP_START..][..len] == m[p - KHEAP_START..][..len]
  }

  /** Freeing a block that is free already changes nothing. */
  lemma FreeIsStep(ns: seq<Node>, ptr: nat)
    requires Heap(ns) && IndexOf(ns, ptr, 0) < |ns|
    ensures Step(ns, OpFree(ptr)) == Free(ns, IndexOf(ns, ptr, 0))
  {
    var k := IndexOf(ns, ptr, 0);
    if !ns[k].used {
      assert ns[k := ns[k].(used := false)] == ns;
      CompactFixpoint(ns);
    }
  }

  lemma MoveFails(ns: seq<Node>, k: nat, size: nat)
    requires Heap(ns) && k < |ns| && ns[k].used && size > Room(ns, k) && size > 0
    ensures HeapOps.Alloc(ns, size).None? ==> Realloc(ns, k, size).None?
    ensures HeapOps.Alloc(ns, size).Some? ==> HeapOps.Alloc(ns, size).value.ptr != NULL
  {
    RoomCorrect(ns, k);
  }

  /** The state of a moving reallocation after its allocation: new block `b` lies apart from `n`. */
  lemma MoveFacts(ns: seq<Node>, k: nat, size: nat) returns (b: Node)
    requires Heap(ns) && k < |ns| && ns[k].used && size > Room(ns, k) && HeapOps.Alloc(ns, size).Some?
    ensures var o := HeapOps.Alloc(ns, size).value;
            var i := IndexOf(o.nodes, ns[k].Contents(), 0);
            && i < |o.nodes| && o.nodes[i] == ns[k]
            && Realloc(ns, k, size) == Some(Outcome(Free(o.nodes, i), o.ptr))
            && b in Live(o.nodes) && b !in Live(ns) && b.Contents() == o.ptr
            && Live(o.nodes) == Live(ns) + {b}
    ensures ns[k] in Live(ns) && ns[k].size < size <= b.size
  {
    AllocCorrect(ns, size);
    RoomCorrect(ns, k);
    var o := HeapOps.Alloc(ns, size).value;
    b := BlockAt(o.nodes, o.ptr).value;
    assert ns[k] in Live(ns) && ns[k] in Live(o.nodes);
    BlockAtLive(o.nodes, ns[k]);
  }

  /** Writing to the contents of a live block changes no header and no other block. */
  lemma ContentsWritten(m: seq<byte>, m': seq<byte>, ns: seq<Node>, b: Node)
    requires Represents(m, ns) && b in ns && ChangedOnly(m, m', b.Contents(), b.End())
    ensures Represents(m', ns) && OthersKept(ns, b.Contents(), m, m')
  {
    var i :| 0 <= i < |ns| && ns[i] == b;
    forall k | 0 <= k < |ns| ensures Stored(m', ns, k) {
      assert Stored(m, ns, k);
      if k < i { assert Before(ns, k, i); }
      if i < k { assert Before(ns, i, k); }
      HeaderFrame(m, m', b.Contents(), b.End(), ns[k], NextField(ns, k));
    }
    forall n | n in ns && n.used && n.Contents() != b.Contents() ensures Kept(n, m, m') {
      var k :| 0 <= k < |ns| && ns[k] == n;
      assert if k < i then Before(ns, k, i) else Before(ns, i, k);
    }
  }

  lemma MoveKeeps(ns: seq<Node>, ns1: seq<Node>, n: Node, b: Node,
                  m: seq<byte>, m1: seq<byte>, m2: seq<byte>, m3: seq<byte>)
    requires Separated(ns) && Separated(ns1) && n in Live(ns) && b in Live(ns1) && b !in Live(ns)
    requires Live(ns1) == Live(ns) + {b} && n.size <= b.size && |m| == KHEAP_END - KHEAP_START
    requires OthersKept(ns, NULL, m, m1)
    requires OthersKept(ns1, b.Contents(), m1, m2)
    requires SameContents(m1, n.Contents(), m2, b.Contents(), n.size)
    requires OthersKept(ns1, n.Contents(), m2, m3)
    ensures OthersKept(ns, n.Contents(), m, m3)
    ensures SameContents(m, n.Contents(), m3, b.Contents(), n.size)
  {
    forall x | x in Live(ns) ensures x in Live(ns1) && x.Contents() != b.Contents() && x.Contents() != NULL {
      var i, j := Positions(ns1, x, b);
    }
    forall x | x in ns && x.used && x.Contents() != n.Contents() ensures Kept(x, m, m3) {
      assert x in Live(ns);
      assert Kept(x, m, m1) && Kept(x, m1, m2) && Kept(x, m2, m3);
    }
    assert Kept(n, m, m1) && Kept(b, m2, m3);
    var i, j := Positions(ns1, n, b);
    SameBytesContents(m, m1, n.Contents(), n.size);
    SameBytesContents(m2, m3, b.Contents(), n.size);
  }

  lemma ResizedBySplit(m: seq<byte>, m': seq<byte>, ns: seq<Node>, k: nat, j: nat,
                       cut: Node, rest: Node, size: nat, room: nat)
    requires Represents(m, ns) && k < j <= |ns|
    requires forall i | k < i < j :: !ns[i].used
    requires size + HEADER + 1 <= room && Cut(ns, j, KHEAP_END) == ns[k].Contents() + room
    requires cut == ns[k].(size := size) && rest == Node(ns[k].Contents() + size, room - size - HEADER, false)
    requires ChangedOnly(m, m', ns[k].addr, rest.addr + HEADER)
    requires HeaderIs(m', cut, rest.addr) && HeaderIs(m', rest, if j < |ns| then ns[j].addr else NULL)
    ensures Represents(m', Resize(ns, k, j, size, room)) && OthersKept(ns, ns[k].Contents(), m, m')
  {
    var next := if j < |ns| then ns[j].addr else NULL;
    ResizeIsSplice(ns, k, j, size, room);
    assert ResizedNodes(ns[k], size, room) == [cut, rest];
    CommitTwo(m, m', ns, k, j, cut, rest, next, rest.addr + HEADER);
  }

  lemma PlacedInside(m: seq<byte>, m': seq<byte>, ns: seq<Node>, k: nat, padding: Node, block: Node)
    requires Represents(m, ns) && k < |ns| && !ns[k].used
    requires padding == ns[k].(size := padding.size) && block == Node(padding.End(), block.size, true)
    requires block.End() <= ns[k].End()
    requires ChangedOnly(m, m', ns[k].addr, block.addr + HEADER)
    requires HeaderIs(m', padding, block.addr) && HeaderIs(m', block, NextField(ns, k))
    ensures Represents(m', SplitOff(ns, k, padding.size, block.size)) && OthersKept(ns, NULL, m, m')
  {
    SeparatedAt(ns, k);
    assert Splice(ns, k, k + 1, [padding, block]) == SplitOff(ns, k, padding.size, block.size);
    CommitTwo(m, m', ns, k, k + 1, padding, block, NextField(ns, k), block.addr + HEADER);
  }

  lemma AlignedSteps(ns: seq<Node>, k: nat, size: nat, alignment: nat) returns (offset: nat)
    requires Heap(ns) && alignment > 0 && k == FirstFitAligned(ns, size, alignment, 0) < |ns|
    ensures offset == AlignOffset(ns[k].Contents(), alignment) && offset + HEADER + size <= ns[k].size
    ensures var ns1 := SplitOff(ns, k, offset, size);
            && ns1[k + 1].End() <= NextAddr(ns1, k + 1)
            && (forall n | n in Live(ns) :: n in Live(ns1) && n.Contents() != ns1[k + 1].Contents())
            && Tiles(Consume(ns1, k + 1)) && Heap(Compact(Consume(ns1, k + 1)))
            && AlignedAlloc(ns, size, alignment)
               == Some(Outcome(Compact(Consume(ns1, k + 1)), ns[k].Contents() + offset + HEADER))
  {
    offset := AlignOffset(ns[k].Contents(), alignment);
    NextIsEnd(ns, k);
    AlignedSplice(ns, k, size, offset);
    OldBlocksInSplit(ns, k, size, offset);
  }

  lemma OldBlocksInSplit(ns: seq<Node>, k: nat, size: nat, offset: nat)
    requires Tiles(ns) && k < |ns| && !ns[k].used && offset + HEADER + size <= ns[k].size
    ensures var ns1 := SplitOff(ns, k, offset, size);
            forall n | n in Live(ns) :: n in Live(ns1) && n.Contents() != ns1[k + 1].Contents()
  {
    var ns1 := SplitOff(ns, k, offset, size);
    SpanOrdered(ns, KHEAP_START, KHEAP_END);
    forall n | n in Live(ns) ensures n in ns1 && n.addr != ns1[k + 1].addr {
      var i :| 0 <= i < |ns| && ns[i] == n;
      if i < k { assert ns1[i] == n && ns[i].End() <= ns[k].addr; }
      else { assert ns1[i + 1] == n && ns[k].End() <= ns[i].addr; }
    }
  }

  lemma FreeSteps(ns: seq<Node>, k: nat)
    requires Tiles(ns) && k < |ns|
    ensures Tiles(ns[k := ns[k].(used := false)])
    ensures forall n | n in ns && n.used && n.Contents() != ns[k].Contents() :: n in Live(ns[k := ns[k].(used := false)])
    ensures forall n | n in ns :: n.Contents() != NULL
  {
    var ns1 := ns[k := ns[k].(used := false)];
    NextIsEnd(ns, k);
    SpliceCorrect(ns, k, k + 1, [ns[k].(used := false)]);
    assert ns1 == Splice(ns, k, k + 1, [ns[k].(used := false)]);
    forall n | n in ns && n.used && n.Contents() != ns[k].Contents() ensures n in ns1 {
      var i :| 0 <= i < |ns| && ns[i] == n;
      assert ns1[i] == n;
    }
  }

  lemma AllocSteps(ns: seq<Node>, k: nat, size: nat)
    requires Heap(ns) && k == FirstFit(ns, size, 0) < |ns|
    ensures var ns1 := ns[k := Node(ns[k].addr, size, true)];
            && ns1[k].End() <= NextAddr(ns1, k)
            && (forall n | n in Live(ns) :: n in Live(ns1) && n.Contents() != ns1[k].Contents())
            && Tiles(Consume(ns1, k)) && Heap(Compact(Consume(ns1, k)))
            && HeapOps.Alloc(ns, size) == Some(Outcome(Compact(Consume(ns1, k)), ns[k].Contents()))
  {
    NextIsEnd(ns, k);
    TakeCorrect(ns, k, size);
    var ns1 := ns[k := Node(ns[k].addr, size, true)];
    TilesSeparated(ns);
    forall n | n in Live(ns) ensures n in ns1 && n.addr != ns[k].addr {
      var i :| 0 <= i < |ns| && ns[i] == n;
      Distinct(ns, i, k);
      assert ns1[i] == n;
    }
  }

  /** Node `k` has been rewritten in place and lies within its old bytes. */
  lemma Replaced(m: seq<byte>, m': seq<byte>, ns: seq<Node>, k: nat, n: Node)
    requires Represents(m, ns) && k < |ns| && n.addr == ns[k].addr && n.size <= ns[k].size
    requires ChangedOnly(m, m', n.addr, n.addr + HEADER) && HeaderIs(m', n, NextField(ns, k))
    ensures Represents(m', ns[k := n]) && OthersKept(ns, ns[k].Contents(), m, m')
    ensures !ns[k].used ==> OthersKept(ns, NULL, m, m')
  {
    SeparatedAt(ns, k);
    assert Splice(ns, k, k + 1, [n]) == ns[k := n];
    CommitOne(m, m', ns, k, k + 1, n, NextField(ns, k), n.addr + HEADER);
  }

  /** The three steps of an allocation keep the contents of all live blocks. */
  lemma KeptThrough(ns: seq<Node>, ns1: seq<Node>, ns2: seq<Node>, c: nat,
                    m: seq<byte>, m1: seq<byte>, m2: seq<byte>, m3: seq<byte>)
    requires c < |ns1| && ns1[c].End() <= NextAddr(ns1, c) && ns2 == Consume(ns1, c)
    requires forall n | n in Live(ns) :: n in Live(ns1) && n.Contents() != ns1[c].Contents()
    requires OthersKept(ns, NULL, m, m1) && OthersKept(ns1, ns1[c].Contents(), m1, m2) && OthersKept(ns2, NULL, m2, m3)
    ensures OthersKept(ns, NULL, m, m3)
  {
    forall n | n in ns && n.used ensures n in Live(ns1) && n in Live(ns2) && n.Contents() != ns1[c].Contents() && n.Contents() != NULL {
      assert n in Live(ns);
      var j :| 0 <= j < |ns1| && ns1[j] == n;
      ConsumeIsSplice(ns1, c);
      if j < c { assert ns2[j] == n; } else { assert n in ns1[c + 1..]; }
    }
    OthersTransitive(ns, ns1, NULL, ns1[c].Contents(), m, m1, m2);
    OthersTransitive(ns, ns2, NULL, NULL, m, m2, m3);
  }

  lemma ConsumedBySplit(m: seq<byte>, m': seq<byte>, ns: seq<Node>, k: nat, n: Node, rest: Node, next: nat)
    requires Represents(m, ns) && k < |ns| && n == ns[k] && next == NextField(ns, k)
    requires n.End() + HEADER < NextAddr(ns, k)
    requires rest == Node(n.End(), NextAddr(ns, k) - n.End() - HEADER, false)
    requires ChangedOnly(m, m', n.addr, n.End() + HEADER)
    requires HeaderIs(m', n, n.End()) && HeaderIs(m', rest, next)
    ensures Represents(m', Consume(ns, k)) && OthersKept(ns, n.Contents(), m, m')
  {
    ConsumeIsSplice(ns, k);
    CommitTwo(m, m', ns, k, k + 1, n, rest, next, n.End() + HEADER);
  }

  lemma ConsumedByGrowing(m: seq<byte>, m': seq<byte>, ns: seq<Node>, k: nat, n: Node, next: nat)
    requires Represents(m, ns) && k < |ns| && ns[k].End() <= NextAddr(ns, k) <= ns[k].End() + HEADER
    requires n == ns[k].(size := ns[k].size + NextAddr(ns, k) - ns[k].End()) && next == NextField(ns, k)
    requires ChangedOnly(m, m', n.addr, n.addr + HEADER) && HeaderIs(m', n, next)
    ensures Represents(m', Consume(ns, k)) && OthersKept(ns, n.Contents(), m, m')
  {
    ConsumeIsSplice(ns, k);
    CommitOne(m, m', ns, k, k + 1, n, next, n.addr + HEADER);
  }

  ghost function Merged(ns: seq<Node>, i: nat): Node
    requires i + 1 < |ns|
  {
    Node(ns[i].addr, ns[i].size + HEADER + ns[i + 1].size, false)
  }

  lemma MergeEnds(ns: seq<Node>, i: nat)
    requires Tiles(ns) && i + 1 < |ns|
    ensures ns[i].addr + HEADER <= Cut(ns, i + 2, KHEAP_END) == Merged(ns, i).End() <= KHEAP_END
  {
    NextIsEnd(ns, i);
    NextIsEnd(ns, i + 1);
    SpanOrdered(ns, KHEAP_START, KHEAP_END);
  }

  lemma MergeIsSplice(ns: seq<Node>, i: nat)
    requires Tiles(ns) && i + 1 < |ns| && !ns[i].used && !ns[i + 1].used
    ensures var r := Splice(ns, i, i + 2, [Merged(ns, i)]);
            Tiles(r) && Separated(r) && Live(r) == Live(ns)
  {
    var merged := Merged(ns, i);
    MergeEnds(ns, i);
    SpliceCorrect(ns, i, i + 2, [merged]);
    TilesSeparated(Splice(ns, i, i + 2, [merged]));
    assert Live([merged]) == {};
    assert Live(ns[i..i + 2]) == {} by { assert ns[i..i + 2] == [ns[i], ns[i + 1]]; }
  }

  lemma CompactAdvance(ns: seq<Node>, i: nat)
    requires i + 1 < |ns| && (ns[i].used || ns[i + 1].used)
    ensures ns[..i] + Compact(ns[i..]) == ns[..i + 1] + Compact(ns[i + 1..])
  {
    assert ns[i..][1..] == ns[i + 1..];
    assert ns[..i] + [ns[i]] == ns[..i + 1];
  }

  lemma MergeCompacts(ns: seq<Node>, i: nat)
    requires i + 1 < |ns| && !ns[i].used && !ns[i + 1].used
    ensures var r := Splice(ns, i, i + 2, [Merged(ns, i)]);
            && r[..i] == ns[..i] && r[i].addr == ns[i].addr && Compact(r[i..]) == Compact(ns[i..])
  {
    var r := Splice(ns, i, i + 2, [Merged(ns, i)]);
    assert ns[i..][2..] == ns[i + 2..];
    assert r[i..] == [Merged(ns, i)] + ns[i..][2..];
  }

  lemma OthersTransitive(ns: seq<Node>, ns': seq<Node>, ptr: nat, ptr': nat, m: seq<byte>, m': seq<byte>, m'': seq<byte>)
    requires OthersKept(ns, ptr, m, m') && OthersKept(ns', ptr', m', m'')
    requires forall n | n in ns && n.used && n.Contents() != ptr :: n in Live(ns') && n.Contents() != ptr'
    ensures OthersKept(ns, ptr, m, m'')
  {
    forall n | n in ns && n.used && n.Contents() != ptr ensures Kept(n, m, m'') {
      assert Kept(n, m, m') && Kept(n, m', m'');
    }
  }
}
