/** What SknyFS guarantees over every run of file creations, including runs cut short between
    the two disk writes of a creation. */
module SknyTheorems {
  import opened Bytes
  import opened Kstdlib
  import opened SknyImage

  // ------------------------------------------------------- disk invariant

  /** Slot `k` holds a file whose chunk exists and is marked. */
  ghost predicate SlotSound(d: Image, k: nat)
    requires k < MAXIMUM_FILE_COUNT
  {
    InUse(d, k) ==> Location(d, k) < TOTAL_ALLOCATABLE_CHUNKS && Allocated(d, Location(d, k))
  }

  ghost predicate SlotsDisjoint(d: Image, i: nat, j: nat)
    requires i < MAXIMUM_FILE_COUNT && j < MAXIMUM_FILE_COUNT
  {
    InUse(d, i) && InUse(d, j) && i != j ==> Location(d, i) != Location(d, j)
  }

  /** No two files share a chunk, and the chunk of every file is marked as used. */
  ghost predicate Sound(d: Image) {
    && (forall k | 0 <= k < MAXIMUM_FILE_COUNT :: SlotSound(d, k))
    && forall i, j | 0 <= i < MAXIMUM_FILE_COUNT && 0 <= j < MAXIMUM_FILE_COUNT :: SlotsDisjoint(d, i, j)
  }

  lemma HalfCreatedSound(d: Image)
    requires Sound(d)
    ensures Sound(HalfCreated(d))
  {
    if HasRoom(d) {
      var c, h := FirstFree(d, 0), HalfCreated(d);
      MarkedExactly(d, c);
      forall k | 0 <= k < MAXIMUM_FILE_COUNT ensures InUse(h, k) == InUse(d, k) && Location(h, k) == Location(d, k) {
        assert forall p | SlotBase(k) <= p < SlotBase(k) + METADATA_SIZE :: h[p] == d[p];
      }
      forall k | 0 <= k < MAXIMUM_FILE_COUNT ensures SlotSound(h, k) { assert SlotSound(d, k); }
      forall i, j | 0 <= i < MAXIMUM_FILE_COUNT && 0 <= j < MAXIMUM_FILE_COUNT ensures SlotsDisjoint(h, i, j) {
        assert SlotsDisjoint(d, i, j);
      }
    }
  }

  lemma CreatedSound(d: Image, name: seq<byte>)
    requires Sound(d) && 0 !in name
    ensures Sound(Created(d, name))
  {
    if HasRoom(d) {
      var c, e, h, w := FirstFree(d, 0), FirstEmpty(d, 0), HalfCreated(d), Created(d, name);
      HalfCreatedSound(d);
      MarkedExactly(d, c);
      WithSlotExactly(h, e, name, c);
      forall k | 0 <= k < MAXIMUM_FILE_COUNT ensures SlotSound(w, k) { assert SlotSound(h, k); }
      forall i, j | 0 <= i < MAXIMUM_FILE_COUNT && 0 <= j < MAXIMUM_FILE_COUNT ensures SlotsDisjoint(w, i, j) {
        assert SlotsDisjoint(h, i, j);
        FreshLocation(d, c, i);
        FreshLocation(d, c, j);
      }
    }
  }

  /** No file has a chunk that is free. */
  lemma FreshLocation(d: Image, c: nat, k: nat)
    requires Sound(d) && c < TOTAL_ALLOCATABLE_CHUNKS && !Allocated(d, c) && k < MAXIMUM_FILE_COUNT
    ensures InUse(Marked(d, c), k) ==> Location(Marked(d, c), k) != c
  {
    MarkedExactly(d, c);
    assert forall p | SlotBase(k) <= p < SlotBase(k) + METADATA_SIZE :: Marked(d, c)[p] == d[p];
    assert SlotSound(d, k);
  }

  // ------------------------------------------------------------------ runs

  /** A complete creation, or one cut short between its two writes. */
  datatype Event = Create(name: seq<byte>) | Crash

  ghost function Step(d: Image, e: Event): Image {
    match e
    case Create(name) => Created(d, name)
    case Crash => HalfCreated(d)
  }

  ghost function Run(d: Image, es: seq<Event>): Image {
    if es == [] then d else Step(Run(d, es[..|es| - 1]), es[|es| - 1])
  }

  ghost predicate CStrings(es: seq<Event>) {
    forall e | e in es && e.Create? :: 0 !in e.name
  }

  /** From a fresh format, whatever is created and wherever creations are cut short, files have
      pairwise distinct chunks and all of them are marked. */
  lemma {:induction false} RunSound(d: Image, es: seq<Event>)
    requires Formatted(d) && CStrings(es)
    ensures Sound(Run(d, es))
  {
    if es == [] {
      forall k | 0 <= k < MAXIMUM_FILE_COUNT ensures SlotSound(d, k) { assert d[SlotBase(k)] == 0; }
      forall i, j | 0 <= i < MAXIMUM_FILE_COUNT && 0 <= j < MAXIMUM_FILE_COUNT ensures SlotsDisjoint(d, i, j) {
        assert d[SlotBase(i)] == 0;
      }
    } else {
      var front, last := es[..|es| - 1], es[|es| - 1];
      assert last in es;
      RunSound(d, front);
      match last
      case Create(name) => CreatedSound(Run(d, front), name);
      case Crash => HalfCreatedSound(Run(d, front));
    }
  }

  // ------------------------------------------------------------ refinement

  datatype File = File(name: seq<byte>, location: nat)

  /** The file system a user sees: how many chunks have been handed out, and the files in order. */
  datatype AbstractFs = AbstractFs(chunks: nat, files: seq<File>)

  predicate AbstractRoom(a: AbstractFs) {
    a.chunks < TOTAL_ALLOCATABLE_CHUNKS && |a.files| < MAXIMUM_FILE_COUNT
  }

  /** Chunks are handed out in order. A creation with an empty name uses one up for no file. */
  function AbstractStep(a: AbstractFs, e: Event): AbstractFs {
    if !AbstractRoom(a) then a
    else if e.Crash? || e.name == [] then a.(chunks := a.chunks + 1)
    else AbstractFs(a.chunks + 1, a.files + [File(e.name, a.chunks)])
  }

  function AbstractRun(es: seq<Event>): AbstractFs {
    if es == [] then AbstractFs(0, []) else AbstractStep(AbstractRun(es[..|es| - 1]), es[|es| - 1])
  }

  ghost predicate SlotHolds(d: Image, a: AbstractFs, k: nat)
    requires k < MAXIMUM_FILE_COUNT
  {
    if k < |a.files| then
      InUse(d, k) && Location(d, k) == a.files[k].location && Named(d, k, Truncated(a.files[k].name))
    else !InUse(d, k)
  }

  /** Used chunks are the first ones, used slots are the first ones and hold the files. */
  ghost predicate Refines(d: Image, a: AbstractFs) {
    && a.chunks <= TOTAL_ALLOCATABLE_CHUNKS && |a.files| <= MAXIMUM_FILE_COUNT
    && (forall c | 0 <= c < TOTAL_ALLOCATABLE_CHUNKS :: Allocated(d, c) <==> c < a.chunks)
    && forall k | 0 <= k < MAXIMUM_FILE_COUNT :: SlotHolds(d, a, k)
  }

  lemma RoomRefines(d: Image, a: AbstractFs)
    requires Refines(d, a)
    ensures FirstFree(d, 0) == a.chunks && FirstEmpty(d, 0) == |a.files|
    ensures HasRoom(d) == AbstractRoom(a)
  {
    assert a.chunks < TOTAL_ALLOCATABLE_CHUNKS ==> !Allocated(d, a.chunks);
    forall k | 0 <= k < |a.files| ensures InUse(d, k) { assert SlotHolds(d, a, k); }
    if |a.files| < MAXIMUM_FILE_COUNT { assert SlotHolds(d, a, |a.files|); }
  }

  lemma CrashRefines(d: Image, a: AbstractFs)
    requires Refines(d, a)
    ensures Refines(HalfCreated(d), AbstractStep(a, Crash))
  {
    RoomRefines(d, a);
    if HasRoom(d) {
      var h := HalfCreated(d);
      MarkedExactly(d, a.chunks);
      forall k | 0 <= k < MAXIMUM_FILE_COUNT ensures SlotHolds(h, AbstractStep(a, Crash), k) {
        assert SlotHolds(d, a, k);
        assert forall p | SlotBase(k) <= p < SlotBase(k) + METADATA_SIZE :: h[p] == d[p];
      }
    }
  }

  lemma CreateRefines(d: Image, a: AbstractFs, name: seq<byte>)
    requires Refines(d, a) && 0 !in name
    ensures Refines(Created(d, name), AbstractStep(a, Create(name)))
  {
    RoomRefines(d, a);
    if HasRoom(d) {
      var h, a', w, e := HalfCreated(d), AbstractStep(a, Crash), Created(d, name), |a.files|;
      CrashRefines(d, a);
      WithSlotExactly(h, e, name, a.chunks);
      forall k | 0 <= k < MAXIMUM_FILE_COUNT ensures SlotHolds(w, AbstractStep(a, Create(name)), k) {
        assert SlotHolds(h, a', k);
      }
    }
  }

  /** The disk simulates the abstract file system over every run from a fresh format. */
  lemma {:induction false} RunRefines(d: Image, es: seq<Event>)
    requires Formatted(d) && CStrings(es)
    ensures Refines(Run(d, es), AbstractRun(es))
  {
    if es == [] {
      FormattedRefines(d);
    } else {
      var front, last := es[..|es| - 1], es[|es| - 1];
      assert last in es;
      RunRefines(d, front);
      match last
      case Create(name) => CreateRefines(Run(d, front), AbstractRun(front), name);
      case Crash => CrashRefines(Run(d, front), AbstractRun(front));
    }
  }

  lemma FormattedRefines(d: Image)
    requires Formatted(d)
    ensures Refines(d, AbstractFs(0, []))
  {
    forall c: nat | c < TOTAL_ALLOCATABLE_CHUNKS ensures !Allocated(d, c) { ZeroHasNoBits(c % 8); }
    forall k | 0 <= k < MAXIMUM_FILE_COUNT ensures SlotHolds(d, AbstractFs(0, []), k) { assert d[SlotBase(k)] == 0; }
  }

  lemma {:induction false} ZeroHasNoBits(k: nat)
    ensures !Bits.Bit(0, k)
  {
    if k > 0 { ZeroHasNoBits(k - 1); }
  }

  /** Creations with non-empty names, in order. */
  function Creates(names: seq<seq<byte>>): seq<Event> {
    if names == [] then [] else Creates(names[..|names| - 1]) + [Create(names[|names| - 1])]
  }

  /** The abstract file system that holds the first `n` of the names, in order. */
  function Holding(names: seq<seq<byte>>, n: nat): AbstractFs
    requires n <= |names|
  {
    AbstractFs(n, seq(n, i requires 0 <= i < n => File(names[i], i)))
  }

  lemma {:induction false} AbstractCreates(names: seq<seq<byte>>)
    requires [] !in names
    ensures AbstractRun(Creates(names)) == Holding(names, if |names| < MAXIMUM_FILE_COUNT then |names| else MAXIMUM_FILE_COUNT)
  {
    if names != [] {
      var front, es := names[..|names| - 1], Creates(names);
      assert es[..|es| - 1] == Creates(front) && es[|es| - 1] == Create(names[|names| - 1]);
      AbstractCreates(front);
      HoldingStep(names);
    }
  }

  lemma HoldingStep(names: seq<seq<byte>>)
    requires names != [] && names[|names| - 1] != []
    ensures var front, n := names[..|names| - 1], |names| - 1;
            if n < MAXIMUM_FILE_COUNT then
              AbstractStep(Holding(front, n), Create(names[n])) == Holding(names, n + 1)
            else
              AbstractStep(Holding(front, MAXIMUM_FILE_COUNT), Create(names[n])) == Holding(names, MAXIMUM_FILE_COUNT)
  {
  }

  lemma {:induction false} CreatesAreCStrings(names: seq<seq<byte>>)
    requires forall s | s in names :: 0 !in s
    ensures CStrings(Creates(names))
  {
    if names != [] { CreatesAreCStrings(names[..|names| - 1]); }
  }

  /** From a fresh format the first 64 non-empty names take chunks and slots 0, 1, 2, ... in order;
      once there are 64, another creation leaves the disk byte for byte as it was. */
  lemma CreatesInOrder(d: Image, names: seq<seq<byte>>, name: seq<byte>)
    requires Formatted(d) && [] !in names && forall s | s in names :: 0 !in s
    ensures var w := Run(d, Creates(names));
            && (|names| < MAXIMUM_FILE_COUNT ==> HasRoom(w) && FirstFree(w, 0) == FirstEmpty(w, 0) == |names|)
            && (|names| >= MAXIMUM_FILE_COUNT ==> !HasRoom(w) && Created(w, name) == w)
            && (forall i | 0 <= i < |names| && i < MAXIMUM_FILE_COUNT ::
                  InUse(w, i) && Location(w, i) == i
                  && Named(w, i, if |names[i]| <= 251 then names[i] else names[i][..251]))
  {
    CreatesAreCStrings(names);
    RunRefines(d, Creates(names));
    AbstractCreates(names);
    var w, a := Run(d, Creates(names)), AbstractRun(Creates(names));
    RoomRefines(w, a);
    forall i | 0 <= i < |names| && i < MAXIMUM_FILE_COUNT
      ensures InUse(w, i) && Location(w, i) == i && Named(w, i, if |names[i]| <= 251 then names[i] else names[i][..251])
    {
      assert SlotHolds(w, a, i);
      TruncatedExactly(names[i]);
    }
  }

  // ---------------------------------------------------------------- lookup

  /** The stored names of all slots, unused ones included. */
  function StoredNames(a: AbstractFs): seq<seq<byte>> {
    seq(MAXIMUM_FILE_COUNT, k requires 0 <= k < MAXIMUM_FILE_COUNT =>
      if k < |a.files| then Truncated(a.files[k].name) else [])
  }

  /** On any reachable disk these are the names `searchForFile` compares with. */
  lemma DiskNames(d: Image, a: AbstractFs)
    requires Refines(d, a)
    ensures forall k | 0 <= k < MAXIMUM_FILE_COUNT :: Named(d, k, StoredNames(a)[k])
  {
    forall k | 0 <= k < MAXIMUM_FILE_COUNT ensures Named(d, k, StoredNames(a)[k]) {
      assert SlotHolds(d, a, k);
    }
  }

  /** The lowest slot from `k` on whose name `kstrcmp` cannot tell from `name`, or the number of names. */
  function FirstMatch(names: seq<seq<byte>>, name: seq<byte>, k: nat): (r: nat)
    requires k <= |names|
    ensures k <= r <= |names|
    ensures r < |names| ==> PrefixComparable(name, names[r])
    ensures forall x | k <= x < r :: !PrefixComparable(name, names[x])
    decreases |names| - k
  {
    if k == |names| || PrefixComparable(name, names[k]) then k else FirstMatch(names, name, k + 1)
  }

  /** The names differ in one of their first 251 characters, before either ends. */
  ghost predicate Differ(s: seq<byte>, t: seq<byte>) {
    exists i :: 0 <= i < 251 && i < |s| && i < |t| && s[i] != t[i]
  }

  /** That is when `kstrcmp` tells a name from a stored one. */
  lemma DifferExactly(s: seq<byte>, t: seq<byte>)
    ensures Differ(s, t) <==> !PrefixComparable(s, Truncated(t))
  {
    var u := Truncated(t);
    TruncatedExactly(t);
    if PrefixComparable(s, u) {
      var n := if |s| <= |u| then |s| else |u|;
      assert s[..n] == u[..n];
      assert forall i | 0 <= i < n :: s[i] == s[..n][i] == u[..n][i] == t[i];
    }
  }

  /** Looking a created file up finds its own slot exactly when its name differs from that of every
      earlier file in one of the first 251 characters. */
  lemma LookupExactly(a: AbstractFs, i: nat)
    requires i < |a.files| <= MAXIMUM_FILE_COUNT
    ensures FirstMatch(StoredNames(a), a.files[i].name, 0) == i
            <==> forall j | 0 <= j < i :: Differ(a.files[i].name, a.files[j].name)
  {
    var names, name := StoredNames(a), a.files[i].name;
    var r := FirstMatch(names, name, 0);
    assert names[i] == Truncated(name) && PrefixComparable(name, names[i]);
    forall j | 0 <= j < i ensures names[j] == Truncated(a.files[j].name) {}
    forall j | 0 <= j < i ensures Differ(name, a.files[j].name) <==> !PrefixComparable(name, names[j]) {
      DifferExactly(name, a.files[j].name);
    }
    if r < i { assert !Differ(name, a.files[r].name); }
  }

  /** So if all names differ from each other like that, every file is found in its own slot. */
  lemma DistinctNamesAreFound(a: AbstractFs, i: nat)
    requires i < |a.files| <= MAXIMUM_FILE_COUNT
    requires forall j, k | 0 <= j < |a.files| && 0 <= k < |a.files| && j != k :: Differ(a.files[j].name, a.files[k].name)
    ensures FirstMatch(StoredNames(a), a.files[i].name, 0) == i
  {
    LookupExactly(a, i);
  }

  /** A name that differs from all files' names is still reported as found, in the first empty slot,
      unless all slots are in use. */
  lemma MissingNamesAreFound(a: AbstractFs, name: seq<byte>)
    requires |a.files| <= MAXIMUM_FILE_COUNT
    requires forall j | 0 <= j < |a.files| :: Differ(name, a.files[j].name)
    ensures FirstMatch(StoredNames(a), name, 0) == |a.files|
  {
    var names := StoredNames(a);
    forall j | 0 <= j < |a.files| ensures !PrefixComparable(name, names[j]) { DifferExactly(name, a.files[j].name); }
    if |a.files| < MAXIMUM_FILE_COUNT { assert names[|a.files|] == [] && PrefixComparable(name, names[|a.files|]); }
  }

  /** From a fresh format, after creating files with these names, `searchForFile` finds the i-th of
      them in its own slot i, which holds chunk i, exactly when its name differs from all earlier
      ones in one of the first 251 characters. */
  lemma CreatedNamesExactly(d: Image, names: seq<seq<byte>>, i: nat)
    requires Formatted(d) && [] !in names && forall s | s in names :: 0 !in s
    requires i < |names| <= MAXIMUM_FILE_COUNT
    ensures var w, stored := Run(d, Creates(names)), StoredNames(AbstractRun(Creates(names)));
            && (forall k | 0 <= k < MAXIMUM_FILE_COUNT :: Named(w, k, stored[k])) && Location(w, i) == i
            && (FirstMatch(stored, names[i], 0) == i <==> forall j | 0 <= j < i :: Differ(names[i], names[j]))
  {
    var w, a := Run(d, Creates(names)), AbstractRun(Creates(names));
    CreatesAreCStrings(names);
    RunRefines(d, Creates(names));
    AbstractCreates(names);
    DiskNames(w, a);
    CreatedLookup(names, i);
    assert SlotHolds(w, a, i);
  }

  lemma CreatedLookup(names: seq<seq<byte>>, i: nat)
    requires i < |names| <= MAXIMUM_FILE_COUNT
    ensures FirstMatch(StoredNames(Holding(names, |names|)), names[i], 0) == i
            <==> forall j | 0 <= j < i :: Differ(names[i], names[j])
  {
    var a := Holding(names, |names|);
    LookupExactly(a, i);
    forall j | 0 <= j <= i ensures a.files[j].name == names[j] {}
  }

  /** If no two names agree in their first 251 characters as far as both go, every file is found. */
  lemma CreatedNamesAreFound(d: Image, names: seq<seq<byte>>, i: nat)
    requires Formatted(d) && [] !in names && forall s | s in names :: 0 !in s
    requires i < |names| <= MAXIMUM_FILE_COUNT
    requires forall j, k | 0 <= j < |names| && 0 <= k < |names| && j != k :: Differ(names[j], names[k])
    ensures FirstMatch(StoredNames(AbstractRun(Creates(names))), names[i], 0) == i
  {
    CreatedNamesExactly(d, names, i);
  }
}
