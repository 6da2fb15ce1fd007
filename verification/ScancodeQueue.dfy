/** The 256-slot scancode queue between the keyboard interrupt and its reader. Writer and reader
    share only the slots and two wrapping 8-bit indices; each of their two-part accesses (store
    then publish, load then advance) may be interleaved with the other's at any point. */
module ScancodeQueue {
  import opened Bytes

  const QUEUE_SIZE: nat := 256

  datatype Writer = Idle | Stored(scancode: byte)
  datatype Reader = Waiting | Loaded(scancode: byte)

  /** The shared memory, where the two parties stand, and everything published and consumed so far. */
  datatype Queue = Queue(slots: seq<byte>, widx: nat, ridx: nat, writer: Writer, reader: Reader,
                         published: seq<byte>, consumed: seq<byte>)

  /** `kbHasNewInput` */
  predicate HasNewInput(q: Queue) {
    q.ridx != q.widx
  }

  /** Bytes published but not yet consumed. */
  function Unread(q: Queue): int {
    |q.published| - |q.consumed|
  }

  datatype Action = Store(scancode: byte) | Publish | Load | Advance

  /** Each party's accesses alternate. */
  predicate InTurn(q: Queue, a: Action) {
    match a
    case Store(_) => q.writer.Idle?
    case Publish => q.writer.Stored?
    case Load => q.reader.Waiting?
    case Advance => q.reader.Loaded?
  }

  /** The writer starts on a byte only while at most 254 are unread, and the reader on one only
      after it has seen the indices differ. */
  predicate Enabled(q: Queue, a: Action) {
    && InTurn(q, a)
    && (a.Store? ==> Unread(q) < QUEUE_SIZE - 1)
    && (a.Load? ==> HasNewInput(q))
  }

  /** The types of the source: 256 slots and two 8-bit indices. */
  predicate Typed(q: Queue) {
    |q.slots| == QUEUE_SIZE && q.widx < QUEUE_SIZE && q.ridx < QUEUE_SIZE
  }

  function Step(q: Queue, a: Action): (q': Queue)
    requires Typed(q) && InTurn(q, a)
    ensures Typed(q')
  {
    match a
    case Store(b) => q.(slots := q.slots[q.widx := b], writer := Stored(b))
    case Publish => q.(widx := (q.widx + 1) % QUEUE_SIZE, writer := Idle, published := q.published + [q.writer.scancode])
    case Load => q.(reader := Loaded(q.slots[q.ridx]))
    case Advance => q.(ridx := (q.ridx + 1) % QUEUE_SIZE, reader := Waiting, consumed := q.consumed + [q.reader.scancode])
  }

  /** What has been consumed is the beginning of what was published, and the slots between the
      indices hold exactly the rest, in order. */
  ghost predicate Sound(q: Queue) {
    && |q.slots| == QUEUE_SIZE
    && q.consumed <= q.published && Unread(q) <= QUEUE_SIZE - 1
    && q.widx == |q.published| % QUEUE_SIZE && q.ridx == |q.consumed| % QUEUE_SIZE
    && (forall i | |q.consumed| <= i < |q.published| :: q.slots[i % QUEUE_SIZE] == q.published[i])
    && (q.writer.Stored? ==> Unread(q) < QUEUE_SIZE - 1 && q.slots[q.widx] == q.writer.scancode)
    && (q.reader.Loaded? ==> Unread(q) > 0 && q.reader.scancode == q.published[|q.consumed|])
  }

  const EMPTY_QUEUE: Queue := Queue(seq(QUEUE_SIZE, _ => 0), 0, 0, Idle, Waiting, [], [])

  lemma StepSound(q: Queue, a: Action)
    requires Sound(q) && Enabled(q, a)
    ensures Sound(Step(q, a))
  {
    var n, m := |q.published|, |q.consumed|;
    match a
    case Store(b) => {
      forall i | m <= i < n ensures i % QUEUE_SIZE != q.widx { DistinctSlots(i, n); }
    }
    case Publish => NextSlot(n);
    case Load => HasInputExactly(q);
    case Advance => NextSlot(m);
  }

  lemma DistinctSlots(i: nat, n: nat)
    requires i < n < i + QUEUE_SIZE
    ensures i % QUEUE_SIZE != n % QUEUE_SIZE
  {
  }

  lemma NextSlot(n: nat)
    ensures (n % QUEUE_SIZE + 1) % QUEUE_SIZE == (n + 1) % QUEUE_SIZE
  {
  }

  /** Comparing the indices tells whether there is unread input, except when the number of unread
      bytes is a positive multiple of 256: then the queue looks empty. */
  lemma HasInputExactly(q: Queue)
    requires q.widx == |q.published| % QUEUE_SIZE && q.ridx == |q.consumed| % QUEUE_SIZE && Unread(q) >= 0
    ensures (HasNewInput(q) <==> Unread(q) > 0) <==> (Unread(q) == 0 || Unread(q) % QUEUE_SIZE != 0)
  {
  }

  /** A read that does not look at the indices first. */
  function ReadBlindly(q: Queue): Queue
    requires Typed(q) && q.reader.Waiting?
  {
    Step(Step(q, Load), Advance)
  }

  /** The byte after an E0 prefix is read like this. It keeps the queue sound exactly when there is an
      unread byte; otherwise it returns a stale one and makes 255 more of them look unread. */
  lemma ReadBlindlyExactly(q: Queue)
    requires Sound(q) && q.reader.Waiting?
    ensures Typed(q)
    ensures Sound(ReadBlindly(q)) <==> Unread(q) > 0
    ensures Unread(q) == 0 ==> (ReadBlindly(q).widx - ReadBlindly(q).ridx) % QUEUE_SIZE == QUEUE_SIZE - 1
  {
    HasInputExactly(q);
    if Unread(q) > 0 {
      StepSound(q, Load);
      StepSound(Step(q, Load), Advance);
    }
  }

  /** A write that does not count the unread bytes, like that of the interrupt handler. */
  function WriteBlindly(q: Queue, scancode: byte): Queue
    requires Typed(q) && q.writer.Idle?
  {
    Step(Step(q, Store(scancode)), Publish)
  }

  /** It keeps the queue sound exactly when at most 254 bytes are unread; the 256th unread byte makes
      the queue look empty, so that all 256 are lost to the reader. */
  lemma WriteBlindlyExactly(q: Queue, scancode: byte)
    requires Sound(q) && q.writer.Idle?
    ensures Typed(q)
    ensures Sound(WriteBlindly(q, scancode)) <==> Unread(q) < QUEUE_SIZE - 1
    ensures HasNewInput(WriteBlindly(q, scancode)) <==> Unread(q) < QUEUE_SIZE - 1
  {
    var w := WriteBlindly(q, scancode);
    NextSlot(|q.published|);
    if Unread(q) < QUEUE_SIZE - 1 {
      StepSound(q, Store(scancode));
      StepSound(Step(q, Store(scancode)), Publish);
      HasInputExactly(w);
    }
  }

  ghost predicate Runs(q: Queue, actions: seq<Action>, q': Queue)
    decreases |actions|
  {
    if actions == [] then q == q'
    else Typed(q) && Enabled(q, actions[0]) && Runs(Step(q, actions[0]), actions[1..], q')
  }

  /** Whatever the interleaving, the queue is a FIFO: the reader consumes the published bytes in
      order without loss or repetition, and the queue reports input exactly when some is unread. */
  lemma {:induction false} EveryInterleavingIsFifo(q: Queue, actions: seq<Action>, q': Queue)
    requires Sound(q) && Runs(q, actions, q')
    ensures Sound(q')
    ensures q'.consumed <= q'.published && (HasNewInput(q') <==> q'.consumed != q'.published)
    decreases |actions|
  {
    if actions == [] {
      HasInputExactly(q);
    } else {
      StepSound(q, actions[0]);
      EveryInterleavingIsFifo(Step(q, actions[0]), actions[1..], q');
    }
  }

  lemma EmptySound()
    ensures Sound(EMPTY_QUEUE)
  {
  }

  /** From power-up on, the reader has consumed the first of the published bytes and the slots hold
      exactly the rest. */
  lemma EveryRunIsFifo(actions: seq<Action>, q: Queue)
    requires Runs(EMPTY_QUEUE, actions, q)
    ensures Sound(q) && q.consumed <= q.published
    ensures HasNewInput(q) <==> q.consumed != q.published
  {
    EmptySound();
    EveryInterleavingIsFifo(EMPTY_QUEUE, actions, q);
  }
}
