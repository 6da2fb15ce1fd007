/** What every part of the kernel model shares. */
module Common {
  /** One more than the largest 32-bit word. */
  const U32: nat := 0x1_0000_0000

  datatype Option<+T> = None | Some(value: T)

  lemma ConcatAssociates<T>(a: seq<T>, b: seq<T>, c: seq<T>)
    ensures a + b + c == a + (b + c)
  {
  }
}
