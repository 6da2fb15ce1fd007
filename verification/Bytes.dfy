/** Bytes of memory and the little-endian words stored in them. */
module Bytes {
  import opened Common
  type byte = x: int | 0 <= x < 256

  function Le16(m: seq<byte>, i: nat): nat
    requires i + 2 <= |m|
  {
    m[i] as int + 0x100 * (m[i + 1] as int)
  }

  function Le32(m: seq<byte>, i: nat): nat
    requires i + 4 <= |m|
  {
    m[i] as int + 0x100 * (m[i + 1] as int) + 0x1_0000 * (m[i + 2] as int) + 0x100_0000 * (m[i + 3] as int)
  }

  /** Byte `k` of the little-endian representation of `v`. */
  function LeByte(v: nat, k: nat): byte {
    if k == 0 then v % 0x100
    else if k == 1 then v / 0x100 % 0x100
    else if k == 2 then v / 0x1_0000 % 0x100
    else v / 0x100_0000 % 0x100
  }

  lemma LeBytesCompose(v: nat)
    requires v < U32
    ensures (LeByte(v, 0) as int) + 0x100 * (LeByte(v, 1) as int)
            + 0x1_0000 * (LeByte(v, 2) as int) + 0x100_0000 * (LeByte(v, 3) as int) == v
    ensures v < 0x1_0000 ==> (LeByte(v, 0) as int) + 0x100 * (LeByte(v, 1) as int) == v
  {
    var a, b, c := v / 0x100, v / 0x1_0000, v / 0x100_0000;
    assert v == 0x100 * a + v % 0x100;
    assert a == 0x100 * b + a % 0x100;
    assert b == 0x100 * c + b % 0x100 && c % 0x100 == c;
  }

  /** Four bytes make a word, lowest first: each is the digit of its weight. */
  lemma LittleEndian(m: seq<byte>, i: nat)
    requires i + 4 <= |m|
    ensures var v := Le32(m, i);
            && v < U32 && m[i] == v % 0x100 && m[i + 1] == v / 0x100 % 0x100
            && m[i + 2] == v / 0x1_0000 % 0x100 && m[i + 3] == v / 0x100_0000
    ensures var v := Le16(m, i); v < 0x1_0000 && m[i] == v % 0x100 && m[i + 1] == v / 0x100
  {
    var a, b, c, d := m[i] as int, m[i + 1] as int, m[i + 2] as int, m[i + 3] as int;
    assert Le32(m, i) / 0x100 == b + 0x100 * c + 0x1_0000 * d;
    assert Le32(m, i) / 0x1_0000 == c + 0x100 * d;
    assert Le32(m, i) / 0x100_0000 == d;
  }

  /** Store the low 16 bits of `v` at `i`. */
  method Store16(m: array<byte>, i: nat, v: nat)
    requires i + 2 <= m.Length && v < 0x1_0000
    modifies m
    ensures Le16(m[..], i) == v
    ensures forall p | 0 <= p < m.Length && !(i <= p < i + 2) :: m[p] == old(m[p])
  {
    LeBytesCompose(v);
    m[i], m[i + 1] := LeByte(v, 0), LeByte(v, 1);
  }

  method Store32(m: array<byte>, i: nat, v: nat)
    requires i + 4 <= m.Length && v < U32
    modifies m
    ensures Le32(m[..], i) == v
    ensures forall p | 0 <= p < m.Length && !(i <= p < i + 4) :: m[p] == old(m[p])
  {
    LeBytesCompose(v);
    m[i], m[i + 1], m[i + 2], m[i + 3] := LeByte(v, 0), LeByte(v, 1), LeByte(v, 2), LeByte(v, 3);
  }

  method Load32(m: array<byte>, i: nat) returns (v: nat)
    requires i + 4 <= m.Length
    ensures v == Le32(m[..], i) < U32
  {
    v := m[i] as int + 0x100 * (m[i + 1] as int) + 0x1_0000 * (m[i + 2] as int) + 0x100_0000 * (m[i + 3] as int);
  }

  /** `kmemcpy`: copy `num` bytes between two places of the same memory that do not overlap. */
  method MemCopy(m: array<byte>, dest: nat, src: nat, num: nat) returns (written: nat)
    requires dest + num <= m.Length && src + num <= m.Length
    requires dest + num <= src || src + num <= dest
    modifies m
    ensures m[dest..dest + num] == old(m[src..src + num])
    ensures forall p | 0 <= p < m.Length && !(dest <= p < dest + num) :: m[p] == old(m[p])
    ensures written == num
  {
    written := 0;
    while written < num
      invariant written <= num
      invariant forall p | dest <= p < dest + written :: m[p] == old(m[p - dest + src])
      invariant forall p | 0 <= p < m.Length && !(dest <= p < dest + written) :: m[p] == old(m[p])
    {
      m[dest + written] := m[src + written];
      written := written + 1;
    }
  }
}
