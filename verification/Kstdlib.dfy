/** The kernel's C string and memory routines, on NUL-terminated strings stored in byte arrays. */
module Kstdlib {
  import opened Common
  import opened Bytes

  /** The C string `s` is stored in `m` from `p` on, with its terminating NUL. */
  ghost predicate StringAt(m: seq<byte>, p: nat, s: seq<byte>) {
    && p + |s| < |m|
    && (forall i | 0 <= i < |s| :: m[p + i] == s[i] && s[i] != 0)
    && m[p + |s|] == 0
  }

  /** One of the strings is a prefix of the other. */
  predicate PrefixComparable(s: seq<byte>, t: seq<byte>) {
    s <= t || t <= s
  }

  /** A byte as the signed `char` of the target. */
  function SChar(b: byte): int {
    if b < 128 then b as int else b as int - 256
  }

  /** `kstrcmp`: the (unsigned) difference of the first two characters that differ before either
      string ends, and 0 if there are none. So 0 does not mean equal: it means that one string
      is a prefix of the other. */
  method KStrCmp(a: array<byte>, p: nat, b: array<byte>, q: nat, ghost s: seq<byte>, ghost t: seq<byte>)
    returns (r: nat)
    requires StringAt(a[..], p, s) && StringAt(b[..], q, t)
    ensures r == 0 <==> PrefixComparable(s, t)
    ensures r != 0 ==> exists i :: 0 <= i < |s| && i < |t| && s[..i] == t[..i]
                                   && r == (SChar(s[i]) - SChar(t[i])) % U32
  {
    var i := 0;
    while a[p + i] != 0 && b[q + i] != 0
      invariant i <= |s| && i <= |t| && s[..i] == t[..i]
      decreases |s| - i
    {
      assert a[..][p + i] == a[p + i] && b[..][q + i] == b[q + i];
      var diff := SChar(a[p + i]) - SChar(b[q + i]);
      if diff != 0 {
        assert s[i] != t[i];
        return diff % U32;
      }
      assert s[..i + 1] == s[..i] + [s[i]] && t[..i + 1] == t[..i] + [t[i]];
      i := i + 1;
    }
    assert a[..][p + i] == a[p + i] && b[..][q + i] == b[q + i];
    assert (i < |s| ==> a[..][p + i] == s[i]) && (i < |t| ==> b[..][q + i] == t[i]);
    assert i == |s| || i == |t|;
    return 0;
  }

  /** `kstrncpy`: at most `max - 1` characters, always followed by a NUL. */
  method KStrNCpy(dest: array<byte>, d: nat, src: array<byte>, p: nat, max: nat, ghost s: seq<byte>)
    returns (written: nat)
    requires dest != src && StringAt(src[..], p, s)
    requires 0 < max && d + max <= dest.Length
    modifies dest
    ensures written == if |s| < max - 1 then |s| else max - 1
    ensures StringAt(dest[..], d, s[..written])
    ensures forall i | 0 <= i < dest.Length && !(d <= i <= d + written) :: dest[i] == old(dest[i])
  {
    written := 0;
    while src[p + written] != 0 && written < max - 1
      invariant written <= |s| && written <= max - 1
      invariant forall i | 0 <= i < written :: dest[d + i] == s[i]
      invariant forall i | 0 <= i < dest.Length && !(d <= i < d + written) :: dest[i] == old(dest[i])
      decreases |s| - written
    {
      assert src[..][p + written] == src[p + written];
      dest[d + written] := src[p + written];
      written := written + 1;
    }
    assert src[..][p + written] == src[p + written] && (written < |s| ==> src[..][p + written] == s[written]);
    dest[d + written] := 0;
  }

  /** `kmemset` */
  method KMemSet(dest: array<byte>, d: nat, value: byte, num: nat)
    requires d + num <= dest.Length
    modifies dest
    ensures forall i | 0 <= i < dest.Length :: dest[i] == if d <= i < d + num then value else old(dest[i])
  {
    var k := 0;
    while k < num
      invariant k <= num
      invariant forall i | 0 <= i < dest.Length :: dest[i] == if d <= i < d + k then value else old(dest[i])
    {
      dest[d + k] := value;
      k := k + 1;
    }
  }
}
