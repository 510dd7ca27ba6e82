/** Facts about concatenation. */
module Sequences {
  lemma Assoc<T>(a: seq<T>, b: seq<T>, c: seq<T>)
    ensures (a + b) + c == a + (b + c)
  {
  }

  lemma SameAround<T>(a: seq<T>, x: seq<T>, y: seq<T>, b: seq<T>)
    requires |x| == |y|
    ensures a + x + b == a + y + b <==> x == y
  {
    if a + x + b == a + y + b {
      assert x == (a + x + b)[|a|..|a| + |x|];
      assert y == (a + y + b)[|a|..|a| + |y|];
    }
  }
}

/** Bytes where their bits matter. */
module BitBytes {
  type byte = bv8
}

/** Byte strings and the copy loops of nm_common.c. */
module Bytes {
  type byte = x: int | 0 <= x < 256

  function Repeat(b: byte, n: nat): seq<byte> { seq(n, _ => b) }

  /** The number with these bytes, least significant first. */
  function FromLe(s: seq<byte>): nat {
    if s == [] then 0 else var b: nat := s[0]; b + 256 * FromLe(s[1..])
  }

  /** The number with these bytes, most significant first. */
  function FromBe(s: seq<byte>): nat {
    if s == [] then 0 else var b: nat := s[|s| - 1]; 256 * FromBe(s[..|s| - 1]) + b
  }

  method Memcpy(dst: array<byte>, at: nat, src: seq<byte>)
    requires at + |src| <= dst.Length
    modifies dst
    ensures dst[..] == old(dst[..at]) + src + old(dst[at + |src|..])
  {
    ghost var was := dst[..];
    for i := 0 to |src|
      invariant dst[..] == was[..at] + src[..i] + was[at + i..]
    {
      dst[at + i] := src[i];
      assert src[..i+1] == src[..i] + [src[i]];
    }
  }

  method Memset(dst: array<byte>, at: nat, val: byte, n: nat)
    requires at + n <= dst.Length
    modifies dst
    ensures dst[..] == old(dst[..at]) + Repeat(val, n) + old(dst[at + n..])
  {
    ghost var was := dst[..];
    for i := 0 to n
      invariant dst[..] == was[..at] + Repeat(val, i) + was[at + i..]
    {
      dst[at + i] := val;
    }
  }

  /** Zero exactly when the two ranges agree. */
  method Memcmp(a: array<byte>, at: nat, b: seq<byte>) returns (r: int)
    requires at + |b| <= a.Length
    ensures r == 0 <==> a[at..at + |b|] == b
  {
    for i := 0 to |b|
      invariant a[at..at + i] == b[..i]
    {
      if a[at + i] != b[i] {
        assert a[at..at + |b|][i] != b[i];
        return 1;
      }
    }
    return 0;
  }
}
