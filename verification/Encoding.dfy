/**
 The fixed-width and length-prefixed fields every hashed identity is made of.

 An identity hashes a tag, fixed-width numbers and digests, and length-prefixed texts, one after
 the other. Injectivity of a whole encoding is cut out of it field by field: equal strings with
 equally long or self-delimiting fronts have equal fronts and equal rests. A hasher is the string
 it has been fed so far.
 */
module Encoding {
  import opened Text
  import Order

  /** The `width` low-order bytes of `n`, most significant first. */
  function BigEndian(n: nat, width: nat): (s: string)
    ensures |s| == width
    ensures forall i :: 0 <= i < width ==> IsByte(s[i])
  {
    if width == 0 then "" else BigEndian(n / 256, width - 1) + [(n % 256) as char]
  }

  function Pow256(k: nat): nat {
    if k == 0 then 1 else 256 * Pow256(k - 1)
  }

  lemma Pow256Of8()
    ensures Pow256(8) == U64_MAX + 1
  {
    assert Pow256(4) == 0x1_0000_0000;
    assert Pow256(8) == 256 * (256 * (256 * (256 * Pow256(4))));
  }

  /** Big-endian fields order as the numbers they hold, so they are injective too. */
  lemma {:induction false} BigEndianLess(a: nat, b: nat, width: nat)
    requires a < Pow256(width) && b < Pow256(width)
    ensures Order.Less(BigEndian(a, width), BigEndian(b, width)) <==> a < b
    ensures BigEndian(a, width) == BigEndian(b, width) <==> a == b
  {
    if width > 0 {
      var p, q := BigEndian(a / 256, width - 1), BigEndian(b / 256, width - 1);
      var x, y := [(a % 256) as char], [(b % 256) as char];
      BigEndianLess(a / 256, b / 256, width - 1);
      Order.LessByFields(p, x, q, y);
      assert Order.Less(x, y) <==> a % 256 < b % 256;
      if p + x == q + y {
        assert p == (p + x)[..width - 1] == q && x == (p + x)[width - 1..] == y;
        assert x[0] == y[0];
      }
    }
  }

  /** `u64::to_be_bytes`, after the source's saturating `u64::try_from`. */
  function U64(n: nat): (s: string)
    ensures |s| == 8
    ensures forall i :: 0 <= i < 8 ==> IsByte(s[i])
  {
    BigEndian(if n <= U64_MAX then n else U64_MAX, 8)
  }

  lemma U64Less(a: u64, b: u64)
    ensures Order.Less(U64(a), U64(b)) <==> a < b
    ensures U64(a) == U64(b) <==> a == b
  {
    Pow256Of8();
    BigEndianLess(a, b, 8);
  }

  /** The number a big-endian field holds. */
  function Value(s: Bytes): (n: nat)
    ensures n < Pow256(|s|)
  {
    if s == "" then 0
    else
      assert IsByte(s[|s| - 1]);
      256 * Value(s[..|s| - 1]) + s[|s| - 1] as int
  }

  lemma {:induction false} BigEndianOfValue(s: Bytes)
    ensures BigEndian(Value(s), |s|) == s
  {
    if s != "" {
      BigEndianOfValue(s[..|s| - 1]);
      assert IsByte(s[|s| - 1]);
      assert s == s[..|s| - 1] + [s[|s| - 1]];
    }
  }

  lemma {:induction false} TopByteZero(n: nat, width: nat)
    requires width >= 1 && n < Pow256(width - 1)
    ensures BigEndian(n, width)[0] == 0 as char
  {
    if width > 1 {
      TopByteZero(n / 256, width - 1);
    }
  }

  /** `hash_length_prefixed` */
  function Prefixed(value: string): (s: string)
    ensures |s| == 8 + |value|
  {
    U64(|value|) + value
  }

  /** Equal-length prefixes of equal strings are equal, and so are the rests. */
  lemma Cut(a: string, x: string, b: string, y: string)
    requires a + x == b + y && |a| == |b|
    ensures a == b && x == y
  {
    assert a == (a + x)[..|a|] && b == (b + y)[..|a|];
    assert x == (a + x)[|a|..] && y == (b + y)[|a|..];
  }

  /** Length-prefixed fields are self-delimiting: whatever follows, the value can be read back. */
  lemma PrefixedCut(a: string, x: string, b: string, y: string)
    requires Prefixed(a) + x == Prefixed(b) + y
    requires |a| <= U64_MAX && |b| <= U64_MAX
    ensures a == b && x == y
  {
    assert Prefixed(a) + x == U64(|a|) + (a + x);
    assert Prefixed(b) + y == U64(|b|) + (b + y);
    Cut(U64(|a|), a + x, U64(|b|), b + y);
    U64Less(|a|, |b|);
    Cut(a, x, b, y);
  }

  /** A running hash: feeding `x` and then `rest` is feeding both at once. */
  class Hasher {
    var absorbed: string

    constructor ()
      ensures absorbed == ""
    {
      absorbed := "";
    }

    method Update(x: string, ghost rest: string)
      modifies this
      ensures absorbed == old(absorbed) + x
      ensures absorbed + rest == old(absorbed) + (x + rest)
    {
      absorbed := absorbed + x;
    }
  }
}
