// Bytes, big-endian integers, and the exclusive or used by counter mode.
module Bytes {

  type byte = x: int | 0 <= x < 256

  type bytes = seq<byte>

  const U16_LIMIT: nat := 0x1_0000
  const U32_LIMIT: nat := 0x1_0000_0000

  /** struct.pack(">H", n) */
  function U16(n: nat): (b: bytes)
    requires n < U16_LIMIT
    ensures |b| == 2 && FromU16(b) == n
  {
    [n / 256, n % 256]
  }

  function FromU16(b: bytes): (n: nat)
    requires |b| == 2
    ensures n < U16_LIMIT
  {
    var hi: nat, lo: nat := b[0], b[1];
    hi * 256 + lo
  }

  /** struct.pack(">I", n) */
  function U32(n: nat): (b: bytes)
    requires n < U32_LIMIT
    ensures |b| == 4 && FromU32(b) == n
  {
    var hi, lo := U16(n / U16_LIMIT), U16(n % U16_LIMIT);
    assert (hi + lo)[..2] == hi && (hi + lo)[2..] == lo;
    hi + lo
  }

  /** Most significant byte first. */
  lemma U32Bytes(n: nat)
    requires n < U32_LIMIT
    ensures U32(n) == [n / 0x100_0000, n / 0x1_0000 % 0x100, n / 0x100 % 0x100, n % 0x100]
  {
    DivideTwice(n);
    LowHalf(n);
    var high, low := n / 0x1_0000, n % 0x1_0000;
    assert U32(n) == [high / 0x100, high % 0x100, low / 0x100, low % 0x100];
  }

  lemma DivideTwice(n: nat)
    ensures n / 0x1_0000 / 0x100 == n / 0x100_0000
  {
    var q, r := n / 0x100_0000, n % 0x100_0000;
    assert n / 0x1_0000 == q * 0x100 + r / 0x1_0000;
  }

  lemma LowHalf(n: nat)
    ensures n % 0x1_0000 / 0x100 == n / 0x100 % 0x100
    ensures n % 0x1_0000 % 0x100 == n % 0x100
  {
    var q, r := n / 0x1_0000, n % 0x1_0000;
    assert n / 0x100 == q * 0x100 + r / 0x100;
  }

  function FromU32(b: bytes): (n: nat)
    requires |b| == 4
    ensures n < U32_LIMIT
  {
    FromU16(b[..2]) * U16_LIMIT + FromU16(b[2..])
  }

  lemma U16Canonical(b: bytes)
    requires |b| == 2
    ensures U16(FromU16(b)) == b
  {
  }

  lemma U32Canonical(b: bytes)
    requires |b| == 4
    ensures U32(FromU32(b)) == b
  {
    var hi, lo := FromU16(b[..2]), FromU16(b[2..]);
    U16Canonical(b[..2]);
    U16Canonical(b[2..]);
    assert FromU32(b) / U16_LIMIT == hi && FromU32(b) % U16_LIMIT == lo;
    assert b == b[..2] + b[2..];
  }

  /** A 4-byte big-endian length, then the bytes. */
  function Prefixed(payload: bytes): (f: bytes)
    requires |payload| < U32_LIMIT
    ensures |f| == 4 + |payload|
  {
    U32(|payload|) + payload
  }

  /** Where length, payload and rest of a length-prefixed field stand. */
  lemma PrefixedAt(payload: bytes, rest: bytes)
    requires |payload| < U32_LIMIT
    ensures var b := Prefixed(payload) + rest;
            FromU32(b[..4]) == |payload| && b[4..4 + |payload|] == payload && b[4 + |payload|..] == rest
  {
    hide FromU32;
    assert (Prefixed(payload) + rest)[..4] == U32(|payload|);
  }

  /** Positions behind the first k bytes. */
  lemma Shifted(b: bytes, k: nat, n: nat)
    requires 4 <= n && k + n <= |b|
    ensures b[k..][..4] == b[k..k + 4] && b[k..][4..n] == b[k + 4..k + n] && b[k..][n..] == b[k + n..]
  {
  }

  /** A length-prefixed field ends where it says, whatever follows. */
  lemma PrefixedInjective(a: bytes, b: bytes, x: bytes, y: bytes)
    requires |a| < U32_LIMIT && |b| < U32_LIMIT
    requires Prefixed(a) + x == Prefixed(b) + y
    ensures a == b && x == y
  {
    hide FromU32;
    assert Prefixed(a) + x == U32(|a|) + (a + x) && Prefixed(b) + y == U32(|b|) + (b + y);
    SplitConcat(U32(|a|), U32(|b|), a + x, b + y);
    SplitConcat(a, b, x, y);
  }

  /** Concatenation: b"".join(parts). */
  function Join(parts: seq<bytes>): bytes {
    if parts == [] then [] else parts[0] + Join(parts[1..])
  }

  lemma JoinSplit(parts: seq<bytes>)
    requires parts != []
    ensures |Join(parts)| == |parts[0]| + |Join(parts[1..])|
  {
  }

  lemma {:induction false} JoinAppend(parts: seq<bytes>, part: bytes)
    ensures Join(parts + [part]) == Join(parts) + part
  {
    if parts == [] {
      assert [] + [part] == [part];
    } else {
      assert (parts + [part])[1..] == parts[1..] + [part];
      JoinAppend(parts[1..], part);
    }
  }

  lemma {:induction false} JoinConcat(a: seq<bytes>, b: seq<bytes>)
    ensures Join(a + b) == Join(a) + Join(b)
  {
    if a == [] {
      assert [] + b == b;
    } else {
      assert (a + b)[1..] == a[1..] + b;
      JoinConcat(a[1..], b);
    }
  }

  lemma {:induction false} JoinPrefix(a: seq<bytes>, b: seq<bytes>)
    requires a <= b
    ensures Join(a) <= Join(b)
  {
    if a != [] {
      JoinPrefix(a[1..], b[1..]);
    }
  }

  function Pow2(n: nat): (p: nat)
    ensures p > 0
  {
    if n == 0 then 1 else 2 * Pow2(n - 1)
  }

  /** Exclusive or of the n low bits, bit by bit. */
  function XorBits(n: nat, a: nat, b: nat): (x: nat)
    ensures x < Pow2(n)
  {
    if n == 0 then 0 else 2 * XorBits(n - 1, a / 2, b / 2) + (a + b) % 2
  }

  function Xor(a: byte, b: byte): byte {
    assert Pow2(8) == 256;
    XorBits(8, a, b)
  }

  /** Bit j of a number, counted from the lowest. */
  predicate Bit(a: nat, j: nat) {
    if j == 0 then a % 2 == 1 else Bit(a / 2, j - 1)
  }

  /** Each bit of an exclusive or is set exactly when the operands differ there. */
  lemma {:induction false} XorBit(n: nat, a: nat, b: nat, j: nat)
    requires j < n
    ensures Bit(XorBits(n, a, b), j) <==> Bit(a, j) != Bit(b, j)
    decreases j
  {
    var q := XorBits(n - 1, a / 2, b / 2);
    LowBit(a, b, q);
    if j == 0 {
      LowBitSet(a, b, q);
    } else {
      XorBit(n - 1, a / 2, b / 2, j - 1);
    }
  }

  /** Numbers below 2 to the n with the same n bits are the same number. */
  lemma {:induction false} BitsDetermine(n: nat, a: nat, b: nat)
    requires a < Pow2(n) && b < Pow2(n) && forall j: nat :: j < n ==> (Bit(a, j) <==> Bit(b, j))
    ensures a == b
  {
    if n > 0 {
      assert Bit(a, 0) <==> Bit(b, 0);
      forall j: nat | j < n - 1 ensures Bit(a / 2, j) <==> Bit(b / 2, j) {
        assert Bit(a, j + 1) <==> Bit(b, j + 1);
      }
      BitsDetermine(n - 1, a / 2, b / 2);
    }
  }

  lemma LowBitSet(a: nat, b: nat, q: nat)
    ensures (2 * q + (a + b) % 2) % 2 == 1 <==> (a % 2 == 1) != (b % 2 == 1)
  {
  }

  lemma LowBit(a: nat, b: nat, q: nat)
    ensures var x := 2 * q + (a + b) % 2;
            x / 2 == q && (x + b) % 2 == a % 2
  {
  }

  lemma {:induction false} XorBitsInvolutive(n: nat, a: nat, b: nat)
    requires a < Pow2(n)
    ensures XorBits(n, XorBits(n, a, b), b) == a
  {
    if n > 0 {
      LowBit(a, b, XorBits(n - 1, a / 2, b / 2));
      XorBitsInvolutive(n - 1, a / 2, b / 2);
    }
  }

  lemma XorInvolutive(a: byte, b: byte)
    ensures Xor(Xor(a, b), b) == a
  {
    assert Pow2(8) == 256;
    XorBitsInvolutive(8, a, b);
  }

  /** Two concatenations whose first parts have one length agree part by part. */
  lemma SplitConcat(a: bytes, b: bytes, x: bytes, y: bytes)
    requires |a| == |b| && a + x == b + y
    ensures a == b && x == y
  {
    assert a == (a + x)[..|a|] && b == (b + y)[..|a|];
    assert x == (a + x)[|a|..] && y == (b + y)[|a|..];
  }
  // ---- Products ----

  lemma OneMore(n: nat, k: nat)
    requires n > 0
    ensures n * k == (n - 1) * k + k
  {
  }

  lemma ProductMonotone(m: nat, n: nat, k: nat)
    requires m <= n
    ensures m * k <= n * k
  {
    assert n * k == m * k + (n - m) * k;
  }

  /** n is length divided by size, rounded up. */
  lemma RoundedUp(n: nat, length: nat, size: nat)
    requires size > 0 && length <= n * size && (if n == 0 then length == 0 else (n - 1) * size < length)
    ensures n == (length + size - 1) / size
  {
    var x := length + size - 1;
    var q := x / size;
    assert x == q * size + x % size;
    if n > 0 { OneMore(n, size); }
    if q < n {
      ProductMonotone(q + 1, n, size);
      OneMore(q + 1, size);
    } else if q > n {
      ProductMonotone(n + 1, q, size);
      OneMore(n + 1, size);
    }
  }
}
