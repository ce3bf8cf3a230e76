/** Bytes as the source's `byte`, and the two byte operations the breaker uses. */
module Bytes {

  /** Go's `byte`. */
  type byte = x: int | 0 <= x < 256

  /** Go's `^` on two bytes: bitwise exclusive or of the eight low bits. */
  function XorByte(a: byte, b: byte): byte
  {
    XorBitsBound(a, b, 8);
    XorBits(a, b, 8)
  }

  /** Exclusive or of the `k` low bits of `a` and `b`, lowest bit first. */
  function XorBits(a: nat, b: nat, k: nat): nat
  {
    if k == 0 then 0
    else (if a % 2 == b % 2 then 0 else 1) + 2 * XorBits(a / 2, b / 2, k - 1)
  }

  function Pow2(k: nat): (p: nat)
    ensures p > 0
  {
    if k == 0 then 1 else 2 * Pow2(k - 1)
  }

  /** The exclusive or of k bits fits in k bits. */
  lemma {:induction false} XorBitsBound(a: nat, b: nat, k: nat)
    ensures XorBits(a, b, k) < Pow2(k)
  {
    if k > 0 {
      XorBitsBound(a / 2, b / 2, k - 1);
    }
  }

  /** Exclusive or with the same k-bit value twice gives back any k-bit value. */
  lemma {:induction false} XorBitsInverse(a: nat, b: nat, k: nat)
    requires a < Pow2(k)
    ensures XorBits(XorBits(a, b, k), b, k) == a
  {
    if k > 0 {
      var y := XorBits(a / 2, b / 2, k - 1);
      var x := XorBits(a, b, k);
      assert x % 2 == (if a % 2 == b % 2 then 0 else 1) && x / 2 == y;
      XorBitsInverse(a / 2, b / 2, k - 1);
    }
  }

  /** XOR with the same byte twice is the identity. */
  lemma XorByteInverse(a: byte, b: byte)
    ensures XorByte(XorByte(a, b), b) == a
  {
    XorBitsInverse(a, b, 8);
  }

  /** Bit j of x, counting from the lowest. */
  function Bit(x: nat, j: nat): nat
  {
    x / Pow2(j) % 2
  }

  /** `XorByte` is Go's `^`: each of the eight bits of the result is set exactly when the
      corresponding bits of the operands differ. */
  lemma XorByteBits(a: byte, b: byte)
    ensures forall j :: 0 <= j < 8 ==>
              Bit(XorByte(a, b), j) == if Bit(a, j) == Bit(b, j) then 0 else 1
  {
    forall j | 0 <= j < 8
      ensures Bit(XorByte(a, b), j) == if Bit(a, j) == Bit(b, j) then 0 else 1
    {
      XorBitsBit(a, b, 8, j);
    }
  }

  lemma {:induction false} XorBitsBit(a: nat, b: nat, k: nat, j: nat)
    requires j < k
    ensures Bit(XorBits(a, b, k), j) == if Bit(a, j) == Bit(b, j) then 0 else 1
  {
    var x := XorBits(a, b, k);
    if j > 0 {
      XorBitsBit(a / 2, b / 2, k - 1, j - 1);
      assert x / 2 == XorBits(a / 2, b / 2, k - 1);
      BitHalf(x, j);
      BitHalf(a, j);
      BitHalf(b, j);
    }
  }

  /** Bit j of x is bit j - 1 of x / 2. */
  lemma BitHalf(x: nat, j: nat)
    requires j > 0
    ensures Bit(x, j) == Bit(x / 2, j - 1)
  {
    DivTwice(x, Pow2(j - 1));
  }

  lemma DivTwice(x: nat, p: nat)
    requires p > 0
    ensures x / (2 * p) == x / 2 / p
  {
    var q, r := x / 2 / p, x / 2 % p;
    assert x / 2 == q * p + r;
    assert x == q * (2 * p) + (2 * r + x % 2);
    DivUnique(x, q, 2 * r + x % 2, 2 * p);
  }

  /** The Euclidean quotient is determined by any decomposition x = q n + r with 0 <= r < n. */
  lemma DivUnique(x: int, q: int, r: int, n: int)
    requires n >= 1 && 0 <= r < n && x == q * n + r
    ensures x / n == q
  {
    var q', r' := x / n, x % n;
    assert x == q' * n + r';
    if q < q' {
      MulMono(q + 1, q', n);
      MulStep(q, n);
    } else if q' < q {
      MulMono(q' + 1, q, n);
      MulStep(q', n);
    }
  }

  lemma MulMono(a: int, b: int, n: int)
    requires n >= 1 && a <= b
    ensures a * n <= b * n
  {
  }

  lemma MulStep(a: int, n: int)
    ensures (a + 1) * n == a * n + n
  {
  }

  /** How many times byte `b` occurs in `s`. */
  function Occurrences(s: seq<byte>, b: byte): nat
  {
    if s == [] then 0
    else Occurrences(s[..|s| - 1], b) + (if s[|s| - 1] == b then 1 else 0)
  }

  /** A byte occurs in `s` exactly when its count is positive. */
  lemma {:induction false} OccurrencesPositive(s: seq<byte>, b: byte)
    ensures Occurrences(s, b) > 0 <==> b in s
  {
    if s != [] {
      OccurrencesPositive(s[..|s| - 1], b);
      assert s == s[..|s| - 1] + [s[|s| - 1]];
    }
  }

  /** A byte occurs at most |s| times, and exactly |s| times when every byte of `s` is it. */
  lemma {:induction false} OccurrencesAtMost(s: seq<byte>, b: byte)
    ensures Occurrences(s, b) <= |s|
    ensures Occurrences(s, b) == |s| <==> forall i :: 0 <= i < |s| ==> s[i] == b
  {
    if s != [] {
      var init, last := s[..|s| - 1], s[|s| - 1];
      OccurrencesAtMost(init, b);
      if forall i :: 0 <= i < |s| ==> s[i] == b {
        assert forall i :: 0 <= i < |init| ==> init[i] == s[i];
      } else {
        var j :| 0 <= j < |s| && s[j] != b;
        if j < |init| {
          assert init[j] != b;
        }
      }
    }
  }

  /** Appending a byte adds one occurrence of it and none of any other byte. */
  lemma OccurrencesAppend(s: seq<byte>, x: byte, b: byte)
    ensures Occurrences(s + [x], b) == Occurrences(s, b) + (if x == b then 1 else 0)
  {
    assert (s + [x])[..|s|] == s;
  }
}

/**
 The plaintext alphabet of the XOR breaker: the printable ASCII bytes 32 (space)
 to 126 ('~'), the membership test over it, and the full byte range 0..255 that
 the key-byte search walks through.
 */
module CharacterFilter {
  import opened Bytes

  /** The alphabet that `allowedChars` builds, as a value: 32, 33, ..., 126. */
  function AllowedAlphabet(): seq<byte>
  {
    seq(95, i requires 0 <= i < 95 => 32 + i)
  }

  /** Linear membership test with early return. */
  method IsIn(x: byte, y: seq<byte>) returns (found: bool)
    ensures found <==> x in y
  {
    for i := 0 to |y|
      invariant x !in y[..i]
    {
      if y[i] == x {
        return true;
      }
    }
    return false;
  }

  /** Builds the allowed alphabet by appending 32, 33, ..., 126 in turn. */
  method AllowedChars() returns (chars: seq<byte>)
    ensures chars == AllowedAlphabet()
    ensures |chars| == 95
    ensures forall i :: 0 <= i < 95 ==> chars[i] == 32 + i
    ensures forall x: byte :: x in chars <==> 32 <= x <= 126
  {
    chars := [];
    var i: int := 32;
    while i < 127
      invariant 32 <= i <= 127
      invariant |chars| == i - 32
      invariant forall j :: 0 <= j < i - 32 ==> chars[j] == 32 + j
    {
      chars := chars + [i];
      i := i + 1;
    }
    forall x: byte | 32 <= x <= 126
      ensures x in chars
    {
      assert chars[x - 32] == x;
    }
  }

  /** Builds every byte value, in ascending order. */
  method AllChars() returns (chars: seq<byte>)
    ensures |chars| == 256
    ensures forall i :: 0 <= i < 256 ==> chars[i] == i
  {
    chars := [];
    var i: int := 0;
    while i < 256
      invariant 0 <= i <= 256
      invariant |chars| == i
      invariant forall j :: 0 <= j < i ==> chars[j] == j
    {
      chars := chars + [i];
      i := i + 1;
    }
  }

  /** `isAllowed`: membership in the allowed alphabet, which is exactly the byte range 32..126. */
  predicate IsAllowed(x: byte)
    ensures IsAllowed(x) <==> 32 <= x <= 126
  {
    assert 32 <= x <= 126 ==> AllowedAlphabet()[x - 32] == x;
    x in AllowedAlphabet()
  }

  /** Every byte of `s` is in the allowed alphabet. */
  predicate AllAllowed(s: seq<byte>)
  {
    forall i :: 0 <= i < |s| ==> IsAllowed(s[i])
  }
}
