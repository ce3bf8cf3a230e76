/**
 Repeating-key XOR: `encrypt`, the filtering `decrypt`, and `everyOtherN`, the
 stride sampling that isolates the bytes enciphered under one key position.
 */
module Cipher {
  import opened Bytes
  import opened CharacterFilter

  /** Repeating-key XOR of `data` under `key`: byte i is combined with key byte i mod |key|.
      An empty key is harmless only for empty data, where no byte is combined. */
  function Xor(data: seq<byte>, key: seq<byte>): seq<byte>
    requires |key| > 0 || |data| == 0
  {
    seq(|data|, i requires 0 <= i < |data| => XorByte(data[i], key[i % |key|]))
  }

  /** The allowed bytes of `s`, in their original order. */
  function KeepAllowed(s: seq<byte>): seq<byte>
  {
    if s == [] then []
    else KeepAllowed(s[..|s| - 1]) + (if IsAllowed(s[|s| - 1]) then [s[|s| - 1]] else [])
  }

  /** `encrypt`; the modulo by `len(key)` panics on an empty key once there is a byte to encrypt. */
  method Encrypt(pText: seq<byte>, key: seq<byte>) returns (cText: seq<byte>)
    requires |key| > 0 || |pText| == 0
    ensures cText == Xor(pText, key)
  {
    cText := [];
    for i := 0 to |pText|
      invariant |cText| == i
      invariant forall j :: 0 <= j < i ==> cText[j] == XorByte(pText[j], key[j % |key|])
    {
      cText := cText + [XorByte(pText[i], key[i % |key|])];
    }
  }

  /** `decrypt`: the same XOR, keeping only the output bytes that are allowed. */
  method Decrypt(cText: seq<byte>, key: seq<byte>) returns (pText: seq<byte>)
    requires |key| > 0 || |cText| == 0
    ensures pText == KeepAllowed(Xor(cText, key))
  {
    ghost var all := Xor(cText, key);
    pText := [];
    for i := 0 to |cText|
      invariant pText == KeepAllowed(all[..i])
    {
      var c := XorByte(cText[i], key[i % |key|]);
      assert all[..i + 1] == all[..i] + [c];
      if IsAllowed(c) {
        pText := pText + [c];
      }
    }
    assert all[..|cText|] == all;
  }

  /** XOR with the same key undoes itself. */
  lemma XorSelfInverse(data: seq<byte>, key: seq<byte>)
    requires |key| > 0 || |data| == 0
    ensures |Xor(data, key)| == |data|
    ensures Xor(Xor(data, key), key) == data
  {
    forall i | 0 <= i < |data|
      ensures Xor(Xor(data, key), key)[i] == data[i]
    {
      XorByteInverse(data[i], key[i % |key|]);
    }
  }

  /** `decrypt` only ever outputs allowed bytes, and never more bytes than it was given. */
  lemma {:induction false} KeepAllowedSound(s: seq<byte>)
    ensures AllAllowed(KeepAllowed(s))
    ensures |KeepAllowed(s)| <= |s|
  {
    if s != [] {
      var init, last := s[..|s| - 1], s[|s| - 1];
      KeepAllowedSound(init);
      assert KeepAllowed(s)[..|KeepAllowed(init)|] == KeepAllowed(init);
    }
  }

  /** `decrypt` keeps every occurrence of every allowed byte and drops all others. */
  lemma {:induction false} KeepAllowedCounts(s: seq<byte>, x: byte)
    ensures Occurrences(KeepAllowed(s), x) == if IsAllowed(x) then Occurrences(s, x) else 0
  {
    if s != [] {
      var init, last := s[..|s| - 1], s[|s| - 1];
      KeepAllowedCounts(init, x);
      if IsAllowed(last) {
        var kept := KeepAllowed(s);
        assert kept == KeepAllowed(init) + [last];
        assert kept[..|kept| - 1] == KeepAllowed(init) && kept[|kept| - 1] == last;
        assert Occurrences(kept, x) == Occurrences(KeepAllowed(init), x) + (if last == x then 1 else 0);
      } else {
        assert KeepAllowed(s) == KeepAllowed(init);
        assert IsAllowed(x) ==> last != x;
      }
      assert Occurrences(s, x) == Occurrences(init, x) + (if last == x then 1 else 0);
    }
  }

  /** `decrypt` changes nothing exactly when every byte is already allowed. */
  lemma {:induction false} KeepAllowedIdentity(s: seq<byte>)
    ensures KeepAllowed(s) == s <==> AllAllowed(s)
  {
    KeepAllowedSound(s);
    if s != [] {
      var init, last := s[..|s| - 1], s[|s| - 1];
      KeepAllowedIdentity(init);
      KeepAllowedSound(init);
      assert s == init + [last];
      if AllAllowed(s) {
        assert AllAllowed(init);
      }
    }
  }

  /** Decrypting an encryption of printable text with the same key gives the text back. */
  lemma DecryptEncrypt(pText: seq<byte>, key: seq<byte>)
    requires |key| > 0 || |pText| == 0
    requires AllAllowed(pText)
    ensures KeepAllowed(Xor(Xor(pText, key), key)) == pText
  {
    XorSelfInverse(pText, key);
    KeepAllowedIdentity(pText);
  }

  /** Go's `%` on int: truncated division, so the remainder takes the sign of `a`. */
  function GoRem(a: int, b: int): int
    requires b != 0
  {
    var m := Abs(a) % Abs(b);
    if a < 0 then -m else m
  }

  /** `GoRem` is the truncated remainder: smaller in magnitude than the divisor, zero or of
      the sign of the dividend, and differing from the dividend by a multiple of the divisor. */
  lemma GoRemTruncated(a: int, b: int)
    requires b != 0
    ensures Abs(GoRem(a, b)) < Abs(b)
    ensures GoRem(a, b) != 0 ==> (GoRem(a, b) < 0 <==> a < 0)
    ensures (a - GoRem(a, b)) % Abs(b) == 0
  {
    var m := Abs(a) % Abs(b);
    ModUnique(Abs(a) - m, Abs(a) / Abs(b), 0, Abs(b));
    ModUnique(m - Abs(a), -(Abs(a) / Abs(b)), 0, Abs(b));
  }

  function Abs(a: int): nat
  {
    if a < 0 then -a else a
  }

  /** Whether `everyOtherN` keeps index `i`. */
  predicate Selected(i: int, n: int, offset: int)
    requires n != 0
  {
    GoRem(i - offset, n) == 0
  }

  /** The bytes of `c` at the indices `everyOtherN` keeps, in index order. */
  function Stride(c: seq<byte>, n: int, offset: int): seq<byte>
    requires n != 0 || |c| == 0
  {
    if c == [] then []
    else Stride(c[..|c| - 1], n, offset) + (if Selected(|c| - 1, n, offset) then [c[|c| - 1]] else [])
  }

  /** `everyOtherN`; a zero stride panics in Go's `%` once there is an index to test. */
  method EveryOtherN(cText: seq<byte>, n: int, offset: int) returns (out: seq<byte>)
    requires n != 0 || |cText| == 0
    ensures out == Stride(cText, n, offset)
  {
    out := [];
    for i := 0 to |cText|
      invariant out == Stride(cText[..i], n, offset)
    {
      assert cText[..i + 1][..i] == cText[..i];
      if GoRem(i - offset, n) == 0 {
        out := out + [cText[i]];
      }
    }
    assert cText[..|cText|] == cText;
  }

  /** Go's truncated remainder and Dafny's Euclidean one agree on whether a positive
      divisor divides `a`: `everyOtherN` keeps exactly the indices i with i = offset (mod n). */
  lemma GoRemZero(a: int, b: int)
    requires b >= 1
    ensures GoRem(a, b) == 0 <==> a % b == 0
  {
    if a < 0 {
      if (-a) % b == 0 {
        ModUnique(a, -((-a) / b), 0, b);
      }
      if a % b == 0 {
        ModUnique(-a, -(a / b), 0, b);
      }
    }
  }

  /** With the stride as offset, `findN`'s call, sampling starts at index 0, exactly as
      with offset 0. */
  lemma {:induction false} StrideOffsetN(c: seq<byte>, n: int)
    requires n != 0
    ensures Stride(c, n, n) == Stride(c, n, 0)
  {
    if c != [] {
      var i := |c| - 1;
      StrideOffsetN(c[..i], n);
      SelectedOffsetN(i, n);
    }
  }

  lemma SelectedOffsetN(i: int, n: int)
    requires n != 0
    ensures Selected(i, n, n) <==> Selected(i, n, 0)
  {
    var m := Abs(n);
    var j := if n > 0 then i - m else i + m;
    assert GoRem(i - n, n) == GoRem(j, m) && GoRem(i, n) == GoRem(i, m);
    GoRemZero(j, m);
    GoRemZero(i, m);
    if n > 0 {
      var q, r := j / m, j % m;
      assert i == (q + 1) * m + r by { MulStep(q, m); }
      ModUnique(i, q + 1, r, m);
    } else {
      var q, r := i / m, i % m;
      assert j == (q + 1) * m + r by { MulStep(q, m); }
      ModUnique(j, q + 1, r, m);
    }
  }

  /** Any nonzero stride with offset equal to the stride keeps the first byte. */
  lemma {:induction false} StrideKeepsFirst(c: seq<byte>, n: int)
    requires n != 0
    requires |c| > 0
    ensures |Stride(c, n, n)| > 0 && Stride(c, n, n)[0] == c[0]
  {
    if |c| == 1 {
      assert Abs(n) % Abs(n) == 0;
      assert Selected(0, n, n);
    } else {
      StrideKeepsFirst(c[..|c| - 1], n);
    }
  }

  /** For a positive stride n and an offset below it, the sample is exactly
      c[offset], c[offset + n], c[offset + 2n], ...: entry j is c[offset + j n], and
      every such index inside c is listed. */
  lemma {:induction false} StrideIndices(c: seq<byte>, n: int, offset: int)
    requires n >= 1 && 0 <= offset < n
    ensures forall j :: 0 <= j < |Stride(c, n, offset)| ==>
              offset + j * n < |c| && Stride(c, n, offset)[j] == c[offset + j * n]
    ensures |c| <= offset + |Stride(c, n, offset)| * n
  {
    StrideLength(c, n, offset);
    forall j | 0 <= j < |Stride(c, n, offset)|
      ensures offset + j * n < |c| && Stride(c, n, offset)[j] == c[offset + j * n]
    {
      StrideEntry(c, n, offset, j);
    }
  }

  /** Entry j of the sample, by induction on the length of c. */
  lemma {:induction false} StrideEntry(c: seq<byte>, n: int, offset: int, j: int)
    requires n >= 1 && 0 <= offset < n && 0 <= j < |Stride(c, n, offset)|
    ensures offset + j * n < |c| && Stride(c, n, offset)[j] == c[offset + j * n]
  {
    var m := |c| - 1;
    var init := c[..m];
    var prev := Stride(init, n, offset);
    var k := |prev|;
    assert Stride(c, n, offset) == if Selected(m, n, offset) then prev + [c[m]] else prev;
    if j < k {
      StrideEntry(init, n, offset, j);
    } else {
      StrideLength(init, n, offset);
      SelectedNext(m, n, offset, k);
    }
  }

  /** The sample has one entry per index offset + j n inside c: the last one listed is
      inside c and the next one is not. */
  lemma {:induction false} StrideLength(c: seq<byte>, n: int, offset: int)
    requires n >= 1 && 0 <= offset < n
    ensures |Stride(c, n, offset)| > 0 ==> offset + (|Stride(c, n, offset)| - 1) * n < |c|
    ensures |c| <= offset + |Stride(c, n, offset)| * n
  {
    if c != [] {
      var m := |c| - 1;
      StrideLength(c[..m], n, offset);
      var k := |Stride(c[..m], n, offset)|;
      SelectedNext(m, n, offset, k);
      MulStep(k, n);
    }
  }

  /** Once the sample below index m has k entries, index m is kept exactly when it is
      the next index offset + k n. */
  lemma SelectedNext(m: int, n: int, offset: int, k: nat)
    requires n >= 1 && 0 <= offset < n && 0 <= m
    requires k > 0 ==> offset + (k - 1) * n < m
    requires m <= offset + k * n
    ensures Selected(m, n, offset) <==> m == offset + k * n
  {
    if Selected(m, n, offset) {
      if m < offset {
        ModUnique(offset - m, 0, offset - m, n);
        assert false;
      }
      GoRemZero(m - offset, n);
      var q := (m - offset) / n;
      assert m - offset == q * n;
      if q < k {
        MulMono(q, k - 1, n);
      } else if q > k {
        MulMono(k + 1, q, n);
        MulStep(k, n);
      }
    } else if m == offset + k * n {
      ModUnique(m - offset, k, 0, n);
      GoRemZero(m - offset, n);
    }
  }

  /** The Euclidean remainder is determined by any decomposition x = q n + r with 0 <= r < n. */
  lemma ModUnique(x: int, q: int, r: int, n: int)
    requires n >= 1 && 0 <= r < n && x == q * n + r
    ensures x % n == r
  {
    var q', r' := x / n, x % n;
    assert x == q' * n + r';
    if q < q' {
      MulMono(q + 1, q', n);
      MulStep(q, n);
    } else if q' < q {
      MulMono(q' + 1, q, n);
      MulStep(q', n);
    }
  }
}
