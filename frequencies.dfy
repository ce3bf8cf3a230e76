/**
 The `Frequencies` record of decrypt.go: a byte-frequency table over a byte
 sequence, its sum of squared frequencies, and the flag that says whether the
 sequence held a byte outside the allowed alphabet. Frequencies are exact
 reals here; the source accumulates them in float32.
 */
module FrequencyModel {
  import opened Bytes
  import opened CharacterFilter

  /** A slot's frequency; a byte with no slot has frequency 0, as Go's map read gives. */
  function Get(m: map<byte, real>, b: byte): real
  {
    if b in m then m[b] else 0.0
  }

  /** Relative frequency of `b` in `s`: its count divided by the length. */
  function Share(s: seq<byte>, b: byte): real
  {
    if |s| == 0 then 0.0 else Occurrences(s, b) as real / |s| as real
  }

  /** The table one pass of `countChars` builds from an empty one: a slot for every
      byte that occurs, holding its relative frequency. */
  function FreqMap(s: seq<byte>): map<byte, real>
  {
    map b | b in s :: Share(s, b)
  }

  /** Sum of the squared values of `m` over `keys`, in whatever order a map is iterated. */
  ghost function SquareSum(m: map<byte, real>, keys: set<byte>): real
    requires keys <= m.Keys
    decreases keys
  {
    if keys == {} then 0.0
    else
      var k :| k in keys;
      Product(m[k], m[k]) + SquareSum(m, keys - {k})
  }

  /** Real multiplication, with the sign facts the positivity proofs use. */
  function Product(x: real, y: real): (r: real)
    ensures x > 0.0 && y > 0.0 ==> r > 0.0
    ensures x == y ==> r >= 0.0
  {
    x * y
  }

  /** The self-similarity score that `run` leaves in `ss`. */
  ghost function SelfSimilarity(s: seq<byte>): real
  {
    SquareSum(FreqMap(s), FreqMap(s).Keys)
  }

  /** Sum over the byte values 0, ..., k - 1 of the products of the two tables' frequencies. */
  function DotUpTo(m1: map<byte, real>, m2: map<byte, real>, k: nat): real
    requires k <= 256
  {
    if k == 0 then 0.0
    else DotUpTo(m1, m2, k - 1) + Get(m1, k - 1) * Get(m2, k - 1)
  }

  /** The cross-similarity of two tables, over all 256 byte values. */
  function Dot(m1: map<byte, real>, m2: map<byte, real>): real
  {
    DotUpTo(m1, m2, 256)
  }

  class Frequencies {
    var freq: map<byte, real>
    var ss: real
    var chars: seq<byte>
    var invalidChars: bool

    /** Go's zero value of the struct. */
    constructor ()
      ensures freq == map[] && ss == 0.0 && chars == [] && !invalidChars
    {
      freq := map[];
      ss := 0.0;
      chars := [];
      invalidChars := false;
    }

    /** `run`: reset the flag and the table, count `input`, then sum the squares. */
    method Run(input: seq<byte>)
      modifies this
      ensures chars == input
      ensures freq == FreqMap(input)
      ensures invalidChars <==> !AllAllowed(input)
      ensures ss == SelfSimilarity(input)
    {
      invalidChars := false;
      chars := input;
      freq := map[];
      CountChars();
      FreqMapOfFirstCount(freq, input);
      SumOfSquares();
    }

    /** `countChars`: add 1/len(chars) to the slot of every byte of `chars`, and raise the
        flag on any byte outside the alphabet. Slots already present keep what they had. */
    method CountChars()
      modifies this`freq, this`invalidChars
      ensures forall b :: b in freq <==> b in old(freq) || b in chars
      ensures forall b :: b in freq ==> freq[b] == Get(old(freq), b) + Share(chars, b)
      ensures invalidChars <==> old(invalidChars) || !AllAllowed(chars)
    {
      ghost var unit := if |chars| == 0 then 0.0 else 1.0 / |chars| as real;
      for i := 0 to |chars|
        invariant freq == Tally(old(freq), chars[..i], unit)
        invariant invalidChars <==> old(invalidChars) || !AllAllowed(chars[..i])
      {
        var c := chars[i];
        assert chars[..i + 1][..i] == chars[..i];
        assert Tally(old(freq), chars[..i + 1], unit) == freq[c := Get(freq, c) + unit];
        freq := freq[c := Get(freq, c) + 1.0 / |chars| as real];
        if !IsAllowed(c) {
          invalidChars := true;
        }
      }
      assert chars[..|chars|] == chars;
      TallyShape(old(freq), chars, unit);
      forall b | b in freq
        ensures freq[b] == Get(old(freq), b) + Share(chars, b)
      {
        if |chars| > 0 {
          TimesShare(Occurrences(chars, b), |chars|);
        }
      }
    }

    /** `sumOfSquares` on the record: the squared slot values, summed in map order. */
    method SumOfSquares()
      modifies this`ss
      ensures ss == SquareSum(freq, freq.Keys)
    {
      var total := 0.0;
      var rest := freq.Keys;
      while rest != {}
        invariant rest <= freq.Keys
        invariant total + SquareSum(freq, rest) == SquareSum(freq, freq.Keys)
        decreases rest
      {
        var k :| k in rest;
        SquareSumRemove(freq, rest, k);
        total := total + freq[k] * freq[k];
        rest := rest - {k};
      }
      ss := total;
    }
  }

  /** The module-level `sumOfSquares(f1, f2)`: despite its name, the dot product of the two
      tables over every byte value from `allChars`. */
  method SumOfSquares(f1: Frequencies, f2: Frequencies) returns (total: real)
    ensures total == Dot(f1.freq, f2.freq)
  {
    var all := AllChars();
    total := 0.0;
    for i := 0 to |all|
      invariant total == DotUpTo(f1.freq, f2.freq, i)
    {
      var c := all[i];
      total := total + Get(f1.freq, c) * Get(f2.freq, c);
    }
  }

  /** The table after adding `unit` to the slot of each byte of `s` in turn, starting from `start`. */
  ghost function Tally(start: map<byte, real>, s: seq<byte>, unit: real): map<byte, real>
  {
    if s == [] then start
    else
      var t := Tally(start, s[..|s| - 1], unit);
      t[s[|s| - 1] := Get(t, s[|s| - 1]) + unit]
  }

  /** Each slot of a tally gains `unit` once per occurrence; new slots are exactly the new bytes. */
  lemma {:induction false} TallyShape(start: map<byte, real>, s: seq<byte>, unit: real)
    ensures forall b :: b in Tally(start, s, unit) <==> b in start || b in s
    ensures forall b :: b in Tally(start, s, unit) ==>
              Tally(start, s, unit)[b] == Get(start, b) + Times(Occurrences(s, b), unit)
  {
    if s != [] {
      var init, last := s[..|s| - 1], s[|s| - 1];
      TallyShape(start, init, unit);
      assert s == init + [last];
      var t := Tally(start, init, unit);
      forall b | b in Tally(start, s, unit)
        ensures Tally(start, s, unit)[b] == Get(start, b) + Times(Occurrences(s, b), unit)
      {
        OccurrencesAppend(init, last, b);
        if b == last && b !in t {
          OccurrencesPositive(init, b);
        }
      }
    }
  }

  /** `k` copies of `unit` added up, as the float loop does. */
  function Times(k: nat, unit: real): real
  {
    if k == 0 then 0.0 else Times(k - 1, unit) + unit
  }

  /** Adding 1/n to a slot k times leaves k/n in it. */
  lemma {:induction false} TimesShare(k: nat, n: nat)
    requires n > 0
    ensures Times(k, 1.0 / n as real) == k as real / n as real
  {
    if k > 0 {
      TimesShare(k - 1, n);
      assert (k - 1) as real / n as real + 1.0 / n as real == k as real / n as real;
    }
  }

  /** A table holding exactly the relative frequencies of `s` on the bytes of `s` is `FreqMap(s)`. */
  lemma FreqMapOfFirstCount(m: map<byte, real>, s: seq<byte>)
    requires forall b :: b in m <==> b in s
    requires forall b :: b in m ==> m[b] == Share(s, b)
    ensures m == FreqMap(s)
  {
    assert m.Keys == FreqMap(s).Keys;
  }

  /** The sum does not depend on which key the iteration takes first. */
  lemma {:induction false} SquareSumRemove(m: map<byte, real>, keys: set<byte>, k: byte)
    requires keys <= m.Keys && k in keys
    ensures SquareSum(m, keys) == Product(m[k], m[k]) + SquareSum(m, keys - {k})
    decreases keys
  {
    var j :| j in keys && SquareSum(m, keys) == Product(m[j], m[j]) + SquareSum(m, keys - {j});
    if j != k {
      SquareSumRemove(m, keys - {j}, k);
      SquareSumRemove(m, keys - {k}, j);
      assert keys - {j} - {k} == keys - {k} - {j};
    }
  }

  lemma {:induction false} SquareSumNonNegative(m: map<byte, real>, keys: set<byte>)
    requires keys <= m.Keys
    ensures SquareSum(m, keys) >= 0.0
    decreases keys
  {
    if keys != {} {
      var k :| k in keys && SquareSum(m, keys) == Product(m[k], m[k]) + SquareSum(m, keys - {k});
      SquareSumNonNegative(m, keys - {k});
      assert Product(m[k], m[k]) >= 0.0;
    }
  }

  /** A non-empty sequence scores strictly above zero: the search in `findN`, whose running
      best starts at 0, can pick it. */
  lemma SelfSimilarityPositive(s: seq<byte>)
    requires |s| > 0
    ensures SelfSimilarity(s) > 0.0
  {
    var m := FreqMap(s);
    var k := s[0];
    assert k in m.Keys;
    assert m[k] == Share(s, k);
    SharePositive(s, k);
    SquareSumPositive(m, m.Keys, k);
  }

  /** A sequence scores at most 1, the score of a sequence of one repeated byte. */
  lemma SelfSimilarityAtMostOne(s: seq<byte>)
    requires |s| > 0
    ensures SelfSimilarity(s) <= 1.0
  {
    var m := FreqMap(s);
    forall b | b in m.Keys
      ensures 0.0 <= m[b] <= 1.0
    {
      ShareAtMostOne(s, b);
    }
    SquareSumAtMostValueSum(m, m.Keys);
    FreqMapValueSum(s);
  }

  /** The score is exactly 1 when, and only when, every byte of the sequence is the same. */
  lemma SelfSimilarityOne(s: seq<byte>)
    requires |s| > 0
    ensures SelfSimilarity(s) == 1.0 <==> forall i, j :: 0 <= i < |s| && 0 <= j < |s| ==> s[i] == s[j]
  {
    var m := FreqMap(s);
    var b := s[0];
    if forall i, j :: 0 <= i < |s| && 0 <= j < |s| ==> s[i] == s[j] {
      assert forall i :: 0 <= i < |s| ==> s[i] == b;
      OccurrencesAtMost(s, b);
      DivSelf(|s| as real);
      assert m.Keys == {b};
      assert m[b] == 1.0;
      SquareSumRemove(m, m.Keys, b);
      assert m.Keys - {b} == {};
      assert Product(m[b], m[b]) == 1.0;
    } else {
      var i, j :| 0 <= i < |s| && 0 <= j < |s| && s[i] != s[j];
      var a := s[i];
      forall x | x in m.Keys
        ensures 0.0 <= m[x] <= 1.0
      {
        ShareAtMostOne(s, x);
      }
      SharePositive(s, a);
      OccurrencesAtMost(s, a);
      ShareBelowOne(s, a);
      SquareSumBelowValueSum(m, m.Keys, a);
      FreqMapValueSum(s);
    }
  }

  /** A relative frequency lies between 0 and 1. */
  lemma ShareAtMostOne(s: seq<byte>, b: byte)
    ensures 0.0 <= Share(s, b) <= 1.0
  {
    if |s| > 0 {
      OccurrencesAtMost(s, b);
      RatioBounds(Occurrences(s, b) as real, |s| as real);
    }
  }

  /** A byte that does not fill the whole sequence has relative frequency below 1. */
  lemma ShareBelowOne(s: seq<byte>, b: byte)
    requires |s| > 0 && Occurrences(s, b) < |s|
    ensures Share(s, b) < 1.0
  {
    RatioBounds(Occurrences(s, b) as real, |s| as real);
  }

  /** A quotient k / n of 0 <= k <= n lies in [0, 1], and below 1 when k < n. */
  lemma RatioBounds(k: real, n: real)
    requires 0.0 <= k <= n && n > 0.0
    ensures 0.0 <= k / n <= 1.0
    ensures k < n ==> k / n < 1.0
  {
    assert k / n * n == k;
  }

  /** Sum of the values of `m` over `keys`, in whatever order a map is iterated. */
  ghost function ValueSum(m: map<byte, real>, keys: set<byte>): real
    requires keys <= m.Keys
    decreases keys
  {
    if keys == {} then 0.0
    else
      var k :| k in keys;
      m[k] + ValueSum(m, keys - {k})
  }

  /** The sum does not depend on which key the iteration takes first. */
  lemma {:induction false} ValueSumRemove(m: map<byte, real>, keys: set<byte>, k: byte)
    requires keys <= m.Keys && k in keys
    ensures ValueSum(m, keys) == m[k] + ValueSum(m, keys - {k})
    decreases keys
  {
    var j :| j in keys && ValueSum(m, keys) == m[j] + ValueSum(m, keys - {j});
    if j != k {
      ValueSumRemove(m, keys - {j}, k);
      ValueSumRemove(m, keys - {k}, j);
      assert keys - {j} - {k} == keys - {k} - {j};
    }
  }

  /** For values in [0, 1], each square is at most the value itself. */
  lemma {:induction false} SquareSumAtMostValueSum(m: map<byte, real>, keys: set<byte>)
    requires keys <= m.Keys
    requires forall b :: b in keys ==> 0.0 <= m[b] <= 1.0
    ensures SquareSum(m, keys) <= ValueSum(m, keys)
    decreases keys
  {
    if keys != {} {
      var k :| k in keys;
      SquareSumRemove(m, keys, k);
      ValueSumRemove(m, keys, k);
      SquareSumAtMostValueSum(m, keys - {k});
      ProductAtMost(m[k]);
    }
  }

  /** One value strictly between 0 and 1 makes the inequality strict. */
  lemma SquareSumBelowValueSum(m: map<byte, real>, keys: set<byte>, k: byte)
    requires keys <= m.Keys && k in keys
    requires forall b :: b in keys ==> 0.0 <= m[b] <= 1.0
    requires 0.0 < m[k] < 1.0
    ensures SquareSum(m, keys) < ValueSum(m, keys)
  {
    SquareSumRemove(m, keys, k);
    ValueSumRemove(m, keys, k);
    SquareSumAtMostValueSum(m, keys - {k});
    ProductBelow(m[k]);
  }

  lemma ProductAtMost(x: real)
    requires 0.0 <= x <= 1.0
    ensures Product(x, x) <= x
  {
    assert x * x <= x * 1.0;
  }

  lemma ProductBelow(x: real)
    requires 0.0 < x < 1.0
    ensures Product(x, x) < x
  {
    assert x * x < x * 1.0;
  }

  /** The slots of a non-empty sequence's table add up to 1. */
  lemma FreqMapValueSum(s: seq<byte>)
    requires |s| > 0
    ensures ValueSum(FreqMap(s), FreqMap(s).Keys) == 1.0
  {
    var m := FreqMap(s);
    FrequenciesSumToOne(s);
    FrequencyTotalValueSum(m, 256);
    assert KeysBelow(m, 256) == m.Keys;
  }

  /** The keys of `m` below k. */
  ghost function KeysBelow(m: map<byte, real>, k: nat): set<byte>
  {
    set b | b in m.Keys && b < k
  }

  /** Summing the byte values 0, ..., k - 1 with a missing slot as 0 is summing the slots below k. */
  lemma {:induction false} FrequencyTotalValueSum(m: map<byte, real>, k: nat)
    requires k <= 256
    ensures FrequencyTotal(m, k) == ValueSum(m, KeysBelow(m, k))
  {
    if k == 0 {
      assert KeysBelow(m, 0) == {};
    } else {
      FrequencyTotalValueSum(m, k - 1);
      var b: byte := k - 1;
      if b in m {
        ValueSumRemove(m, KeysBelow(m, k), b);
        assert KeysBelow(m, k) - {b} == KeysBelow(m, k - 1);
      } else {
        assert KeysBelow(m, k) == KeysBelow(m, k - 1);
      }
    }
  }

  /** A sum of squares with one positive term is positive. */
  lemma SquareSumPositive(m: map<byte, real>, keys: set<byte>, k: byte)
    requires keys <= m.Keys && k in keys && m[k] > 0.0
    ensures SquareSum(m, keys) > 0.0
  {
    SquareSumRemove(m, keys, k);
    SquareSumNonNegative(m, keys - {k});
  }

  /** Every byte that occurs has a positive relative frequency. */
  lemma SharePositive(s: seq<byte>, b: byte)
    requires b in s
    ensures Share(s, b) > 0.0
  {
    OccurrencesPositive(s, b);
    var k, n := Occurrences(s, b) as real, |s| as real;
    assert k > 0.0 && n > 0.0;
    assert k / n > 0.0;
  }

  /** The cross-similarity does not depend on the order of the two tables. */
  lemma {:induction false} DotUpToSymmetric(m1: map<byte, real>, m2: map<byte, real>, k: nat)
    requires k <= 256
    ensures DotUpTo(m1, m2, k) == DotUpTo(m2, m1, k)
  {
    if k > 0 {
      DotUpToSymmetric(m1, m2, k - 1);
    }
  }

  /** Sum of the frequencies of the byte values 0, ..., k - 1. */
  function FrequencyTotal(m: map<byte, real>, k: nat): real
    requires k <= 256
  {
    if k == 0 then 0.0 else FrequencyTotal(m, k - 1) + Get(m, k - 1)
  }

  /** Number of bytes of `s` whose value is below k. */
  function CountBelow(s: seq<byte>, k: nat): nat
    requires k <= 256
  {
    if k == 0 then 0 else CountBelow(s, k - 1) + Occurrences(s, k - 1)
  }

  /** The frequencies of a non-empty sequence add up to 1. */
  lemma FrequenciesSumToOne(s: seq<byte>)
    requires |s| > 0
    ensures FrequencyTotal(FreqMap(s), 256) == 1.0
  {
    FrequencyTotalShares(s, 256);
    CountBelowAll(s);
    DivSelf(|s| as real);
  }

  lemma {:induction false} FrequencyTotalShares(s: seq<byte>, k: nat)
    requires |s| > 0 && k <= 256
    ensures FrequencyTotal(FreqMap(s), k) == CountBelow(s, k) as real / |s| as real
  {
    if k > 0 {
      FrequencyTotalShares(s, k - 1);
      var b: byte := k - 1;
      OccurrencesPositive(s, b);
      assert Get(FreqMap(s), b) == Occurrences(s, b) as real / |s| as real;
      AddShares(CountBelow(s, k - 1) as real, Occurrences(s, b) as real, |s| as real);
    }
  }

  lemma AddShares(a: real, b: real, n: real)
    requires n > 0.0
    ensures a / n + b / n == (a + b) / n
  {
  }

  lemma DivSelf(n: real)
    requires n > 0.0
    ensures n / n == 1.0
  {
  }

  /** Every byte of `s` is counted once among the 256 values. */
  lemma {:induction false} CountBelowAll(s: seq<byte>)
    ensures CountBelow(s, 256) == |s|
  {
    if s == [] {
      CountBelowEmpty(256);
    } else {
      var init, last := s[..|s| - 1], s[|s| - 1];
      assert s == init + [last];
      CountBelowAll(init);
      CountBelowAppend(init, last, 256);
    }
  }

  lemma {:induction false} CountBelowEmpty(k: nat)
    requires k <= 256
    ensures CountBelow([], k) == 0
  {
    if k > 0 {
      CountBelowEmpty(k - 1);
    }
  }

  lemma {:induction false} CountBelowAppend(s: seq<byte>, x: byte, k: nat)
    requires k <= 256
    ensures CountBelow(s + [x], k) == CountBelow(s, k) + (if x < k then 1 else 0)
  {
    if k > 0 {
      CountBelowAppend(s, x, k - 1);
      OccurrencesAppend(s, x, k - 1);
    }
  }

  /** An empty sequence scores zero: its table has no slot. */
  lemma SelfSimilarityEmpty()
    ensures SelfSimilarity([]) == 0.0
  {
    assert FreqMap([]).Keys == {};
  }

  /** Against a table with no slots, as from an empty sequence, every cross-similarity is 0. */
  lemma {:induction false} DotUpToEmpty(m1: map<byte, real>, m2: map<byte, real>, k: nat)
    requires k <= 256
    requires m1 == map[] || m2 == map[]
    ensures DotUpTo(m1, m2, k) == 0.0
  {
    if k > 0 {
      DotUpToEmpty(m1, m2, k - 1);
    }
  }
}
