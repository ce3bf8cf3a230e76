/**
 The two searches of the XOR breaker: `findN`, which picks the key length whose
 stride sample looks least uniform, and `findKey`, which picks each key byte as
 the one whose decoding looks most like the corpus.
 */
module Analysis {
  import opened Bytes
  import opened CharacterFilter
  import opened Cipher
  import opened FrequencyModel

  /** `findN` walks every stride from `min` to `max`; a zero stride among them panics in
      `everyOtherN`'s `%`. */
  predicate NoZeroStride(min: int, max: int)
  {
    min > max || 0 < min || max < 0
  }

  /** A key length `findN` can try: it is the stride of `everyOtherN`, whose `%` panics on 0. */
  type KeyLength = n: int | n != 0 witness 1

  /** The score `findN` keeps for key length n: the self-similarity of the bytes at
      indices 0, n, 2n, ... (the sample with offset n). */
  ghost function Score(c: seq<byte>, n: int): real
    requires n != 0
  {
    SelfSimilarity(Stride(c, n, n))
  }

  /** What `findN` may return: 0 when no length in range scores above 0 (in particular
      when the range is empty), and otherwise a length in range with a positive score
      that no other length beats. Any tied maximiser is allowed, since the scan follows
      Go's map order. */
  ghost predicate IsKeyLengthChoice(c: seq<byte>, min: int, max: int, best: int)
    requires NoZeroStride(min, max)
  {
    if forall j :: min <= j <= max ==> Score(c, j) <= 0.0 then best == 0
    else
      min <= best <= max && Score(c, best) > 0.0 &&
      forall j :: min <= j <= max ==> Score(c, j) <= Score(c, best)
  }

  /** `findN`: score every key length into a map, then keep the first strictly larger
      score met while ranging over the map, starting from 0. */
  method FindN(c: seq<byte>, min: int, max: int) returns (best: int)
    requires NoZeroStride(min, max)
    ensures IsKeyLengthChoice(c, min, max, best)
  {
    var freqs: map<KeyLength, Frequencies> := map[];
    var i := min;
    while i <= max
      invariant min <= max ==> i <= max + 1
      invariant min > max ==> i == min
      invariant forall j :: j in freqs <==> min <= j < i
      invariant forall j :: j in freqs ==> freqs[j].ss == Score(c, j)
    {
      var tmp := ScoreKeyLength(c, i);
      freqs := freqs[i := tmp];
      i := i + 1;
    }

    var bestValue := 0.0;
    best := 0;
    var rest := freqs.Keys;
    while rest != {}
      invariant rest <= freqs.Keys
      invariant bestValue >= 0.0
      invariant forall j :: j in freqs.Keys - rest ==> freqs[j].ss <= bestValue
      invariant bestValue == 0.0 ==> best == 0
      invariant bestValue > 0.0 ==> best in freqs.Keys - rest && freqs[best].ss == bestValue
      decreases rest
    {
      var j :| j in rest;
      var f := freqs[j];
      if f.ss > bestValue {
        bestValue := f.ss;
        best := j;
      }
      rest := rest - {j};
    }
    assert forall j :: min <= j <= max ==> j in freqs;
  }

  /** One step of `findN`'s first loop: tally the sample for key length n, then count it a
      second time. The second count doubles every slot but leaves the score alone, since
      `run` has already summed the squares. */
  method ScoreKeyLength(c: seq<byte>, n: KeyLength) returns (tmp: Frequencies)
    ensures fresh(tmp)
    ensures tmp.ss == Score(c, n)
    ensures tmp.chars == Stride(c, n, n)
    ensures forall b :: b in tmp.freq <==> b in tmp.chars
    ensures forall b :: b in tmp.freq ==> tmp.freq[b] == 2.0 * Share(tmp.chars, b)
    ensures tmp.invalidChars <==> !AllAllowed(tmp.chars)
  {
    var sample := EveryOtherN(c, n, n);
    tmp := new Frequencies();
    tmp.Run(sample);
    tmp.CountChars();
  }

  /** Once the ciphertext is non-empty, every key length in a non-empty range scores above
      0 (each sample holds the first byte), so `findN` returns a length inside the range. */
  lemma FindNInRange(c: seq<byte>, min: int, max: int, best: int)
    requires NoZeroStride(min, max)
    requires |c| > 0 && min <= max
    requires IsKeyLengthChoice(c, min, max, best)
    ensures min <= best <= max
  {
    StrideKeepsFirst(c, min);
    SelfSimilarityPositive(Stride(c, min, min));
    assert Score(c, min) > 0.0;
  }

  /** On an empty ciphertext every sample is empty and scores 0, so `findN` returns 0. */
  lemma FindNEmpty(min: int, max: int, best: int)
    requires NoZeroStride(min, max)
    ensures IsKeyLengthChoice([], min, max, best) <==> best == 0
  {
    forall j | min <= j <= max
      ensures Score([], j) == 0.0
    {
      SelfSimilarityEmpty();
    }
  }

  /** The plaintext candidate for key byte v: the stride sample decrypted under the
      one-byte key [v]. */
  function Candidate(eon: seq<byte>, v: byte): seq<byte>
  {
    KeepAllowed(Xor(eon, [v]))
  }

  /** The score the key-byte scan compares: the cross-similarity with the corpus table
      `english`, or 0 for a candidate flagged as holding disallowed bytes, which the scan
      skips (skipping and scoring 0 agree, as the running best starts at 0 and must be
      strictly exceeded). */
  function CandidateScore(eon: seq<byte>, english: map<byte, real>, v: byte): real
  {
    if AllAllowed(Candidate(eon, v)) then Dot(english, FreqMap(Candidate(eon, v))) else 0.0
  }

  /** The scores of the candidates for the key bytes 0, ..., k - 1, in that order. */
  ghost function CandidateScores(eon: seq<byte>, english: map<byte, real>, k: nat): seq<real>
    requires k <= 256
  {
    if k == 0 then []
    else CandidateScores(eon, english, k - 1) + [CandidateScore(eon, english, k - 1)]
  }

  lemma {:induction false} CandidateScoresIndex(eon: seq<byte>, english: map<byte, real>, k: nat)
    requires k <= 256
    ensures |CandidateScores(eon, english, k)| == k
    ensures forall v :: 0 <= v < k ==> CandidateScores(eon, english, k)[v] == CandidateScore(eon, english, v)
  {
    if k > 0 {
      CandidateScoresIndex(eon, english, k - 1);
    }
  }

  /** The result of a scan for the first strict maximum over `scores` from a running best
      of 0: index 0 when no score is above 0; otherwise the smallest index holding the
      largest score, which is positive. */
  ghost predicate IsFirstBest(scores: seq<real>, b: int)
  {
    if forall v :: 0 <= v < |scores| ==> scores[v] <= 0.0 then b == 0
    else
      0 <= b < |scores| && scores[b] > 0.0 &&
      (forall v :: 0 <= v < |scores| ==> scores[v] <= scores[b]) &&
      forall v :: 0 <= v < b ==> scores[v] < scores[b]
  }

  /** What the key-byte scan returns: 0 when no byte value scores above 0; otherwise the
      smallest byte value with the largest score. */
  ghost predicate IsBestByte(eon: seq<byte>, english: map<byte, real>, b: byte)
  {
    IsFirstBest(CandidateScores(eon, english, 256), b)
  }

  /** The inner loop of `findKey`: try every byte value in ascending order, decrypt the
      sample with it, skip a decoding flagged invalid, and keep the first strictly larger
      cross-similarity with the corpus. */
  method BestKeyByte(eon: seq<byte>, english: Frequencies) returns (bestByte: byte)
    ensures IsBestByte(eon, english.freq, bestByte)
  {
    var bestSS := 0.0;
    bestByte := 0;
    ghost var seen: seq<real> := [];
    var all := AllChars();
    for i := 0 to |all|
      invariant seen == CandidateScores(eon, english.freq, i)
      invariant |seen| == i
      invariant bestSS >= 0.0
      invariant forall v :: 0 <= v < i ==> seen[v] <= bestSS
      invariant bestSS == 0.0 ==> bestByte == 0
      invariant bestSS > 0.0 ==>
                  bestByte < i && seen[bestByte] == bestSS &&
                  forall v :: 0 <= v < bestByte ==> seen[v] < bestSS
    {
      var b := all[i];
      var valid, ss := ScoreCandidate(eon, b, english);
      seen := seen + [if valid then ss else 0.0];
      if !valid {
        continue;
      }
      if ss > bestSS {
        bestSS := ss;
        bestByte := b;
      }
    }
  }

  /** One step of the key-byte scan: decrypt the sample under [b], tally the result, and
      score it against the corpus unless the tally flags a disallowed byte. */
  method ScoreCandidate(eon: seq<byte>, b: byte, english: Frequencies) returns (valid: bool, ss: real)
    ensures valid <==> AllAllowed(Candidate(eon, b))
    ensures valid ==> ss == CandidateScore(eon, english.freq, b)
  {
    var deon := Decrypt(eon, [b]);
    var f := new Frequencies();
    f.Run(deon);
    valid := !f.invalidChars;
    ss := 0.0;
    if valid {
      ss := SumOfSquares(english, f);
    }
  }

  /** Two results of the scan over the same scores agree: the choice is determined. */
  lemma FirstBestUnique(scores: seq<real>, b1: int, b2: int)
    requires IsFirstBest(scores, b1) && IsFirstBest(scores, b2)
    ensures b1 == b2
  {
    if !(forall v :: 0 <= v < |scores| ==> scores[v] <= 0.0) {
      assert scores[b1] == scores[b2];
    }
  }

  /** Every candidate comes out of the filtering `decrypt`, so the `invalidChars` skip
      never fires and the score is always the cross-similarity. */
  lemma CandidateAlwaysValid(eon: seq<byte>, english: map<byte, real>, v: byte)
    ensures AllAllowed(Candidate(eon, v))
    ensures CandidateScore(eon, english, v) == Dot(english, FreqMap(Candidate(eon, v)))
  {
    KeepAllowedSound(Xor(eon, [v]));
  }

  /** A candidate that decrypts to nothing printable scores 0 and so is never chosen,
      except as the default byte 0. */
  lemma EmptyCandidateNeverChosen(eon: seq<byte>, english: map<byte, real>, v: byte, b: byte)
    requires Candidate(eon, v) == []
    requires IsBestByte(eon, english, b)
    ensures CandidateScore(eon, english, v) == 0.0
    ensures b == v ==> v == 0
  {
    assert FreqMap([]) == map[];
    DotUpToEmpty(english, FreqMap(Candidate(eon, v)), 256);
    CandidateScoresIndex(eon, english, 256);
  }

  /** With an empty corpus table every candidate scores 0 and every key byte defaults to 0. */
  lemma EmptyCorpusZeroByte(eon: seq<byte>, b: byte)
    requires IsBestByte(eon, map[], b)
    ensures b == 0
  {
    CandidateScoresIndex(eon, map[], 256);
    forall v: byte
      ensures CandidateScore(eon, map[], v) <= 0.0
    {
      DotUpToEmpty(map[], FreqMap(Candidate(eon, v)), 256);
    }
  }

  /** `findKey`: choose the key length with `findN`, then for each position i below it the
      best key byte for the sample at offsets i, i + n, i + 2n, .... The corpus table is
      passed in. */
  method FindKey(c: seq<byte>, min: int, max: int, english: Frequencies) returns (key: seq<byte>)
    requires NoZeroStride(min, max)
    ensures exists n :: IsKeyLengthChoice(c, min, max, n) &&
              |key| == (if n > 0 then n else 0) &&
              forall i :: 0 <= i < |key| ==> IsBestByte(Stride(c, n, i), english.freq, key[i])
  {
    var n := FindN(c, min, max);
    key := [];
    var i := 0;
    while i < n
      invariant 0 <= i
      invariant n > 0 ==> i <= n
      invariant n <= 0 ==> i == 0
      invariant |key| == i
      invariant forall j :: 0 <= j < i ==> IsBestByte(Stride(c, n, j), english.freq, key[j])
    {
      var eon := EveryOtherN(c, n, i);
      var bestByte := BestKeyByte(eon, english);
      key := key + [bestByte];
      i := i + 1;
    }
  }

  /** The table `getCorpusFrequencies` builds from the corpus bytes, once they are read. */
  method CorpusFrequencies(corpus: seq<byte>) returns (f: Frequencies)
    ensures fresh(f)
    ensures f.freq == FreqMap(corpus)
    ensures f.ss == SelfSimilarity(corpus)
    ensures f.chars == corpus
    ensures f.invalidChars <==> !AllAllowed(corpus)
  {
    f := new Frequencies();
    f.Run(corpus);
  }
}
