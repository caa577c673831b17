/**
  One's-complement arithmetic of the Internet checksum: section 1 of RFC 1071
  for the sum and Eqn. 3 in section 3 of RFC 1624 for the incremental update.
  Zero has two representations, 0x0000 and 0xffff, so results are pinned down
  by their residue modulo 65535 together with which zero is produced.
*/
module Checksum {
  import opened Wire

  /** The sum of the big-endian words; an odd last octet counts as a high octet. */
  function WordSum(b: Bytes): nat {
    if |b| == 0 then 0
    else if |b| == 1 then b[0] * 0x100
    else Word(b[0], b[1]) + WordSum(b[2..])
  }

  /** What end-around carries reduce a sum to: 65535 less until it fits in a word. */
  function Fold(sum: nat): word {
    if sum <= 0xffff then sum else Fold(sum - 0xffff)
  }

  function Multiple(k: int): int {
    0xffff * k
  }

  /** Equality in one's-complement arithmetic, where 0 and 0xffff are the same number. */
  ghost predicate Congruent(a: int, b: int) {
    exists k :: a - b == Multiple(k)
  }

  lemma CongruentTransitive(a: int, b: int, c: int)
    requires Congruent(a, b) && Congruent(b, c)
    ensures Congruent(a, c)
  {
    var j :| a - b == Multiple(j);
    var k :| b - c == Multiple(k);
    assert a - c == Multiple(j + k);
  }

  lemma CongruentSymmetric(a: int, b: int)
    requires Congruent(a, b)
    ensures Congruent(b, a)
  {
    var k :| a - b == Multiple(k);
    assert b - a == Multiple(-k);
  }

  lemma CongruentSum(a: int, b: int, c: int, d: int)
    requires Congruent(a, b) && Congruent(c, d)
    ensures Congruent(a + c, b + d)
  {
    var j :| a - b == Multiple(j);
    var k :| c - d == Multiple(k);
    assert (a + c) - (b + d) == Multiple(j + k);
  }

  /** Folding subtracts a multiple of 65535, and yields zero only for zero. */
  lemma {:induction false} FoldCongruent(sum: nat)
    ensures Congruent(sum, Fold(sum))
    ensures Fold(sum) == 0 <==> sum == 0
  {
    if sum > 0xffff {
      FoldCongruent(sum - 0xffff);
      var k :| sum - 0xffff - Fold(sum) == Multiple(k);
      assert sum - Fold(sum) == Multiple(k + 1);
    } else {
      assert sum - Fold(sum) == Multiple(0);
    }
  }

  /** Those two facts determine a word. */
  lemma FoldUnique(sum: nat, r: word)
    requires Congruent(sum, r) && (r == 0 <==> sum == 0)
    ensures r == Fold(sum)
  {
    FoldCongruent(sum);
    var j :| sum - Fold(sum) == Multiple(j);
    var k :| sum - r == Multiple(k);
    assert r - Fold(sum) == Multiple(j - k);
  }

  /** The validity test: a folded sum is all ones exactly for a positive multiple of 65535. */
  lemma FoldIsAllOnes(sum: nat)
    ensures Fold(sum) == 0xffff <==> sum > 0 && Congruent(sum, 0)
  {
    FoldCongruent(sum);
    var k :| sum - Fold(sum) == Multiple(k);
    if Fold(sum) == 0xffff {
      assert sum - 0 == Multiple(k + 1);
    } else if Congruent(sum, 0) {
      var m :| sum - 0 == Multiple(m);
      assert Fold(sum) == Multiple(m - k);
    }
  }

  /** Congruent positive sums pass or fail the validity test together. */
  lemma SameVerdict(a: nat, b: nat)
    requires Congruent(a, b) && a > 0 && b > 0
    ensures Fold(a) == 0xffff <==> Fold(b) == 0xffff
  {
    FoldIsAllOnes(a);
    FoldIsAllOnes(b);
    CongruentSymmetric(a, b);
    if Congruent(a, 0) {
      CongruentTransitive(b, a, 0);
    }
    if Congruent(b, 0) {
      CongruentTransitive(a, b, 0);
    }
  }

  lemma {:induction false} WordSumConcat(a: Bytes, b: Bytes)
    requires |a| % 2 == 0
    ensures WordSum(a + b) == WordSum(a) + WordSum(b)
    decreases |a|
  {
    if a == [] {
      assert a + b == b;
    } else {
      assert (a + b)[2..] == a[2..] + b;
      WordSumConcat(a[2..], b);
    }
  }

  /** A last odd octet is padded with a zero. */
  lemma WordSumPadded(b: Bytes)
    requires |b| % 2 == 1
    ensures WordSum(b + [0]) == WordSum(b)
  {
    var last := b[|b| - 1];
    assert b == b[..|b| - 1] + [last] && b + [0] == b[..|b| - 1] + [last, 0];
    WordSumConcat(b[..|b| - 1], [last]);
    WordSumConcat(b[..|b| - 1], [last, 0]);
    assert [last, 0][2..] == [];
  }

  /** No frame below 2^49 octets can overflow the 64-bit accumulator. */
  lemma {:induction false} WordSumBound(b: Bytes)
    ensures WordSum(b) <= 0xffff * ((|b| + 1) / 2)
    decreases |b|
  {
    if |b| >= 2 {
      WordSumBound(b[2..]);
    }
  }

  lemma {:induction false} WordSumZero(b: Bytes)
    ensures WordSum(b) == 0 <==> forall i :: 0 <= i < |b| ==> b[i] == 0
    decreases |b|
  {
    if |b| >= 2 {
      WordSumZero(b[2..]);
      assert forall i :: 2 <= i < |b| ==> b[i] == b[2..][i - 2];
    }
  }

  /** The sum over both complemented old words and new words, as Eqn. 3 adds them. */
  function ReplaceSum(before: Bytes, after: Bytes): nat
    requires |before| == |after|
  {
    if |before| < 2 then 0
    else (0xffff - Word(before[0], before[1])) + Word(after[0], after[1]) + ReplaceSum(before[2..], after[2..])
  }

  function Replaced(checksum: word, before: Bytes, after: Bytes): (r: Option<word>)
    ensures r.Some? <==> |before| == |after| && |before| % 2 == 0
  {
    if |before| != |after| || |before| % 2 != 0 then None
    else if before == after then Some(checksum)
    else Some(0xffff - Fold(0xffff - checksum + ReplaceSum(before, after)))
  }

  lemma {:induction false} ReplaceSumValue(before: Bytes, after: Bytes)
    requires |before| == |after| && |before| % 2 == 0
    ensures ReplaceSum(before, after) == 0xffff * (|before| / 2) - WordSum(before) + WordSum(after)
    decreases |before|
  {
    if before != [] {
      ReplaceSumValue(before[2..], after[2..]);
    }
  }

  /**
    The incremental update moves the checksum by exactly the change of the
    summed octets, and never produces 0xffff unless nothing changed or every
    new octet is zero.
  */
  lemma ReplacedResidue(checksum: word, before: Bytes, after: Bytes)
    requires |before| == |after| && |before| % 2 == 0
    ensures Congruent(Replaced(checksum, before, after).value, checksum + WordSum(before) - WordSum(after))
    ensures before != after && WordSum(after) > 0 ==> Replaced(checksum, before, after).value < 0xffff
  {
    var result := Replaced(checksum, before, after).value;
    if before == after {
      assert result - checksum == Multiple(0);
    } else {
      ReplaceSumValue(before, after);
      var sum := 0xffff - checksum + ReplaceSum(before, after);
      FoldCongruent(sum);
      var k :| sum - Fold(sum) == Multiple(k);
      assert result - (checksum + WordSum(before) - WordSum(after)) == Multiple(k - |before| / 2);
      WordSumBound(before);
    }
  }

  // The source's loops, each proved against the function above.

  method SumWords(bytes: Bytes) returns (sum: nat)
    ensures sum == WordSum(bytes)
  {
    sum := 0;
    var i := 0;
    while i + 1 < |bytes|
      invariant 0 <= i <= |bytes| && i % 2 == 0
      invariant sum + WordSum(bytes[i..]) == WordSum(bytes)
    {
      sum := sum + Word(bytes[i], bytes[i + 1]);
      assert bytes[i..][2..] == bytes[i + 2..];
      i := i + 2;
    }
    if i < |bytes| {
      var high: int := bytes[i];
      sum := sum + high * 0x100;
    }
  }

  /** The carry loop: it ends in the one word that is congruent to the sum and zero only with it. */
  method FoldChecksum(sum: nat) returns (r: word)
    ensures Congruent(sum, r) && (r == 0 <==> sum == 0)
    ensures r == Fold(sum)
  {
    var s: nat := sum;
    assert sum - s == Multiple(0);
    while s > 0xffff
      invariant Congruent(sum, s) && (s == 0 <==> sum == 0)
    {
      var next := s % 0x1_0000 + s / 0x1_0000;
      assert s - next == Multiple(s / 0x1_0000);
      CongruentTransitive(sum, s, next);
      s := next;
    }
    FoldUnique(sum, s);
    r := s;
  }

  method ChecksumReplace(checksum: word, before: Bytes, after: Bytes) returns (r: Option<word>)
    ensures r == Replaced(checksum, before, after)
    ensures r.Some? <==> |before| == |after| && |before| % 2 == 0
  {
    if |before| != |after| || |before| % 2 != 0 {
      return None;
    }
    if before == after {
      return Some(checksum);
    }
    var sum: nat := 0xffff - checksum;
    var i := 0;
    while i < |before|
      invariant 0 <= i <= |before| && i % 2 == 0
      invariant sum + ReplaceSum(before[i..], after[i..]) == 0xffff - checksum + ReplaceSum(before, after)
    {
      sum := sum + (0xffff - Word(before[i], before[i + 1])) + Word(after[i], after[i + 1]);
      assert before[i..][2..] == before[i + 2..] && after[i..][2..] == after[i + 2..];
      i := i + 2;
    }
    var folded := FoldChecksum(sum);
    return Some(0xffff - folded);
  }
}
