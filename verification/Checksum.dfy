/** The Internet checksum of os/src/net/checksum.rs (RFC 1071). */
module Checksum {
  import opened Common
  import BitMath

  function Word(hi: byte, lo: byte): nat { 256 * hi + lo }

  /** Sum of the big-endian words of `data`; a last odd byte is the high half of a word. */
  function WordSum(data: seq<byte>): nat {
    if data == [] then 0
    else if |data| == 1 then Word(data[0], 0)
    else Word(data[0], data[1]) + WordSum(data[2..])
  }

  function WordCount(data: seq<byte>): nat { (|data| + 1) / 2 }

  /** One turn of the fold. */
  function FoldOnce(sum: nat): nat { sum % 0x1_0000 + sum / 0x1_0000 }

  function Fold(sum: nat): (r: nat)
    ensures r < 0x1_0000
    ensures r == 0 <==> sum == 0
    ensures r % 0xffff == sum % 0xffff
    decreases sum
  {
    if sum < 0x1_0000 then sum else
      FoldOnceKeeps(sum);
      Fold(FoldOnce(sum))
  }

  lemma FoldOnceKeeps(sum: nat)
    requires sum >= 0x1_0000
    ensures 0 < FoldOnce(sum) < sum && FoldOnce(sum) % 0xffff == sum % 0xffff
  {
    var high := sum / 0x1_0000;
    assert sum == high * 0xffff + FoldOnce(sum);
    BitMath.AddMultiple(high, 0xffff, FoldOnce(sum));
  }

  /** The checksum of a sum, before it is split into two bytes. */
  function Complement(sum: nat): (r: nat)
    ensures r < 0x1_0000
  {
    0xffff - Fold(sum)
  }

  //
  // Laws
  //

  /** The value a receiver gets: data that carries the complement of its own sum folds to all ones. */
  lemma ComplementVerifies(sum: nat)
    ensures Fold(sum + Complement(sum)) == 0xffff
  {
    ComplementResidue(sum, Fold(sum));
  }

  lemma ComplementResidue(sum: nat, folded: nat)
    requires folded < 0x1_0000 && folded % 0xffff == sum % 0xffff && (folded == 0 <==> sum == 0)
    ensures sum + (0xffff - folded) > 0 && (sum + (0xffff - folded)) % 0xffff == 0
  {
    var q, k := sum / 0xffff, folded / 0xffff;
    assert sum + (0xffff - folded) == (q - k + 1) * 0xffff;
    BitMath.MulMod(q - k + 1, 0xffff);
  }

  /** After an even number of bytes, feeding a second piece is feeding the whole. */
  lemma {:induction false} FeedConcat(a: seq<byte>, b: seq<byte>)
    requires |a| % 2 == 0
    ensures WordSum(a + b) == WordSum(a) + WordSum(b)
  {
    if a == [] {
      assert a + b == b;
    } else {
      FeedConcat(a[2..], b);
      assert (a + b)[2..] == a[2..] + b;
    }
  }

  /** A last odd byte counts as if a zero byte followed it. */
  lemma {:induction false} OddByteIsPadded(data: seq<byte>)
    requires |data| % 2 == 1
    ensures WordSum(data) == WordSum(data + [0])
  {
    if |data| == 1 {
      assert (data + [0])[2..] == [];
    } else {
      OddByteIsPadded(data[2..]);
      assert (data + [0])[2..] == data[2..] + [0];
    }
  }

  /** Words are big-endian. */
  lemma WordIsBigEndian(hi: byte, lo: byte)
    ensures WordSum([hi, lo]) == 256 * hi + lo
  {
    assert [hi, lo][2..] == [];
  }

  lemma {:induction false} SumBound(data: seq<byte>)
    ensures WordSum(data) <= 0xffff * WordCount(data)
  {
    if |data| >= 2 {
      SumBound(data[2..]);
    }
  }

  /** No overflow of the 32-bit sum for up to 65537 words. */
  lemma NoOverflow(data: seq<byte>)
    requires WordCount(data) <= 65537
    ensures WordSum(data) < U32
  {
    SumBound(data);
  }

  /** Replacing the word at an even offset changes the sum by the difference. */
  lemma {:induction false} ReplaceWord(data: seq<byte>, at: nat, hi: byte, lo: byte)
    requires at % 2 == 0 && at + 1 < |data|
    ensures WordSum(data[at := hi][at + 1 := lo]) == WordSum(data) - Word(data[at], data[at + 1]) + Word(hi, lo)
  {
    var data' := data[at := hi][at + 1 := lo];
    if at == 0 {
      assert data'[2..] == data[2..];
    } else {
      ReplaceWord(data[2..], at - 2, hi, lo);
      assert data'[2..] == data[2..][at - 2 := hi][at - 1 := lo];
    }
  }

  class InternetChecksumGenerator {
    var sum: nat

    constructor ()
      ensures sum == 0
    {
      sum := 0;
    }

    /** Accumulates the words of `data` in a 32-bit sum. */
    method Feed(data: seq<byte>)
      requires sum + 0xffff * WordCount(data) < U32
      modifies this
      ensures sum == old(sum) + WordSum(data) <= old(sum) + 0xffff * WordCount(data)
    {
      SumBound(data);
      var i := 0;
      while i < |data|
        invariant 0 <= i <= |data| + 1 && i % 2 == 0
        invariant i <= |data| ==> sum + WordSum(data[i..]) == old(sum) + WordSum(data)
        invariant i > |data| ==> sum == old(sum) + WordSum(data)
        decreases |data| - i
      {
        var lo: byte := if i + 1 < |data| then data[i + 1] else 0;
        if i + 2 <= |data| {
          assert data[i..][2..] == data[i + 2..];
        }
        sum := sum + Word(data[i], lo);
        i := i + 2;
      }
    }

    /** Folds the sum to 16 bits and returns its complement, high byte first. */
    method Finish() returns (hi: byte, lo: byte)
      modifies this
      ensures sum == Fold(old(sum)) && Word(hi, lo) == Complement(old(sum))
    {
      while sum / 0x1_0000 != 0
        invariant Fold(sum) == Fold(old(sum))
        decreases sum
      {
        assert FoldOnce(sum) < sum;
        sum := sum % 0x1_0000 + sum / 0x1_0000;
      }
      var csum := 0xffff - sum;
      hi, lo := csum / 256, csum % 256;
    }
  }
}
