/**
 Thirteen equal bytes: the shortest input with a match, and one for which LZ4_compress_destSize needs
 all three bytes more than its block takes.
 */
module SpareBytes {
  import opened Bytes
  import opened BlockFormat
  import opened GreedyPlan
  import opened Detection
  import opened Filling
  import opened Codec
  import opened Periods

  function Thirteen(a: byte): (r: seq<byte>)
    ensures |r| == MIN_LENGTH
  {
    seq(MIN_LENGTH, _ => a)
  }

  /** Without a limit: a literal, a match of seven bytes at distance 1, five literals; ten bytes. */
  lemma BlockOfThirteen(a: byte)
    ensures BlockOf(Thirteen(a), 1) == More(Sequence([a], 1, 7), Last([a, a, a, a, a], 0))
    ensures |Encode(BlockOf(Thirteen(a), 1))| == 10
  {
    hide BlockOf;
    BlockOfEqual(a, MIN_LENGTH);
    assert Thirteen(a)[0..1] == [a] && Thirteen(a)[8..13] == [a, a, a, a, a];
  }

  /** The block of the input takes ten bytes; filling ten, eleven or twelve does not reach its end, and
      filling thirteen does. */
  lemma ThreeBytesNeeded(a: byte, target: int)
    requires 10 <= target <= 13
    ensures |Encode(BlockOf(Thirteen(a), 1))| == 10 && Spare(BlockOf(Thirteen(a), 1)) == 3
    ensures OutLen(Filled(Thirteen(a), target)) == if target == 13 then 13 else target - 1
  {
    hide BlockOf, Filled, Encode;
    BlockOfThirteen(a);
    FilledIs(Thirteen(a), target);
    if target < 13 {
      FilledWithThirteen(a, target);
    }
  }

  /** With less than thirteen bytes of output the match is given back: literals only. */
  lemma FilledWithThirteen(a: byte, target: int)
    requires 1 <= target <= 12
    ensures Filled(Thirteen(a), target) == Last(Thirteen(a)[..target - 1], 0)
  {
    hide BlockOf;
    BlockOfThirteen(a);
  }
}
