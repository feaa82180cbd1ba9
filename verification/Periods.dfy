/**
 Data that repeats: what LZ4_compress_default writes for it, byte for byte. A band of one colour is such
 data, with a period of one pixel.
 */
module Periods {
  import opened Bytes
  import opened BlockFormat
  import opened GreedyPlan
  import opened PlanProperties
  import opened PlanTheorems
  import opened Detection
  import opened Codec

  ghost predicate Periodic(src: seq<byte>, d: nat) {
    1 <= d <= |src| && forall i :: d <= i < |src| ==> src[i] == src[i - d]
  }

  /** The first period can be told apart: no four bytes in a row occur twice in it, and the slot of the first
      position is not taken by another. */
  ghost predicate Apart(job: Job, d: nat) {
    && d + 8 <= |job.buf|
    && (forall q: nat {:trigger job.Hash(q)} :: 0 < q < d ==> job.Hash(q) != job.Hash(0))
    && (forall q: nat, r: nat :: q < r < d ==> !Same4(job.buf, q, r))
  }

  // ----- One period, one match -----

  lemma PeriodFound(job: Job, table: Table, d: nat)
    requires job.Valid() && job.start == job.startIndex == job.dictSize == 0 && !job.dictSmall && job.size == |job.buf|
    requires Periodic(job.buf, d) && Apart(job, d) && d + 12 <= job.size && d <= 64
    requires |table| == job.TableSize() && forall h :: 0 <= h < |table| ==> table[h] == 0
    ensures FoundFirst(job, Begun(job, table), 1, d)
    ensures Begun(job, table)[job.Hash(d)] == 0
  {
    hide Job.Hash, Job.Accepts, Same4, Job.Valid;
    PeriodFacts(job, d);
    SameSlot(job, 0, d);
    assert Begun(job, table) == table;
    forall q: nat | 1 <= q < d
      ensures !job.Accepts(table[job.Hash(q)], q) && job.Hash(q) != job.Hash(d)
    {
      OnlySame(job, q);
    }
    OnlySame(job, d);
  }

  lemma PeriodFacts(job: Job, d: nat)
    requires job.Valid() && job.start == job.startIndex == 0 && job.size == |job.buf|
    requires Periodic(job.buf, d) && d + 12 <= job.size && d <= 64
    ensures job.buf[0..8] == job.buf[d..d + 8] && Same4(job.buf, 0, d)
  {
  }

  /** The first position is the candidate wherever the slot has not been used yet. */
  lemma OnlySame(job: Job, q: nat)
    requires job.start == job.startIndex == 0 && !job.dictSmall && q <= DISTANCE_MAX
    ensures job.Accepts(0, q) <==> Same4(job.buf, 0, q)
  {
    hide Same4;
  }

  /** Repeating data is written as its first period, one match at that distance, and five literals. */
  lemma BlockOfPeriod(src: seq<byte>, d: nat)
    requires Periodic(src, d) && d <= 64 && d + 12 <= |src| <= MAX_INPUT_SIZE
    requires Apart(FreshJob(src, 1, NotLimited, 0), d)
    ensures BlockOf(src, 1) == OneMatch(src, 0, d, d, |src|)
    ensures |Encode(BlockOf(src, 1))| == 9 + d + LengthSize(d) + LengthSize(|src| - 9 - d)
  {
    hide Apart, Periodic, Encode, LengthSize, OneMatch, Outcome, Usable, Promised;
    var job := FreshJob(src, 1, NotLimited, 0);
    FreshIsUsable(src, 1, NotLimited, 0);
    PeriodPlan(job, Zeros(job.TableSize()), d);
    OneMatchSize(src, 0, d, d, |src|);
  }

  lemma PeriodPlan(job: Job, table: Table, d: nat)
    requires job.Valid() && job.start == job.startIndex == job.dictSize == 0 && !job.dictSmall && job.size == |job.buf|
    requires Periodic(job.buf, d) && Apart(job, d) && d + 12 <= job.size <= MAX_INPUT_SIZE && d <= 64
    requires |table| == job.TableSize() && forall h :: 0 <= h < |table| ==> table[h] == 0
    requires job.policy.NotLimited? && job.acceleration == 1
    ensures Outcome(job, table) == Some(OneMatch(job.buf, 0, d, d, job.size))
  {
    hide Job.Hash, Job.Accepts, FoundFirst, FirstCursor, Plan, Begun, Apart;
    PeriodFound(job, table, d);
    FirstFound(job, table, d, 0);
    NoFurther(job, d);
    PlanOneMatch(job, FirstCursor(job, table));
  }

  lemma NoFurther(job: Job, p: nat)
    requires p <= |job.buf|
    ensures CatchUp(job, 0, p, 0) == 0
  {
  }

  // ----- One colour -----

  /** `n` pixels of one colour. */
  function Pixels(pixel: seq<byte>, n: nat): (r: seq<byte>)
    requires |pixel| == 4
    ensures |r| == 4 * n
  {
    seq(4 * n, i requires 0 <= i < 4 * n => pixel[i % 4])
  }

  /** The four rotations of the pixel fall into different slots. */
  ghost predicate SlotsDiffer(job: Job) {
    && 11 <= |job.buf|
    && forall q: nat, r: nat {:trigger job.Hash(q), job.Hash(r)} :: q < r < 4 ==> job.Hash(q) != job.Hash(r)
  }

  lemma PixelsArePeriodic(pixel: seq<byte>, n: nat)
    requires |pixel| == 4 && 1 <= n
    ensures Periodic(Pixels(pixel, n), 4)
  {
  }

  lemma SlotsAreApart(job: Job)
    requires Periodic(job.buf, 4) && SlotsDiffer(job) && 12 <= |job.buf|
    ensures Apart(job, 4)
  {
    hide Job.Hash;
    forall q: nat, r: nat | q < r < 4
      ensures !Same4(job.buf, q, r)
    {
      if Same4(job.buf, q, r) {
        SameOctets(job.buf, q, r);
        SameSlot(job, q, r);
      }
    }
  }

  lemma SameOctets(buf: seq<byte>, q: nat, r: nat)
    requires Periodic(buf, 4) && Same4(buf, q, r) && q + 8 <= |buf| && r + 8 <= |buf|
    ensures buf[q..q + 8] == buf[r..r + 8]
  {
    assert buf[q + 4] == buf[q] && buf[q + 5] == buf[q + 1] && buf[q + 6] == buf[q + 2] && buf[q + 7] == buf[q + 3];
    assert buf[r + 4] == buf[r] && buf[r + 5] == buf[r + 1] && buf[r + 6] == buf[r + 2] && buf[r + 7] == buf[r + 3];
  }

  /** A colour is written as one pixel, one match at its distance, and five bytes more. */
  lemma BlockOfColour(pixel: seq<byte>, n: nat)
    requires |pixel| == 4 && 4 <= n && 4 * n <= MAX_INPUT_SIZE
    requires SlotsDiffer(FreshJob(Pixels(pixel, n), 1, NotLimited, 0))
    ensures BlockOf(Pixels(pixel, n), 1) == OneMatch(Pixels(pixel, n), 0, 4, 4, 4 * n)
    ensures |Encode(BlockOf(Pixels(pixel, n), 1))| == 13 + LengthSize(4 * n - 13)
  {
    hide Job.Hash, BlockOf, OneMatch, Apart, Periodic, SlotsDiffer;
    PixelsArePeriodic(pixel, n);
    SlotsAreApart(FreshJob(Pixels(pixel, n), 1, NotLimited, 0));
    BlockOfPeriod(Pixels(pixel, n), 4);
  }

  /** Bytes that are all equal, as of a grey, need no condition on slots. */
  lemma BlockOfEqual(a: byte, n: nat)
    requires 13 <= n <= MAX_INPUT_SIZE
    ensures var src := seq(n, _ => a);
            && BlockOf(src, 1) == OneMatch(src, 0, 1, 1, n)
            && |Encode(BlockOf(src, 1))| == 10 + LengthSize(n - 10)
  {
    hide Job.Hash, BlockOf, OneMatch;
    BlockOfPeriod(seq(n, _ => a), 1);
  }

  /** Only at acceleration 1, though: the positions looked up are the second, and from the third on every
      one in `acceleration`, so that an acceleration as large as the input finds nothing. */
  lemma NothingAtSpeed(src: seq<byte>, acceleration: int)
    requires |src| <= MAX_INPUT_SIZE && !Same4(src, 0, 1)
    requires |src| - 13 < acceleration && 1 <= acceleration <= ACCELERATION_MAX
    ensures BlockOf(src, acceleration) == Last(src, 0)
  {
    var job := FreshJob(src, acceleration, NotLimited, 0);
    FreshIsUsable(src, acceleration, NotLimited, 0);
    if |src| >= MIN_LENGTH {
      SpeedPlan(job, Zeros(job.TableSize()));
    }
    assert src[0..|src|] == src;
  }

  lemma SpeedPlan(job: Job, table: Table)
    requires job.Valid() && job.start == job.startIndex == job.dictSize == 0 && job.size == |job.buf|
    requires MIN_LENGTH <= job.size <= MAX_INPUT_SIZE && !Same4(job.buf, 0, 1) && job.size - 13 < job.acceleration
    requires |table| == job.TableSize() && forall h :: 0 <= h < |table| ==> table[h] == 0
    requires job.policy.NotLimited?
    ensures Outcome(job, table) == Some(Last(job.buf[0..job.size], 0))
  {
    hide Job.Hash, Search, FromSearch;
    assert Begun(job, table) == table && Hashable(job, 1);
    LeapsPast(job, table, 1, job.acceleration * 64);
    FromSearchNotFound(job, table, 0, 1, 0);
  }

  // ----- An example -----

  /** Multiplied, cut to 32 bits, and the upper 13 of these. */
  lemma SlotIs(number: nat, over: nat, slot: nat, rest: nat)
    requires number * 2654435761 == over * 0x1_0000_0000 + slot * 0x8_0000 + rest && slot < 8192 && rest < 0x8_0000
    ensures Hash4(number) == slot
  {
    CutTo32(over, slot * 0x8_0000 + rest);
    UpperPart(slot, rest);
  }

  lemma CutTo32(over: nat, low: nat)
    requires low < 0x1_0000_0000
    ensures (over * 0x1_0000_0000 + low) % 0x1_0000_0000 == low
  {
  }

  lemma UpperPart(slot: nat, rest: nat)
    requires rest < 0x8_0000
    ensures (slot * 0x8_0000 + rest) / 0x8_0000 == slot
  {
  }

  /** The rotations of the pixel with the bytes 1, 2, 3, 0 as numbers, and their slots. */
  lemma ExampleSlots(a: nat, b: nat, c: nat, d: nat)
    requires a == 0x0003_0201 && b == 0x0100_0302 && c == 0x0201_0003 && d == 0x0302_0100
    ensures Hash4(a) == 3911 && Hash4(b) == 4731 && Hash4(c) == 5834 && Hash4(d) == 1979
  {
    hide Hash4;
    SlotIs(a, 121827, 3911, 383921);
    SlotIs(b, 10369365, 4731, 263778);
    SlotIs(c, 20778284, 5834, 486675);
    SlotIs(d, 31187834, 1979, 241920);
  }

  /** 64 pixels of it, 256 bytes, are written in 14 bytes; at the highest acceleration in 258. */
  lemma ExampleBlock(n: nat)
    requires n == 64
    ensures |Encode(BlockOf(Pixels([1, 2, 3, 0], n), 1))| == 14
    ensures |Encode(BlockOf(Pixels([1, 2, 3, 0], n), ACCELERATION_MAX))| == 258
  {
    hide BlockOf, OneMatch, SlotsDiffer, Encode, LengthSize, Pixels, Hash4, Hash5, FreshJob;
    ExampleDiffers(n);
    BlockOfColour([1, 2, 3, 0], n);
    ExampleStart(n);
    NothingAtSpeed(Pixels([1, 2, 3, 0], n), ACCELERATION_MAX);
    EncodedLastSize(Pixels([1, 2, 3, 0], n));
    ExampleLengths();
  }

  lemma ExampleStart(n: nat)
    requires n == 64
    ensures !Same4(Pixels([1, 2, 3, 0], n), 0, 1)
  {
  }

  lemma ExampleLengths()
    ensures LengthSize(243) == LengthSize(256) == 1
  {
  }

  lemma ExampleDiffers(n: nat)
    requires n == 64
    ensures SlotsDiffer(FreshJob(Pixels([1, 2, 3, 0], n), 1, NotLimited, 0))
  {
    var job := FreshJob(Pixels([1, 2, 3, 0], n), 1, NotLimited, 0);
    hide Hash4, Hash5, LittleEndian, Job.Hash;
    ExampleNumbers(n);
    SlotOf(job, 0);
    SlotOf(job, 1);
    SlotOf(job, 2);
    SlotOf(job, 3);
    ExampleSlots(LittleEndian(job.buf, 0, 4), LittleEndian(job.buf, 1, 4), LittleEndian(job.buf, 2, 4),
                 LittleEndian(job.buf, 3, 4));
    FourDiffer(job);
  }

  lemma FourDiffer(job: Job)
    requires 11 <= |job.buf|
    requires job.Hash(0) != job.Hash(1) && job.Hash(0) != job.Hash(2) && job.Hash(0) != job.Hash(3)
    requires job.Hash(1) != job.Hash(2) && job.Hash(1) != job.Hash(3) && job.Hash(2) != job.Hash(3)
    ensures SlotsDiffer(job)
  {
    hide Job.Hash;
  }

  lemma SlotOf(job: Job, p: nat)
    requires p + 8 <= |job.buf| && job.tableType.ByU16?
    ensures job.Hash(p) == Hash4(LittleEndian(job.buf, p, 4))
  {
  }

  lemma ExampleNumbers(n: nat)
    requires n == 64
    ensures var buf := Pixels([1, 2, 3, 0], n);
            && LittleEndian(buf, 0, 4) == 0x0003_0201 && LittleEndian(buf, 1, 4) == 0x0100_0302
            && LittleEndian(buf, 2, 4) == 0x0201_0003 && LittleEndian(buf, 3, 4) == 0x0302_0100
  {
    var buf := Pixels([1, 2, 3, 0], n);
    hide LittleEndian;
    ExampleNumber(buf, 0);
    ExampleNumber(buf, 1);
    ExampleNumber(buf, 2);
    ExampleNumber(buf, 3);
  }

  lemma ExampleNumber(buf: seq<byte>, p: nat)
    requires p + 4 <= |buf|
    ensures var a: int, b: int, c: int, d: int := buf[p], buf[p + 1], buf[p + 2], buf[p + 3];
            LittleEndian(buf, p, 4) == a + 256 * b + 65536 * c + 16777216 * d
  {
    assert LittleEndian(buf, p + 4, 0) == 0;
    assert LittleEndian(buf, p + 3, 1) == buf[p + 3];
  }
}
