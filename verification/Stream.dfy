/**
 Streaming in prefix mode: each block of a chain directly follows the ones before it, and may refer
 to them. LZ4_compress_fast_continue with LZ4_renormDictT on one side, LZ4_decompress_safe_continue
 on the other, and both together over a whole chain.
 */
module Stream {
  import opened Bytes
  import opened BlockFormat
  import opened MatchCount
  import opened GreedyPlan
  import opened PlanProperties
  import opened PlanTheorems
  import opened PlanLimits
  import opened Detection
  import opened Compressor
  import opened DecoderSpec
  import opened Codec
  import Periods
  import FastDecoder

  const WINDOW := 65536
  const HASH_SIZE := 4096
  const OFFSET_LIMIT := 0x8000_0000
  const INT_MAX := 0x7FFF_FFFF

  // ----- More history does no harm -----

  lemma {:induction false} CopyMatchBehind(past: seq<byte>, out: seq<byte>, offset: nat, n: nat)
    requires 1 <= offset <= |out|
    ensures CopyMatch(past + out, offset, n) == past + CopyMatch(out, offset, n)
    decreases n
  {
    if n > 0 {
      var next := [out[|out| - offset]];
      assert (past + out)[|past + out| - offset] == out[|out| - offset];
      assert (past + out) + next == past + (out + next);
      CopyMatchBehind(past, out + next, offset, n - 1);
    }
  }

  /** A block means the same behind a longer history. */
  lemma {:induction false} RunBehind(past: seq<byte>, out: seq<byte>, b: Block)
    requires Run(out, b).Some? && OffsetsPositive(b)
    ensures Run(past + out, b) == Some(past + Run(out, b).value)
    decreases b
  {
    match b
    case Last(l, _) =>
      assert past + out + l == past + (out + l);
    case More(s, rest) =>
      var o := out + s.literals;
      assert past + out + s.literals == past + o;
      CopyMatchBehind(past, o, s.offset, s.matchLen);
      RunBehind(past, CopyMatch(o, s.offset, s.matchLen), rest);
  }

  lemma MeansBehind(bytes: seq<byte>, past: seq<byte>, history: seq<byte>, data: seq<byte>)
    requires Means(bytes, history, data)
    ensures Means(bytes, past + history, data)
  {
    RunBehind(past, history, Parse(bytes, 0).value);
    assert past + (history + data) == past + history + data;
  }

  // ----- The compressor's stream -----

  /** An index moved down by `delta`; what lies below is forgotten. */
  function Rescaled(index: nat, delta: nat): nat {
    if index < delta then 0 else index - delta
  }

  function RescaledTable(table: Table, delta: nat): Table {
    seq(|table|, i requires 0 <= i < |table| => Rescaled(table[i], delta))
  }

  /** Offset 64 KB behind, in 32-bit arithmetic. */
  function Delta(currentOffset: nat): nat {
    (currentOffset - WINDOW) % 0x1_0000_0000
  }

  predicate NeedsRenorm(currentOffset: nat, nextSize: nat) {
    currentOffset + nextSize > OFFSET_LIMIT
  }

  /** Offset, history and table with which a block of `nextSize` bytes is compressed. */
  function OffsetFor(currentOffset: nat, nextSize: nat): nat {
    if NeedsRenorm(currentOffset, nextSize) then WINDOW else currentOffset
  }

  function DictFor(dictSize: nat, currentOffset: nat, nextSize: nat): nat {
    if NeedsRenorm(currentOffset, nextSize) && dictSize > WINDOW then WINDOW else dictSize
  }

  function TableFor(table: Table, currentOffset: nat, nextSize: nat): Table {
    if NeedsRenorm(currentOffset, nextSize) then RescaledTable(table, Delta(currentOffset)) else table
  }

  /** The output starts with the block of this job, and `result` is its size, exactly when it fits. */
  ghost predicate Writes(job: Job, table: Table, dst: seq<byte>, result: nat) {
    && job.End() <= |job.buf| && 1 <= job.acceleration && |table| == job.TableSize()
    && Outcome(Unlimited(job), table).Some?
    && var b := Outcome(Unlimited(job), table).value;
       && WellFormed(b)
       && if |Encode(b)| <= job.olimit then 0 < result == |Encode(b)| <= |dst| && dst[..result] == Encode(b)
          else result == 0
  }

  lemma WritesBlock(job: Job, table: Table, dst: array<byte>, result: nat)
    requires Usable(job, table) && job.policy.LimitedOutput? && job.size <= MAX_INPUT_SIZE
    requires job.End() <= |job.buf| && 1 <= job.acceleration && |table| == job.TableSize()
    requires match Outcome(job, table)
             case None => result == 0
             case Some(b) => WellFormed(b) && 0 < result == |Encode(b)| <= dst.Length && dst[..result] == Encode(b)
    ensures Writes(job, table, dst[..], result)
  {
    hide Outcome, Encode, WellFormed, Usable;
    OutcomeFits(job, table);
    if result > 0 {
      assert dst[..][..result] == dst[..result];
    }
  }

  /** The job of the next block. */
  function NextJob(buf: seq<byte>, source: nat, size: nat, dictSize: nat, currentOffset: nat, acceleration: int,
                   capacity: int): Job {
    Job(buf, source, size, dictSize, currentOffset, ByU32, dictSize < WINDOW && dictSize < currentOffset,
        ClampAcceleration(acceleration), LimitedOutput, capacity)
  }

  /** The state of the compressor's stream as a value. */
  datatype Side = Side(offset: nat, dict: nat, table: Table)

  /** The state with which a block of `size` bytes is compressed. */
  function Renormed(s: Side, size: nat): Side {
    Side(OffsetFor(s.offset, size), DictFor(s.dict, s.offset, size), TableFor(s.table, s.offset, size))
  }

  /** The job of a block. */
  function BlockJob(buf: seq<byte>, source: nat, size: nat, s: Side, acceleration: int, capacity: int): Job {
    NextJob(buf, source, size, Renormed(s, size).dict, Renormed(s, size).offset, acceleration, capacity)
  }

  /** The state behind it: with the table the compressor leaves, for the blocks to come. */
  function Behind(buf: seq<byte>, source: nat, size: nat, s: Side, acceleration: int, capacity: int): (r: Side)
    requires source + size <= |buf| && |s.table| == HASH_SIZE
    ensures |r.table| == HASH_SIZE
  {
    var now := Renormed(s, size);
    Side(now.offset + size, now.dict + size,
         if size == 0 then now.table else Left(BlockJob(buf, source, size, s, acceleration, capacity), now.table))
  }

  /** The block as it would be written without a limit. */
  function WholeBlock(buf: seq<byte>, source: nat, size: nat, s: Side, acceleration: int): Option<Block>
    requires source + size <= |buf| && |s.table| == HASH_SIZE
  {
    Outcome(Unlimited(BlockJob(buf, source, size, s, acceleration, 0)), Renormed(s, size).table)
  }

  /** It fits the capacity. */
  ghost predicate BlockFits(buf: seq<byte>, source: nat, size: nat, s: Side, acceleration: int, capacity: int)
    requires source + size <= |buf| && |s.table| == HASH_SIZE
  {
    && size <= MAX_INPUT_SIZE && WholeBlock(buf, source, size, s, acceleration).Some?
    && WellFormed(WholeBlock(buf, source, size, s, acceleration).value)
    && |Encode(WholeBlock(buf, source, size, s, acceleration).value)| <= capacity
  }

  lemma WritesFits(buf: seq<byte>, source: nat, size: nat, s: Side, acceleration: int, capacity: int, dst: seq<byte>,
                   result: nat)
    requires source + size <= |buf| && |s.table| == HASH_SIZE && size <= MAX_INPUT_SIZE
    requires Writes(BlockJob(buf, source, size, s, acceleration, capacity), Renormed(s, size).table, dst, result)
    ensures result > 0 <==> BlockFits(buf, source, size, s, acceleration, capacity)
    ensures result > 0 ==>
      result <= |dst| && Some(dst[..result]) == Encoded(WholeBlock(buf, source, size, s, acceleration))
  {
    hide Outcome, Encode, WellFormed;
    assert Unlimited(BlockJob(buf, source, size, s, acceleration, capacity))
           == Unlimited(BlockJob(buf, source, size, s, acceleration, 0));
  }

  function Encoded(b: Option<Block>): Option<seq<byte>> {
    if b.Some? && WellFormed(b.value) then Some(Encode(b.value)) else None
  }

  lemma TooLongNeverFits(buf: seq<byte>, source: nat, size: nat, s: Side, acceleration: int, capacity: int)
    requires source + size <= |buf| && |s.table| == HASH_SIZE && size > MAX_INPUT_SIZE
    ensures !BlockFits(buf, source, size, s, acceleration, capacity)
  {
  }

  /** Whatever the table holds from earlier blocks, none of it can be mistaken: what lies outside the
      history is turned down, by the check of a small dictionary or for its distance. */
  lemma NextIsUsable(buf: seq<byte>, source: nat, size: nat, dictSize: nat, currentOffset: nat, acceleration: int,
                     capacity: int, table: Table)
    requires source + size <= |buf| && dictSize <= source && dictSize <= currentOffset
    requires currentOffset + size <= OFFSET_LIMIT
    requires |table| == HASH_SIZE && Below(table, currentOffset + 1)
    ensures Usable(NextJob(buf, source, size, dictSize, currentOffset, acceleration, capacity), table)
  {
  }

  lemma NextMeans(buf: seq<byte>, source: nat, size: nat, dictSize: nat, wider: nat, currentOffset: nat,
                  acceleration: int, capacity: int, b: Block)
    requires Promised(NextJob(buf, source, size, dictSize, currentOffset, acceleration, capacity), b)
    requires dictSize <= wider <= source && source + size <= |buf|
    ensures WellFormed(b) && |Encode(b)| <= capacity
    ensures Means(Encode(b), buf[source - wider..source], buf[source..source + size])
    ensures size == 0 ==> Encode(b) == [0]
  {
    hide Means, WellFormed, Encode;
    MeansBehind(Encode(b), buf[source - wider..source - dictSize], buf[source - dictSize..source],
                buf[source..source + size]);
    assert buf[source - wider..source - dictSize] + buf[source - dictSize..source] == buf[source - wider..source];
  }

  /** What the next block comes to. */
  lemma NextOutcome(buf: seq<byte>, source: nat, size: nat, dictSize: nat, wider: nat, currentOffset: nat,
                    acceleration: int, capacity: int, table: Table)
    requires source + size <= |buf| && dictSize <= wider <= source && dictSize <= currentOffset
    requires currentOffset + size <= OFFSET_LIMIT
    requires |table| == HASH_SIZE && Below(table, currentOffset + 1) && size <= MAX_INPUT_SIZE
    ensures var job := NextJob(buf, source, size, dictSize, currentOffset, acceleration, capacity);
            && Usable(job, table) && Room(job) <= Max(capacity, 0)
            && job.size == size && job.policy.LimitedOutput? && job.olimit == capacity
            && job.End() <= |job.buf| && 1 <= job.acceleration && |table| == job.TableSize()
            && var r := Outcome(job, table);
               && (r.Some? ==> WellFormed(r.value) && |Encode(r.value)| <= capacity
                               && Means(Encode(r.value), buf[source - wider..source], buf[source..source + size])
                               && (size == 0 ==> Encode(r.value) == [0]))
               && (CompressBound(size) <= capacity ==> r.Some?)
  {
    var job := NextJob(buf, source, size, dictSize, currentOffset, acceleration, capacity);
    NextIsUsable(buf, source, size, dictSize, currentOffset, acceleration, capacity, table);
    assert job.Valid() && job.size == size && job.policy.LimitedOutput? && job.olimit == capacity;
    assert |table| == job.TableSize();
    hide Usable, Promised, Means, Outcome, Encode, WellFormed, Below;
    OutcomeIsPromised(job, table);
    if Outcome(job, table).Some? {
      NextMeans(buf, source, size, dictSize, wider, currentOffset, acceleration, capacity, Outcome(job, table).value);
    }
    if CompressBound(size) <= capacity {
      OutcomeSucceeds(job, table);
    }
  }

  lemma NextKept(buf: seq<byte>, source: nat, size: nat, dictSize: nat, currentOffset: nat, acceleration: int,
                 capacity: int, table: Table)
    requires Kept(NextJob(buf, source, size, dictSize, currentOffset, acceleration, capacity), table)
    ensures |table| == HASH_SIZE && Below(table, currentOffset + size + 1)
  {
  }

  class Compression {
    const table: array<nat>
    var currentOffset: nat
    var dictionary: nat
    var dictSize: nat

    /** Every index stored belongs to what was compressed before. */
    ghost predicate Valid()
      reads this, table
    {
      && table.Length == HASH_SIZE && dictSize <= currentOffset <= OFFSET_LIMIT
      && Below(table[..], currentOffset + 1)
    }

    /** The next block starts where the history ends. */
    predicate Continues(source: nat)
      reads this
    {
      dictSize > 0 ==> dictionary + dictSize == source
    }

    function View(): Side
      reads this, table
    {
      Side(currentOffset, dictSize, table[..])
    }

    constructor ()
      ensures Valid() && fresh(table) && View() == Side(0, 0, Zeros(HASH_SIZE))
    {
      table := new nat[HASH_SIZE](_ => 0);
      currentOffset, dictionary, dictSize := 0, 0, 0;
    }

    /** LZ4_renormDictT. */
    method Renorm(nextSize: nat)
      requires Valid() && nextSize <= INT_MAX
      modifies this, table
      ensures Valid() && currentOffset + Min(nextSize, MAX_INPUT_SIZE) <= OFFSET_LIMIT
      ensures currentOffset == OffsetFor(old(currentOffset), nextSize)
      ensures dictSize == DictFor(old(dictSize), old(currentOffset), nextSize)
      ensures dictionary + dictSize == old(dictionary + dictSize)
      ensures table[..] == TableFor(old(table[..]), old(currentOffset), nextSize)
    {
      if currentOffset + nextSize > OFFSET_LIMIT {
        var delta := Delta(currentOffset);
        var dictEnd := dictionary + dictSize;
        ghost var before: Table := table[..];
        var i := 0;
        while i < HASH_SIZE
          invariant i <= HASH_SIZE == |before|
          invariant forall k :: 0 <= k < i ==> table[k] == Rescaled(before[k], delta)
          invariant forall k :: i <= k < HASH_SIZE ==> table[k] == before[k]
          invariant unchanged(this)
        {
          table[i] := if table[i] < delta then 0 else table[i] - delta;
          i := i + 1;
        }
        assert table[..] == RescaledTable(before, delta);
        assert Below(table[..], WINDOW + 1);
        currentOffset := WINDOW;
        if dictSize > WINDOW {
          dictSize := WINDOW;
        }
        dictionary := dictEnd - dictSize;
      }
    }

    /** The block itself, once its indexes are sure to stay in 32 bits; `history` may reach further
        back than what the compressor still refers to. */
    method CompressNext(buf: seq<byte>, source: nat, inputSize: nat, dst: array<byte>, capacity: int,
                        acceleration: int, ghost wider: nat)
      returns (result: nat)
      requires Valid() && source + inputSize <= |buf| && inputSize <= MAX_INPUT_SIZE && capacity <= dst.Length
      requires currentOffset + inputSize <= OFFSET_LIMIT && dictSize <= wider <= source
      modifies this, table, dst
      ensures Valid() && dst[Max(capacity, 0)..] == old(dst[Max(capacity, 0)..])
      ensures dictionary == old(dictionary) && dictSize == old(dictSize) + inputSize
      ensures currentOffset == old(currentOffset) + inputSize
      ensures Writes(NextJob(buf, source, inputSize, old(dictSize), old(currentOffset), acceleration, capacity),
                     old(table[..]), dst[..], result)
      ensures |old(table[..])| == HASH_SIZE
      ensures table[..] == if inputSize == 0 then old(table[..])
                           else Left(NextJob(buf, source, inputSize, old(dictSize), old(currentOffset), acceleration,
                                             capacity), old(table[..]))
      ensures result > 0 ==>
        && result <= capacity && Means(dst[..result], buf[source - wider..source], buf[source..source + inputSize])
        && (inputSize == 0 ==> dst[..result] == [0])
      ensures CompressBound(inputSize) <= capacity ==> result > 0
    {
      hide NextJob, Job.Valid, Job.TableSize, Left, Below, Promised, Good, Usable, Outcome, Means, Encode, Kept, Room,
          WellFormed, CompressBound, Writes;
      var job := NextJob(buf, source, inputSize, dictSize, currentOffset, acceleration, capacity);
      NextOutcome(buf, source, inputSize, dictSize, wider, currentOffset, acceleration, capacity, table[..]);
      ghost var before := table[..];
      var consumed;
      result, consumed := CompressGeneric(job, table, dst, if capacity >= 0 then capacity else 0);
      WritesBlock(job, before, dst, result);
      if inputSize > 0 {
        NextKept(buf, source, inputSize, dictSize, currentOffset, acceleration, capacity, table[..]);
        dictSize := dictSize + inputSize;
        currentOffset := currentOffset + inputSize;
      }
    }

    /** LZ4_compress_fast_continue, for a block that follows the ones before it in `buf`. A history is
        dropped when there is none, and a block of no bytes leaves the state alone. */
    method CompressFastContinue(buf: seq<byte>, source: nat, inputSize: nat, dst: array<byte>, capacity: int,
                                acceleration: int)
      returns (result: nat)
      requires Valid() && source + inputSize <= |buf| && inputSize <= INT_MAX && capacity <= dst.Length
      requires Continues(source) && dictSize <= source
      modifies this, table, dst
      ensures Valid() && dst[Max(capacity, 0)..] == old(dst[Max(capacity, 0)..])
      ensures var offset := OffsetFor(old(currentOffset), inputSize);
              var dict := DictFor(old(dictSize), old(currentOffset), inputSize);
              if inputSize > MAX_INPUT_SIZE then
                result == 0 && currentOffset == offset && dictSize == dict
              else
                && currentOffset == offset + inputSize && dictSize == dict + inputSize && Continues(source + inputSize)
                && Writes(NextJob(buf, source, inputSize, dict, offset, acceleration, capacity),
                          TableFor(old(table[..]), old(currentOffset), inputSize), dst[..], result)
      ensures |old(View()).table| == HASH_SIZE
      ensures View() == if inputSize <= MAX_INPUT_SIZE
                        then Behind(buf, source, inputSize, old(View()), acceleration, capacity)
                        else Renormed(old(View()), inputSize)
      ensures result > 0 <==> BlockFits(buf, source, inputSize, old(View()), acceleration, capacity)
      ensures result > 0 ==>
        && result <= dst.Length && inputSize <= MAX_INPUT_SIZE
        && Some(dst[..result]) == Encoded(WholeBlock(buf, source, inputSize, old(View()), acceleration))
      ensures dictSize <= old(dictSize) + inputSize
      ensures result > 0 ==>
        && result <= capacity && Continues(source + inputSize)
        && Means(dst[..result], buf[source - old(dictSize)..source], buf[source..source + inputSize])
        && (inputSize == 0 ==> dst[..result] == [0])
      ensures inputSize <= MAX_INPUT_SIZE && CompressBound(inputSize) <= capacity ==> result > 0
    {
      ghost var wider, before := dictSize, View();
      hide Means, CompressBound, Below, Writes, NextJob, TableFor, Left, BlockFits, WholeBlock, Encoded;
      Renorm(inputSize);
      if dictSize == 0 {
        dictionary := source;
      }
      if inputSize > MAX_INPUT_SIZE {
        TooLongNeverFits(buf, source, inputSize, before, acceleration, capacity);
        return 0;
      }
      result := CompressNext(buf, source, inputSize, dst, capacity, acceleration, wider);
      WritesFits(buf, source, inputSize, before, acceleration, capacity, dst[..], result);
      assert dst[..][..result] == dst[..result];
    }
  }

  // ----- Renormalising changes nothing -----

  /** Two jobs for the same block whose indexes are `delta` apart. The histories may differ, beyond
      where a match can reach. */
  ghost predicate Shifted(job: Job, moved: Job, delta: nat) {
    && moved == job.(startIndex := moved.startIndex, dictSize := moved.dictSize)
    && job.startIndex == moved.startIndex + delta && WINDOW <= moved.startIndex && job.tableType.ByU32?
    && (job.dictSize == moved.dictSize || (!job.dictSmall && WINDOW <= job.dictSize && WINDOW <= moved.dictSize))
    && job.End() <= |job.buf| && 1 <= job.acceleration && job.dictSize <= job.start && moved.dictSize <= job.start
  }

  function RescaledFinding(r: Finding, delta: nat): Finding {
    r.(table := RescaledTable(r.table, delta))
  }

  function RescaledCursor(c: Cursor, delta: nat): Cursor {
    if c.AtMatch? then c.(table := RescaledTable(c.table, delta)) else c
  }

  lemma ShiftedEntry(job: Job, moved: Job, delta: nat, index: nat, p: nat)
    requires Shifted(job, moved, delta) && job.start <= p
    ensures moved.Accepts(Rescaled(index, delta), p) == job.Accepts(index, p)
    ensures job.Accepts(index, p) ==>
      && moved.Position(Rescaled(index, delta)) == job.Position(index) && p <= job.Position(index) + DISTANCE_MAX
  {
    hide Same4;
  }

  lemma ShiftedFrame(job: Job, moved: Job, delta: nat, p: nat)
    requires Shifted(job, moved, delta)
    ensures moved.buf == job.buf && moved.start == job.start && moved.acceleration == job.acceleration
    ensures moved.End() == job.End() && moved.MfLimitPlusOne() == job.MfLimitPlusOne()
    ensures moved.MatchLimit() == job.MatchLimit()
    ensures moved.policy == job.policy && moved.olimit == job.olimit && moved.TableSize() == job.TableSize()
    ensures job.End() <= |job.buf| && 1 <= job.acceleration && job.Index(p) == moved.Index(p) + delta
    ensures job.start <= p ==> 0 <= moved.Index(p)
    ensures Hashable(moved, p) == Hashable(job, p)
    ensures p + 8 <= |job.buf| ==> moved.Hash(p) == job.Hash(p)
  {
    hide Hash4, Hash5;
  }

  /** Entering a position and rescaling commute. */
  lemma RescaledEntered(table: Table, delta: nat, h: nat, index: nat)
    requires h < |table|
    ensures |RescaledTable(table, delta)| == |table| && RescaledTable(table, delta)[h] == Rescaled(table[h], delta)
    ensures RescaledTable(table[h := index + delta], delta) == RescaledTable(table, delta)[h := index]
  {
  }

  lemma {:induction false} ShiftedSearch(job: Job, moved: Job, delta: nat, table: Table, fwd: nat, step: nat, nb: nat)
    requires Shifted(job, moved, delta) && |table| == job.TableSize() && Hashable(job, fwd) && 1 <= step && 64 <= nb
    ensures Hashable(moved, fwd) && |RescaledTable(table, delta)| == moved.TableSize()
    ensures var r := Search(job, table, fwd, step, nb);
            && Search(moved, RescaledTable(table, delta), fwd, step, nb) == RescaledFinding(r, delta)
            && (r.Found? ==> r.ip <= r.pos + DISTANCE_MAX)
    decreases job.MfLimitPlusOne() - fwd
  {
    hide Search, Shifted, Job.Hash, Job.Accepts, RescaledTable, Job.TableSize, Job.Index, Job.Position;
    ShiftedFrame(job, moved, delta, fwd);
    var h := job.Hash(fwd);
    RescaledEntered(table, delta, h, moved.Index(fwd));
    if fwd + step <= job.MfLimitPlusOne() {
      SearchVisits(job, table, fwd, step, nb);
      SearchVisits(moved, RescaledTable(table, delta), fwd, step, nb);
      ShiftedEntry(job, moved, delta, table[h], fwd);
      ShiftedSearch(job, moved, delta, table[h := job.Index(fwd)], fwd + step, nb / 64, nb + 1);
    } else {
      SearchEnds(job, table, fwd, step, nb);
      SearchEnds(moved, RescaledTable(table, delta), fwd, step, nb);
    }
  }

  /** Going back from a match in reach never meets the start of either history where they differ. */
  lemma {:induction false} ShiftedCatchUp(job: Job, moved: Job, delta: nat, anchor: nat, ip: nat, m: nat)
    requires Shifted(job, moved, delta) && job.start <= anchor <= ip <= |job.buf| && m <= |job.buf|
    requires ip <= m + DISTANCE_MAX
    ensures CatchUp(moved, anchor, ip, m) == CatchUp(job, anchor, ip, m)
    decreases ip
  {
    if ip > anchor && m > 0 {
      ShiftedCatchUp(job, moved, delta, anchor, ip - 1, m - 1);
    }
  }

  lemma ShiftedFromSearch(job: Job, moved: Job, delta: nat, table: Table, anchor: nat, ip: nat, op: nat)
    requires Shifted(job, moved, delta) && |table| == job.TableSize() && Hashable(job, ip) && job.start <= anchor <= ip
    ensures Hashable(moved, ip) && |RescaledTable(table, delta)| == moved.TableSize() && 1 <= job.acceleration
    ensures FromSearch(moved, RescaledTable(table, delta), anchor, ip, op)
            == RescaledCursor(FromSearch(job, table, anchor, ip, op), delta)
  {
    hide Search, CatchUp, RescaledTable, Job.TableSize;
    ShiftedSearch(job, moved, delta, table, ip, 1, job.acceleration * 64);
    match Search(job, table, ip, 1, job.acceleration * 64)
    case NotFound(_) =>
    case Found(p, m, entered) => ShiftedCatchUp(job, moved, delta, anchor, p, m);
  }

  lemma ShiftedMatchEnd(job: Job, moved: Job, delta: nat, table: Table, ip: nat, op: nat, filled: nat)
    requires Shifted(job, moved, delta) && |table| == job.TableSize() && job.start + 2 <= ip
    ensures |RescaledTable(table, delta)| == moved.TableSize() && job.End() <= |job.buf| && 1 <= job.acceleration
    ensures FromMatchEnd(moved, RescaledTable(table, delta), ip, op, filled)
            == RescaledCursor(FromMatchEnd(job, table, ip, op, filled), delta)
  {
    if ip < job.MfLimitPlusOne() {
      ShiftedAgain(job, moved, delta, table, ip, op, filled);
    }
  }

  lemma ShiftedAgain(job: Job, moved: Job, delta: nat, table: Table, ip: nat, op: nat, filled: nat)
    requires Shifted(job, moved, delta) && |table| == job.TableSize()
    requires job.start + 2 <= ip < job.MfLimitPlusOne()
    ensures |RescaledTable(table, delta)| == moved.TableSize() && job.End() <= |job.buf| && 1 <= job.acceleration
    ensures FromMatchEnd(moved, RescaledTable(table, delta), ip, op, filled)
            == RescaledCursor(FromMatchEnd(job, table, ip, op, filled), delta)
  {
    hide FromMatchEnd, FromSearch, Shifted, Job.Hash, Job.Accepts, RescaledTable, Job.TableSize, Job.Index,
        Job.Position;
    ShiftedFrame(job, moved, delta, ip);
    ShiftedFrame(job, moved, delta, ip - 2);
    RescaledEntered(table, delta, job.Hash(ip - 2), moved.Index(ip - 2));
    var filling := table[job.Hash(ip - 2) := job.Index(ip - 2)];
    var h := job.Hash(ip);
    RescaledEntered(filling, delta, h, moved.Index(ip));
    MatchEndVisits(job, table, ip, op, filled);
    MatchEndVisits(moved, RescaledTable(table, delta), ip, op, filled);
    ShiftedEntry(job, moved, delta, filling[h], ip);
    if !job.Accepts(filling[h], ip) {
      ShiftedFromSearch(job, moved, delta, filling[h := job.Index(ip)], ip, ip + 1, op);
    }
  }

  lemma ShiftedTaken(job: Job, moved: Job, delta: nat, c: Cursor)
    requires Shifted(job, moved, delta) && !job.policy.FillOutput? && InBounds(job, c)
    ensures var c' := RescaledCursor(c, delta);
            && InBounds(moved, c') && (Takes(moved, c') <==> Takes(job, c))
            && (Takes(job, c) ==>
                  && c.AtMatch? && Taken(moved, c') == Taken(job, c) && NextIp(moved, c') == NextIp(job, c)
                  && NextOp(moved, c') == NextOp(job, c) && c'.filled == c.filled
                  && job.start + 2 <= NextIp(job, c) && NextTable(job, c) == c.table
                  && NextTable(moved, c') == RescaledTable(c.table, delta))
  {
  }

  /** The same block is planned for both. */
  lemma {:induction false} ShiftedPlan(job: Job, moved: Job, delta: nat, c: Cursor)
    requires Shifted(job, moved, delta) && !job.policy.FillOutput? && InBounds(job, c)
    ensures InBounds(moved, RescaledCursor(c, delta))
    ensures Plan(moved, RescaledCursor(c, delta)) == Plan(job, c)
    decreases Remaining(job, c)
  {
    hide Takes, Taken, TakenCode, NextIp, NextOp, NextTable, FromMatchEnd, Shifted, RescaledTable;
    ShiftedTaken(job, moved, delta, c);
    ShiftedFrame(job, moved, delta, job.start);
    if Takes(job, c) {
      ShiftedMatchEnd(job, moved, delta, c.table, NextIp(job, c), NextOp(job, c), c.filled);
      RemainingShrinks(job, c);
      ShiftedPlan(job, moved, delta, TakeMatch(job, c));
      PlanTakes(job, c);
      PlanTakes(moved, RescaledCursor(c, delta));
    }
  }

  lemma ShiftedFirstSearch(job: Job, moved: Job, delta: nat, table: Table)
    requires Shifted(job, moved, delta) && !job.policy.FillOutput? && |table| == job.TableSize()
    requires job.size >= MIN_LENGTH
    ensures |RescaledTable(table, delta)| == moved.TableSize() && job.End() <= |job.buf| && 1 <= job.acceleration
    ensures moved.End() <= |moved.buf|
    ensures FirstCursor(moved, RescaledTable(table, delta)) == RescaledCursor(FirstCursor(job, table), delta)
  {
    hide FromSearch, Job.Hash, RescaledTable, RescaledCursor;
    ShiftedFrame(job, moved, delta, job.start);
    RescaledEntered(table, delta, job.Hash(job.start), moved.startIndex);
    ShiftedFromSearch(job, moved, delta, table[job.Hash(job.start) := job.startIndex], job.start, job.start + 1, 0);
  }

  lemma ShiftedFirst(job: Job, moved: Job, delta: nat, table: Table)
    requires Shifted(job, moved, delta) && !job.policy.FillOutput? && |table| == job.TableSize()
    ensures |RescaledTable(table, delta)| == moved.TableSize() && job.End() <= |job.buf| && 1 <= job.acceleration
    ensures moved.End() <= |moved.buf|
    ensures FirstCursor(moved, RescaledTable(table, delta)) == RescaledCursor(FirstCursor(job, table), delta)
  {
    if job.size >= MIN_LENGTH {
      ShiftedFirstSearch(job, moved, delta, table);
    }
  }

  lemma ShiftedOutcome(job: Job, moved: Job, delta: nat, table: Table)
    requires Shifted(job, moved, delta) && !job.policy.FillOutput? && |table| == job.TableSize()
    ensures |RescaledTable(table, delta)| == moved.TableSize() && job.End() <= |job.buf| && 1 <= job.acceleration
    ensures moved.End() <= |moved.buf| && 1 <= moved.acceleration
    ensures Outcome(moved, RescaledTable(table, delta)) == Outcome(job, table)
  {
    hide FirstCursor, Plan, RescaledTable;
    ShiftedFirst(job, moved, delta, table);
    ShiftedPlan(job, moved, delta, FirstCursor(job, table));
  }

  /** Renormalising changes nothing: what is written is the block that would have been written had
      the offset been free to grow and every index been kept. */
  lemma RenormIsTransparent(buf: seq<byte>, source: nat, size: nat, dictSize: nat, currentOffset: nat,
                            acceleration: int, capacity: int, table: Table)
    requires NeedsRenorm(currentOffset, size) && size <= MAX_INPUT_SIZE && currentOffset <= OFFSET_LIMIT
    requires source + size <= |buf| && dictSize <= source && |table| == HASH_SIZE
    ensures var job := NextJob(buf, source, size, dictSize, currentOffset, acceleration, capacity);
            var moved := NextJob(buf, source, size, DictFor(dictSize, currentOffset, size),
                                 OffsetFor(currentOffset, size), acceleration, capacity);
            && job.End() <= |buf| && moved.End() <= |buf| && 1 <= job.acceleration && |table| == job.TableSize()
            && |TableFor(table, currentOffset, size)| == moved.TableSize()
            && Outcome(moved, TableFor(table, currentOffset, size)) == Outcome(job, table)
  {
    assert Delta(currentOffset) == currentOffset - WINDOW;
    var job := NextJob(buf, source, size, dictSize, currentOffset, acceleration, capacity);
    var moved := NextJob(buf, source, size, Min(dictSize, WINDOW), WINDOW, acceleration, capacity);
    hide Outcome;
    ShiftedOutcome(job, moved, Delta(currentOffset), table);
  }

  // ----- Blocks are linked -----

  /** What holds between two blocks. */
  predicate Framed(s: Side, source: nat) {
    |s.table| == HASH_SIZE && s.dict <= source && s.dict <= s.offset <= OFFSET_LIMIT
  }

  ghost predicate Proper(s: Side, source: nat) {
    Framed(s, source) && Below(s.table, s.offset + 1)
  }

  /** The job of a block, had the offset been free to grow, and without a limit. */
  function FreeJob(buf: seq<byte>, source: nat, size: nat, s: Side, acceleration: int): Job {
    Unlimited(NextJob(buf, source, size, s.dict, s.offset, acceleration, 0))
  }

  /** It gives the block, renormalised or not. */
  lemma FreeOutcome(buf: seq<byte>, source: nat, size: nat, s: Side, acceleration: int)
    requires source + size <= |buf| && Framed(s, source) && size <= MAX_INPUT_SIZE
    ensures WholeBlock(buf, source, size, s, acceleration)
            == Outcome(FreeJob(buf, source, size, s, acceleration), s.table)
  {
    if NeedsRenorm(s.offset, size) {
      assert Delta(s.offset) == s.offset - WINDOW;
      var job := FreeJob(buf, source, size, s, acceleration);
      var moved := Unlimited(BlockJob(buf, source, size, s, acceleration, 0));
      hide Outcome, Below;
      ShiftedOutcome(job, moved, Delta(s.offset), s.table);
    }
  }

  lemma WholeSucceeds(buf: seq<byte>, source: nat, size: nat, s: Side, acceleration: int)
    requires source + size <= |buf| && Proper(s, source) && size <= MAX_INPUT_SIZE
    ensures WholeBlock(buf, source, size, s, acceleration).Some?
  {
    var r := Renormed(s, size);
    var job := BlockJob(buf, source, size, s, acceleration, 0);
    if NeedsRenorm(s.offset, size) {
      assert Delta(s.offset) == s.offset - WINDOW;
    }
    NextIsUsable(buf, source, size, r.dict, r.offset, acceleration, 0, r.table);
    hide Outcome, Usable;
    UnlimitedIsUsable(job, r.table);
    OutcomeSucceeds(Unlimited(job), r.table);
  }

  /** Where a position that is looked up finds in its slot one of an earlier block, in reach and equal in four
      bytes, the block refers to it: its first match lies at that distance, before the block. */
  lemma LinkedBlock(buf: seq<byte>, source: nat, size: nat, s: Side, acceleration: int, p: nat, index: nat)
    requires source + size <= |buf| && Proper(s, source) && MIN_LENGTH <= size <= MAX_INPUT_SIZE
    requires p == source + 1 || (p <= source + 65 && acceleration == 1)
    requires var job := FreeJob(buf, source, size, s, acceleration);
             && FoundFirst(job, Begun(job, s.table), source + 1, p)
             && index == Begun(job, s.table)[job.Hash(p)] < s.offset
    ensures WholeBlock(buf, source, size, s, acceleration).Some?
    ensures var b := WholeBlock(buf, source, size, s, acceleration).value;
            && b.More? && |b.first.literals| <= p - source && b.first.offset > |b.first.literals|
            && b.first.offset == s.offset + (p - source) - index
  {
    var job := FreeJob(buf, source, size, s, acceleration);
    hide Job.Hash, FoundFirst, Search, FirstCursor, CatchUp, Begun, Plan, WholeBlock;
    WholeSucceeds(buf, source, size, s, acceleration);
    FreeOutcome(buf, source, size, s, acceleration);
    FoundReal(job, Begun(job, s.table), source + 1, p);
    assert job.Position(index) < source;
    assert Compressed(job, s.table).Some?;
    FirstWritten(job, s.table, p, job.Position(index));
  }

  /** The second position of a block is alone in its slot, as far as positions of this block are looked up. */
  ghost predicate AloneInSlot(job: Job) {
    && job.End() <= |job.buf| && MIN_LENGTH <= job.size
    && forall p: nat {:trigger job.Hash(p)} ::
         job.start <= p < job.MfLimitPlusOne() && p != job.start + 1 ==> job.Hash(p) != job.Hash(job.start + 1)
  }

  /** A block that repeats the one before it is written as one match and its last literals, whatever came
      before. */
  lemma RepeatedBlock(buf: seq<byte>, source: nat, size: nat, s: Side, acceleration: int, capacity: int)
    requires source + 2 * size <= |buf| && Framed(s, source) && MIN_LENGTH <= size <= DISTANCE_MAX
    requires buf[source..source + size] == buf[source + size..source + 2 * size]
    requires AloneInSlot(BlockJob(buf, source, size, s, acceleration, capacity))
    ensures var next := Behind(buf, source, size, s, acceleration, capacity);
            WholeBlock(buf, source + size, size, next, acceleration)
            == Some(OneMatch(buf, source + size, source + size, size, source + 2 * size))
  {
    hide WholeBlock, Outcome, AloneInSlot, Left, Behind, Renormed, OneMatch, FreeJob, BlockJob, Job.Hash, SameBlock,
        Free, Job.Index;
    RepeatedFree(buf, source, size, s, acceleration, capacity);
    BehindIsFramed(buf, source, size, s, acceleration, capacity);
    FreeOutcome(buf, source + size, size, Behind(buf, source, size, s, acceleration, capacity), acceleration);
  }

  lemma BehindIsFramed(buf: seq<byte>, source: nat, size: nat, s: Side, acceleration: int, capacity: int)
    requires source + size <= |buf| && Framed(s, source) && size <= MAX_INPUT_SIZE
    ensures Framed(Behind(buf, source, size, s, acceleration, capacity), source + size)
  {
    hide Left;
  }

  lemma RepeatedFree(buf: seq<byte>, source: nat, size: nat, s: Side, acceleration: int, capacity: int)
    requires source + 2 * size <= |buf| && Framed(s, source) && MIN_LENGTH <= size <= DISTANCE_MAX
    requires buf[source..source + size] == buf[source + size..source + 2 * size]
    requires AloneInSlot(BlockJob(buf, source, size, s, acceleration, capacity))
    ensures |Behind(buf, source, size, s, acceleration, capacity).table| == HASH_SIZE
    ensures var next := Behind(buf, source, size, s, acceleration, capacity);
            var job := FreeJob(buf, source + size, size, next, acceleration);
            && job.End() <= |job.buf| && 1 <= job.acceleration && |next.table| == job.TableSize()
            && Outcome(job, next.table) == Some(OneMatch(buf, source + size, source + size, size, source + 2 * size))
  {
    hide WholeBlock, Outcome, AloneInSlot, Left, Behind, Renormed, OneMatch, FreeJob, BlockJob, Job.Hash, SameBlock,
        Free, Job.Index;
    var next := Behind(buf, source, size, s, acceleration, capacity);
    var first := BlockJob(buf, source, size, s, acceleration, capacity);
    var second := FreeJob(buf, source + size, size, next, acceleration);
    TwoBlocks(buf, source, size, s, acceleration, capacity);
    SecondKept(first, Renormed(s, size).table);
    RepeatedPlan(first, second, next.table, size);
  }

  lemma TwoBlocks(buf: seq<byte>, source: nat, size: nat, s: Side, acceleration: int, capacity: int)
    requires source + 2 * size <= |buf| && Framed(s, source) && MIN_LENGTH <= size <= DISTANCE_MAX
    requires buf[source..source + size] == buf[source + size..source + 2 * size]
    requires AloneInSlot(BlockJob(buf, source, size, s, acceleration, capacity))
    ensures var next := Behind(buf, source, size, s, acceleration, capacity);
            var first := BlockJob(buf, source, size, s, acceleration, capacity);
            var second := FreeJob(buf, source + size, size, next, acceleration);
            && SameBlock(first, second, size) && second.policy.NotLimited? && 1 <= second.acceleration
            && |next.table| == second.TableSize() == first.TableSize() && second.dictSize <= second.startIndex
            && second.Low() <= first.start && 1 <= first.acceleration && first.policy.LimitedOutput?
            && first.End() <= |first.buf| && |Renormed(s, size).table| == first.TableSize()
            && next.table == Left(first, Renormed(s, size).table) && 0 <= first.Index(first.start)
            && Free(first, first.start + 2, first.Hash(first.start + 1)) && MIN_LENGTH <= first.size
            && second.buf == buf && second.start == source + size && second.End() == source + 2 * size
  {
    hide Job.Hash, Left;
  }

  lemma RepeatedPlan(first: Job, second: Job, table: Table, size: nat)
    requires SameBlock(first, second, size) && AloneInSlot(first)
    requires second.policy.NotLimited? && 1 <= second.acceleration
    requires |table| == second.TableSize() == first.TableSize() && second.dictSize <= second.startIndex
    requires second.Low() <= first.start
    requires table[first.Hash(first.start + 1)] == first.Index(first.start + 1)
    ensures Outcome(second, table) == Some(OneMatch(second.buf, second.start, second.start, size, second.End()))
  {
    hide Job.Hash, FirstCursor, Plan, FoundFirst, AloneInSlot, Begun;
    SecondFound(first, second, table, size);
    FirstFound(second, table, second.start + 1, first.start + 1);
    SecondRepeats(first, second, size);
    assert second.buf[second.start] == second.buf[second.start - size];
    OneBack(second, second.start, first.start + 1);
    PlanOneMatch(second, FirstCursor(second, table));
  }

  /** What the two blocks are to one another. */
  ghost predicate SameBlock(first: Job, second: Job, size: nat) {
    && second.buf == first.buf && first.size == second.size == size && MIN_LENGTH <= size <= DISTANCE_MAX
    && second.start == first.start + size && second.startIndex == first.startIndex + size
    && second.dictSize == first.dictSize + size && second.tableType == first.tableType
    && second.End() <= |second.buf|
    && second.buf[first.start..second.start] == second.buf[second.start..second.End()]
  }

  lemma SecondFound(first: Job, second: Job, table: Table, size: nat)
    requires SameBlock(first, second, size) && AloneInSlot(first) && |table| == second.TableSize()
    requires second.dictSmall ==> second.dictSize <= second.startIndex
    requires first.TableSize() == second.TableSize()
    requires table[first.Hash(first.start + 1)] == first.Index(first.start + 1)
    ensures FoundFirst(second, Begun(second, table), second.start + 1, second.start + 1)
    ensures second.Position(Begun(second, table)[second.Hash(second.start + 1)]) == first.start + 1
  {
    hide Job.Hash;
    OneSlot(first, second, first.start + 1);
    OneSlot(first, second, first.start);
    SecondAccepts(first, second, size);
  }

  lemma SecondAccepts(first: Job, second: Job, size: nat)
    requires SameBlock(first, second, size) && (second.dictSmall ==> second.dictSize <= second.startIndex)
    ensures second.Accepts(first.Index(first.start + 1), second.start + 1)
    ensures second.Position(first.Index(first.start + 1)) == first.start + 1
  {
    SameByte(first, second, size, second.start + 1);
    SameByte(first, second, size, second.start + 2);
    SameByte(first, second, size, second.start + 3);
    SameByte(first, second, size, second.start + 4);
  }

  /** The same bytes, `k` behind both starts. */
  lemma SameAt(first: Job, second: Job, size: nat, k: nat, n: nat)
    requires SameBlock(first, second, size) && k + n <= size
    ensures second.buf[first.start + k..first.start + k + n] == second.buf[second.start + k..second.start + k + n]
  {
    SliceOfSlice(second.buf, first.start, second.start, k, n);
    SliceOfSlice(second.buf, second.start, second.End(), k, n);
  }

  lemma SliceOfSlice(buf: seq<byte>, a: nat, b: nat, k: nat, n: nat)
    requires a + k + n <= b <= |buf|
    ensures buf[a + k..a + k + n] == buf[a..b][k..k + n]
  {
    var slice := buf[a..b];
    assert |slice[k..k + n]| == n == |buf[a + k..a + k + n]|;
    var left, right := buf[a + k..a + k + n], slice[k..k + n];
    forall i | 0 <= i < n
      ensures left[i] == right[i]
    {
      assert slice[k + i] == buf[a + (k + i)];
    }
    assert left == right;
  }

  lemma SameByte(first: Job, second: Job, size: nat, i: nat)
    requires SameBlock(first, second, size) && second.start <= i < second.End()
    ensures second.buf[i] == second.buf[i - size]
  {
    assert second.buf[i] == second.buf[second.start..second.End()][i - second.start];
    assert second.buf[i - size] == second.buf[first.start..second.start][i - size - first.start];
  }

  lemma RepeatsFacts(first: Job, second: Job)
    requires SameBlock(first, second, first.size)
    ensures second.buf == first.buf && second.start == first.start + first.size && MIN_LENGTH <= first.size
    ensures first.start + 2 * first.size <= |first.buf|
    ensures forall p: nat :: p + 8 <= |first.buf| ==> first.Hash(p) == second.Hash(p)
  {
    hide Hash4, Hash5;
  }

  /** The slots of the first two positions are the same in both blocks. */
  lemma OneSlot(first: Job, second: Job, p: nat)
    requires SameBlock(first, second, first.size) && first.start <= p <= first.start + 1
    ensures p + first.size + 8 <= |first.buf| && first.Hash(p) == second.Hash(p) == second.Hash(p + first.size)
  {
    hide SameBlock, Job.Hash;
    RepeatsFacts(first, second);
    SameAt(first, second, first.size, p - first.start, 8);
    SameSlot(second, p, p + first.size);
  }

  lemma SecondRepeats(first: Job, second: Job, size: nat)
    requires SameBlock(first, second, size)
    ensures RepeatsFrom(second.buf, second.start, size, second.End())
  {
    forall i | second.start <= i < second.End()
      ensures second.buf[i] == second.buf[i - size]
    {
      SameByte(first, second, size, i);
    }
  }

  lemma OneBack(job: Job, anchor: nat, m: nat)
    requires anchor + 1 <= |job.buf| && 1 <= m <= anchor && job.Low() < m && job.buf[anchor] == job.buf[m - 1]
    ensures CatchUp(job, anchor, anchor + 1, m) == 1
  {
    assert CatchUp(job, anchor, anchor, m - 1) == 0;
  }

  /** The acceleration is that of the call: one as large as the block finds nothing in the first block. */
  lemma NothingAtSpeed(src: seq<byte>, acceleration: int)
    requires |src| <= MAX_INPUT_SIZE && MIN_LENGTH <= |src| && !Same4(src, 0, 1)
    requires |src| - 13 < acceleration && 1 <= acceleration <= ACCELERATION_MAX
    ensures |Zeros(HASH_SIZE)| == HASH_SIZE
    ensures WholeBlock(src, 0, |src|, Side(0, 0, Zeros(HASH_SIZE)), acceleration) == Some(Last(src, 0))
  {
    assert src[0..|src|] == src;
    var job := Unlimited(BlockJob(src, 0, |src|, Side(0, 0, Zeros(HASH_SIZE)), acceleration, 0));
    hide Outcome, Same4;
    Periods.SpeedPlan(job, Zeros(HASH_SIZE));
  }

  // ----- An example -----

  /** The bytes from 0 up to 12, twice. */
  function Twice(n: nat): (r: seq<byte>)
    requires n <= 256
    ensures |r| == 2 * n
  {
    seq(2 * n, i requires 0 <= i < 2 * n => if i < n then i else i - n)
  }

  /** Moved up by 24 bits, cut to 64, multiplied, cut to 64, and the upper 12 of these. */
  lemma SlotIs(number: nat, over: nat, moved: nat, more: nat, slot: nat, rest: nat)
    requires number * 0x100_0000 == over * 0x1_0000_0000_0000_0000 + moved && moved < 0x1_0000_0000_0000_0000
    requires moved * 889523592379 == more * 0x1_0000_0000_0000_0000 + slot * 0x10_0000_0000_0000 + rest
    requires slot < 4096 && rest < 0x10_0000_0000_0000
    ensures Hash5(number) == slot
  {
    CutTo64(over, moved);
    CutTo64(more, slot * 0x10_0000_0000_0000 + rest);
    UpperPart(slot, rest);
  }

  lemma CutTo64(over: nat, low: nat)
    requires low < 0x1_0000_0000_0000_0000
    ensures (over * 0x1_0000_0000_0000_0000 + low) % 0x1_0000_0000_0000_0000 == low
  {
  }

  lemma UpperPart(slot: nat, rest: nat)
    requires rest < 0x10_0000_0000_0000
    ensures (slot * 0x10_0000_0000_0000 + rest) / 0x10_0000_0000_0000 == slot
  {
  }

  lemma TwiceNumbers(n: nat)
    requires n == 13
    ensures LittleEndian(Twice(n), 0, 8) == 506097522914230528
    ensures LittleEndian(Twice(n), 1, 8) == 578437695752307201
  {
    var buf := Twice(n);
    assert LittleEndian(buf, 8, 0) == 0 && LittleEndian(buf, 9, 0) == 0;
    assert LittleEndian(buf, 7, 1) == 7 && LittleEndian(buf, 8, 1) == 8;
    assert LittleEndian(buf, 6, 2) == 1798 && LittleEndian(buf, 7, 2) == 2055;
    assert LittleEndian(buf, 5, 3) == 460293 && LittleEndian(buf, 6, 3) == 526086;
    assert LittleEndian(buf, 4, 4) == 117835012 && LittleEndian(buf, 5, 4) == 134678021;
    assert LittleEndian(buf, 3, 5) == 30165763075 && LittleEndian(buf, 4, 5) == 34477573380;
    assert LittleEndian(buf, 2, 6) == 7722435347202 && LittleEndian(buf, 3, 6) == 8826258785283;
    assert LittleEndian(buf, 1, 7) == 1976943448883713 && LittleEndian(buf, 2, 7) == 2259522249032450;
  }

  lemma TwiceSlots(job: Job, n: nat)
    requires n == 13 && job.buf == Twice(n) && job.tableType.ByU32?
    ensures job.Hash(0) == 378 && job.Hash(1) == 1393
  {
    hide Hash5, LittleEndian;
    TwiceNumbers(n);
    SlotIs(LittleEndian(job.buf, 0, 8), 460293, 289077004400066560, 13939631536, 378, 2061287949336576);
    SlotIs(LittleEndian(job.buf, 1, 8), 526086, 361417177238077440, 17427959349, 1393, 2154298603470848);
  }

  lemma TwiceAlone(job: Job, n: nat)
    requires n == 13 && job.buf == Twice(n) && job.start == 0 && job.size == n && job.Hash(0) != job.Hash(1)
    ensures AloneInSlot(job)
  {
    hide Job.Hash;
  }

  lemma FreshSide()
    ensures |Zeros(HASH_SIZE)| == HASH_SIZE && Framed(Side(0, 0, Zeros(HASH_SIZE)), 0)
  {
  }

  lemma SmallLengths()
    ensures LengthSize(0) == LengthSize(4) == 0
  {
  }

  lemma TwiceJob(n: nat, acceleration: int, capacity: int)
    requires n == 13
    ensures |Zeros(HASH_SIZE)| == HASH_SIZE
    ensures AloneInSlot(BlockJob(Twice(n), 0, n, Side(0, 0, Zeros(HASH_SIZE)), acceleration, capacity))
  {
    var job := BlockJob(Twice(n), 0, n, Side(0, 0, Zeros(HASH_SIZE)), acceleration, capacity);
    hide Job.Hash, AloneInSlot, Twice;
    TwiceSlots(job, n);
    TwiceAlone(job, n);
  }

  lemma TwiceRepeats(n: nat)
    requires n <= 256
    ensures Twice(n)[0..n] == Twice(n)[n..n + n]
  {
  }

  /** Thirteen different bytes, and again: the second block of a new chain takes nine bytes, not fourteen. */
  lemma TwiceIsLinked(n: nat, acceleration: int, capacity: int)
    requires n == 13
    ensures |Zeros(HASH_SIZE)| == HASH_SIZE
    ensures var next := Behind(Twice(n), 0, n, Side(0, 0, Zeros(HASH_SIZE)), acceleration, capacity);
            && WholeBlock(Twice(n), n, n, next, acceleration) == Some(OneMatch(Twice(n), n, n, n, 2 * n))
            && WellFormed(OneMatch(Twice(n), n, n, n, 2 * n))
            && |Encode(OneMatch(Twice(n), n, n, n, 2 * n))| == 9
  {
    hide WholeBlock, Behind, OneMatch, Twice, Zeros, AloneInSlot, LengthSize, BlockJob;
    FreshSide();
    TwiceJob(n, acceleration, capacity);
    TwiceRepeats(n);
    RepeatedBlock(Twice(n), 0, n, Side(0, 0, Zeros(HASH_SIZE)), acceleration, capacity);
    OneMatchSize(Twice(n), n, n, n, 2 * n);
    SmallLengths();
  }

  // ----- The decoder's stream -----

  method DecompressAt(src: seq<byte>, dst: array<byte>, w: FastDecoder.Window, ghost task: Task) returns (result: int)
    requires FastDecoder.Serves(task, src, w, false) && w.end <= dst.Length && task.init == dst[w.lo..w.start]
    modifies dst
    ensures dst[..w.start] == old(dst[..w.start]) && dst[w.end..] == old(dst[w.end..])
    ensures result >= 0 ==>
      w.start + result <= w.end && Decode(src, 0, task.init) == Some(task.init + dst[w.start..w.start + result])
    ensures w.start == w.end ==> (result >= 0 <==> src == [0])
    ensures forall data {:trigger Means(src, task.init, data)} ::
              Means(src, task.init, data) && |data| <= w.end - w.start && (w.start < w.end || src == [0]) ==>
              result == |data| && dst[w.start..w.start + result] == data
  {
    hide Task.Finished, Task.Rejected, Decode, Means;
    ghost var front := dst[..w.start];
    result := FastDecoder.DecompressGeneric(src, dst, w, false, task);
    if result >= 0 {
      assert dst[w.lo..w.start] == task.init by {
        assert dst[w.lo..w.start] == dst[..w.start][w.lo..] && task.init == front[w.lo..];
      }
      assert dst[w.lo..w.start + result] == task.init + dst[w.start..w.start + result];
      FinishedIsDecode(task, dst[w.lo..w.start + result]);
    }
    forall data | Means(src, task.init, data) && |data| <= w.end - w.start && (w.start < w.end || src == [0])
      ensures result == |data| && dst[w.start..w.start + result] == data
    {
      MeansIsExpected(task, data);
      assert (task.init + data)[|task.init|..] == data;
      assert (task.init + dst[w.start..w.start + result])[|task.init|..] == dst[w.start..w.start + result];
    }
  }

  class Decompression {
    var prefixSize: nat
    var prefixEnd: nat

    /** The next block is decoded right behind the ones before it. */
    predicate Continues(dest: nat)
      reads this
    {
      prefixSize > 0 ==> prefixEnd == dest && prefixSize <= dest
    }

    /** LZ4_setStreamDecode without a dictionary. */
    constructor ()
      ensures prefixSize == 0
    {
      prefixSize, prefixEnd := 0, 0;
    }

    /** Where the decoder looks for history: without limit once 64 KB less one byte are there. */
    function WindowAt(dest: nat, capacity: nat): FastDecoder.Window
      requires prefixSize <= dest
      reads this
    {
      FastDecoder.Window(dest - prefixSize, dest, dest + capacity, prefixSize >= WINDOW - 1)
    }

    /** LZ4_decompress_safe_continue, for a block decoded behind the ones before it in `dst`, the
        `history` it may refer to. */
    method DecompressSafeContinue(src: seq<byte>, dst: array<byte>, dest: nat, capacity: int, ghost history: seq<byte>)
      returns (result: int)
      requires Continues(dest) && prefixSize <= dest && dest + Max(capacity, 0) <= dst.Length
      requires history == dst[dest - prefixSize..dest]
      modifies this, dst
      ensures dst[..dest] == old(dst[..dest]) && dst[dest + Max(capacity, 0)..] == old(dst[dest + Max(capacity, 0)..])
      ensures result >= 0 ==> result <= capacity && Decode(src, 0, history) == Some(history + dst[dest..dest + result])
      ensures forall data {:trigger Means(src, history, data)} ::
                Means(src, history, data) && |data| <= capacity && (capacity > 0 || src == [0]) ==>
                result == |data| && dst[dest..dest + result] == data
      ensures capacity == 0 ==> (result >= 0 <==> src == [0])
      ensures if result > 0 then prefixSize == old(prefixSize) + result && Continues(dest + result)
              else unchanged(this)
    {
      if capacity < 0 {
        return -1;
      }
      ghost var task := Task(src, history, prefixSize + capacity, false);
      var w := WindowAt(dest, capacity);
      result := DecompressAt(src, dst, w, task);
      if result > 0 {
        prefixSize, prefixEnd := prefixSize + result, dest + result;
      }
    }
  }

  // ----- Both together -----

  /** The two sides of a chain after `done` bytes: the decoder has rebuilt them all. */
  ghost predicate InSync(c: Compression, d: Decompression, buf: seq<byte>, out: seq<byte>, done: nat)
    reads c, c.table, d
  {
    && c.Valid() && c.Continues(done) && c.dictSize <= done
    && d.prefixSize == done && d.Continues(done)
    && done <= |buf| && done <= |out| && out[..done] == buf[..done]
  }

  lemma Joined(buf: seq<byte>, out: seq<byte>, source: nat, size: nat)
    requires source + size <= |buf| && source + size <= |out|
    requires out[..source] == buf[..source] && out[source..source + size] == buf[source..source + size]
    ensures out[..source + size] == buf[..source + size]
  {
    assert out[..source + size] == out[..source] + out[source..source + size];
    assert buf[..source + size] == buf[..source] + buf[source..source + size];
  }

  /** One block through both sides. */
  method SendBlock(c: Compression, d: Decompression, buf: seq<byte>, source: nat, size: nat,
                   packet: array<byte>, out: array<byte>, acceleration: int) returns (sent: bool)
    requires packet != out && InSync(c, d, buf, out[..], source)
    requires source + size <= |buf| && size <= INT_MAX && source + size <= out.Length
    modifies c, c.table, d, packet, out
    ensures |old(c.View()).table| == HASH_SIZE
    ensures sent <==> BlockFits(buf, source, size, old(c.View()), acceleration, packet.Length)
    ensures sent ==>
      && InSync(c, d, buf, out[..], source + size)
      && c.View() == Behind(buf, source, size, old(c.View()), acceleration, packet.Length)
    ensures size <= MAX_INPUT_SIZE && CompressBound(size) <= packet.Length ==> sent
  {
    hide Means, CompressBound, Below, Writes, NextJob, TableFor, OffsetFor, DictFor, Behind, BlockFits, WholeBlock,
        Encoded, BlockJob, Renormed, Left, Outcome;
    ghost var wider := c.dictSize;
    ghost var past := buf[..source];
    assert out[source - d.prefixSize..source] == past;
    var written := c.CompressFastContinue(buf, source, size, packet, packet.Length, acceleration);
    if written == 0 {
      return false;
    }
    ghost var data := buf[source..source + size];
    MeansBehind(packet[..written], buf[..source - wider], buf[source - wider..source], data);
    assert buf[..source - wider] + buf[source - wider..source] == past;
    assert out[source - d.prefixSize..source] == past;
    var result := d.DecompressSafeContinue(packet[..written], out, source, size, past);
    assert c.Valid() && c.Continues(source + size);
    assert d.prefixSize == source + size && d.Continues(source + size);
    Joined(buf, out[..], source, size);
    sent := true;
  }

  function Total(sizes: seq<nat>): nat {
    if sizes == [] then 0 else Total(sizes[..|sizes| - 1]) + sizes[|sizes| - 1]
  }

  lemma {:induction false} TotalGrows(sizes: seq<nat>, k: nat)
    requires k <= |sizes|
    ensures Total(sizes[..k]) <= Total(sizes)
    decreases |sizes|
  {
    if k == |sizes| {
      assert sizes[..k] == sizes;
    } else {
      assert sizes[..|sizes| - 1][..k] == sizes[..k];
      TotalGrows(sizes[..|sizes| - 1], k);
    }
  }

  /** The compressor's state after a chain of blocks, each of which fitted. */
  function SideAfter(buf: seq<byte>, sizes: seq<nat>, acceleration: int, capacity: int): (s: Side)
    requires Total(sizes) <= |buf|
    ensures |s.table| == HASH_SIZE
  {
    if sizes == [] then Side(0, 0, Zeros(HASH_SIZE))
    else
      var front, last := sizes[..|sizes| - 1], sizes[|sizes| - 1];
      Behind(buf, Total(front), last, SideAfter(buf, front, acceleration, capacity), acceleration, capacity)
  }

  /** Block `k` of a chain fits the packet. */
  ghost predicate LinkFits(buf: seq<byte>, sizes: seq<nat>, k: nat, acceleration: int, capacity: int)
    requires k < |sizes| && Total(sizes) <= |buf|
  {
    TotalGrows(sizes, k);
    TotalGrows(sizes, k + 1);
    assert sizes[..k + 1][..k] == sizes[..k];
    BlockFits(buf, Total(sizes[..k]), sizes[k], SideAfter(buf, sizes[..k], acceleration, capacity), acceleration,
              capacity)
  }

  /** Any chain of blocks, however long, comes out as it went in, as long as every block is written;
      and every block is written exactly when it fits the packet, linked as it is to the ones before. */
  method SendChain(buf: seq<byte>, sizes: seq<nat>, packet: array<byte>, out: array<byte>, acceleration: int)
    returns (sent: bool)
    requires packet != out && Total(sizes) <= |buf| && Total(sizes) <= out.Length
    requires forall size :: size in sizes ==> size <= INT_MAX
    modifies packet, out
    ensures sent ==> out[..Total(sizes)] == buf[..Total(sizes)]
    ensures sent <==> forall k :: 0 <= k < |sizes| ==> LinkFits(buf, sizes, k, acceleration, packet.Length)
    ensures (forall size :: size in sizes ==> size <= MAX_INPUT_SIZE && CompressBound(size) <= packet.Length) ==> sent
  {
    hide SideAfter, LinkFits, BlockFits, Behind, CompressBound;
    var c := new Compression();
    var d := new Decompression();
    var done, k := 0, 0;
    FirstSide(buf, sizes, acceleration, packet.Length);
    while k < |sizes|
      invariant k <= |sizes| && done == Total(sizes[..k]) <= |buf| && fresh(c) && fresh(d) && fresh(c.table)
      invariant InSync(c, d, buf, out[..], done)
      invariant c.View() == SideAfter(buf, sizes[..k], acceleration, packet.Length)
      invariant forall i :: 0 <= i < k ==> LinkFits(buf, sizes, i, acceleration, packet.Length)
    {
      assert sizes[k] in sizes;
      SideOneMore(buf, sizes, k, acceleration, packet.Length);
      sent := SendBlock(c, d, buf, done, sizes[k], packet, out, acceleration);
      if !sent {
        return;
      }
      done, k := done + sizes[k], k + 1;
    }
    assert sizes[..k] == sizes;
    sent := true;
  }

  lemma FirstSide(buf: seq<byte>, sizes: seq<nat>, acceleration: int, capacity: int)
    ensures Total(sizes[..0]) == 0
    ensures SideAfter(buf, sizes[..0], acceleration, capacity) == Side(0, 0, Zeros(HASH_SIZE))
  {
  }

  /** One block more of a chain. */
  lemma SideOneMore(buf: seq<byte>, sizes: seq<nat>, k: nat, acceleration: int, capacity: int)
    requires k < |sizes| && Total(sizes) <= |buf| && Total(sizes[..k]) <= |buf|
    ensures Total(sizes[..k + 1]) == Total(sizes[..k]) + sizes[k] <= Total(sizes)
    ensures var s := SideAfter(buf, sizes[..k], acceleration, capacity);
            && SideAfter(buf, sizes[..k + 1], acceleration, capacity)
               == Behind(buf, Total(sizes[..k]), sizes[k], s, acceleration, capacity)
            && (LinkFits(buf, sizes, k, acceleration, capacity)
                <==> BlockFits(buf, Total(sizes[..k]), sizes[k], s, acceleration, capacity))
  {
    hide BlockFits, Behind;
    TotalGrows(sizes, k + 1);
    assert sizes[..k + 1][..k] == sizes[..k];
  }
}
