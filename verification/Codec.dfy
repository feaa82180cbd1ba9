/**
 The one-shot interface: LZ4_compress_fast, LZ4_compress_default, LZ4_compress_destSize and the
 LZ4_decompress functions, with the promises of lz4.h: what is compressed comes back.
 */
module Codec {
  import opened Bytes
  import opened BlockFormat
  import opened GreedyPlan
  import opened PlanProperties
  import opened PlanTheorems
  import opened PlanLimits
  import opened Filling
  import opened Compressor
  import opened DecoderSpec
  import FastDecoder
  import PlainDecoder

  const ACCELERATION_DEFAULT := 1
  const ACCELERATION_MAX := 65537

  // ----- What a compression comes to -----

  /** The block LZ4_compress_generic writes, if any: too large an input is refused, an empty one is a
      single token. */
  function Outcome(job: Job, table: Table): Option<Block>
    requires job.End() <= |job.buf| && 1 <= job.acceleration && |table| == job.TableSize()
  {
    if job.size > MAX_INPUT_SIZE then None
    else if job.size == 0 then
      if !job.policy.NotLimited? && job.olimit <= 0 then None else Some(Last([], 0))
    else Compressed(job, table)
  }

  /** `bytes` is a block that obeys the parsing restrictions and means `data` behind `history`. */
  ghost predicate Means(bytes: seq<byte>, history: seq<byte>, data: seq<byte>) {
    && Parse(bytes, 0).Some?
    && var b := Parse(bytes, 0).value;
       && EndsWell(b) && OffsetsPositive(b)
       && Run(history, b) == Some(history + data)
  }

  /** A table a compression may start with. */
  ghost predicate Usable(job: Job, table: Table) {
    job.Valid() && Good(job, table) && Below(table, job.startIndex + 1)
  }

  /** A search that starts a compression starts with the first position entered. */
  lemma FirstEntered(job: Job, table: Table)
    requires Usable(job, table) && MIN_LENGTH <= job.size
    ensures |table| == job.TableSize() && job.start + 8 <= |job.buf| && Hashable(job, job.start + 1)
    ensures 1 <= job.acceleration
    ensures var entered := table[job.Hash(job.start) := job.startIndex];
            && Good(job, entered) && Below(entered, job.startIndex + 1)
            && ((job.policy.FillOutput? ==> 1 <= job.olimit) ==>
                  FirstCursor(job, table) == FromSearch(job, entered, job.start, job.start + 1, 0))
  {
    assert Hashable(job, job.start) && |table| == job.TableSize() && job.Index(job.start) == job.startIndex;
    hide Good, Below, FromSearch, Job.Hash;
    EnterKeepsGood(job, table, job.start);
    EnterKeepsBelow(job, table, job.start, job.startIndex + 1);
  }

  lemma FirstIsSound(job: Job, table: Table)
    requires Usable(job, table) && (job.policy.FillOutput? ==> 1 <= job.olimit)
    ensures |table| == job.TableSize()
    ensures var c := FirstCursor(job, table); Sound(job, c) && (!c.Failed? ==> c.anchor == job.start && c.token == 0)
  {
    assert job.Valid() && |table| == job.TableSize() && job.Index(job.start + 1) == job.startIndex + 1;
    if job.size < MIN_LENGTH {
      LastIsSound(job, job.start, 0);
    } else {
      FirstEntered(job, table);
      hide Good, Below, Sound, FromSearch, Job.Hash, Job.Valid, Hashable, FirstCursor, Usable;
      FromSearchIsSound(job, table[job.Hash(job.start) := job.startIndex], job.start, job.start + 1, 0);
    }
  }

  /** Nothing is encoded as the single byte 0. */
  lemma EmptyIsZero(b: Block)
    requires WellFormed(b) && OutLen(b) == 0 && (b.Last? ==> b.spare == 0)
    ensures Encode(b) == [0]
  {
    assert b == Last([], 0);
  }

  lemma {:induction false} PlanSpare(job: Job, c: Cursor)
    requires InBounds(job, c) && Plan(job, c).Some?
    ensures Plan(job, c).value.Last? ==> Plan(job, c).value.spare == 0
  {
    if !Takes(job, c) {
      PlanStops(job, c);
      LastRunShape(job, c.anchor, c.token);
    } else {
      PlanTakes(job, c);
    }
  }

  /** How much of the input a block stands for. */
  function Consumed(job: Job, b: Block): seq<byte>
    requires job.start + OutLen(b) <= |job.buf|
  {
    job.buf[job.start..job.start + OutLen(b)]
  }

  function History(job: Job): seq<byte>
    requires job.dictSize <= job.start <= |job.buf|
  {
    job.buf[job.start - job.dictSize..job.start]
  }

  /** What a written block promises: it means the input as far as it was read, all of it unless the
      output was to be filled; and it is as small as was asked. */
  ghost predicate Promised(job: Job, b: Block) {
    && WellFormed(b) && job.dictSize <= job.start && job.start + OutLen(b) <= job.End() <= |job.buf|
    && Means(Encode(b), History(job), Consumed(job, b))
    && (OutLen(b) == 0 ==> Encode(b) == [0])
    && (!job.policy.FillOutput? ==> OutLen(b) == job.size)
    && (!job.policy.NotLimited? ==> |Encode(b)| <= job.olimit)
    && (!job.policy.FillOutput? ==> |Encode(b)| <= job.size + job.size / 255 + 2)
    && (OutLen(b) < job.size ==> job.olimit - 1 <= |Encode(b)|)
  }

  lemma MeansEncoded(b: Block, history: seq<byte>, data: seq<byte>)
    requires WellFormed(b) && EndsWell(b) && OffsetsPositive(b) && Run(history, b) == Some(history + data)
    ensures Means(Encode(b), history, data)
  {
    assert Encode(b)[0..|Encode(b)|] == Encode(b);
    ParseIffEncode(Encode(b), 0, b);
  }

  /** The main theorem about compression, for every job, table, policy and limit. */
  lemma OutcomeIsPromised(job: Job, table: Table)
    requires Usable(job, table)
    ensures |table| == job.TableSize()
    ensures Outcome(job, table).Some? ==> Promised(job, Outcome(job, table).value)
  {
    if Outcome(job, table).Some? {
      var b := Outcome(job, table).value;
      if job.size == 0 {
        EmptyIsPromised(job);
      } else {
        FirstIsSound(job, table);
        var c := FirstCursor(job, table);
        PlanIsPromised(job, c);
      }
    }
  }

  lemma EmptyIsPromised(job: Job)
    requires job.Valid() && job.size == 0 && (!job.policy.NotLimited? ==> 1 <= job.olimit)
    ensures Promised(job, Last([], 0))
  {
    var b := Last([], 0);
    assert Consumed(job, b) == [] && History(job) + [] == History(job);
    MeansEncoded(b, History(job), Consumed(job, b));
    EmptyIsZero(b);
  }

  lemma ExpandsIsPromised(job: Job, b: Block)
    requires Expands(job, job.start, b) && EndsWell(b) && (b.Last? ==> b.spare == 0)
    requires !job.policy.NotLimited? ==> |Encode(b)| <= job.olimit
    requires !job.policy.FillOutput? ==> |Encode(b)| <= job.size + job.size / 255 + 2
    requires OutLen(b) < job.size ==> job.olimit - 1 <= |Encode(b)|
    ensures Promised(job, b)
  {
    hide Run, Encode, EndsWell, OffsetsPositive, Parse, WellFormed;
    if OutLen(b) == 0 {
      EmptyIsZero(b);
    }
    Slices(job.buf, job.Low(), job.start, job.start + OutLen(b));
    MeansEncoded(b, History(job), Consumed(job, b));
  }

  lemma PlanIsPromised(job: Job, c: Cursor)
    requires Sound(job, c) && Plan(job, c).Some? && !c.Failed? && c.anchor == job.start && c.token == 0
    ensures Promised(job, Plan(job, c).value)
  {
    var b := Plan(job, c).value;
    assert InBounds(job, c) && job.End() == job.start + job.size;
    hide Plan, Sound, Encode, InBounds, Promised, Expands, EndsWell, Run, OffsetsPositive, Parse;
    PlanExpands(job, c);
    PlanEndsWell(job, c);
    PlanFits(job, c);
    PlanSpare(job, c);
    if !job.policy.FillOutput? {
      PlanIsBounded(job, c);
    }
    ExpandsIsPromised(job, b);
  }

  /** When there must be a block: no limit, room for the worst case, or output to be filled. */
  lemma OutcomeSucceeds(job: Job, table: Table)
    requires Usable(job, table) && job.size <= MAX_INPUT_SIZE
    requires job.policy.LimitedOutput? ==> CompressBound(job.size) <= job.olimit
    requires job.policy.FillOutput? ==> 1 <= job.olimit
    ensures |table| == job.TableSize() && Outcome(job, table).Some?
  {
    FirstIsSound(job, table);
    if job.size >= MIN_LENGTH {
      assert Hashable(job, job.start) && Hashable(job, job.start + 1);
      hide Search;
      SearchIsEasy(job, table[job.Hash(job.start) := job.startIndex], job.start, job.start + 1, 0);
      PlanSucceeds(job, FirstCursor(job, table));
    } else if job.size > 0 {
      PlanSucceeds(job, FirstCursor(job, table));
    }
  }

  /** Both start with the same search. */
  lemma BothSearch(job: Job, table: Table)
    requires Usable(job, table) && |table| == job.TableSize() && job.size >= MIN_LENGTH
    requires job.policy.FillOutput? ==> 1 <= job.olimit
    ensures job.Valid() && Unlimited(job).Valid() && Hashable(job, job.start + 1) && job.start + 8 <= |job.buf|
    ensures Unlimited(job).TableSize() == job.TableSize() && Unlimited(job).acceleration == job.acceleration
    ensures var entered := table[job.Hash(job.start) := job.startIndex];
            && Hashable(Unlimited(job), job.start + 1)
            && FirstCursor(job, table) == FromSearch(job, entered, job.start, job.start + 1, 0)
            && FirstCursor(Unlimited(job), table) == FromSearch(Unlimited(job), entered, job.start, job.start + 1, 0)
  {
    hide FromSearch, Job.Hash, Good, Below;
    SameHash(job, job.start);
  }

  lemma SameFirst(job: Job, table: Table)
    requires Usable(job, table) && job.policy.LimitedOutput? && |table| == job.TableSize()
    requires job.size >= MIN_LENGTH && !FirstCursor(job, table).Failed?
    ensures Unlimited(job).Valid() && FirstCursor(Unlimited(job), table) == FirstCursor(job, table)
  {
    hide *;
    BothSearch(job, table);
    SameFromSearch(job, table[job.Hash(job.start) := job.startIndex], job.start, job.start + 1, 0);
  }

  /** A limit decides only whether there is a block, never which. */
  lemma OutcomeIgnoresLimit(job: Job, table: Table)
    requires Usable(job, table) && job.policy.LimitedOutput? && |table| == job.TableSize()
    requires Outcome(job, table).Some?
    ensures Unlimited(job).Valid() && Outcome(Unlimited(job), table) == Outcome(job, table)
  {
    FirstIsSound(job, table);
    if job.size > 0 {
      LimitedAgrees(job, FirstCursor(job, table));
      if job.size >= MIN_LENGTH {
        SameFirst(job, table);
      }
    }
  }

  lemma FitsFirst(job: Job, table: Table)
    requires Usable(job, table) && |table| == job.TableSize() && job.size >= MIN_LENGTH
    requires job.policy.LimitedOutput?
    requires Unlimited(job).Valid() && Fits(job, FirstCursor(Unlimited(job), table))
    ensures FirstCursor(job, table) == FirstCursor(Unlimited(job), table)
  {
    hide FromSearch, FirstCursor, Job.Hash, Fits, Passes, Usable, Hashable, Plan, Sound;
    BothSearch(job, table);
    var c := FirstCursor(Unlimited(job), table);
    if c.AtMatch? {
      FitsTakes(job, c);
    }
    PassedSearch(job, table[job.Hash(job.start) := job.startIndex], job.start, job.start + 1, 0);
  }

  lemma UnlimitedIsUsable(job: Job, table: Table)
    requires Usable(job, table)
    ensures Usable(Unlimited(job), table) && job.End() <= |job.buf| && 1 <= job.acceleration
  {
  }

  lemma UnlimitedFits(job: Job, table: Table, b: Block)
    requires Usable(job, table) && job.policy.LimitedOutput? && 1 <= job.size <= MAX_INPUT_SIZE
    requires Usable(Unlimited(job), table) && |table| == job.TableSize()
    requires Outcome(Unlimited(job), table) == Some(b) && WellFormed(b)
    requires |Encode(b)| <= job.olimit
    ensures Unlimited(job).Valid() && Fits(job, FirstCursor(Unlimited(job), table))
  {
    FirstIsSound(Unlimited(job), table);
    hide Sound, Plan, FirstCursor, Encode;
  }

  /** With a limit there is a block exactly when the block written without one fits, and it is that. */
  lemma OutcomeFits(job: Job, table: Table)
    requires Usable(job, table) && job.policy.LimitedOutput? && job.size <= MAX_INPUT_SIZE && |table| == job.TableSize()
    ensures Usable(Unlimited(job), table) && Outcome(Unlimited(job), table).Some?
    ensures var b := Outcome(Unlimited(job), table).value;
            && WellFormed(b)
            && Outcome(job, table) == if |Encode(b)| <= job.olimit then Some(b) else None
  {
    hide Usable, FirstCursor, Plan, Encode, Fits, Promised;
    UnlimitedIsUsable(job, table);
    OutcomeSucceeds(Unlimited(job), table);
    OutcomeIsPromised(Unlimited(job), table);
    var b := Outcome(Unlimited(job), table).value;
    PromisedIsWellFormed(Unlimited(job), b);
    if |Encode(b)| <= job.olimit {
      FittingOutcome(job, table, b);
    }
    if Outcome(job, table).Some? {
      OutcomeIgnoresLimit(job, table);
      OutcomeIsPromised(job, table);
      PromisedIsWellFormed(job, b);
    }
  }

  lemma PromisedIsWellFormed(job: Job, b: Block)
    requires Promised(job, b)
    ensures WellFormed(b) && |Encode(b)| >= 1 && (!job.policy.NotLimited? ==> |Encode(b)| <= job.olimit)
  {
    hide Means, OffsetsPositive, EndsWell;
  }

  lemma FittingOutcome(job: Job, table: Table, b: Block)
    requires Usable(job, table) && job.policy.LimitedOutput? && job.size <= MAX_INPUT_SIZE && |table| == job.TableSize()
    requires Usable(Unlimited(job), table) && Outcome(Unlimited(job), table) == Some(b) && WellFormed(b)
    requires 1 <= |Encode(b)| <= job.olimit
    ensures Outcome(job, table) == Some(b)
  {
    hide Plan, Encode, Fits, FirstCursor, Good, Below;
    if 1 <= job.size {
      UnlimitedFits(job, table, b);
      FitsAgrees(job, FirstCursor(Unlimited(job), table));
      FirstAgrees(job, table);
    }
  }

  lemma FirstAgrees(job: Job, table: Table)
    requires Usable(job, table) && |table| == job.TableSize() && 1 <= job.size
    requires job.policy.LimitedOutput?
    requires Unlimited(job).Valid() && Fits(job, FirstCursor(Unlimited(job), table))
    ensures FirstCursor(job, table) == FirstCursor(Unlimited(job), table)
  {
    if job.size >= MIN_LENGTH {
      FitsFirst(job, table);
    }
  }

  /** When filling, both searches come to the same, or the match is given back at once. */
  lemma FirstDiffers(job: Job, table: Table)
    requires Usable(job, table) && |table| == job.TableSize() && job.policy.FillOutput? && 1 <= job.olimit
    ensures job.Valid() && Unlimited(job).Valid() && 1 <= job.acceleration
    ensures Differ(job, FirstCursor(job, table), FirstCursor(Unlimited(job), table))
  {
    if job.size >= MIN_LENGTH {
      FirstSearchDiffers(job, table);
    }
  }

  lemma FirstSearchDiffers(job: Job, table: Table)
    requires Usable(job, table) && |table| == job.TableSize() && job.policy.FillOutput? && 1 <= job.olimit
    requires job.size >= MIN_LENGTH && job.Valid() && Unlimited(job).Valid()
    ensures Differ(job, FirstCursor(job, table), FirstCursor(Unlimited(job), table))
  {
    hide FromSearch, FirstCursor, Job.Hash, Usable, Hashable, Differ;
    BothSearch(job, table);
    SearchDiffers(job, table[job.Hash(job.start) := job.startIndex], job.start, job.start + 1, 0);
  }

  /** The block that fills the output is made from the block written without a limit. */
  lemma OutcomeFills(job: Job, table: Table)
    requires Usable(job, table) && job.policy.FillOutput? && 1 <= job.olimit && job.size <= MAX_INPUT_SIZE
    requires |table| == job.TableSize()
    ensures Usable(Unlimited(job), table) && job.End() <= |job.buf| && 1 <= job.acceleration
    ensures Outcome(Unlimited(job), table).Some?
    ensures var b := Outcome(Unlimited(job), table).value;
            && WellFormed(b) && EndsWell(b) && OutLen(b) == job.size
            && Outcome(job, table) == Some(Fill(b, job.buf[job.start..job.End()], 0, job.olimit))
  {
    hide Usable, FirstCursor, Plan, Encode, Fill, Sound, Differ, Job.Valid;
    UnlimitedIsUsable(job, table);
    OutcomeSucceeds(Unlimited(job), table);
    FirstDiffers(job, table);
    if job.size == 0 {
      FillsNothing(job.buf[job.start..job.End()], job.olimit);
    } else {
      FirstIsSound(Unlimited(job), table);
      FirstIsSound(job, table);
      PlannedCursor(Unlimited(job), FirstCursor(Unlimited(job), table));
      PlanIsFill(job, FirstCursor(Unlimited(job), table));
      SoundInBounds(job, FirstCursor(job, table));
      DifferPlans(job, FirstCursor(job, table), FirstCursor(Unlimited(job), table));
    }
  }

  lemma FillsNothing(data: seq<byte>, limit: int)
    requires data == [] && 1 <= limit
    ensures Fill(Last([], 0), data, 0, limit) == Last([], 0)
  {
  }

  lemma PlannedCursor(job: Job, c: Cursor)
    requires InBounds(job, c) && Plan(job, c).Some?
    ensures !c.Failed?
  {
  }

  lemma SoundInBounds(job: Job, c: Cursor)
    requires Sound(job, c)
    ensures InBounds(job, c)
  {
  }

  // ----- Compression -----

  /** LZ4_compress_generic. */
  method CompressGeneric(job: Job, table: array<nat>, dst: array<byte>, ghost end: nat)
    returns (result: nat, consumed: nat)
    requires Usable(job, table[..]) && Room(job) <= end <= dst.Length
    modifies table, dst
    ensures |old(table[..])| == job.TableSize()
    ensures match Outcome(job, old(table[..]))
            case None => result == 0
            case Some(b) => && WellFormed(b) && 0 < result == |Encode(b)| <= end
                            && dst[..result] == Encode(b) && consumed == OutLen(b)
    ensures dst[end..] == old(dst[end..])
    ensures if 1 <= job.size <= MAX_INPUT_SIZE then
              && Kept(job, table[..]) && job.End() <= |job.buf| && 1 <= job.acceleration
              && table[..] == Left(job, old(table[..]))
            else table[..] == old(table[..])
  {
    assert table.Length == job.TableSize();
    if job.size > MAX_INPUT_SIZE {
      return 0, 0;
    }
    if job.size == 0 {
      if !job.policy.NotLimited? && job.olimit <= 0 {
        return 0, 0;
      }
      EmptyIsZero(Last([], 0));
      dst[0] := 0;
      return 1, 0;
    }
    hide Good, Below, Compressed, Left, Room, Kept;
    result, consumed := CompressGenericValidated(job, table, dst, end);
  }

  function ClampAcceleration(acceleration: int): (r: nat)
    ensures 1 <= r <= ACCELERATION_MAX
    ensures 1 <= acceleration <= ACCELERATION_MAX ==> r == acceleration
    ensures acceleration < 1 ==> r == 1
    ensures acceleration > ACCELERATION_MAX ==> r == ACCELERATION_MAX
  {
    if acceleration < 1 then ACCELERATION_DEFAULT
    else if acceleration > ACCELERATION_MAX then ACCELERATION_MAX else acceleration
  }

  /** A whole buffer, compressed without history. */
  function FreshJob(src: seq<byte>, acceleration: int, policy: Policy, olimit: int): Job {
    Job(src, 0, |src|, 0, 0, if |src| < LIMIT_64K then ByU16 else ByU32, false, ClampAcceleration(acceleration),
        policy, olimit)
  }

  /** The table LZ4_initStream leaves. */
  function Zeros(n: nat): Table {
    seq(n, _ => 0)
  }

  lemma FreshIsUsable(src: seq<byte>, acceleration: int, policy: Policy, olimit: int)
    requires |src| <= MAX_INPUT_SIZE
    ensures var job := FreshJob(src, acceleration, policy, olimit); Usable(job, Zeros(job.TableSize()))
  {
  }

  /** The block of an input: what is written when nothing limits the output. */
  ghost function BlockOf(src: seq<byte>, acceleration: int): (b: Block)
    requires |src| <= MAX_INPUT_SIZE
    ensures Promised(FreshJob(src, acceleration, NotLimited, 0), b)
  {
    var job := FreshJob(src, acceleration, NotLimited, 0);
    FreshIsUsable(src, acceleration, NotLimited, 0);
    OutcomeSucceeds(job, Zeros(job.TableSize()));
    OutcomeIsPromised(job, Zeros(job.TableSize()));
    Outcome(job, Zeros(job.TableSize())).value
  }

  /** A promise about a whole buffer. */
  lemma FreshPromise(src: seq<byte>, acceleration: int, policy: Policy, olimit: int, b: Block)
    requires Promised(FreshJob(src, acceleration, policy, olimit), b)
    ensures WellFormed(b) && OutLen(b) <= |src| && Means(Encode(b), [], src[..OutLen(b)])
    ensures !policy.FillOutput? ==> Means(Encode(b), [], src) && |Encode(b)| <= |src| + |src| / 255 + 2
    ensures !policy.NotLimited? ==> |Encode(b)| <= olimit
    ensures OutLen(b) < |src| ==> olimit - 1 <= |Encode(b)|
    ensures OutLen(b) == 0 ==> Encode(b) == [0]
    ensures !policy.FillOutput? ==> OutLen(b) == |src|
  {
    hide Means;
    var job := FreshJob(src, acceleration, policy, olimit);
    assert History(job) == [] && Consumed(job, b) == src[..OutLen(b)];
    if !policy.FillOutput? {
      assert src[..|src|] == src;
    }
  }

  /** With a limit, there is a block exactly when the block of the input fits. */
  lemma FreshLimit(src: seq<byte>, acceleration: int, olimit: int)
    requires |src| <= MAX_INPUT_SIZE
    ensures var job := FreshJob(src, acceleration, LimitedOutput, olimit);
            && Usable(job, Zeros(job.TableSize())) && WellFormed(BlockOf(src, acceleration))
            && Outcome(job, Zeros(job.TableSize()))
               == if |Encode(BlockOf(src, acceleration))| <= olimit then Some(BlockOf(src, acceleration)) else None
  {
    var job := FreshJob(src, acceleration, LimitedOutput, olimit);
    FreshIsUsable(src, acceleration, LimitedOutput, olimit);
    hide Usable, Encode;
    OutcomeFits(job, Zeros(job.TableSize()));
  }

  /** The job LZ4_compress_fast_extState sets up: no limit when there is room for the worst case. */
  function FastJob(src: seq<byte>, acceleration: int, capacity: int): Job {
    if capacity >= CompressBound(|src|) then FreshJob(src, acceleration, NotLimited, 0)
    else FreshJob(src, acceleration, LimitedOutput, capacity)
  }

  lemma FastIsUsable(src: seq<byte>, acceleration: int, capacity: int)
    requires |src| <= MAX_INPUT_SIZE
    ensures var job := FastJob(src, acceleration, capacity);
            Usable(job, Zeros(job.TableSize())) && Room(job) <= Max(capacity, 0)
  {
    FreshIsUsable(src, acceleration, NotLimited, 0);
    FreshIsUsable(src, acceleration, LimitedOutput, capacity);
  }

  /** What LZ4_compress_fast comes to: the block of its input, exactly when it fits. */
  lemma FastOutcome(src: seq<byte>, acceleration: int, capacity: int, job: Job)
    requires |src| <= MAX_INPUT_SIZE && job == FastJob(src, acceleration, capacity)
    ensures Usable(job, Zeros(job.TableSize()))
    ensures var b := BlockOf(src, acceleration);
            && WellFormed(b) && Means(Encode(b), [], src) && (src == [] ==> Encode(b) == [0])
            && Outcome(job, Zeros(job.TableSize())) == (if |Encode(b)| <= capacity then Some(b) else None)
            && (capacity >= CompressBound(|src|) ==> |Encode(b)| <= capacity)
  {
    hide Usable, Means, Promised, Encode;
    FastIsUsable(src, acceleration, capacity);
    FreshPromise(src, acceleration, NotLimited, 0, BlockOf(src, acceleration));
    if capacity >= CompressBound(|src|) {
      OutcomeSucceeds(job, Zeros(job.TableSize()));
    } else {
      FreshLimit(src, acceleration, capacity);
    }
  }

  /** LZ4_compress_fast: the block of the input is written exactly when it fits. */
  method CompressFast(src: seq<byte>, dst: array<byte>, capacity: int, acceleration: int) returns (result: nat)
    requires capacity <= dst.Length
    modifies dst
    ensures result <= Max(capacity, 0) && dst[Max(capacity, 0)..] == old(dst[Max(capacity, 0)..])
    ensures result > 0 <==> |src| <= MAX_INPUT_SIZE && |Encode(BlockOf(src, acceleration))| <= capacity
    ensures result > 0 ==> dst[..result] == Encode(BlockOf(src, acceleration)) && Means(dst[..result], [], src)
    ensures result > 0 && src == [] ==> dst[..result] == [0]
    ensures |src| <= MAX_INPUT_SIZE && CompressBound(|src|) <= capacity ==> result > 0
  {
    hide *;
    MaxIs(capacity);
    if |src| > MAX_INPUT_SIZE {
      return 0;
    }
    var job := FastJob(src, acceleration, capacity);
    FastOutcome(src, acceleration, capacity, job);
    FastIsUsable(src, acceleration, capacity);
    var table := new nat[job.TableSize()](_ => 0);
    AreZeros(table[..]);
    var consumed;
    result, consumed := CompressGeneric(job, table, dst, if capacity >= 0 then capacity else 0);
  }

  /** LZ4_compress_default. */
  method CompressDefault(src: seq<byte>, dst: array<byte>, capacity: int) returns (result: nat)
    requires capacity <= dst.Length
    modifies dst
    ensures result <= Max(capacity, 0) && dst[Max(capacity, 0)..] == old(dst[Max(capacity, 0)..])
    ensures result > 0 <==> |src| <= MAX_INPUT_SIZE && |Encode(BlockOf(src, 1))| <= capacity
    ensures result > 0 ==> dst[..result] == Encode(BlockOf(src, 1)) && Means(dst[..result], [], src)
    ensures result > 0 && src == [] ==> dst[..result] == [0]
    ensures |src| <= MAX_INPUT_SIZE && CompressBound(|src|) <= capacity ==> result > 0
  {
    hide *;
    result := CompressFast(src, dst, capacity, 1);
  }

  lemma FillJob(src: seq<byte>, target: int, job: Job)
    requires |src| <= MAX_INPUT_SIZE && job == FreshJob(src, 1, FillOutput, target)
    ensures Usable(job, Zeros(job.TableSize())) && Room(job) <= Max(target, 0)
    ensures job.size == |src| && job.policy.FillOutput? && job.olimit == target
    ensures job.End() <= |job.buf| && 1 <= job.acceleration && |Zeros(job.TableSize())| == job.TableSize()
    ensures job.buf[job.start..job.End()] == src
    ensures Unlimited(job) == FreshJob(src, 1, NotLimited, 0) && Unlimited(job).TableSize() == job.TableSize()
    ensures Outcome(Unlimited(job), Zeros(job.TableSize())) == Some(BlockOf(src, 1))
    ensures target < 1 ==> Outcome(job, Zeros(job.TableSize())) == None
  {
    hide Promised, Good, Below, Plan, FirstCursor;
    FreshIsUsable(src, 1, FillOutput, target);
    FreshIsUsable(src, 1, NotLimited, 0);
    assert Unlimited(job) == FreshJob(src, 1, NotLimited, 0);
    OutcomeSucceeds(Unlimited(job), Zeros(job.TableSize()));
  }

  /** What LZ4_compress_destSize comes to. */
  lemma FillOutcome(src: seq<byte>, target: int, job: Job)
    requires |src| <= MAX_INPUT_SIZE && job == FreshJob(src, 1, FillOutput, target)
    ensures Usable(job, Zeros(job.TableSize())) && Room(job) <= Max(target, 0)
    ensures WellFormed(BlockOf(src, 1)) && OutLen(BlockOf(src, 1)) == |src|
    ensures job.End() <= |job.buf| && 1 <= job.acceleration && |Zeros(job.TableSize())| == job.TableSize()
    ensures Outcome(job, Zeros(job.TableSize()))
            == if target >= 1 then Some(Fill(BlockOf(src, 1), src, 0, target)) else None
  {
    hide *;
    FillJob(src, target, job);
    WholeEndsWell(src, 1);
    if target >= 1 {
      OutcomeFills(job, Zeros(job.TableSize()));
    }
  }

  lemma WholeEndsWell(src: seq<byte>, acceleration: int)
    requires |src| <= MAX_INPUT_SIZE
    ensures var b := BlockOf(src, acceleration);
            && WellFormed(b) && OutLen(b) == |src| && EndsWell(b) && OffsetsPositive(b)
            && |Encode(b)| <= |src| + |src| / 255 + 2 && Means(Encode(b), [], src)
            && (src == [] ==> Encode(b) == [0])
  {
    hide Encode, EndsWell, OffsetsPositive, Parse, Run, Promised;
    var b := BlockOf(src, acceleration);
    FreshPromise(src, acceleration, NotLimited, 0, b);
    assert Encode(b)[0..|Encode(b)|] == Encode(b);
    ParseIffEncode(Encode(b), 0, b);
  }

  /** The block that fills `target` bytes. */
  ghost function Filled(src: seq<byte>, target: int): (b: Block)
    requires |src| <= MAX_INPUT_SIZE && 1 <= target
    ensures WellFormed(b)
  {
    WholeEndsWell(src, 1);
    FillReaches(BlockOf(src, 1), src, 0, target);
    Fill(BlockOf(src, 1), src, 0, target)
  }

  /** All of the input is taken exactly when its block fits with the bytes to spare that its end asks for.
      Otherwise the output is full, but for one byte where filling stops at 16. */
  lemma FilledIs(src: seq<byte>, target: int)
    requires |src| <= MAX_INPUT_SIZE && 1 <= target
    ensures var whole, b := BlockOf(src, 1), Filled(src, target);
            && WellFormed(whole) && WellFormed(b)
            && (if |Encode(whole)| + Spare(whole) <= target then b == whole && OutLen(b) == |src|
                else OutLen(b) < |src| && |Encode(b)| == target - (if StopsAt16(whole, 0, target) then 1 else 0))
            && Spare(whole) <= 3
            && (target >= CompressBound(|src|) ==> |Encode(whole)| + Spare(whole) <= target)
  {
    hide Encode, EndsWell, OffsetsPositive, Means, Fill, StopsAt16, Spare;
    WholeEndsWell(src, 1);
    FillReaches(BlockOf(src, 1), src, 0, target);
    SpareIsSmall(BlockOf(src, 1));
  }

  /** What is filled means the beginning of the input. */
  lemma FilledMeans(src: seq<byte>, target: int)
    requires |src| <= MAX_INPUT_SIZE && 1 <= target
    ensures var b := Filled(src, target);
            && OutLen(b) <= |src| && 1 <= |Encode(b)| <= target && Means(Encode(b), [], src[..OutLen(b)])
            && (OutLen(b) == 0 ==> Encode(b) == [0])
  {
    hide Encode, EndsWell, OffsetsPositive, Means, Fill, Promised, Usable, Zeros, Outcome;
    var job := FreshJob(src, 1, FillOutput, target);
    FillOutcome(src, target, job);
    OutcomeIsPromised(job, Zeros(job.TableSize()));
    PromisedIsWellFormed(job, Filled(src, target));
    FreshPromise(src, 1, FillOutput, target, Filled(src, target));
  }

  /** LZ4_compress_destSize: as much of the input as fits, and how much that is. */
  method CompressDestSize(src: seq<byte>, dst: array<byte>, target: int) returns (result: nat, consumed: nat)
    requires target <= dst.Length
    modifies dst
    ensures result <= Max(target, 0) && dst[Max(target, 0)..] == old(dst[Max(target, 0)..])
    ensures result > 0 <==> target >= 1 && |src| <= MAX_INPUT_SIZE
    ensures consumed <= |src| && (result == 0 ==> consumed == |src|)
    ensures result > 0 ==> Means(dst[..result], [], src[..consumed]) && (consumed == 0 ==> dst[..result] == [0])
    ensures result > 0 ==>
      && |src| <= MAX_INPUT_SIZE && 1 <= target
      && var whole := BlockOf(src, 1);
         && dst[..result] == Encode(Filled(src, target))
         && (consumed == |src| <==> |Encode(whole)| + Spare(whole) <= target)
         && (consumed < |src| ==> result == target - (if StopsAt16(whole, 0, target) then 1 else 0))
  {
    hide *;
    MaxIs(target);
    if target >= CompressBound(|src|) {
      CompressBoundPositive(src, target);
      assert src[..|src|] == src;
      result := CompressFast(src, dst, target, 1);
      if |src| <= MAX_INPUT_SIZE {
        FilledIs(src, target);
      }
      return result, |src|;
    }
    if |src| > MAX_INPUT_SIZE {
      return 0, |src|;
    }
    var job := FreshJob(src, 1, FillOutput, target);
    FillOutcome(src, target, job);
    if target >= 1 {
      FilledOutcome(src, target, job);
      FilledIs(src, target);
      FilledMeans(src, target);
    }
    var table := new nat[job.TableSize()](_ => 0);
    AreZeros(table[..]);
    result, consumed := CompressGeneric(job, table, dst, if target >= 0 then target else 0);
    if result == 0 {
      consumed := |src|;
    }
  }

  lemma FilledOutcome(src: seq<byte>, target: int, job: Job)
    requires |src| <= MAX_INPUT_SIZE && job == FreshJob(src, 1, FillOutput, target) && 1 <= target
    ensures Usable(job, Zeros(job.TableSize())) && Outcome(job, Zeros(job.TableSize())) == Some(Filled(src, target))
  {
    hide Fill, Zeros, Usable;
    FillOutcome(src, target, job);
  }

  lemma AreZeros(table: Table)
    requires forall h :: 0 <= h < |table| ==> table[h] == 0
    ensures table == Zeros(|table|)
  {
  }


  lemma CompressBoundPositive(src: seq<byte>, target: int)
    requires target >= CompressBound(|src|)
    ensures |src| <= MAX_INPUT_SIZE ==> target >= 16
  {
  }

  // ----- Decompression -----

  /** LZ4_decompress_safe: decodes every block that fits, with one exception: with no room at all it
      takes nothing but the byte 0. */
  method DecompressSafe(src: seq<byte>, dst: array<byte>, capacity: int) returns (result: int)
    requires capacity <= dst.Length
    modifies dst
    ensures result >= 0 ==> result <= capacity && Decode(src, 0, []) == Some(dst[..result])
    ensures forall data {:trigger Means(src, [], data)} ::
              Means(src, [], data) && |data| <= capacity && (capacity > 0 || src == [0]) ==>
              result == |data| && dst[..result] == data
    ensures capacity == 0 ==> (result >= 0 <==> src == [0])
    ensures dst[Max(capacity, 0)..] == old(dst[Max(capacity, 0)..])
  {
    if capacity < 0 {
      return -1;
    }
    ghost var task := Task(src, [], capacity, false);
    assert dst[0..0] == [];
    hide Task.Finished, Task.Rejected;
    result := FastDecoder.DecompressGeneric(src, dst, FastDecoder.Window(0, 0, capacity, false), false, task);
    if result >= 0 {
      assert dst[0..0 + result] == dst[..result];
      FinishedIsDecode(task, dst[..result]);
    }
    forall data | Means(src, [], data) && |data| <= capacity && (capacity > 0 || src == [0])
      ensures result == |data| && dst[..result] == data
    {
      MeansIsExpected(task, data);
    }
  }

  lemma FinishedIsDecode(task: Task, out: seq<byte>)
    requires task.Finished(out) && !task.partial
    ensures Decode(task.src, 0, task.init) == Some(out)
  {
    hide Decode;
  }

  /** A block that means `data` stands in front, when nothing follows it or the output is full. */
  lemma MeansStands(task: Task, k: nat, data: seq<byte>)
    requires k <= |task.src| && Means(task.src[..k], task.init, data)
    requires if task.partial then k == |task.src| || task.cap <= |task.init| + |data|
             else k == |task.src| && |task.init| + |data| <= task.cap
    ensures Parse(task.src[..k], 0).Some?
    ensures var b := Parse(task.src[..k], 0).value;
            task.Stands(0, task.init, b) && Run(task.init, b) == Some(task.init + data)
  {
    var b := Parse(task.src[..k], 0).value;
    RunExtends(task.init, b);
    ParseIffEncode(task.src[..k], 0, b);
    assert task.src[0..0 + k] == task.src[..k][0..0 + k];
  }

  /** A block that means `data`, and fits, must be decoded, and to nothing else. */
  lemma MeansIsExpected(task: Task, data: seq<byte>)
    requires Means(task.src, task.init, data)
    requires task.partial || |task.init| + |data| <= task.cap
    ensures Decode(task.src, 0, task.init) == Some(task.init + data) && !task.Rejected()
  {
    assert task.src[..|task.src|] == task.src;
    MeansStands(task, |task.src|, data);
  }

  /** The blocks that mean nothing: one token without literals, whatever its low nibble. */
  lemma EmptyBlocks(bytes: seq<byte>)
    ensures Means(bytes, [], []) <==> |bytes| == 1 && bytes[0] < 16
  {
    if |bytes| == 1 && bytes[0] < 16 {
      assert ParseHead(bytes, 0) == Final([], bytes[0]);
    }
    if Means(bytes, [], []) {
      var b := Parse(bytes, 0).value;
      RunExtends([], b);
      ParseIffEncode(bytes, 0, b);
      assert b.literals == [];
      ParseHeadFinal(bytes, 0, [], b.spare);
      LiteralPartAt(bytes, 0, [], b.spare);
    }
  }

  /** Fifteen of them are refused where there is no room for output. */
  method EmptyBlockRefused(spare: byte, dst: array<byte>, capacity: nat) returns (result: int)
    requires spare < 16 && capacity <= dst.Length
    modifies dst
    ensures Means([spare], [], [])
    ensures if spare == 0 || capacity > 0 then result == 0 else result < 0
  {
    EmptyBlocks([spare]);
    result := DecompressSafe([spare], dst, capacity);
  }

  /** LZ4_decompress_safe_partial: the beginning of the data, as much as asked for and as there is; other
      bytes may follow the block when no more is asked for than it holds; and where the block is cut
      short, what is decoded is still a beginning of its data. */
  method DecompressSafePartial(src: seq<byte>, dst: array<byte>, target: int, capacity: int) returns (result: int)
    requires capacity <= dst.Length
    modifies dst
    ensures result >= 0 ==> result <= Min(target, capacity)
    ensures forall data {:trigger Means(src, [], data)} :: Means(src, [], data) && 0 <= Min(target, capacity) ==>
              result == Min(Min(target, capacity), |data|) && dst[..result] == data[..result]
    ensures forall k: nat, data {:trigger Means(src[..k], [], data)} ::
              k <= |src| && Means(src[..k], [], data) && 0 <= Min(target, capacity) <= |data| ==>
              result == Min(target, capacity) && dst[..result] == data[..result]
    ensures result >= 0 ==>
      forall whole, data {:trigger Means(whole, [], data)} :: src <= whole && Means(whole, [], data) ==>
        dst[..result] <= data
    ensures Readable(src, 0, []).Some? && 0 <= Min(target, capacity) ==>
      var full := Readable(src, 0, []).value;
      result == Min(Min(target, capacity), |full|) && dst[..result] == full[..result]
    ensures dst[Max(Min(target, capacity), 0)..] == old(dst[Max(Min(target, capacity), 0)..])
  {
    var room := Min(target, capacity);
    if room < 0 {
      return -1;
    }
    ghost var task := Task(src, [], room, true);
    assert dst[0..0] == [];
    hide *;
    result := FastDecoder.DecompressGeneric(src, dst, FastDecoder.Window(0, 0, room, false), true, task);
    assert result >= 0 ==> dst[0..0 + result] == dst[..result];
    PartialResult(task, result, if result >= 0 then dst[..result] else []);
  }

  /** A result of partial decoding is the right one for whatever block stands in front. */
  lemma PartialResult(task: Task, result: int, out: seq<byte>)
    requires task.partial && task.init == []
    requires if result >= 0 then |out| == result && task.Finished(out) else task.Rejected()
    ensures forall data {:trigger Means(task.src, [], data)} :: Means(task.src, [], data) ==>
              result == Min(task.cap, |data|) && out == data[..result]
    ensures forall k: nat, data {:trigger Means(task.src[..k], [], data)} ::
              k <= |task.src| && Means(task.src[..k], [], data) && task.cap <= |data| ==>
              result == task.cap && out == data[..result]
    ensures result >= 0 ==>
      forall whole, data {:trigger Means(whole, [], data)} :: task.src <= whole && Means(whole, [], data) ==>
        out <= data
    ensures Readable(task.src, 0, []).Some? ==>
      var full := Readable(task.src, 0, []).value;
      result == Min(task.cap, |full|) && out == full[..result]
  {
    hide Means, Task.Finished, Task.Rejected, Readable;
    PartialOfRead(task, result, out);
    forall data | Means(task.src, [], data)
      ensures result == Min(task.cap, |data|) && out == data[..result]
    {
      assert task.src[..|task.src|] == task.src;
      PartialOf(task, result, out, |task.src|, data);
    }
    forall k: nat, data | k <= |task.src| && Means(task.src[..k], [], data) && task.cap <= |data|
      ensures result == task.cap && out == data[..result]
    {
      PartialOf(task, result, out, k, data);
    }
    if result >= 0 {
      forall whole, data | task.src <= whole && Means(whole, [], data)
        ensures out <= data
      {
        PartialOfCut(task, out, whole, data);
      }
    }
  }

  lemma PartialOfRead(task: Task, result: int, out: seq<byte>)
    requires task.partial && task.init == []
    requires if result >= 0 then |out| == result && task.Finished(out) else task.Rejected()
    ensures Readable(task.src, 0, []).Some? ==>
      var full := Readable(task.src, 0, []).value;
      result == Min(task.cap, |full|) && out == full[..result]
  {
    hide Readable, Task.Begins, Task.Stands;
  }

  /** What can be read of a whole block is its data, and of one cut in its last literals, all but the bytes
      missing. */
  lemma ReadableData(whole: seq<byte>, data: seq<byte>, missing: nat)
    requires Means(whole, [], data) && MayMiss(|LastLiterals(Parse(whole, 0).value)|, missing)
    ensures missing <= |whole| && missing <= |data|
    ensures Readable(whole[..|whole| - missing], 0, []) == Some(data[..|data| - missing])
  {
    hide Readable, EndsWell, OffsetsPositive, Parse, Run;
    assert [] + data == data;
    ReadableOfCut(whole, 0, [], Parse(whole, 0).value, missing);
  }

  lemma PartialOfCut(task: Task, out: seq<byte>, whole: seq<byte>, data: seq<byte>)
    requires task.partial && task.init == [] && task.Finished(out) && task.src <= whole && Means(whole, [], data)
    ensures out <= data
  {
    hide Parse, Run, OffsetsPositive, EndsWell, Task.Stands;
    assert [] + data == data;
    assert task.Cuts(whole, 0, task.init);
  }

  lemma PartialOf(task: Task, result: int, out: seq<byte>, k: nat, data: seq<byte>)
    requires task.partial && task.init == [] && k <= |task.src| && Means(task.src[..k], task.init, data)
    requires k == |task.src| || task.cap <= |data|
    requires if result >= 0 then |out| == result && task.Finished(out) else task.Rejected()
    ensures result == Min(task.cap, |data|) && out == data[..result]
  {
    hide *;
    MeansStands(task, k, data);
    StandingDecides(task, out, Parse(task.src[..k], 0).value);
    assert task.init + data == data;
    MinIs(task.cap, |data|);
  }

  lemma StandingDecides(task: Task, out: seq<byte>, b: Block)
    requires task.Stands(0, task.init, b) && Run(task.init, b).Some?
    ensures !task.Rejected()
    ensures task.Finished(out) ==>
      var full := Run(task.init, b).value; out == full[..Min(task.cap, |full|)]
  {
    hide Decode, Task.Stands;
  }

  lemma MinIs(a: int, b: int)
    ensures Min(a, b) == if a <= b then a else b
  {
  }

  /** LZ4_decompress_fast: the plain decoder, told the size of the data. Told less, or up to eleven bytes
      more, it gives the beginning of the data or an error, as the block can be cut there or not. */
  method DecompressFast(src: seq<byte>, dst: array<byte>, originalSize: nat, ghost data: seq<byte>)
    returns (result: int)
    requires originalSize <= dst.Length && Means(src, [], data) && originalSize < |data| + MF_LIMIT
    modifies dst
    ensures originalSize == |data| ==> result == |src| && dst[..originalSize] == data
    ensures result >= 0 <==> PlainDecoder.Acceptable(0, Parse(src, 0).value, originalSize)
    ensures result >= 0 ==>
      result <= |src| && originalSize <= |data| && dst[..originalSize] == data[..originalSize]
    ensures dst[originalSize..] == old(dst[originalSize..])
  {
    hide *;
    PlainFacts(src, data, originalSize);
    ghost var b := Parse(src, 0).value;
    assert dst[0..0] == [];
    result := PlainDecoder.DecompressUnsafe(src, dst, 0, 0, originalSize, b);
    assert dst[0..0 + originalSize] == dst[..originalSize];
  }

  lemma MeansWhole(src: seq<byte>, data: seq<byte>)
    requires Means(src, [], data)
    ensures Parse(src, 0).Some?
    ensures var b := Parse(src, 0).value;
            && EndsWell(b) && OffsetsPositive(b) && Run([], b) == Some(data) && OutLen(b) == |data|
            && WellFormed(b) && At(src, 0, Encode(b)) && |Encode(b)| == |src|
  {
    hide EndsWell, Parse, Encode, Run, OutLen, WellFormed, OffsetsPositive, At;
    ParseIffEncode(src, 0, Parse(src, 0).value);
    RunExtends([], Parse(src, 0).value);
    assert [] + data == data;
  }

  /** What the plain decoder makes of a block that means `data`. */
  lemma PlainFacts(src: seq<byte>, data: seq<byte>, size: nat)
    requires Means(src, [], data)
    ensures Parse(src, 0).Some?
    ensures var b := Parse(src, 0).value;
            && OutLen(b) == |data|
            && (PlainDecoder.Acceptable(0, b, size) ==>
                  && var c := PlainDecoder.Cut(b, size).value;
                     && WellFormed(c) && |Encode(c)| <= |src| && OffsetsPositive(c)
                     && size <= |data| && Run([], c) == Some(data[..size]))
            && (size == |data| ==>
                  && PlainDecoder.Acceptable(0, b, size) && PlainDecoder.Cut(b, size) == Some(b)
                  && WellFormed(b) && |Encode(b)| == |src|)
  {
    hide Means, EndsWell, Parse, Encode, PlainDecoder.Cut, PlainDecoder.InRange, Run, OutLen,
        WellFormed, OffsetsPositive;
    MeansWhole(src, data);
    var b := Parse(src, 0).value;
    PlainDecoder.CutWhole(b);
    PlainDecoder.RunDefined([], b);
    if PlainDecoder.Acceptable(0, b, size) {
      PlainDecoder.CutShape(b, size);
      PlainDecoder.CutStands(src, 0, b, size);
      PlainDecoder.CutIsPrefix([], b, size);
    }
  }

  // ----- Round trips -----

  /** Whatever LZ4_compress_default writes, LZ4_decompress_safe turns back into the input, given room
      for it; and it does write something if there is room for the worst case. */
  method RoundTrip(src: seq<byte>, dst: array<byte>, capacity: int, out: array<byte>, outCapacity: int)
    returns (written: nat, result: int)
    requires capacity <= dst.Length && outCapacity <= out.Length
    modifies dst, out
    ensures written > 0 && |src| <= outCapacity ==> result == |src| && out[..result] == src
    ensures written > 0 && outCapacity < |src| ==> result < 0
    ensures written > 0 <==> |src| <= MAX_INPUT_SIZE && |Encode(BlockOf(src, 1))| <= capacity
    ensures |src| <= MAX_INPUT_SIZE && CompressBound(|src|) <= capacity ==> written > 0
  {
    hide *;
    written := CompressDefault(src, dst, capacity);
    assert written <= dst.Length by { MaxIs(capacity); }
    ghost var block := dst[..written];
    result := DecompressSafe(dst[..written], out, outCapacity);
    if written > 0 {
      MeansIsDecode(block, src);
    }
  }

  lemma MaxIs(capacity: int)
    ensures Max(capacity, 0) == if capacity >= 0 then capacity else 0
  {
  }

  lemma MeansIsDecode(bytes: seq<byte>, data: seq<byte>)
    requires Means(bytes, [], data)
    ensures Decode(bytes, 0, []) == Some(data)
  {
    assert [] + data == data;
  }

  /** What LZ4_compress_destSize writes is decoded in exactly the room of what it consumed. */
  method FillRoundTrip(src: seq<byte>, dst: array<byte>, target: int, out: array<byte>)
    returns (written: nat, consumed: nat, result: int)
    requires target <= dst.Length && |src| <= out.Length
    modifies dst, out
    ensures consumed <= |src| && written <= Max(target, 0)
    ensures written > 0 <==> target >= 1 && |src| <= MAX_INPUT_SIZE
    ensures written > 0 ==> result == consumed && out[..consumed] == src[..consumed]
  {
    hide *;
    written, consumed := CompressDestSize(src, dst, target);
    assert written <= dst.Length by { MaxIs(target); }
    result := DecompressSafe(dst[..written], out, consumed);
  }
}
