/**
 Inputs without any match, and with them the inputs that show where LZ4_compress_destSize does not
 fill its output completely, as lz4.h says it does.
 */
module Incompressible {
  import opened Bytes
  import opened BlockFormat
  import opened GreedyPlan
  import opened PlanProperties
  import opened PlanTheorems
  import opened PlanLimits
  import opened Filling
  import opened Codec

  /** No four bytes in a row occur twice. */
  ghost predicate NoRepeats(src: seq<byte>) {
    forall i: nat, j: nat :: i < j ==> !Same4(src, i, j)
  }

  ghost predicate Whole(job: Job) {
    job.Valid() && job.start == 0 && job.startIndex == 0 && job.size == |job.buf|
  }

  lemma NothingAccepted(job: Job, index: nat, p: nat)
    requires Whole(job) && NoRepeats(job.buf) && index < p && p + 8 <= |job.buf|
    ensures !job.Accepts(index, p)
  {
  }

  lemma NothingHere(job: Job, table: Table, p: nat)
    requires Whole(job) && NoRepeats(job.buf) && Hashable(job, p) && p < job.MfLimitPlusOne()
    requires |table| == job.TableSize() && Below(table, p)
    ensures job.Index(p) == p && p + 8 <= |job.buf| && !job.Accepts(table[job.Hash(p)], p)
    ensures Below(table[job.Hash(p) := p], p + 1)
  {
    assert p + 8 <= |job.buf| && job.Index(p) == p;
    hide Below, Job.Hash, Job.Accepts, NoRepeats;
    BelowAt(table, p, job.Hash(p));
    NothingAccepted(job, table[job.Hash(p)], p);
    BelowMore(table, p, p + 1);
    EnterKeepsBelow(job, table, p, p + 1);
  }

  lemma {:induction false} NothingFound(job: Job, table: Table, fwd: nat, step: nat, nb: nat)
    requires Whole(job) && NoRepeats(job.buf) && Hashable(job, fwd) && 1 <= step && 64 <= nb
    requires |table| == job.TableSize() && Below(table, fwd)
    ensures Search(job, table, fwd, step, nb).NotFound?
    decreases job.MfLimitPlusOne() - fwd
  {
    hide Search, Below, Job.Hash, Job.Accepts, NoRepeats, Whole;
    if fwd + step <= job.MfLimitPlusOne() {
      NothingHere(job, table, fwd);
      SearchVisits(job, table, fwd, step, nb);
      BelowMore(table[job.Hash(fwd) := fwd], fwd + 1, fwd + step);
      NothingFound(job, table[job.Hash(fwd) := fwd], fwd + step, nb / 64, nb + 1);
    } else {
      SearchEnds(job, table, fwd, step, nb);
    }
  }

  lemma FirstIsLast(job: Job, table: Table)
    requires Whole(job) && NoRepeats(job.buf) && MIN_LENGTH <= job.size && Usable(job, table)
    requires job.policy.NotLimited?
    ensures |table| == job.TableSize() && FirstCursor(job, table) == AtLast(0, 0)
  {
    hide Usable, Search, FromSearch, Below, Good, Job.Hash, NoRepeats, FirstCursor, Job.Valid, Hashable;
    FirstEntered(job, table);
    NothingFound(job, table[job.Hash(0) := 0], 1, 1, job.acceleration * 64);
    FromSearchNotFound(job, table[job.Hash(0) := 0], 0, 1, 0);
  }

  lemma LiteralsOnlyFor(job: Job, table: Table)
    requires Whole(job) && NoRepeats(job.buf) && job.size <= MAX_INPUT_SIZE && Usable(job, table)
    requires job.policy.NotLimited?
    ensures |table| == job.TableSize() && job.End() <= |job.buf| && 1 <= job.acceleration
    ensures Outcome(job, table) == Some(Last(job.buf, 0))
  {
    assert job.Valid() && |table| == job.TableSize() && job.buf[0..job.End()] == job.buf;
    hide Usable, FromSearch, NoRepeats, Job.Hash;
    if job.size >= MIN_LENGTH {
      FirstIsLast(job, table);
    }
  }

  /** Without a match the block is literals only. */
  lemma LiteralsOnly(src: seq<byte>, acceleration: int)
    requires NoRepeats(src) && |src| <= MAX_INPUT_SIZE
    ensures BlockOf(src, acceleration) == Last(src, 0)
    ensures |Encode(Last(src, 0))| == 1 + LengthSize(|src|) + |src|
  {
    FreshIsUsable(src, acceleration, NotLimited, 0);
    hide Usable, Zeros, Outcome, NoRepeats, Encode, Promised;
    var job := FreshJob(src, acceleration, NotLimited, 0);
    LiteralsOnlyFor(job, Zeros(job.TableSize()));
    EncodedLastSize(src);
  }

  /** Such an input does not compress: LZ4_compress_default needs more room than the input takes. */
  lemma NothingGained(src: seq<byte>, capacity: int)
    requires NoRepeats(src) && |src| <= MAX_INPUT_SIZE
    ensures |Encode(BlockOf(src, 1))| <= capacity <==> 1 + LengthSize(|src|) + |src| <= capacity
    ensures |Encode(BlockOf(src, 1))| > |src|
  {
    hide *;
    LiteralsOnly(src, 1);
  }

  /** An input without matches is taken whole exactly when its literals fit; otherwise the output is
      filled, but for one byte when its size is 16 modulo 256. */
  lemma FilledUnless16(src: seq<byte>, target: int)
    requires NoRepeats(src) && |src| <= MAX_INPUT_SIZE && 1 <= target
    ensures var b := Filled(src, target);
            && OutLen(b) <= |src|
            && (OutLen(b) == |src| <==> |Encode(Last(src, 0))| <= target)
            && (OutLen(b) < |src| ==> |Encode(b)| == target - (if target % 256 == 16 then 1 else 0))
  {
    hide BlockOf, Filled, NoRepeats, Encode, LengthSize;
    LiteralsOnly(src, 1);
    FilledIs(src, target);
  }

  /** Groups of three bytes: 255 and the number of the group in base 255. */
  function Numbered(n: nat): (r: seq<byte>)
    requires n <= 3 * 255 * 255
    ensures |r| == n
  {
    seq(n, i requires 0 <= i < n => NumberedByte(i))
  }

  function NumberedByte(i: nat): (b: byte)
    requires i < 3 * 255 * 255
    ensures b == 255 <==> i % 3 == 0
  {
    if i % 3 == 0 then 255 else if i % 3 == 1 then i / 3 / 255 else i / 3 % 255
  }

  /** Four bytes in a row say where they stand. */
  lemma NumberedHasNoRepeats(n: nat)
    requires n <= 3 * 255 * 255
    ensures NoRepeats(Numbered(n))
  {
    var src := Numbered(n);
    forall i: nat, j: nat | i < j && Same4(src, i, j)
      ensures false
    {
      SameGroup(i, j);
    }
  }

  /** The four bytes at `i` and at `j` are the same. */
  predicate SameFour(i: nat, j: nat)
    requires i + 4 <= 3 * 255 * 255 && j + 4 <= 3 * 255 * 255
  {
    && NumberedByte(i) == NumberedByte(j) && NumberedByte(i + 1) == NumberedByte(j + 1)
    && NumberedByte(i + 2) == NumberedByte(j + 2) && NumberedByte(i + 3) == NumberedByte(j + 3)
  }

  lemma SameGroup(i: nat, j: nat)
    requires i < j && j + 4 <= 3 * 255 * 255
    ensures !SameFour(i, j)
  {
    hide NumberedByte, SameFour;
    if SameFour(i, j) {
      SameAlignment(i, j);
      SamePlace(i, j);
    }
  }

  lemma SameAlignment(i: nat, j: nat)
    requires i + 4 <= 3 * 255 * 255 && j + 4 <= 3 * 255 * 255 && SameFour(i, j)
    ensures i % 3 == j % 3
  {
    hide NumberedByte;
    assert i % 3 == 0 <==> j % 3 == 0;
    assert (i + 1) % 3 == 0 <==> (j + 1) % 3 == 0;
  }

  lemma SamePlace(i: nat, j: nat)
    requires i + 4 <= 3 * 255 * 255 && j + 4 <= 3 * 255 * 255 && SameFour(i, j) && i % 3 == j % 3
    ensures i == j
  {
    hide NumberedByte;
    if i % 3 == 0 {
      GroupOf(i);
      GroupOf(j);
    } else if i % 3 == 1 {
      GroupOf(i - 1);
      GroupOf(j - 1);
    } else {
      GroupOf(i + 1);
      GroupOf(j + 1);
    }
  }

  lemma GroupOf(i: nat)
    requires i % 3 == 0 && i + 3 <= 3 * 255 * 255
    ensures NumberedByte(i) == 255
    ensures var high: int, low: int := NumberedByte(i + 1), NumberedByte(i + 2); i == 3 * (255 * high + low)
  {
  }

  /** Such inputs leave a byte of output unused at every size that is 16 modulo 256: fifteen bytes at
      16, three hundred at 272. */
  lemma FallsShort(n: nat, target: nat)
    requires 1 <= n <= 3 * 255 * 255 && target % 256 == 16 && target < |Encode(Last(Numbered(n), 0))|
    ensures var b := Filled(Numbered(n), target); OutLen(b) < n && |Encode(b)| == target - 1
  {
    assert n <= MAX_INPUT_SIZE;
    hide *;
    NumberedHasNoRepeats(n);
    FilledUnless16(Numbered(n), target);
  }

  /** Two of them. */
  lemma SmallestTargets(n: nat, target: nat)
    requires (n == 15 && target == 16) || (n == 300 && target == 272)
    ensures target % 256 == 16 && target < |Encode(Last(Numbered(n), 0))|
  {
    EncodedLastSize(Numbered(n));
  }
}
