/**
 Filling a given output: what LZ4_compress_destSize writes, told from the block that is written without
 a limit. The sequences of that block are followed as long as their room checks pass; then a match is
 shortened, or given back for literals, as many as fit.
 */
module Filling {
  import opened Bytes
  import opened BlockFormat
  import opened MatchCount
  import opened GreedyPlan
  import opened PlanProperties
  import opened PlanTheorems
  import opened PlanLimits

  // ----- The block that fills -----

  /** Where the offset of a sequence goes whose token stands at `op`. */
  function OffsetAt(s: Sequence, op: nat): (at: nat)
    ensures op < at
  {
    op + 1 + LengthSize(|s.literals|) + |s.literals|
  }

  /** The extra bytes of a match length. */
  function CodeBytes(s: Sequence): nat {
    LengthSize(Max(s.matchLen - MIN_MATCH, 0))
  }

  /** Behind the literals there is no room for a short match and nine bytes more. */
  predicate GivesBack(s: Sequence, op: nat, limit: nat) {
    OffsetAt(s, op) + 2 + 1 + MF_LIMIT - MIN_MATCH > limit
  }

  /** There is no room for the length of the match and six bytes more. */
  predicate Shortens(s: Sequence, op: nat, limit: nat) {
    OffsetAt(s, op) + 2 + CodeBytes(s) + (1 + LAST_LITERALS) > limit
  }

  /** The longest match length that leaves these six bytes. */
  function ShortLength(s: Sequence, op: nat, limit: nat): int {
    MIN_MATCH + (15 - 1) + 255 * (limit - OffsetAt(s, op) - 2 - (1 + LAST_LITERALS))
  }

  lemma ShortIsShorter(s: Sequence, op: nat, limit: nat)
    requires WellFormedSequence(s) && !GivesBack(s, op, limit) && Shortens(s, op, limit)
    ensures MIN_MATCH <= ShortLength(s, op, limit) < s.matchLen
    ensures LengthSize(ShortLength(s, op, limit) - MIN_MATCH) == limit - OffsetAt(s, op) - 2 - (1 + LAST_LITERALS)
  {
    CodeSize(s.matchLen - MIN_MATCH);
    CodeSize(ShortLength(s, op, limit) - MIN_MATCH);
  }

  /** A block of literals only. */
  function LiteralBlock(data: seq<byte>, n: int): Block {
    Last(data[..Max(0, Min(n, |data|))], 0)
  }

  /** The block that fills the output up to `limit`, its first token at `op`, made from the block `b`
      that stands for `data`. */
  function Fill(b: Block, data: seq<byte>, op: nat, limit: nat): (r: Block)
    requires op < limit && WellFormed(b) && OutLen(b) == |data|
    decreases b
  {
    match b
    case Last(l, _) =>
      if op + 1 + LengthSize(|l|) + |l| <= limit then b else LiteralBlock(data, FillRun(limit - op - 1))
    case More(s, rest) =>
      if GivesBack(s, op, limit) then LiteralBlock(data, FillRun(limit - op - 1))
      else if Shortens(s, op, limit) then
        ShortIsShorter(s, op, limit);
        var n := ShortLength(s, op, limit);
        More(Sequence(s.literals, s.offset, n), LiteralBlock(data[|s.literals| + n..], LAST_LITERALS))
      else
        More(s, Fill(rest, data[|s.literals| + s.matchLen..], OffsetAt(s, op) + 2 + CodeBytes(s), limit))
  }

  /** Output that must be left over: behind the literals of a sequence eleven bytes are asked for, of which
      the rest of a block takes at least eight. */
  function Spare(b: Block): (n: nat)
    ensures n <= 8
  {
    match b
    case Last(_, _) => 0
    case More(s, rest) =>
      if rest.More? then Spare(rest)
      else Max(0, 8 - CodeBytes(s) - LengthSize(|rest.literals|) - |rest.literals|)
  }

  lemma {:induction false} SpareIsSmall(b: Block)
    requires EndsWell(b)
    ensures Spare(b) <= 3
    decreases b
  {
    if b.More? && b.rest.More? {
      SpareIsSmall(b.rest);
    }
  }

  /** Filling stops at literals whose room, token included, is 16 modulo 256. */
  predicate StopsAt16(b: Block, op: nat, limit: nat)
    requires WellFormed(b)
    decreases b
  {
    match b
    case Last(_, _) => (limit - op) % 256 == 16
    case More(s, rest) =>
      if GivesBack(s, op, limit) then (limit - op) % 256 == 16
      else !Shortens(s, op, limit) && StopsAt16(rest, OffsetAt(s, op) + 2 + CodeBytes(s), limit)
  }

  // ----- What filling does to a block -----

  lemma SequenceSize(s: Sequence)
    requires WellFormedSequence(s)
    ensures |EncodeSequence(s)| == 3 + LengthSize(|s.literals|) + |s.literals| + CodeBytes(s)
  {
    EncodedSize(s);
  }

  lemma LastBlockSize(b: Block)
    requires b.Last? && WellFormed(b)
    ensures |Encode(b)| == 1 + LengthSize(|b.literals|) + |b.literals|
  {
    LengthBytesSize(|b.literals|);
  }

  /** Literals that do not all fit: their size, and that some are left out. */
  lemma CutLiterals(data: seq<byte>, op: nat, limit: nat)
    requires op < limit < op + 1 + LengthSize(|data|) + |data|
    ensures var b := LiteralBlock(data, FillRun(limit - op - 1));
            && WellFormed(b) && OutLen(b) < |data|
            && op + |Encode(b)| == limit - (if (limit - op) % 256 == 16 then 1 else 0)
  {
    hide FillRun, LengthSize, Encode;
    CodeSize(|data|);
    FillRunFits(limit - op - 1, |data|);
    FillRunIsFull(limit - op - 1);
    LastBlockSize(LiteralBlock(data, FillRun(limit - op - 1)));
    OneMore(limit - op - 1);
  }

  lemma OneMore(room: nat)
    ensures (room + 1) % 256 == 16 <==> room % 256 == 15
  {
  }

  /** What gives back a match does not reach the end of the data, twelve bytes or more ahead. */
  lemma GivenBackIsCut(s: Sequence, data: seq<byte>, op: nat, limit: nat)
    requires op < limit && GivesBack(s, op, limit) && |s.literals| + MF_LIMIT <= |data|
    ensures limit < op + 1 + LengthSize(|data|) + |data|
  {
    LengthSizeGrows(|s.literals|, |data|);
  }

  lemma LengthSizeGrows(n: nat, m: nat)
    requires n <= m
    ensures LengthSize(n) <= LengthSize(m)
  {
    CodeSize(n);
    CodeSize(m);
  }

  /** Where a match is shortened, the output is full. */
  lemma ShortenedIsFull(b: Block, data: seq<byte>, op: nat, limit: nat)
    requires op < limit && WellFormed(b) && OutLen(b) == |data| && b.More? && LAST_LITERALS <= OutLen(b.rest)
    requires !GivesBack(b.first, op, limit) && Shortens(b.first, op, limit)
    ensures var r := Fill(b, data, op, limit); WellFormed(r) && OutLen(r) < |data| && op + |Encode(r)| == limit
  {
    var s := b.first;
    ShortIsShorter(s, op, limit);
    var r := Fill(b, data, op, limit);
    SequenceSize(r.first);
    LastBlockSize(r.rest);
  }

  /** The sizes of a block with a match in front. */
  lemma FirstSizes(b: Block, op: nat)
    requires WellFormed(b) && b.More? && EndsWell(b)
    ensures var next := OffsetAt(b.first, op) + 2 + CodeBytes(b.first);
            && next == op + |EncodeSequence(b.first)|
            && op + |Encode(b)| == next + |Encode(b.rest)|
            && 6 <= |Encode(b.rest)| && (b.rest.More? ==> 9 <= |Encode(b.rest)|)
            && (b.rest.Last? ==>
                  Spare(b) == Max(0, OffsetAt(b.first, op) + 11 - (next + |Encode(b.rest)|)) && Spare(b.rest) == 0)
            && (b.rest.More? ==> Spare(b) == Spare(b.rest))
  {
    hide LengthSize, EncodeSequence;
    SequenceSize(b.first);
    TailTakesSix(b.rest);
    if b.rest.Last? {
      LastBlockSize(b.rest);
    } else {
      SequenceSize(b.rest.first);
      TailTakesSix(b.rest.rest);
    }
  }

  /** All of the data fits exactly when the block does and leaves the bytes to spare; then the block is
      kept. Otherwise some data is left out, and the output is full, but for one byte where filling stops
      at literals whose room is 16 modulo 256. */
  lemma {:induction false} FillReaches(b: Block, data: seq<byte>, op: nat, limit: nat)
    requires op < limit && WellFormed(b) && OutLen(b) == |data| && EndsWell(b)
    ensures var r := Fill(b, data, op, limit);
            && WellFormed(r)
            && (op + |Encode(b)| + Spare(b) <= limit ==> r == b)
            && (op + |Encode(b)| + Spare(b) > limit ==>
                  && OutLen(r) < |data|
                  && op + |Encode(r)| == limit - (if StopsAt16(b, op, limit) then 1 else 0))
    decreases b
  {
    hide LengthSize, Encode, EncodeSequence, FillRun, ShortLength, LiteralBlock;
    match b
    case Last(l, _) =>
      LastBlockSize(b);
      if op + |Encode(b)| > limit {
        CutLiterals(data, op, limit);
      }
    case More(s, rest) =>
      FirstSizes(b, op);
      if GivesBack(s, op, limit) {
        GivenBackIsCut(s, data, op, limit);
        CutLiterals(data, op, limit);
      } else if Shortens(s, op, limit) {
        ShortenedIsFull(b, data, op, limit);
      } else {
        var next := OffsetAt(s, op) + 2 + CodeBytes(s);
        FillReaches(rest, data[|s.literals| + s.matchLen..], next, limit);
        EncodeMore(s, Fill(rest, data[|s.literals| + s.matchLen..], next, limit));
      }
  }

  lemma EncodeMore(s: Sequence, rest: Block)
    requires WellFormedSequence(s) && WellFormed(rest)
    ensures |Encode(More(s, rest))| == |EncodeSequence(s)| + |Encode(rest)|
  {
  }

  // ----- What the compressor does -----

  /** The two cursors of a job and of the same job without a limit: the same, or a match that does not
      pass the check before its literals and would be given back. */
  ghost predicate Differ(job: Job, c: Cursor, u: Cursor) {
    c == u || (u.AtMatch? && Rewinds(job, u) && c == AtLast(u.anchor, u.token))
  }

  lemma SearchDiffers(job: Job, table: Table, anchor: nat, ip: nat, op: nat)
    requires job.Valid() && |table| == job.TableSize() && Hashable(job, ip) && job.start <= anchor <= ip
    requires job.policy.FillOutput?
    ensures Differ(job, FromSearch(job, table, anchor, ip, op), FromSearch(Unlimited(job), table, anchor, ip, op))
  {
    hide Search, CatchUp;
    SameSearch(job, table, ip, 1, job.acceleration * 64);
    match Search(job, table, ip, 1, job.acceleration * 64)
    case NotFound(_) =>
    case Found(p, m, entered) =>
      SameCatchUp(job, anchor, p, m);
      LengthSizeLarge(p - CatchUp(job, anchor, p, m) - anchor);
  }

  lemma VisitDiffers(job: Job, table: Table, ip: nat, op: nat, filled: nat)
    requires job.Valid() && |table| == job.TableSize() && job.start + 2 <= ip < job.MfLimitPlusOne()
    requires job.policy.FillOutput?
    ensures Differ(job, FromMatchEnd(job, table, ip, op, filled), FromMatchEnd(Unlimited(job), table, ip, op, filled))
  {
    hide *;
    SameEntered(job, table, ip);
    MatchEndVisits(job, table, ip, op, filled);
    MatchEndVisits(Unlimited(job), table, ip, op, filled);
    var filling := table[job.Hash(ip - 2) := job.Index(ip - 2)];
    if job.Accepts(filling[job.Hash(ip)], ip) {
      SameCursor(job, FromMatchEnd(job, table, ip, op, filled));
    } else {
      SearchDiffers(job, filling[job.Hash(ip) := job.Index(ip)], ip, ip + 1, op);
    }
  }

  lemma SameCursor(job: Job, c: Cursor)
    ensures Differ(job, c, c)
  {
  }

  lemma MatchEndDiffers(job: Job, table: Table, ip: nat, op: nat, filled: nat)
    requires job.Valid() && |table| == job.TableSize() && job.start + 2 <= ip && job.policy.FillOutput?
    ensures Differ(job, FromMatchEnd(job, table, ip, op, filled), FromMatchEnd(Unlimited(job), table, ip, op, filled))
  {
    if ip < job.MfLimitPlusOne() {
      VisitDiffers(job, table, ip, op, filled);
    }
  }

  /** Either way the same block is planned. */
  lemma DifferPlans(job: Job, c: Cursor, u: Cursor)
    requires job.policy.FillOutput? && Differ(job, c, u) && InBounds(job, c) && InBounds(job, u)
    ensures Plan(job, c) == Plan(job, u)
  {
    if c != u {
      PlanOfLast(job, c);
      GivenBack(job, u);
    }
  }

  lemma PlanOfLast(job: Job, c: Cursor)
    requires c.AtLast? && InBounds(job, c)
    ensures Plan(job, c) == LastRun(job, c.anchor, c.token)
  {
  }

  lemma GivenBack(job: Job, c: Cursor)
    requires c.AtMatch? && InBounds(job, c) && Rewinds(job, c)
    ensures job.start <= c.anchor <= job.End() <= |job.buf| && (job.policy.FillOutput? ==> c.token < job.olimit)
    ensures Plan(job, c) == LastRun(job, c.anchor, c.token)
  {
  }

  /** The data from a cursor on. */
  function Data(job: Job, c: Cursor): seq<byte>
    requires !c.Failed? && InBounds(job, c)
  {
    job.buf[c.anchor..job.End()]
  }

  lemma CutRunIs(job: Job, anchor: nat, op: nat)
    requires job.start <= anchor <= job.End() <= |job.buf| && job.policy.FillOutput? && op < job.olimit
    requires job.olimit < op + 1 + LengthSize(job.End() - anchor) + job.End() - anchor
    ensures LastRun(job, anchor, op) == Some(LiteralBlock(job.buf[anchor..job.End()], FillRun(job.olimit - op - 1)))
  {
    CodeSize(job.End() - anchor);
    FillRunFits(job.olimit - op - 1, job.End() - anchor);
    var data, n := job.buf[anchor..job.End()], FillRun(job.olimit - op - 1);
    assert data[..n] == job.buf[anchor..anchor + n];
  }

  /** What the checks of a job are in terms of the sequence that is written without a limit. */
  lemma ChecksOfSequence(job: Job, c: Cursor)
    requires job.policy.FillOutput? && c.AtMatch? && Sound(Unlimited(job), c) && c.token < job.olimit
    ensures InBounds(Unlimited(job), c) && InBounds(job, c) && Takes(Unlimited(job), c)
    ensures var s := Taken(Unlimited(job), c);
            && WellFormedSequence(s) && |s.literals| == c.ip - c.anchor && OffsetAt(s, c.token) == c.op
            && s.matchLen == MIN_MATCH + MatchCode(job, c)
            && (Rewinds(job, c) <==> GivesBack(s, c.token, job.olimit))
            && (TooLong(job, c) <==> Shortens(s, c.token, job.olimit))
            && NextOp(Unlimited(job), c) == c.op + 2 + CodeBytes(s)
            && NextIp(Unlimited(job), c) == c.ip + s.matchLen
            && c.ip + MF_LIMIT <= job.End()
  {
    TakenShape(Unlimited(job), c);
    hide Good, Below, Matches, MatchCode;
    CodeSize(MatchCode(job, c));
  }

  lemma FillGivesBack(job: Job, c: Cursor, b: Block)
    requires job.policy.FillOutput? && c.AtMatch? && Sound(Unlimited(job), c) && c.token < job.olimit
    requires InBounds(job, c) && Rewinds(job, c) && Takes(Unlimited(job), c)
    requires WellFormed(b) && b.More? && b.first == Taken(Unlimited(job), c) && OutLen(b) == |Data(job, c)|
    ensures Plan(job, c) == Some(Fill(b, Data(job, c), c.token, job.olimit))
  {
    hide Sound, Takes, Taken, Rewinds, MatchCode, Plan, InBounds, LiteralBlock, TooLong, NextOp, NextIp, FillRun;
    ChecksOfSequence(job, c);
    GivenBack(job, c);
    GivenBackIsCut(b.first, Data(job, c), c.token, job.olimit);
    CutRunIs(job, c.anchor, c.token);
  }

  /** Behind a shortened match there is room for a token and five literals, and nothing else. */
  lemma TightPlan(job: Job, table: Table, ip: nat, op: nat, filled: nat)
    requires job.Valid() && |table| == job.TableSize() && job.start + 2 <= ip && ip + LAST_LITERALS < job.End()
    requires job.policy.FillOutput? && job.olimit == op + 1 + LAST_LITERALS
    ensures InBounds(job, FromMatchEnd(job, table, ip, op, filled)) || filled >= job.MfLimitPlusOne()
    ensures filled < job.MfLimitPlusOne() ==>
      Plan(job, FromMatchEnd(job, table, ip, op, filled))
      == Some(LiteralBlock(job.buf[ip..job.End()], LAST_LITERALS))
  {
    hide Job.Accepts, Job.Hash, Search, CatchUp;
    CutRunIs(job, ip, op);
  }

  lemma ShortenedFacts(job: Job, c: Cursor)
    requires job.Valid() && job.policy.FillOutput? && c.AtMatch? && Sound(Unlimited(job), c) && c.token < job.olimit
    requires InBounds(job, c) && !Rewinds(job, c) && TooLong(job, c) && Takes(Unlimited(job), c)
    ensures Takes(job, c)
    ensures var s := Taken(Unlimited(job), c);
            && Taken(job, c) == Sequence(s.literals, s.offset, ShortLength(s, c.token, job.olimit))
            && NextIp(job, c) == c.ip + ShortLength(s, c.token, job.olimit)
            && job.start + 2 <= NextIp(job, c) && NextIp(job, c) + LAST_LITERALS < job.End() <= |job.buf|
            && job.olimit == NextOp(job, c) + 1 + LAST_LITERALS && c.filled < job.MfLimitPlusOne()
  {
    hide Good, Below, Matches, MatchCode, CommonLen;
    ChecksOfSequence(job, c);
    ShortenedFillsRoom(job, c);
  }

  /** The match is shortened, and five literals follow. */
  lemma FillShortens(job: Job, c: Cursor, b: Block)
    requires job.Valid() && job.policy.FillOutput? && c.AtMatch? && Sound(Unlimited(job), c) && c.token < job.olimit
    requires InBounds(job, c) && !Rewinds(job, c) && TooLong(job, c) && Takes(Unlimited(job), c)
    requires WellFormed(b) && b.More? && b.first == Taken(Unlimited(job), c) && OutLen(b) == |Data(job, c)|
    ensures Plan(job, c) == Some(Fill(b, Data(job, c), c.token, job.olimit))
  {
    hide Sound, Takes, Taken, Rewinds, MatchCode, Plan, InBounds, LiteralBlock, TooLong, NextOp, NextIp, NextTable,
        FromMatchEnd, ShortLength, Job.Valid, OffsetAt, CodeBytes, GivesBack, Shortens;
    ChecksOfSequence(job, c);
    ShortIsShorter(b.first, c.token, job.olimit);
    ShortenedFacts(job, c);
    TightPlan(job, NextTable(job, c), NextIp(job, c), NextOp(job, c), c.filled);
    PlanTakes(job, c);
    assert job.buf[NextIp(job, c)..job.End()]
           == Data(job, c)[c.ip - c.anchor + ShortLength(b.first, c.token, job.olimit)..];
  }

  lemma UncutPlan(job: Job, c: Cursor)
    requires job.Valid() && job.policy.FillOutput? && c.AtMatch? && Sound(Unlimited(job), c) && c.token < job.olimit
    requires InBounds(job, c) && !Rewinds(job, c) && !TooLong(job, c) && Takes(Unlimited(job), c)
    ensures var next := TakeMatch(Unlimited(job), c);
            && !next.Failed? && next.token < job.olimit && InBounds(job, next)
            && next.anchor == NextIp(Unlimited(job), c)
            && next.token == NextOp(Unlimited(job), c)
            && Plan(job, c)
               == match Plan(job, next) case None => None case Some(rest) => Some(More(Taken(Unlimited(job), c), rest))
  {
    hide Sound, MatchCode, Plan, TakenCode, FromMatchEnd, Taken, Job.Valid;
    CheckedUncut(job, c);
    UnlimitedGoesOn(job, c);
    MatchEndDiffers(job, c.table, NextIp(job, c), NextOp(job, c), c.filled);
    NotFailed(job, TakeMatch(job, c), TakeMatch(Unlimited(job), c));
    DifferPlans(job, TakeMatch(job, c), TakeMatch(Unlimited(job), c));
    PlanTakes(job, c);
  }

  lemma UnlimitedGoesOn(job: Job, c: Cursor)
    requires Takes(Unlimited(job), c)
    ensures !TakeMatch(Unlimited(job), c).Failed?
  {
    hide Search, CatchUp, Job.Hash, Job.Accepts, NextIp, NextOp, NextTable;
  }

  lemma CheckedUncut(job: Job, c: Cursor)
    requires job.Valid() && job.policy.FillOutput? && c.AtMatch? && Sound(Unlimited(job), c) && c.token < job.olimit
    requires InBounds(job, c) && !Rewinds(job, c) && !TooLong(job, c) && Takes(Unlimited(job), c)
    ensures Takes(job, c) && Taken(job, c) == Taken(Unlimited(job), c)
    ensures NextIp(job, c) == NextIp(Unlimited(job), c) && NextOp(job, c) == NextOp(Unlimited(job), c) < job.olimit
    ensures NextTable(job, c) == NextTable(Unlimited(job), c) == c.table && job.start + 2 <= NextIp(job, c)
  {
    CheckedTakes(job, c);
    NextIpAhead(job, c);
  }

  /** Filling never gives up. */
  lemma NotFailed(job: Job, c: Cursor, u: Cursor)
    requires job.policy.FillOutput? && Differ(job, c, u) && InBounds(Unlimited(job), u) && InBounds(job, c)
    requires !u.Failed? ==> u.token < job.olimit
    ensures InBounds(job, u)
  {
  }

  lemma DataBehind(job: Job, c: Cursor, next: Cursor, k: nat)
    requires !c.Failed? && InBounds(job, c) && !next.Failed? && InBounds(job, next) && next.anchor == c.anchor + k
    ensures k <= |Data(job, c)| && Data(job, next) == Data(job, c)[k..]
  {
  }

  lemma FillTakes(job: Job, c: Cursor, b: Block)
    requires job.Valid() && job.policy.FillOutput? && c.AtMatch? && Sound(Unlimited(job), c) && c.token < job.olimit
    requires InBounds(job, c) && !Rewinds(job, c) && !TooLong(job, c) && Takes(Unlimited(job), c)
    requires WellFormed(b) && b.More? && b.first == Taken(Unlimited(job), c) && OutLen(b) == |Data(job, c)|
    ensures var next := TakeMatch(Unlimited(job), c);
            && !next.Failed? && next.token < job.olimit && InBounds(job, next) && OutLen(b.rest) == |Data(job, next)|
            && (Plan(job, next) == Some(Fill(b.rest, Data(job, next), next.token, job.olimit)) ==>
                  Plan(job, c) == Some(Fill(b, Data(job, c), c.token, job.olimit)))
  {
    hide Sound, Takes, Taken, TakeMatch, Rewinds, MatchCode, Plan, InBounds, TooLong, NextOp, NextIp, Job.Valid,
        LiteralBlock, OffsetAt, CodeBytes, GivesBack, Shortens;
    ChecksOfSequence(job, c);
    UncutPlan(job, c);
    var next := TakeMatch(Unlimited(job), c);
    DataBehind(job, c, next, |b.first.literals| + b.first.matchLen);
  }

  /** What fills the output, told from the block written without a limit. */
  lemma {:induction false} PlanIsFill(job: Job, c: Cursor)
    requires job.Valid() && job.policy.FillOutput? && Sound(Unlimited(job), c) && Plan(Unlimited(job), c).Some?
    requires !c.Failed? && c.token < job.olimit
    ensures InBounds(job, c)
    ensures var b := Plan(Unlimited(job), c).value;
            && WellFormed(b) && EndsWell(b) && OutLen(b) == |Data(job, c)|
            && Plan(job, c) == Some(Fill(b, Data(job, c), c.token, job.olimit))
    decreases Remaining(Unlimited(job), c)
  {
    var u := Unlimited(job);
    hide Sound, Takes, Taken, TakeMatch, Plan, Fill, Rewinds, TooLong, InBounds, Remaining, Job.Valid, Expands;
    UnlimitedBlock(job, c);
    var b := Plan(u, c).value;
    if c.AtMatch? {
      ChecksOfSequence(job, c);
      PlanTakes(u, c);
      if Rewinds(job, c) {
        FillGivesBack(job, c, b);
      } else if TooLong(job, c) {
        FillShortens(job, c, b);
      } else {
        FillTakes(job, c, b);
        TakeMatchIsSound(u, c);
        RemainingShrinks(u, c);
        PlanIsFill(job, TakeMatch(u, c));
      }
    } else {
      FillLast(job, c);
    }
  }

  lemma UnlimitedBlock(job: Job, c: Cursor)
    requires job.Valid() && job.policy.FillOutput? && Sound(Unlimited(job), c) && Plan(Unlimited(job), c).Some?
    requires !c.Failed? && c.token < job.olimit
    ensures InBounds(job, c) && InBounds(Unlimited(job), c)
    ensures var b := Plan(Unlimited(job), c).value; WellFormed(b) && EndsWell(b) && OutLen(b) == |Data(job, c)|
  {
    hide Plan, Good, Below, Matches, EndsWell, Run;
    PlanExpands(Unlimited(job), c);
    PlanEndsWell(Unlimited(job), c);
  }

  lemma FillLast(job: Job, c: Cursor)
    requires job.policy.FillOutput? && c.AtLast? && InBounds(job, c) && InBounds(Unlimited(job), c)
    requires Plan(Unlimited(job), c).Some? && WellFormed(Plan(Unlimited(job), c).value)
    requires OutLen(Plan(Unlimited(job), c).value) == |Data(job, c)|
    ensures Plan(job, c) == Some(Fill(Plan(Unlimited(job), c).value, Data(job, c), c.token, job.olimit))
  {
    CodeSize(job.End() - c.anchor);
    if job.olimit < c.token + 1 + LengthSize(job.End() - c.anchor) + job.End() - c.anchor {
      CutRunIs(job, c.anchor, c.token);
    }
  }
}
