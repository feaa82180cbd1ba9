/**
 The main results about the compressor's plan: it expands to the input, obeys the parsing
 restrictions, keeps to its room, and, given room enough, does not depend on the output policy.
 */
module PlanTheorems {
  import opened Bytes
  import opened BlockFormat
  import opened MatchCount
  import opened GreedyPlan
  import opened PlanProperties

  lemma PlanTakes(job: Job, c: Cursor)
    requires Takes(job, c)
    ensures Plan(job, c)
            == match Plan(job, TakeMatch(job, c)) case None => None case Some(rest) => Some(More(Taken(job, c), rest))
    ensures Plan(job, c).Some? ==> !TakeMatch(job, c).Failed?
  {
  }

  lemma RemainingShrinks(job: Job, c: Cursor)
    requires Takes(job, c)
    ensures Remaining(job, TakeMatch(job, c)) < Remaining(job, c)
  {
  }

  lemma PlanStops(job: Job, c: Cursor)
    requires InBounds(job, c) && !Takes(job, c) && Plan(job, c).Some?
    ensures !c.Failed? && job.start <= c.anchor <= job.End() <= |job.buf|
    ensures job.policy.FillOutput? ==> c.token < job.olimit
    ensures Plan(job, c) == LastRun(job, c.anchor, c.token)
  {
  }

  // ----- The table -----

  lemma TakenLeaves(job: Job, c: Cursor)
    requires Takes(job, c)
    ensures InBounds(job, c) && InBounds(job, TakeMatch(job, c))
    ensures LeftBy(job, c, c.table) == LeftBy(job, TakeMatch(job, c), TableAfter(job, c))
  {
  }

  lemma StoppedLeaves(job: Job, c: Cursor, table: Table)
    requires InBounds(job, c) && |table| == job.TableSize() && (c.AtMatch? ==> c.table == table && !Takes(job, c))
    ensures LeftBy(job, c, table) == table
  {
  }

  /** Without a given output to fill, the next cursor carries the table it was found with. */
  lemma TakenTable(job: Job, c: Cursor)
    requires Takes(job, c) && !job.policy.FillOutput?
    ensures TableAfter(job, c) == MatchEndTable(job, c.table, NextIp(job, c))
    ensures c.anchor + 4 <= NextIp(job, c) && job.start + 2 <= NextIp(job, c)
    ensures TakeMatch(job, c).AtMatch? ==>
      TakeMatch(job, c).table == TableAfter(job, c) && TakeMatch(job, c).anchor == NextIp(job, c)
  {
    hide Search, Job.Hash, Job.Accepts, CatchUp, CommonLen;
  }

  // ----- Last literals -----

  /** Cutting the last run to the room: never negative, never past the data, and as long as can be. */
  lemma FillRunFits(room: nat, run: nat)
    requires run + (run + 240) / 255 > room
    ensures 0 <= FillRun(room) < run
    ensures FillRun(room) + LengthSize(FillRun(room)) <= room
  {
    CodeSize(FillRun(room));
  }

  /** The last literals: a stretch of the input from the anchor on, all of it unless cut to fit. */
  lemma LastRunShape(job: Job, anchor: nat, op: nat)
    requires job.start <= anchor <= job.End() <= |job.buf| && (job.policy.FillOutput? ==> op < job.olimit)
    requires LastRun(job, anchor, op).Some?
    ensures var b := LastRun(job, anchor, op).value;
            && b.Last? && b.spare == 0 && anchor + |b.literals| <= job.End()
            && b.literals == job.buf[anchor..anchor + |b.literals|]
            && (anchor + |b.literals| == job.End()
                || (job.policy.FillOutput? && |b.literals| == FillRun(job.olimit - op - 1)))
  {
    var run := job.End() - anchor;
    if job.policy.FillOutput? && op + run + 1 + (run + 240) / 255 > job.olimit {
      FillRunFits(job.olimit - op - 1, run);
    }
  }

  // ----- Expansion -----

  lemma MatchIsCopy(buf: seq<byte>, low: nat, p: nat, end: nat, d: nat)
    requires 1 <= d && low + d <= p <= end && Matches(buf, p, end, d)
    ensures CopyMatch(buf[low..p], d, end - p) == buf[low..end]
  {
    var out, r := buf[low..p], buf[low..end];
    forall i | |out| <= i < |r|
      ensures r[i] == r[i - d]
    {
      assert buf[low + i] == buf[low + i - d];
    }
    assert r[..|out|] == out;
    RepeatsIsCopyMatch(out, d, r);
  }

  lemma Slices(buf: seq<byte>, a: nat, b: nat, c: nat)
    requires a <= b <= c <= |buf|
    ensures buf[a..b] + buf[b..c] == buf[a..c]
  {
  }

  /** Four equal bytes, and more as counted. */
  lemma CountedMatch(buf: seq<byte>, ip: nat, pos: nat, limit: int, code: nat)
    requires pos <= ip && Matches(buf, ip, ip + MIN_MATCH, ip - pos) && limit <= |buf|
    requires code <= CommonLen(buf, ip + MIN_MATCH, pos + MIN_MATCH, limit)
    ensures Matches(buf, ip, ip + MIN_MATCH + code, ip - pos)
  {
    var p, q := ip + MIN_MATCH, pos + MIN_MATCH;
    CommonLenMatches(buf, p, q, limit);
    hide CommonLen;
    if code > 0 {
      assert Matches(buf, p, p + CommonLen(buf, p, q, limit), ip - pos);
    }
  }

  lemma FoundMatches(job: Job, c: Cursor)
    requires Sound(job, c) && Takes(job, c)
    ensures job.Low() <= c.pos < c.ip && c.ip - c.pos <= DISTANCE_MAX
    ensures Matches(job.buf, c.ip, c.ip + MIN_MATCH, c.ip - c.pos)
  {
    hide Good, Below, TooLong, Rewinds;
  }

  lemma TakenWithinCount(job: Job, c: Cursor)
    requires Takes(job, c)
    ensures TakenCode(job, c) <= CommonLen(job.buf, c.ip + MIN_MATCH, c.pos + MIN_MATCH, job.MatchLimit())
    ensures job.MatchLimit() <= |job.buf| && NextIp(job, c) == c.ip + MIN_MATCH + TakenCode(job, c)
  {
  }

  /** Everything a taken match covers repeats at its distance. */
  lemma TakenMatches(job: Job, c: Cursor)
    requires Sound(job, c) && Takes(job, c)
    ensures NextIp(job, c) <= job.MatchLimit() && Matches(job.buf, c.ip, NextIp(job, c), c.ip - c.pos)
  {
    assert c.AtMatch?;
    hide *;
    FoundMatches(job, c);
    TakenWithinCount(job, c);
    CountedMatch(job.buf, c.ip, c.pos, job.MatchLimit(), TakenCode(job, c));
  }

  /** A taken match copies exactly the bytes that follow in the input. */
  lemma TakenCopies(job: Job, c: Cursor)
    requires Sound(job, c) && Takes(job, c)
    ensures NextIp(job, c) <= job.MatchLimit()
    ensures var s := Taken(job, c);
            && WellFormedSequence(s) && 1 <= s.offset <= c.ip - job.Low()
            && |s.literals| == c.ip - c.anchor && s.matchLen == NextIp(job, c) - c.ip
            && job.buf[job.Low()..c.anchor] + s.literals == job.buf[job.Low()..c.ip]
            && CopyMatch(job.buf[job.Low()..c.ip], s.offset, s.matchLen) == job.buf[job.Low()..NextIp(job, c)]
  {
    hide *;
    TakenShape(job, c);
    TakenMatches(job, c);
    FoundMatches(job, c);
    MatchIsCopy(job.buf, job.start - job.dictSize, c.ip, NextIp(job, c), c.ip - c.pos);
    Slices(job.buf, job.start - job.dictSize, c.anchor, c.ip);
  }

  lemma TakenShape(job: Job, c: Cursor)
    requires Sound(job, c) && Takes(job, c)
    ensures c.AtMatch? && job.Low() == job.start - job.dictSize >= 0 && job.start <= c.anchor <= c.ip <= |job.buf|
    ensures NextIp(job, c) == c.ip + MIN_MATCH + TakenCode(job, c) <= job.End() <= |job.buf|
    ensures Taken(job, c) == Sequence(job.buf[c.anchor..c.ip], c.ip - c.pos, TakenCode(job, c) + MIN_MATCH)
    ensures WellFormedSequence(Taken(job, c))
  {
    FoundMatches(job, c);
    hide Good, Below, Matches, MatchCode;
  }

  /** What the block means: behind the history and the data before `anchor`, the data from there on,
      to the end unless the output was filled. */
  ghost predicate Expands(job: Job, anchor: nat, b: Block) {
    && job.dictSize <= job.start <= anchor && job.End() <= |job.buf|
    && WellFormed(b) && OffsetsPositive(b)
    && anchor + OutLen(b) <= job.End() && (!job.policy.FillOutput? ==> anchor + OutLen(b) == job.End())
    && Run(job.buf[job.Low()..anchor], b) == Some(job.buf[job.Low()..anchor + OutLen(b)])
  }

  lemma ExpandsLast(job: Job, anchor: nat, op: nat)
    requires job.Valid() && job.start <= anchor <= job.End() && (job.policy.FillOutput? ==> op < job.olimit)
    requires LastRun(job, anchor, op).Some?
    ensures Expands(job, anchor, LastRun(job, anchor, op).value)
  {
    LastRunShape(job, anchor, op);
    hide LastRun;
    var b := LastRun(job, anchor, op).value;
    Slices(job.buf, job.Low(), anchor, anchor + |b.literals|);
  }

  lemma ExpandsMore(job: Job, anchor: nat, ip: nat, next: nat, s: Sequence, rest: Block)
    requires Expands(job, next, rest) && job.start <= anchor <= ip <= next
    requires WellFormedSequence(s) && 1 <= s.offset <= ip - job.Low()
    requires |s.literals| == ip - anchor && s.matchLen == next - ip
    requires job.buf[job.Low()..anchor] + s.literals == job.buf[job.Low()..ip]
    requires CopyMatch(job.buf[job.Low()..ip], s.offset, s.matchLen) == job.buf[job.Low()..next]
    ensures Expands(job, anchor, More(s, rest))
  {
    hide CopyMatch, WellFormedSequence;
  }

  lemma ExpandsTaken(job: Job, c: Cursor, rest: Block)
    requires Sound(job, c) && Takes(job, c) && Expands(job, NextIp(job, c), rest)
    ensures Expands(job, c.anchor, More(Taken(job, c), rest))
  {
    assert c.AtMatch? && job.dictSize <= job.start;
    hide *;
    TakenCopies(job, c);
    TakenShape(job, c);
    ExpandsMore(job, c.anchor, c.ip, NextIp(job, c), Taken(job, c), rest);
  }

  /** The block expands, behind the history, to the input as far as it goes: all of it unless the
      output was filled. */
  lemma {:induction false} PlanExpands(job: Job, c: Cursor)
    requires Sound(job, c) && Plan(job, c).Some?
    ensures !c.Failed? && Expands(job, c.anchor, Plan(job, c).value)
    decreases Remaining(job, c)
  {
    hide Good, Below, TooLong, Matches, Expands;
    if Takes(job, c) {
      PlanTakes(job, c);
      TakeMatchIsSound(job, c);
      PlanExpands(job, TakeMatch(job, c));
      ExpandsTaken(job, c, Plan(job, TakeMatch(job, c)).value);
    } else {
      PlanStops(job, c);
      ExpandsLast(job, c.anchor, c.token);
    }
  }

  // ----- The end of the block -----

  lemma FillRunGrows(room: nat, room': nat)
    requires room <= room'
    ensures FillRun(room) <= FillRun(room')
    ensures FillRun(5) == 5 && FillRun(8) == 8
  {
  }

  /** Enough follows: another match, all of the input, or as many literals as fit. */
  predicate Lengthy(job: Job, anchor: nat, token: nat, b: Block) {
    || 9 <= OutLen(b)
    || anchor + OutLen(b) == job.End()
    || (job.policy.FillOutput? && token < job.olimit && FillRun(job.olimit - token - 1) <= OutLen(b))
  }

  lemma LastIsLengthy(job: Job, anchor: nat, op: nat)
    requires job.start <= anchor <= job.End() <= |job.buf| && (job.policy.FillOutput? ==> op < job.olimit)
    requires LastRun(job, anchor, op).Some?
    ensures var b := LastRun(job, anchor, op).value; EndsWell(b) && Lengthy(job, anchor, op, b)
  {
    LastRunShape(job, anchor, op);
  }

  /** After a taken match the room left, or the input left, is at least what the format asks for. */
  lemma TakenLeavesRoom(job: Job, c: Cursor, rest: Block)
    requires job.Valid() && Takes(job, c) && Lengthy(job, NextIp(job, c), NextOp(job, c), rest)
    ensures LAST_LITERALS <= OutLen(rest) && MF_LIMIT <= TakenCode(job, c) + MIN_MATCH + OutLen(rest)
  {
    if 9 <= OutLen(rest) {
    } else if NextIp(job, c) + OutLen(rest) == job.End() {
    } else if TooLong(job, c) {
      ShortenedFillsRoom(job, c);
      FillRunGrows(5, 5);
    } else {
      RoomAfterUncut(job, c);
      hide TakenCode, Takes, NextIp;
      var room := job.olimit - NextOp(job, c) - 1;
      FillRunGrows(5, room);
      if TakenCode(job, c) < 15 {
        FillRunGrows(8, room);
      }
    }
  }

  /** The block obeys the parsing restrictions. */
  lemma {:induction false} PlanEndsWell(job: Job, c: Cursor)
    requires Sound(job, c) && Plan(job, c).Some?
    ensures !c.Failed? && EndsWell(Plan(job, c).value) && Lengthy(job, c.anchor, c.token, Plan(job, c).value)
    decreases Remaining(job, c)
  {
    hide Good, Below, TooLong, Matches, Lengthy;
    if Takes(job, c) {
      PlanTakes(job, c);
      TakeMatchIsSound(job, c);
      PlanEndsWell(job, TakeMatch(job, c));
      var rest := Plan(job, TakeMatch(job, c)).value;
      TakenLeavesRoom(job, c, rest);
      LongEnough(job, c, rest);
    } else {
      PlanStops(job, c);
      LastIsLengthy(job, c.anchor, c.token);
    }
  }

  lemma LongEnough(job: Job, c: Cursor, rest: Block)
    requires Takes(job, c) && EndsWell(rest)
    requires LAST_LITERALS <= OutLen(rest) && MF_LIMIT <= TakenCode(job, c) + MIN_MATCH + OutLen(rest)
    ensures EndsWell(More(Taken(job, c), rest)) && Lengthy(job, c.anchor, c.token, More(Taken(job, c), rest))
  {
  }

  // ----- Room -----

  lemma EncodedSize(s: Sequence)
    requires WellFormedSequence(s)
    ensures |EncodeSequence(s)| == 3 + LengthSize(|s.literals|) + |s.literals| + LengthSize(s.matchLen - MIN_MATCH)
  {
    LengthBytesSize(|s.literals|);
    LengthBytesSize(s.matchLen - MIN_MATCH);
  }

  lemma EncodedLastSize(l: seq<byte>)
    ensures |Encode(Last(l, 0))| == 1 + LengthSize(|l|) + |l|
  {
    LengthBytesSize(|l|);
  }

  /** A taken match is written in the bytes between its token and the next one. */
  lemma TakenSize(job: Job, c: Cursor)
    requires Sound(job, c) && Takes(job, c)
    ensures WellFormedSequence(Taken(job, c))
    ensures c.token + |EncodeSequence(Taken(job, c))| == NextOp(job, c)
  {
    TakenShape(job, c);
    TakenOp(job, c);
    assert c.AtMatch?;
    hide *;
    EncodedSize(Taken(job, c));
  }

  lemma TakenOp(job: Job, c: Cursor)
    requires Sound(job, c) && Takes(job, c)
    ensures NextOp(job, c)
            == c.token + 3 + LengthSize(c.ip - c.anchor) + (c.ip - c.anchor) + LengthSize(TakenCode(job, c))
  {
    hide Good, Below, Matches;
  }

  /** With a limit, the block fits; and when filling the output leaves input behind, the room is
      full but for at most one byte. */
  lemma {:induction false} PlanFits(job: Job, c: Cursor)
    requires Sound(job, c) && Plan(job, c).Some?
    ensures var b := Plan(job, c).value;
            && !c.Failed? && WellFormed(b)
            && (!job.policy.NotLimited? ==> c.token + |Encode(b)| <= job.olimit)
            && (c.anchor + OutLen(b) < job.End() ==> job.olimit - 1 <= c.token + |Encode(b)|)
    decreases Remaining(job, c)
  {
    hide Good, Below, TooLong, Matches;
    if Takes(job, c) {
      PlanTakes(job, c);
      TakeMatchIsSound(job, c);
      PlanFits(job, TakeMatch(job, c));
      TakenSize(job, c);
      TakenShape(job, c);
    } else {
      PlanStops(job, c);
      LastFits(job, c.anchor, c.token);
    }
  }

  /** Cutting the last run leaves one byte unused exactly when the room, less the token, is 15
      modulo 256: one literal more would need one length byte more. */
  lemma FillRunIsFull(room: nat)
    ensures FillRun(room) >= 0
    ensures FillRun(room) + LengthSize(FillRun(room)) == room - (if room % 256 == 15 then 1 else 0)
  {
    CodeSize(FillRun(room));
    var k := (room + 241) / 256;
    if room % 256 == 15 {
      assert room + 241 == 256 * k;
    }
  }

  lemma LastFits(job: Job, anchor: nat, op: nat)
    requires job.start <= anchor <= job.End() <= |job.buf| && (job.policy.FillOutput? ==> op < job.olimit)
    requires LastRun(job, anchor, op).Some?
    ensures var b := LastRun(job, anchor, op).value;
            && WellFormed(b)
            && (!job.policy.NotLimited? ==> op + |Encode(b)| <= job.olimit)
            && (anchor + OutLen(b) < job.End() ==> job.olimit - 1 <= op + |Encode(b)|)
  {
    LastRunShape(job, anchor, op);
    var b := LastRun(job, anchor, op).value;
    EncodedLastSize(b.literals);
    CodeSize(|b.literals|);
    if anchor + OutLen(b) < job.End() {
      FillRunIsFull(job.olimit - op - 1);
    } else if job.policy.FillOutput? && op + (job.End() - anchor) + 1 + (job.End() - anchor + 240) / 255 > job.olimit {
      FillRunFits(job.olimit - op - 1, job.End() - anchor);
    }
  }

  /** Where the last token of a block stands. */
  function LastToken(b: Block): nat
    requires WellFormed(b)
  {
    match b
    case Last(_, _) => 0
    case More(s, rest) => |EncodeSequence(s)| + LastToken(rest)
  }

  /** Behind `op` bytes, the block reaches the limit, or one byte less when the room for the last
      run, token included, is 16 modulo 256. */
  ghost predicate FillsRoom(b: Block, op: nat, limit: int) {
    && WellFormed(b)
    && op + |Encode(b)| == limit - (if (limit - op - LastToken(b)) % 256 == 16 then 1 else 0)
  }

  lemma LastRunFills(job: Job, anchor: nat, op: nat)
    requires job.start <= anchor <= job.End() <= |job.buf| && job.policy.FillOutput? && op < job.olimit
    ensures var r := LastRun(job, anchor, op);
            r.Some? && (anchor + OutLen(r.value) < job.End() ==> FillsRoom(r.value, op, job.olimit))
  {
    LastRunShape(job, anchor, op);
    var b := LastRun(job, anchor, op).value;
    hide LastRun, FillRun;
    if anchor + OutLen(b) < job.End() {
      CutRunFills(b, job.olimit - op - 1, op);
    }
  }

  lemma CutRunFills(b: Block, room: nat, op: nat)
    requires b.Last? && b.spare == 0 && |b.literals| == FillRun(room)
    ensures FillsRoom(b, op, op + 1 + room)
  {
    EncodedLastSize(b.literals);
    FillRunIsFull(room);
    hide FillRun, Encode, LengthSize;
    assert (room + 1) % 256 == 16 <==> room % 256 == 15;
  }

  lemma FillsMore(s: Sequence, rest: Block, op: nat, next: nat, limit: int)
    requires WellFormedSequence(s) && FillsRoom(rest, next, limit) && next == op + |EncodeSequence(s)|
    ensures FillsRoom(More(s, rest), op, limit)
  {
    hide EncodeSequence;
  }

  /** A filled output is full, except when the room for the last run, token included, is 16 modulo
      256: then one byte of it stays unused. */
  lemma {:induction false} PlanFills(job: Job, c: Cursor)
    requires Sound(job, c) && Plan(job, c).Some? && job.policy.FillOutput?
    ensures !c.Failed?
    ensures c.anchor + OutLen(Plan(job, c).value) < job.End() ==> FillsRoom(Plan(job, c).value, c.token, job.olimit)
    decreases Remaining(job, c)
  {
    assert InBounds(job, c) && job.Valid();
    hide Sound, Takes, TakeMatch, Taken, NextIp, NextOp, Plan, FillsRoom, Remaining, EncodeSequence, LastRun,
        InBounds, Job.Valid;
    if Takes(job, c) {
      PlanTakes(job, c);
      TakeMatchIsSound(job, c);
      RemainingShrinks(job, c);
      PlanFills(job, TakeMatch(job, c));
      TakenSize(job, c);
      TakenShape(job, c);
      var rest := Plan(job, TakeMatch(job, c)).value;
      if NextIp(job, c) + OutLen(rest) < job.End() {
        FillsMore(Taken(job, c), rest, c.token, NextOp(job, c), job.olimit);
      }
    } else {
      PlanStops(job, c);
      LastRunFills(job, c.anchor, c.token);
    }
  }
}
