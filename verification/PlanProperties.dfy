/**
 What the compressor's decisions guarantee: every match it takes is real and in reach, the block
 expands to the input, it obeys the parsing restrictions, and it stays within its bounds.
 */
module PlanProperties {
  import opened Bytes
  import opened BlockFormat
  import opened MatchCount
  import opened GreedyPlan

  // ----- The hash table -----

  /** Whatever an entry says, acting on it is safe: it is inside the history, or will be turned down
      for distance or for lying outside the valid window. */
  ghost predicate EntryOk(job: Job, index: nat) {
    || job.dictSmall
    || index + job.dictSize >= job.startIndex
    || (job.tableType.ByU32? && index + DISTANCE_MAX < job.startIndex)
  }

  /** All entries are harmless, and fit their type. */
  ghost predicate TableOk(job: Job, table: Table) {
    && |table| == job.TableSize()
    && forall h :: 0 <= h < |table| ==> EntryOk(job, table[h]) && table[h] < job.EntryLimit()
  }

  /** No entry lies at or beyond `bound`. */
  ghost predicate Below(table: Table, bound: int) {
    forall h :: 0 <= h < |table| ==> table[h] < bound
  }

  /** Positions of this block stand where their hash says. */
  ghost predicate Placed(job: Job, table: Table) {
    && |table| == job.TableSize()
    && forall h :: 0 <= h < |table| && table[h] > job.startIndex ==>
         Hashable(job, job.Position(table[h])) && job.Hash(job.Position(table[h])) == h
  }

  ghost predicate Good(job: Job, table: Table) {
    TableOk(job, table) && (job.policy.FillOutput? ==> Placed(job, table))
  }

  /** An accepted candidate is real: behind the position, within reach, and equal in four bytes. */
  lemma AcceptedIsSound(job: Job, index: nat, p: nat)
    requires job.Valid() && Hashable(job, p) && p < job.MfLimitPlusOne()
    requires EntryOk(job, index) && index < job.Index(p) && job.Accepts(index, p)
    ensures job.Low() <= job.Position(index) < p
    ensures 1 <= p - job.Position(index) <= DISTANCE_MAX && Same4(job.buf, job.Position(index), p)
  {
  }

  lemma GoodSize(job: Job, table: Table)
    requires Good(job, table)
    ensures |table| == job.TableSize()
  {
  }

  lemma EntryOfGood(job: Job, table: Table, h: nat)
    requires Good(job, table) && h < |table|
    ensures EntryOk(job, table[h])
  {
  }

  /** Wherever a position can be entered, its index fits the type of the table. */
  lemma EnteredFits(job: Job, p: nat)
    requires job.Valid() && Hashable(job, p)
    ensures 0 <= job.Index(p) < job.EntryLimit()
    ensures job.tableType.ByU16? ==> job.Index(p) % 0x1_0000 == job.Index(p)
  {
  }

  lemma EnterKeepsGood(job: Job, table: Table, p: nat)
    requires job.Valid() && Good(job, table) && Hashable(job, p)
    ensures Good(job, table[job.Hash(p) := job.Index(p)])
  {
  }

  lemma EnterKeepsBelow(job: Job, table: Table, p: nat, bound: int)
    requires |table| == job.TableSize() && Hashable(job, p) && Below(table, bound) && job.Index(p) < bound
    ensures job.Index(p) >= 0 ==> Below(table[job.Hash(p) := job.Index(p)], bound)
  {
  }

  lemma BelowMore(table: Table, bound: int, bound': int)
    requires Below(table, bound) && bound <= bound'
    ensures Below(table, bound')
  {
  }

  lemma BelowAt(table: Table, bound: int, h: nat)
    requires Below(table, bound) && h < |table|
    ensures table[h] < bound
  {
  }

  /** What a search may come back with. */
  ghost predicate FindingOk(job: Job, r: Finding) {
    && Good(job, r.table)
    && match r
       case NotFound(table) => Below(table, job.Index(job.End()))
       case Found(p, m, table) =>
         && job.Low() <= m < p && p - m <= DISTANCE_MAX && Same4(job.buf, m, p)
         && Below(table, job.Index(p) + 1)
  }

  /** One position looked up and entered. */
  lemma VisitIsSound(job: Job, table: Table, p: nat)
    requires job.Valid() && Good(job, table) && Hashable(job, p) && |table| == job.TableSize()
    requires Below(table, job.Index(p)) && p < job.MfLimitPlusOne()
    ensures var h := job.Hash(p);
            && job.Index(p) >= 0
            && Good(job, table[h := job.Index(p)]) && Below(table[h := job.Index(p)], job.Index(p) + 1)
            && (job.Accepts(table[h], p) ==>
                  && job.Position(table[h]) >= 0
                  && FindingOk(job, Found(p, job.Position(table[h]), table[h := job.Index(p)])))
  {
    hide Job.Accepts, Job.Hash, EntryOk, Good, Below, Same4;
    var h := job.Hash(p);
    EnterKeepsGood(job, table, p);
    BelowMore(table, job.Index(p), job.Index(p) + 1);
    EnterKeepsBelow(job, table, p, job.Index(p) + 1);
    if job.Accepts(table[h], p) {
      EntryOfGood(job, table, h);
      BelowAt(table, job.Index(p), h);
      AcceptedIsSound(job, table[h], p);
    }
  }

  lemma SearchEnds(job: Job, table: Table, fwd: nat, step: nat, nb: nat)
    requires |table| == job.TableSize() && Hashable(job, fwd) && 1 <= step && 64 <= nb
    requires fwd + step > job.MfLimitPlusOne()
    ensures Search(job, table, fwd, step, nb) == NotFound(table)
  {
  }

  lemma SearchVisits(job: Job, table: Table, fwd: nat, step: nat, nb: nat)
    requires |table| == job.TableSize() && Hashable(job, fwd) && 1 <= step && 64 <= nb
    requires fwd + step <= job.MfLimitPlusOne()
    ensures var h := job.Hash(fwd);
            var entered := table[h := job.Index(fwd)];
            Search(job, table, fwd, step, nb)
            == if job.Accepts(table[h], fwd) then Found(fwd, job.Position(table[h]), entered)
               else Search(job, entered, fwd + step, nb / 64, nb + 1)
  {
  }

  lemma NothingFoundIsSound(job: Job, table: Table, fwd: nat)
    requires Good(job, table) && Hashable(job, fwd) && Below(table, job.Index(fwd))
    ensures FindingOk(job, NotFound(table))
  {
    hide Good;
  }

  /** The search only ever sees entries below the position it looks up, and what it finds is sound. */
  lemma {:induction false} SearchIsSound(job: Job, table: Table, fwd: nat, step: nat, nb: nat)
    requires job.Valid() && Good(job, table) && Hashable(job, fwd) && 1 <= step && 64 <= nb
    requires Below(table, job.Index(fwd))
    ensures FindingOk(job, Search(job, table, fwd, step, nb))
    decreases job.MfLimitPlusOne() - fwd
  {
    hide Job.Accepts, Job.Hash, Good, Below, Same4, Job.Valid, Search, FindingOk;
    GoodSize(job, table);
    var next := fwd + step;
    if next > job.MfLimitPlusOne() {
      SearchEnds(job, table, fwd, step, nb);
      NothingFoundIsSound(job, table, fwd);
    } else {
      SearchVisits(job, table, fwd, step, nb);
      VisitIsSound(job, table, fwd);
      if !job.Accepts(table[job.Hash(fwd)], fwd) {
        var entered := table[job.Hash(fwd) := job.Index(fwd)];
        BelowMore(entered, job.Index(fwd) + 1, job.Index(next));
        SearchIsSound(job, entered, next, nb / 64, nb + 1);
      }
    }
  }

  // ----- Cursors -----

  /** From `p` up to `end` the buffer repeats at distance `d`. */
  ghost predicate Matches(buf: seq<byte>, p: nat, end: nat, d: nat) {
    d <= p && end <= |buf| && forall i :: p <= i < end ==> buf[i] == buf[i - d]
  }

  /** A cursor that can be trusted: unless the match is about to be given back, it is real (through the
      four bytes at the position where it was found), and the table holds nothing beyond that position. */
  ghost predicate Sound(job: Job, c: Cursor) {
    && job.Valid() && InBounds(job, c)
    && (c.AtMatch? && !Rewinds(job, c) ==>
          && job.Low() <= c.pos < c.ip && c.ip - c.pos <= DISTANCE_MAX
          && Matches(job.buf, c.ip, Max(c.ip, c.filled) + MIN_MATCH, c.ip - c.pos)
          && Good(job, c.table) && Below(c.table, job.Index(Max(c.ip, c.filled)) + 1)
          && c.op == c.token + 1 + LengthSize(c.ip - c.anchor) + (c.ip - c.anchor))
  }

  lemma {:induction false} CatchUpIsSound(job: Job, anchor: nat, ip: nat, m: nat, end: nat)
    requires job.Valid() && job.start <= anchor <= ip <= end && job.Low() <= m < ip && Matches(job.buf, ip, end, ip - m)
    ensures var k := CatchUp(job, anchor, ip, m);
            job.Low() <= m - k && Matches(job.buf, ip - k, end, ip - m)
    decreases ip
  {
    if ip > anchor && m > job.Low() && job.buf[ip - 1] == job.buf[m - 1] {
      CatchUpIsSound(job, anchor, ip - 1, m - 1, end);
    }
  }

  /** The catch-up goes as far as it can: to the anchor, the start of the history, or a difference. */
  lemma {:induction false} CatchUpIsLongest(job: Job, anchor: nat, ip: nat, m: nat)
    requires job.Valid() && anchor <= ip <= |job.buf| && m <= |job.buf|
    ensures var k := CatchUp(job, anchor, ip, m);
            ip - k == anchor || m - k <= job.Low() || job.buf[ip - k - 1] != job.buf[m - k - 1]
    decreases ip
  {
    if ip > anchor && m > job.Low() && job.buf[ip - 1] == job.buf[m - 1] {
      CatchUpIsLongest(job, anchor, ip - 1, m - 1);
    }
  }

  lemma SameIsMatch(buf: seq<byte>, p: nat, m: nat)
    requires m <= p && Same4(buf, m, p)
    ensures Matches(buf, p, p + MIN_MATCH, p - m)
  {
  }

  lemma WithLiteralsIsSound(job: Job, table: Table, anchor: nat, ip: nat, m: nat, filled: nat, op: nat)
    requires job.Valid() && Good(job, table) && |table| == job.TableSize()
    requires job.start <= anchor <= ip <= filled < job.MfLimitPlusOne()
    requires job.Low() <= m < ip && ip - m <= DISTANCE_MAX && Matches(job.buf, ip, filled + MIN_MATCH, ip - m)
    requires Below(table, job.Index(filled) + 1) && (job.policy.FillOutput? ==> op < job.olimit)
    ensures Sound(job, WithLiterals(job, table, anchor, ip, m, filled, op))
  {
    hide Good, Below, Matches;
  }

  lemma LastIsSound(job: Job, anchor: nat, op: nat)
    requires job.Valid() && job.start <= anchor <= job.End() && (job.policy.FillOutput? ==> op < job.olimit)
    ensures Sound(job, AtLast(anchor, op))
  {
  }

  lemma ChainIsSound(job: Job, table: Table, ip: nat, pos: nat, filled: nat, op: nat)
    requires job.Valid() && Good(job, table) && |table| == job.TableSize()
    requires job.start <= ip < job.MfLimitPlusOne() && filled < ip
    requires job.Low() <= pos < ip && ip - pos <= DISTANCE_MAX && Same4(job.buf, pos, ip)
    requires Below(table, job.Index(ip) + 1) && (job.policy.FillOutput? ==> op < job.olimit)
    ensures Sound(job, AtMatch(table, ip, ip, pos, filled, op, op + 1))
  {
    SameIsMatch(job.buf, ip, pos);
    hide Good, Below, Matches;
  }

  lemma FoundIsSound(job: Job, table: Table, anchor: nat, p: nat, m: nat, op: nat)
    requires job.Valid() && Good(job, table) && |table| == job.TableSize()
    requires job.start <= anchor <= p < job.MfLimitPlusOne() && m <= |job.buf|
    requires job.Low() <= m < p && p - m <= DISTANCE_MAX && Same4(job.buf, m, p)
    requires Below(table, job.Index(p) + 1) && (job.policy.FillOutput? ==> op < job.olimit)
    ensures var k := CatchUp(job, anchor, p, m); Sound(job, WithLiterals(job, table, anchor, p - k, m - k, p, op))
  {
    hide Good, Same4, CatchUp, Matches, Below, WithLiterals, Sound;
    SameIsMatch(job.buf, p, m);
    CatchUpIsSound(job, anchor, p, m, p + MIN_MATCH);
    var k := CatchUp(job, anchor, p, m);
    WithLiteralsIsSound(job, table, anchor, p - k, m - k, p, op);
  }

  lemma FromSearchFound(job: Job, table: Table, anchor: nat, ip: nat, op: nat, p: nat, m: nat, entered: Table)
    requires job.Valid() && |table| == job.TableSize() && Hashable(job, ip) && job.start <= anchor <= ip
    requires Search(job, table, ip, 1, job.acceleration * 64) == Found(p, m, entered)
    ensures anchor <= p < job.MfLimitPlusOne() && m <= |job.buf| && |entered| == job.TableSize()
    ensures var k := CatchUp(job, anchor, p, m);
            FromSearch(job, table, anchor, ip, op) == WithLiterals(job, entered, anchor, p - k, m - k, p, op)
  {
    hide Search, CatchUp, WithLiterals, Job.Valid;
  }

  lemma FromSearchNotFound(job: Job, table: Table, anchor: nat, ip: nat, op: nat)
    requires job.Valid() && |table| == job.TableSize() && Hashable(job, ip) && job.start <= anchor <= ip
    requires Search(job, table, ip, 1, job.acceleration * 64).NotFound?
    ensures FromSearch(job, table, anchor, ip, op) == AtLast(anchor, op)
  {
    hide Search, CatchUp, WithLiterals, Job.Valid;
  }

  lemma FromSearchIsSound(job: Job, table: Table, anchor: nat, ip: nat, op: nat)
    requires job.Valid() && Good(job, table) && Hashable(job, ip) && job.start <= anchor <= ip
    requires Below(table, job.Index(ip)) && (job.policy.FillOutput? ==> op < job.olimit)
    ensures Sound(job, FromSearch(job, table, anchor, ip, op))
  {
    assert |table| == job.TableSize();
    hide Job.Accepts, Good, Same4, Search, CatchUp, Matches, Below, WithLiterals, Sound, FromSearch;
    SearchIsSound(job, table, ip, 1, job.acceleration * 64);
    match Search(job, table, ip, 1, job.acceleration * 64)
    case NotFound(_) =>
      FromSearchNotFound(job, table, anchor, ip, op);
      LastIsSound(job, anchor, op);
    case Found(p, m, entered) =>
      FromSearchFound(job, table, anchor, ip, op, p, m, entered);
      FoundIsSound(job, entered, anchor, p, m, op);
  }

  lemma MatchEndVisits(job: Job, table: Table, ip: nat, op: nat, filled: nat)
    requires |table| == job.TableSize() && job.start + 2 <= ip < job.MfLimitPlusOne() && job.End() <= |job.buf|
    requires 1 <= job.acceleration
    ensures var filling := table[job.Hash(ip - 2) := job.Index(ip - 2)];
            var h := job.Hash(ip);
            var entered := filling[h := job.Index(ip)];
            FromMatchEnd(job, table, ip, op, filled)
            == if job.Accepts(filling[h], ip)
               then AtMatch(entered, ip, ip, job.Position(filling[h]), filled, op, op + 1)
               else FromSearch(job, entered, ip, ip + 1, op)
  {
    hide FromSearch;
  }

  /** Behind a match the two positions entered leave a table that can be trusted, and the candidate
      for the second, if accepted, is real. */
  lemma EnteredBehind(job: Job, table: Table, ip: nat)
    requires job.Valid() && Good(job, table) && job.start + MIN_MATCH <= ip < job.MfLimitPlusOne()
    requires Below(table, job.Index(ip))
    ensures |table| == job.TableSize() && ip <= job.End() <= |job.buf| && 1 <= job.acceleration && Hashable(job, ip + 1)
    ensures 0 <= job.Index(ip - 2) < job.Index(ip)
    ensures var filling := table[job.Hash(ip - 2) := job.Index(ip - 2)];
            var h := job.Hash(ip);
            var entered := filling[h := job.Index(ip)];
            && |entered| == job.TableSize() && Good(job, entered) && Below(entered, job.Index(ip) + 1)
            && (job.Accepts(filling[h], ip) ==>
                  job.Position(filling[h]) >= 0 && FindingOk(job, Found(ip, job.Position(filling[h]), entered)))
  {
    assert Hashable(job, ip) && Hashable(job, ip - 2) && |table| == job.TableSize();
    hide Job.Accepts, Good, Same4, Job.Hash, Below, FindingOk;
    EnterKeepsGood(job, table, ip - 2);
    EnterKeepsBelow(job, table, ip - 2, job.Index(ip));
    VisitIsSound(job, table[job.Hash(ip - 2) := job.Index(ip - 2)], ip);
  }

  lemma AgainIsSound(job: Job, table: Table, ip: nat, op: nat, filled: nat)
    requires job.Valid() && Good(job, table) && job.start + MIN_MATCH <= ip < job.MfLimitPlusOne()
    requires Below(table, job.Index(ip)) && filled < ip && (job.policy.FillOutput? ==> op < job.olimit)
    ensures |table| == job.TableSize() && job.End() <= |job.buf| && 1 <= job.acceleration
    ensures Sound(job, FromMatchEnd(job, table, ip, op, filled))
  {
    hide Job.Accepts, Good, Same4, Job.Hash, FromSearch, FromMatchEnd, Matches, Below, Sound, Job.Valid, Hashable;
    EnteredBehind(job, table, ip);
    MatchEndVisits(job, table, ip, op, filled);
    var filling := table[job.Hash(ip - 2) := job.Index(ip - 2)];
    var entered := filling[job.Hash(ip) := job.Index(ip)];
    if job.Accepts(filling[job.Hash(ip)], ip) {
      ChainIsSound(job, entered, ip, job.Position(filling[job.Hash(ip)]), filled, op);
    } else {
      BelowMore(entered, job.Index(ip) + 1, job.Index(ip + 1));
      FromSearchIsSound(job, entered, ip, ip + 1, op);
    }
  }

  /** The table may hold `ip - 2`, just entered, and what was there before: all below `ip`. */
  lemma FromMatchEndIsSound(job: Job, table: Table, ip: nat, op: nat, filled: nat)
    requires job.Valid() && Good(job, table) && job.start + MIN_MATCH <= ip <= job.End()
    requires Below(table, job.Index(ip)) && filled < ip && filled < job.MfLimitPlusOne()
    requires job.policy.FillOutput? ==> op < job.olimit
    ensures Sound(job, FromMatchEnd(job, table, ip, op, filled))
  {
    if ip < job.MfLimitPlusOne() {
      AgainIsSound(job, table, ip, op, filled);
    } else {
      LastIsSound(job, ip, op);
    }
  }

  // ----- Taking a match -----

  lemma {:induction false} CommonLenMatches(buf: seq<byte>, p: nat, q: nat, limit: int)
    requires q <= p && limit <= |buf|
    ensures Matches(buf, p, p + CommonLen(buf, p, q, limit), p - q) || CommonLen(buf, p, q, limit) == 0
    decreases limit - p
  {
    if p < limit && buf[p] == buf[q] {
      CommonLenMatches(buf, p + 1, q + 1, limit);
    }
  }

  /** LZ4_count stops at the first difference, so it covers everything known to match. */
  lemma {:induction false} CommonLenCovers(buf: seq<byte>, p: nat, q: nat, limit: int, end: nat)
    requires q <= p && end <= limit <= |buf| && (p < end ==> Matches(buf, p, end, p - q))
    ensures end <= p + CommonLen(buf, p, q, limit)
    decreases limit - p
  {
    if p < end {
      assert buf[p] == buf[p - (p - q)];
      CommonLenCovers(buf, p + 1, q + 1, limit, end);
    }
  }

  lemma {:induction false} ClearIsSound(job: Job, table: Table, p: nat, last: nat)
    requires job.Valid() && |table| == job.TableSize() && (p <= last ==> Hashable(job, p) && Hashable(job, last))
    ensures forall h :: 0 <= h < |table| ==>
      var e := Clear(job, table, p, last)[h];
      e == 0 || (e == table[h] && forall i {:trigger job.Hash(i)} :: p <= i <= last ==> job.Hash(i) != h)
    decreases last + 1 - p
  {
    hide Job.Hash;
    if p <= last {
      ClearIsSound(job, table[job.Hash(p) := 0], p + 1, last);
    }
  }

  /** An entry of this block that survives the clearing lies outside the positions cleared. */
  lemma SurvivorIsOutside(job: Job, table: Table, ip: nat, filled: nat, h: nat)
    requires job.Valid() && Placed(job, table) && h < |table| && table[h] > job.startIndex
    requires job.start < ip <= filled < job.MfLimitPlusOne()
    requires forall i {:trigger job.Hash(i)} :: ip <= i <= filled ==> job.Hash(i) != h
    ensures table[h] < job.Index(ip) || table[h] > job.Index(filled)
  {
    assert Hashable(job, job.Position(table[h])) && job.Hash(job.Position(table[h])) == h;
  }

  /** Removing the positions from `ip` to the last one entered leaves only entries below `ip`. */
  lemma ClearedIsBelow(job: Job, table: Table, ip: nat, filled: nat)
    requires job.Valid() && job.policy.FillOutput? && Good(job, table)
    requires job.start < ip <= filled < job.MfLimitPlusOne() && Below(table, job.Index(filled) + 1)
    ensures Good(job, Clear(job, table, ip, filled)) && Below(Clear(job, table, ip, filled), job.Index(ip))
  {
    ClearIsSound(job, table, ip, filled);
    var cleared := Clear(job, table, ip, filled);
    hide Job.Hash, Clear;
    forall h | 0 <= h < |cleared|
      ensures cleared[h] < job.Index(ip) && EntryOk(job, cleared[h]) && cleared[h] < job.EntryLimit()
      ensures cleared[h] > job.startIndex ==>
        Hashable(job, job.Position(cleared[h])) && job.Hash(job.Position(cleared[h])) == h
    {
      if cleared[h] > job.startIndex {
        SurvivorIsOutside(job, table, ip, filled, h);
      }
    }
  }

  /** Where no match fits any more, the next stop is the last literals. */
  lemma TightIsLast(job: Job, table: Table, ip: nat, op: nat, filled: nat)
    requires job.Valid() && |table| == job.TableSize() && job.start + 2 <= ip <= job.End()
    requires job.policy.FillOutput? && op < job.olimit < op + 12 && filled < job.MfLimitPlusOne()
    ensures Sound(job, FromMatchEnd(job, table, ip, op, filled))
  {
    hide Job.Accepts, Job.Hash, Search, CatchUp;
  }

  lemma ShortenedFillsRoom(job: Job, c: Cursor)
    requires Takes(job, c) && TooLong(job, c)
    ensures c.op + 2 + LengthSize(TakenCode(job, c)) == job.olimit - (1 + LAST_LITERALS)
    ensures 14 + 765 <= TakenCode(job, c)
  {
    hide MatchCode;
    var room := job.olimit - (c.op + 2) - 1 - LAST_LITERALS;
    assert TakenCode(job, c) == 14 + room * 255;
    assert LengthSize(14 + room * 255) == room by {
      assert 14 + room * 255 - 15 == (room - 1) * 255 + 254;
      assert ((room - 1) * 255 + 254) / 255 == room - 1;
    }
  }

  lemma UncutCoversFilled(job: Job, c: Cursor)
    requires Sound(job, c) && Takes(job, c) && !TooLong(job, c)
    ensures Max(c.ip, c.filled) + MIN_MATCH <= c.ip + MIN_MATCH + TakenCode(job, c)
  {
    hide Good, Below;
    CommonLenCovers(job.buf, c.ip + MIN_MATCH, c.pos + MIN_MATCH, job.MatchLimit(), Max(c.ip, c.filled) + MIN_MATCH);
  }

  lemma TakeShortenedIsSound(job: Job, c: Cursor)
    requires Sound(job, c) && Takes(job, c) && TooLong(job, c)
    ensures Sound(job, FromMatchEnd(job, NextTable(job, c), NextIp(job, c), NextOp(job, c), c.filled))
  {
    ShortenedFillsRoom(job, c);
    hide Good, Below, Matches, FromMatchEnd, NextTable, MatchCode, TakenCode, TooLong, Rewinds;
    TightIsLast(job, NextTable(job, c), NextIp(job, c), NextOp(job, c), c.filled);
  }

  lemma TakeUncutIsSound(job: Job, c: Cursor)
    requires Sound(job, c) && Takes(job, c) && !TooLong(job, c)
    ensures Sound(job, FromMatchEnd(job, NextTable(job, c), NextIp(job, c), NextOp(job, c), c.filled))
  {
    UncutCoversFilled(job, c);
    RoomAfterUncut(job, c);
    hide Good, Below, Matches, FromMatchEnd, MatchCode, TakenCode, TooLong, Rewinds, Clear;
    BelowMore(c.table, job.Index(Max(c.ip, c.filled)) + 1, job.Index(NextIp(job, c)));
    FromMatchEndIsSound(job, c.table, NextIp(job, c), NextOp(job, c), c.filled);
  }

  /** Taking a match leads to a cursor that can be trusted again, also when the match was shortened
      to end before the position where it was found. */
  lemma TakeMatchIsSound(job: Job, c: Cursor)
    requires Sound(job, c) && Takes(job, c)
    ensures Sound(job, TakeMatch(job, c))
  {
    hide FromMatchEnd, NextTable, NextIp, NextOp;
    if TooLong(job, c) {
      TakeShortenedIsSound(job, c);
    } else {
      TakeUncutIsSound(job, c);
    }
  }

  lemma RoomAfterUncut(job: Job, c: Cursor)
    requires Takes(job, c) && !TooLong(job, c)
    ensures !job.policy.NotLimited? ==>
      c.op + 2 + LengthSize(TakenCode(job, c)) + 1 + LAST_LITERALS <= job.olimit
    ensures job.policy.FillOutput? && TakenCode(job, c) < 15 ==>
      c.op + 2 + LengthSize(TakenCode(job, c)) + 1 + MF_LIMIT - MIN_MATCH <= job.olimit
  {
    hide MatchCode;
    CodeSize(TakenCode(job, c));
  }

  /** The length test of the code counts the bytes a match length takes. */
  lemma CodeSize(n: nat)
    ensures LengthSize(n) == (n + 240) / 255
  {
  }

  /** At the end of a taken match the table is harmless again and holds nothing at or beyond that end:
      what the next lookup finds is always behind it. */
  lemma NextTableIsSound(job: Job, c: Cursor)
    requires Sound(job, c) && Takes(job, c)
    ensures Good(job, NextTable(job, c)) && Below(NextTable(job, c), job.Index(NextIp(job, c)))
  {
    if TooLong(job, c) {
      if NextIp(job, c) <= c.filled {
        ClearedIsBelow(job, c.table, NextIp(job, c), c.filled);
      } else {
        BelowMore(c.table, job.Index(Max(c.ip, c.filled)) + 1, job.Index(NextIp(job, c)));
      }
    } else {
      UncutCoversFilled(job, c);
      BelowMore(c.table, job.Index(Max(c.ip, c.filled)) + 1, job.Index(NextIp(job, c)));
    }
  }
}
