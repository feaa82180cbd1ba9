/**
 What the compressor must find. The other modules say that whatever it finds is real; here it is said
 when the search succeeds and where, which matches are written for it, and what later blocks still know.
 */
module Detection {
  import opened Bytes
  import opened BlockFormat
  import opened MatchCount
  import opened GreedyPlan
  import opened PlanProperties
  import opened PlanTheorems
  import opened PlanLimits

  // ----- Equal bytes, equal slots -----

  lemma {:induction false} SameNumber(buf: seq<byte>, p: nat, q: nat, n: nat)
    requires p + n <= |buf| && q + n <= |buf| && buf[p..p + n] == buf[q..q + n]
    ensures LittleEndian(buf, p, n) == LittleEndian(buf, q, n)
    decreases n
  {
    if n > 0 {
      assert buf[p] == buf[p..p + n][0] && buf[q] == buf[q..q + n][0];
      assert buf[p + 1..p + n] == buf[p..p + n][1..] && buf[q + 1..q + n] == buf[q..q + n][1..];
      SameNumber(buf, p + 1, q + 1, n - 1);
    }
  }

  /** Where the same eight bytes stand, the same slot is looked up. */
  lemma SameSlot(job: Job, p: nat, q: nat)
    requires p + 8 <= |job.buf| && q + 8 <= |job.buf| && job.buf[p..p + 8] == job.buf[q..q + 8]
    ensures job.Hash(p) == job.Hash(q)
  {
    hide Hash4, Hash5, LittleEndian;
    assert job.buf[p..p + 4] == job.buf[p..p + 8][..4] && job.buf[q..q + 4] == job.buf[q..q + 8][..4];
    SameNumber(job.buf, p, q, 4);
    SameNumber(job.buf, p, q, 8);
  }

  // ----- The first position found -----

  /** Of the positions from `fwd` on, looked up one by one, `p` is the first whose candidate is accepted: its
      slot is not taken by the positions before it, none of these is found by another or by the table. */
  ghost predicate FoundFirst(job: Job, table: Table, fwd: nat, p: nat) {
    && |table| == job.TableSize() && job.start <= fwd <= p && p + 1 <= job.MfLimitPlusOne()
    && job.End() <= |job.buf|
    && (forall q: nat {:trigger job.Hash(q)} :: fwd <= q < p ==>
          !job.Accepts(table[job.Hash(q)], q) && job.Hash(q) != job.Hash(p))
    && (forall q: nat, r: nat :: fwd <= q < r < p ==> !Same4(job.buf, q, r))
    && job.Accepts(table[job.Hash(p)], p)
  }

  /** The same behind one more position looked up. */
  lemma FoundLater(job: Job, table: Table, fwd: nat, p: nat)
    requires FoundFirst(job, table, fwd, p) && fwd < p && 0 <= job.Index(fwd)
    ensures job.Hash(fwd) != job.Hash(p) && !job.Accepts(table[job.Hash(fwd)], fwd)
    ensures FoundFirst(job, table[job.Hash(fwd) := job.Index(fwd)], fwd + 1, p)
  {
    var entered := table[job.Hash(fwd) := job.Index(fwd)];
    forall q: nat | fwd + 1 <= q < p
      ensures !job.Accepts(entered[job.Hash(q)], q) && job.Hash(q) != job.Hash(p)
    {
      EnteredNotFound(job, fwd, q);
    }
  }

  lemma EnteredNotFound(job: Job, q: nat, r: nat)
    requires !Same4(job.buf, q, r) && 0 <= job.Index(q)
    ensures !job.Accepts(job.Index(q), r)
  {
    hide Same4;
  }

  lemma FoundHere(job: Job, table: Table, fwd: nat, p: nat)
    requires FoundFirst(job, table, fwd, p)
    ensures |table| == job.TableSize() && Hashable(job, fwd) && fwd + 1 <= job.MfLimitPlusOne()
    ensures fwd + 8 <= |job.buf| && 0 <= job.Index(fwd) && fwd <= p && p + 8 <= |job.buf|
    ensures fwd == p ==> job.Accepts(table[job.Hash(p)], p)
  {
    hide Same4, Job.Accepts, Job.Hash;
  }

  lemma FoundReal(job: Job, table: Table, fwd: nat, p: nat)
    requires FoundFirst(job, table, fwd, p)
    ensures |table| == job.TableSize() && fwd <= p && p + 8 <= |job.buf| && 0 <= job.Position(table[job.Hash(p)])
  {
  }

  /** As long as the stride is 1, the search finds it; the first position is looked up at any stride. */
  lemma {:induction false} SearchFinds(job: Job, table: Table, fwd: nat, nb: nat, p: nat)
    requires FoundFirst(job, table, fwd, p) && 64 <= nb && (fwd == p || nb + (p - fwd) <= 128)
    ensures Hashable(job, fwd) && p + 8 <= |job.buf|
    ensures var r := Search(job, table, fwd, 1, nb);
            r.Found? && r.ip == p && r.pos == job.Position(table[job.Hash(p)])
    decreases p - fwd
  {
    hide Search, Job.Hash, Job.Accepts, Same4, FoundFirst, Hashable, Job.Index, Job.Position;
    FoundHere(job, table, fwd, p);
    SearchVisits(job, table, fwd, 1, nb);
    if fwd < p {
      FoundLater(job, table, fwd, p);
      SearchFinds(job, table[job.Hash(fwd) := job.Index(fwd)], fwd + 1, nb + 1, p);
    }
  }

  /** Nothing is found where the first candidate is turned down and the stride then leaps past the end. */
  lemma LeapsPast(job: Job, table: Table, fwd: nat, nb: nat)
    requires |table| == job.TableSize() && Hashable(job, fwd) && fwd + 1 <= job.MfLimitPlusOne() && 64 <= nb
    requires !job.Accepts(table[job.Hash(fwd)], fwd) && fwd + 1 + nb / 64 > job.MfLimitPlusOne()
    ensures Search(job, table, fwd, 1, nb).NotFound?
  {
    hide Search, Job.Hash, Job.Accepts;
    SearchVisits(job, table, fwd, 1, nb);
    SearchEnds(job, table[job.Hash(fwd) := job.Index(fwd)], fwd + 1, nb / 64, nb + 1);
  }

  // ----- One match, and it is over -----

  /** From `p` to the end everything repeats what stands `d` bytes before. */
  ghost predicate RepeatsFrom(buf: seq<byte>, p: nat, d: nat, end: nat) {
    d <= p <= end <= |buf| && forall i :: p <= i < end ==> buf[i] == buf[i - d]
  }

  lemma {:induction false} RepeatsCount(buf: seq<byte>, p: nat, d: nat, end: nat, limit: nat)
    requires RepeatsFrom(buf, p, d, end) && limit <= end
    ensures CommonLen(buf, p, p - d, limit) == if p <= limit then limit - p else 0
    decreases end - p
  {
    if p < limit {
      RepeatsCount(buf, p + 1, d, end, limit);
    }
  }

  /** The block of one match that goes on to five bytes before the end. */
  function OneMatch(buf: seq<byte>, anchor: nat, ip: nat, d: nat, end: nat): Block
    requires anchor <= ip && ip + 4 <= end - LAST_LITERALS && end <= |buf|
  {
    var limit := end - LAST_LITERALS;
    More(Sequence(buf[anchor..ip], d, limit - ip), Last(buf[limit..end], 0))
  }

  lemma OneMatchSize(buf: seq<byte>, anchor: nat, ip: nat, d: nat, end: nat)
    requires anchor <= ip && ip + 4 <= end - LAST_LITERALS && end <= |buf| && d <= DISTANCE_MAX
    ensures var b := OneMatch(buf, anchor, ip, d, end);
            && WellFormed(b)
            && |Encode(b)| == 9 + (ip - anchor) + LengthSize(ip - anchor) + LengthSize(end - 9 - ip)
  {
    var b := OneMatch(buf, anchor, ip, d, end);
    EncodedSize(b.first);
    EncodedLastSize(b.rest.literals);
  }

  /** Without a limit, a match that goes on to the end is the last. */
  lemma PlanOneMatch(job: Job, c: Cursor)
    requires job.policy.NotLimited? && c.AtMatch? && InBounds(job, c) && c.pos < c.ip
    requires RepeatsFrom(job.buf, c.ip, c.ip - c.pos, job.End())
    ensures c.anchor <= c.ip && c.ip + 4 <= job.End() - LAST_LITERALS && job.End() <= |job.buf|
    ensures Plan(job, c) == Some(OneMatch(job.buf, c.anchor, c.ip, c.ip - c.pos, job.End()))
  {
    RepeatsCount(job.buf, c.ip + MIN_MATCH, c.ip - c.pos, job.End(), job.MatchLimit());
    var limit := job.End() - LAST_LITERALS;
    hide CommonLen, Job.Hash, Job.Accepts, FromSearch, LastRun;
    assert NextIp(job, c) == limit;
    PlanTakes(job, c);
    EndsThere(job, NextTable(job, c), limit, NextOp(job, c), c.filled);
  }

  lemma EndsThere(job: Job, table: Table, ip: nat, op: nat, filled: nat)
    requires job.policy.NotLimited? && |table| == job.TableSize() && job.start + 2 <= ip && job.End() <= |job.buf|
    requires 1 <= job.acceleration && job.MfLimitPlusOne() <= ip <= job.End()
    ensures InBounds(job, FromMatchEnd(job, table, ip, op, filled))
    ensures Plan(job, FromMatchEnd(job, table, ip, op, filled)) == Some(Last(job.buf[ip..job.End()], 0))
  {
  }

  // ----- What is first found is first written -----

  /** The table a search starts with: the first position is entered. */
  function Begun(job: Job, table: Table): Table
    requires |table| == job.TableSize() && job.start + 8 <= |job.buf|
  {
    table[job.Hash(job.start) := job.startIndex]
  }

  /** The compressor stands at the first match found, moved back as far as it goes. */
  lemma FirstFound(job: Job, table: Table, p: nat, m: nat)
    requires job.End() <= |job.buf| && MIN_LENGTH <= job.size && |table| == job.TableSize() && job.policy.NotLimited?
    requires if job.acceleration == 1 then p <= job.start + 65 else 1 <= job.acceleration && p == job.start + 1
    requires FoundFirst(job, Begun(job, table), job.start + 1, p) && m == job.Position(Begun(job, table)[job.Hash(p)])
    ensures 1 <= job.acceleration && job.start <= p <= |job.buf| && m <= |job.buf|
    ensures var c, k := FirstCursor(job, table), CatchUp(job, job.start, p, m);
            c.AtMatch? && c.anchor == job.start && c.ip == p - k && c.pos == m - k && c.token == 0
  {
    hide Job.Hash, Job.Accepts, Search, CatchUp, FoundFirst;
    SearchFinds(job, Begun(job, table), job.start + 1, job.acceleration * 64, p);
  }

  /** The first sequence of the block is that match. */
  lemma FirstWritten(job: Job, table: Table, p: nat, m: nat)
    requires job.End() <= |job.buf| && MIN_LENGTH <= job.size && |table| == job.TableSize() && job.policy.NotLimited?
    requires if job.acceleration == 1 then p <= job.start + 65 else 1 <= job.acceleration && p == job.start + 1
    requires FoundFirst(job, Begun(job, table), job.start + 1, p) && m == job.Position(Begun(job, table)[job.Hash(p)])
    requires m < p && Compressed(job, table).Some?
    ensures job.start <= p <= |job.buf| && m <= |job.buf|
    ensures var k := CatchUp(job, job.start, p, m);
            && Compressed(job, table).value.More?
            && Compressed(job, table).value.first.literals == job.buf[job.start..p - k]
            && Compressed(job, table).value.first.offset == p - m
  {
    hide Job.Hash, Job.Accepts, Search, CatchUp, FoundFirst, FirstCursor, TakeMatch, FromSearch;
    FirstFound(job, table, p, m);
    PlanTakes(job, FirstCursor(job, table));
  }

  // ----- What the table keeps -----

  /** No position from `from` on goes into the slot `h`. */
  ghost predicate Free(job: Job, from: nat, h: nat) {
    && job.start <= from && job.End() <= |job.buf|
    && forall p: nat {:trigger job.Hash(p)} :: from <= p < job.MfLimitPlusOne() ==> job.Hash(p) != h
  }

  lemma {:induction false} SearchKeeps(job: Job, table: Table, fwd: nat, step: nat, nb: nat, from: nat, h: nat)
    requires |table| == job.TableSize() && Hashable(job, fwd) && 1 <= step && 64 <= nb
    requires Free(job, from, h) && from <= fwd && h < |table|
    ensures Search(job, table, fwd, step, nb).table[h] == table[h]
    decreases job.MfLimitPlusOne() - fwd
  {
    hide Search, Job.Hash, Job.Accepts;
    if fwd + step <= job.MfLimitPlusOne() {
      SearchVisits(job, table, fwd, step, nb);
      SearchKeeps(job, table[job.Hash(fwd) := job.Index(fwd)], fwd + step, nb / 64, nb + 1, from, h);
    } else {
      SearchEnds(job, table, fwd, step, nb);
    }
  }

  lemma MatchEndKeeps(job: Job, table: Table, ip: nat, from: nat, h: nat)
    requires |table| == job.TableSize() && job.start + 2 <= ip && 1 <= job.acceleration
    requires Free(job, from, h) && from + 2 <= ip && h < |table|
    ensures MatchEndTable(job, table, ip)[h] == table[h]
  {
    hide Search, Job.Hash, Job.Accepts;
    if ip < job.MfLimitPlusOne() {
      var filling := table[job.Hash(ip - 2) := job.Index(ip - 2)];
      var entered := filling[job.Hash(ip) := job.Index(ip)];
      assert job.Hash(ip) != h && job.Hash(ip - 2) != h && Hashable(job, ip + 1);
      SearchKeeps(job, entered, ip + 1, 1, job.acceleration * 64, from, h);
    }
  }

  /** The slot keeps what it holds to the end of the block. */
  lemma {:induction false} LeftKeeps(job: Job, c: Cursor, table: Table, from: nat, h: nat)
    requires InBounds(job, c) && |table| == job.TableSize() && !job.policy.FillOutput? && h < |table|
    requires Free(job, from, h) && (c.AtMatch? ==> c.table == table && from <= c.anchor + 2)
    ensures LeftBy(job, c, table)[h] == table[h]
    decreases Remaining(job, c)
  {
    hide Search, Job.Hash, Job.Accepts, Free, FromMatchEnd, MatchEndTable, Remaining, LeftBy;
    if c.AtMatch? && Takes(job, c) {
      var next := TakeMatch(job, c);
      TakenTable(job, c);
      TakenLeaves(job, c);
      RemainingShrinks(job, c);
      MatchEndKeeps(job, table, NextIp(job, c), from, h);
      LeftKeeps(job, next, TableAfter(job, c), from, h);
    } else {
      StoppedLeaves(job, c, table);
    }
  }

  lemma FirstCursorTable(job: Job, table: Table)
    requires job.End() <= |job.buf| && 1 <= job.acceleration && |table| == job.TableSize() && !job.policy.FillOutput?
    requires FirstCursor(job, table).AtMatch?
    ensures FirstCursor(job, table).table == FirstTable(job, table) && FirstCursor(job, table).anchor == job.start
  {
    hide Search, Job.Hash, CatchUp;
  }

  /** The second position of a block, the first looked up, keeps its slot unless a later one takes it. */
  lemma SecondKept(job: Job, table: Table)
    requires job.End() <= |job.buf| && 1 <= job.acceleration && |table| == job.TableSize() && !job.policy.FillOutput?
    requires MIN_LENGTH <= job.size && 0 <= job.Index(job.start) && Free(job, job.start + 2, job.Hash(job.start + 1))
    ensures Left(job, table)[job.Hash(job.start + 1)] == job.Index(job.start + 1)
  {
    hide Search, Job.Hash, Job.Accepts, FirstCursor, LeftBy, Free;
    var fwd := job.start + 1;
    var begun := Begun(job, table);
    var entered := begun[job.Hash(fwd) := job.Index(fwd)];
    assert Hashable(job, fwd) && Hashable(job, fwd + 1);
    SearchVisits(job, begun, fwd, 1, job.acceleration * 64);
    if !job.Accepts(begun[job.Hash(fwd)], fwd) {
      SearchKeeps(job, entered, fwd + 1, job.acceleration, job.acceleration * 64 + 1, fwd + 1, job.Hash(fwd));
    }
    if FirstCursor(job, table).AtMatch? {
      FirstCursorTable(job, table);
    }
    LeftKeeps(job, FirstCursor(job, table), FirstTable(job, table), fwd + 1, job.Hash(fwd));
  }
}
