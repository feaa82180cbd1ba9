/**
 LZ4_compress_generic_validated: the greedy compressor, working on its hash table and its output
 buffer. It writes exactly the block of GreedyPlan, within the room it was given.
 */
module Compressor {
  import opened Bytes
  import opened BlockFormat
  import opened MatchCount
  import opened GreedyPlan
  import opened PlanProperties
  import opened PlanTheorems
  import opened PlanLimits
  import opened BlockWriter

  /** What the loop carries besides table and output: a match whose literals are written, the last
      literals, or defeat. */
  datatype State =
    | Matching(anchor: nat, ip: nat, pos: nat, filled: nat, token: nat, op: nat)
    | Ending(anchor: nat, op: nat)
    | GivenUp

  function CursorOf(st: State, table: Table): Cursor {
    match st
    case Matching(anchor, ip, pos, filled, token, op) => AtMatch(table, anchor, ip, pos, filled, token, op)
    case Ending(anchor, op) => AtLast(anchor, op)
    case GivenUp => Failed
  }

  /** The table between two steps: harmless, and with nothing beyond the block. */
  ghost predicate Kept(job: Job, table: Table) {
    Good(job, table) && Below(table, job.Index(job.End()))
  }

  lemma KeptIs(job: Job, table: Table)
    requires Good(job, table) && Below(table, job.Index(job.End()))
    ensures Kept(job, table)
  {
  }

  /** A candidate that passes the checks on its index can be read. */
  lemma CandidateInReach(job: Job, index: nat, p: nat)
    requires job.Valid() && Hashable(job, p) && p < job.MfLimitPlusOne()
    requires EntryOk(job, index) && index < job.Index(p)
    requires job.dictSmall ==> index + job.dictSize >= job.startIndex
    requires job.tableType.ByU16? || index + DISTANCE_MAX >= job.Index(p)
    ensures 0 <= job.Low() <= job.Position(index) < p && p + 8 <= |job.buf|
  {
  }

  lemma AcceptsIs(job: Job, index: nat, p: nat)
    ensures job.Accepts(index, p)
            <==> && !(job.dictSmall && index < job.startIndex - job.dictSize)
                 && (job.tableType.ByU16? || index + DISTANCE_MAX >= job.Index(p))
                 && Same4(job.buf, job.Position(index), p)
  {
    hide Same4;
  }

  /** The checks of the code on a candidate, in its order. */
  method Candidate(job: Job, index: nat, p: nat) returns (accepted: bool)
    requires job.Valid() && Hashable(job, p) && p < job.MfLimitPlusOne()
    requires EntryOk(job, index) && index < job.Index(p)
    ensures accepted <==> job.Accepts(index, p)
  {
    hide Hashable, EntryOk, Job.Valid, Read32;
    AcceptsIs(job, index, p);
    hide Job.Accepts;
    if job.dictSmall && index < job.startIndex - job.dictSize {
      return false;
    }
    if !job.tableType.ByU16? && index + DISTANCE_MAX < job.Index(p) {
      return false;
    }
    CandidateInReach(job, index, p);
    var m := job.Position(index);
    Read32Equal(job.buf, m, p);
    accepted := Read32(job.buf, m) == Read32(job.buf, p);
  }

  /** One round of the search: the position is looked up and entered, the next one hashed. */
  method Visit(job: Job, table: array<nat>, p: nat, h: nat) returns (accepted: bool, m: nat)
    requires job.Valid() && Hashable(job, p) && p < job.MfLimitPlusOne() && h == job.Hash(p)
    requires Good(job, table[..]) && Below(table[..], job.Index(p))
    modifies table
    ensures var before := old(table[..]);
            && |before| == job.TableSize() && job.Index(p) >= 0
            && table[..] == before[h := job.Index(p)]
            && (accepted <==> job.Accepts(before[h], p))
            && (accepted ==> m == job.Position(before[h]))
    ensures Good(job, table[..]) && Below(table[..], job.Index(p) + 1)
  {
    ghost var before := table[..];
    assert table.Length == job.TableSize();
    EntryOfGood(job, before, h);
    BelowAt(before, job.Index(p), h);
    VisitIsSound(job, before, p);
    var current, index := job.Index(p), table[h];
    hide Good, Below, Job.Accepts, Job.Hash, EntryOk, FindingOk;
    table[h] := current;
    accepted := Candidate(job, index, p);
    m := if accepted then job.Position(index) else 0;
    assert table[..] == before[h := current];
  }

  /** What a search from here on comes to. */
  ghost predicate Leads(job: Job, table: Table, fwd: nat, step: nat, nb: nat, whole: Finding) {
    && job.Valid() && Hashable(job, fwd) && 1 <= step && 64 <= nb
    && Good(job, table) && Below(table, job.Index(fwd))
    && Search(job, table, fwd, step, nb) == whole
  }

  /** A round of the search loop: stop at the end of the data or at a match, or go on. */
  method Round(job: Job, table: array<nat>, ip: nat, step: nat, nb: nat, h: nat, ghost whole: Finding)
    returns (stop: bool, found: bool, m: nat, nextH: nat)
    requires Leads(job, table[..], ip, step, nb, whole) && h == job.Hash(ip)
    modifies table
    ensures stop ==> if found then whole == Found(ip, m, table[..]) else whole == NotFound(table[..])
    ensures !stop ==> Leads(job, table[..], ip + step, nb / 64, nb + 1, whole) && nextH == job.Hash(ip + step)
    ensures !stop ==> ip + step <= job.MfLimitPlusOne()
  {
    ghost var before := table[..];
    assert |before| == job.TableSize();
    hide Search, Good, Below, Job.Hash, Job.Accepts, Job.Valid;
    if ip + step > job.MfLimitPlusOne() {
      SearchEnds(job, before, ip, step, nb);
      return true, false, 0, 0;
    }
    SearchVisits(job, before, ip, step, nb);
    found, m := Visit(job, table, ip, h);
    nextH := job.Hash(ip + step);
    BelowMore(table[..], job.Index(ip) + 1, job.Index(ip + step));
    stop := found;
  }

  /** The search loop. */
  method FindMatch(job: Job, table: array<nat>, ip0: nat) returns (found: bool, ip: nat, m: nat)
    requires job.Valid() && Hashable(job, ip0) && Good(job, table[..]) && Below(table[..], job.Index(ip0))
    modifies table
    ensures |old(table[..])| == job.TableSize()
    ensures var r := Search(job, old(table[..]), ip0, 1, job.acceleration * 64);
            table[..] == r.table && (if found then r == Found(ip, m, r.table) else r.NotFound?)
  {
    assert table.Length == job.TableSize() && 1 <= job.acceleration;
    ghost var whole := Search(job, table[..], ip0, 1, job.acceleration * 64);
    var step: nat, nb: nat, forwardH: nat := 1, job.acceleration * 64, job.Hash(ip0);
    found, ip, m := FindFrom(job, table, ip0, step, nb, forwardH, whole);
  }

  /** The rounds of the search. */
  method FindFrom(job: Job, table: array<nat>, ip0: nat, step0: nat, nb0: nat, h: nat, ghost whole: Finding)
    returns (found: bool, ip: nat, m: nat)
    requires Leads(job, table[..], ip0, step0, nb0, whole) && h == job.Hash(ip0)
    modifies table
    ensures if found then whole == Found(ip, m, table[..]) else whole == NotFound(table[..])
  {
    hide Search, Good, Below, Job.Hash, Job.Accepts, Job.Valid;
    var step, nb, forwardH := step0, nb0, h;
    ip := ip0;
    var stop: bool;
    stop, found, m, forwardH := Round(job, table, ip, step, nb, forwardH, whole);
    while !stop
      invariant stop ==> if found then whole == Found(ip, m, table[..]) else whole == NotFound(table[..])
      invariant !stop ==> Leads(job, table[..], ip + step, nb / 64, nb + 1, whole) && forwardH == job.Hash(ip + step)
      invariant !stop ==> ip + step <= job.MfLimitPlusOne()
      decreases job.MfLimitPlusOne() - ip - step, !stop
    {
      ip := ip + step;
      step, nb := nb / 64, nb + 1;
      stop, found, m, forwardH := Round(job, table, ip, step, nb, forwardH, whole);
    }
  }

  /** The catch-up loop. */
  method GoBack(job: Job, anchor: nat, ip0: nat, m0: nat) returns (ip: nat, m: nat)
    requires job.Valid() && anchor <= ip0 <= |job.buf| && m0 <= |job.buf|
    ensures var k := CatchUp(job, anchor, ip0, m0); ip == ip0 - k && m == m0 - k
  {
    ip, m := ip0, m0;
    while ip > anchor && m > job.Low() && job.buf[ip - 1] == job.buf[m - 1]
      invariant anchor <= ip <= ip0 && m <= m0 && ip0 - ip == m0 - m
      invariant CatchUp(job, anchor, ip0, m0) == ip0 - ip + CatchUp(job, anchor, ip, m)
    {
      ip, m := ip - 1, m - 1;
    }
  }

  /** Where output must stop: the limit, or the worst case that the caller provided room for. */
  function Room(job: Job): int {
    if job.policy.NotLimited? then job.size + job.size / 255 + 16 else job.olimit
  }

  /** The output reached with `op` is within what the policy allows before a token. */
  ghost predicate InRoom(job: Job, anchor: nat, op: nat) {
    && job.start <= anchor <= job.End()
    && (job.policy.NotLimited? ==> Amortised(anchor - job.start, op))
    && (job.policy.FillOutput? ==> op < job.olimit)
  }

  /** The check before the literals leaves room for their over-copying copy. */
  lemma LiteralsInRoom(job: Job, anchor: nat, n: nat, op: nat)
    requires job.Valid() && InRoom(job, anchor, op) && anchor + n + MF_LIMIT <= job.End()
    requires job.policy.LimitedOutput? ==> op + 1 + n + (2 + 1 + LAST_LITERALS) + n / 255 <= job.olimit
    requires job.policy.FillOutput? ==> op + 1 + (n + 240) / 255 + n + 2 + 1 + MF_LIMIT - MIN_MATCH <= job.olimit
    ensures op + 1 + LengthSize(n) + n + 7 <= Room(job) && op + 1 + LengthSize(n) + 8 <= Room(job)
  {
    LengthSizeSmall(n);
    CodeSize(n);
    if job.policy.NotLimited? {
      DivSum(anchor - job.start, n);
      DivGrows(anchor - job.start + n, job.size);
    }
    if n > 0 {
      assert op + 1 + LengthSize(n) + 8 <= op + 1 + LengthSize(n) + n + 7;
    }
  }

  /** What a step leaves in the output: behind what stood before the token, the literals of the match
      it stopped at; or nothing new. */
  ghost predicate Written(job: Job, was: seq<byte>, dst: seq<byte>, st: State, op: nat, end: nat) {
    && op <= end <= |dst| == |was|
    && (st.Matching? ==>
          && st.anchor <= st.ip <= |job.buf| && st.token == op && (!job.policy.FillOutput? ==> st.op + 2 <= Room(job))
          && st.op == op + |LiteralPart(job.buf[st.anchor..st.ip], 0)| <= end
          && dst[..st.op] == was[..op] + LiteralPart(job.buf[st.anchor..st.ip], 0) && dst[end..] == was[end..])
    && (!st.Matching? ==> dst == was)
  }

  lemma NothingWritten(job: Job, out: seq<byte>, anchor: nat, op: nat, end: nat)
    requires op <= end <= |out|
    ensures Written(job, out, out, Ending(anchor, op), op, end)
  {
  }

  method WriteLiterals(job: Job, dst: array<byte>, anchor: nat, ip: nat, ghost m: nat, ghost filled: nat, op: nat,
                       ghost end: nat)
    returns (next: nat)
    requires anchor <= ip && ip + 8 <= |job.buf| && Room(job) <= end <= dst.Length
    requires op + 1 + LengthSize(ip - anchor) + ip - anchor + 7 <= Room(job)
    requires op + 1 + LengthSize(ip - anchor) + 8 <= Room(job)
    modifies dst
    ensures next == op + 1 + LengthSize(ip - anchor) + ip - anchor
    ensures Written(job, old(dst[..]), dst[..], Matching(anchor, ip, m, filled, op, next), op, end)
  {
    hide LiteralPart, Room, LengthSize;
    ghost var was := dst[..];
    LiteralPartIsHeader([], job.buf[anchor..ip], 0);
    assert was[..op] == dst[..op];
    next := WriteLiteralPart(dst, op, job.buf, anchor, ip - anchor, end);
    assert dst[..][..next] == dst[..next] && dst[..][end..] == was[end..];
  }

  /** The literals of a sequence, if the policy lets them be written. */
  method LiteralStep(job: Job, ghost table: Table, dst: array<byte>, anchor: nat, ip: nat, m: nat, filled: nat,
                     op: nat, ghost end: nat)
    returns (st: State)
    requires job.Valid() && InRoom(job, anchor, op) && anchor <= ip <= filled < job.MfLimitPlusOne()
    requires op <= end && Room(job) <= end <= dst.Length
    modifies dst
    ensures CursorOf(st, table) == WithLiterals(job, table, anchor, ip, m, filled, op)
    ensures Written(job, old(dst[..]), dst[..], st, op, end)
  {
    var n := ip - anchor;
    if job.policy.LimitedOutput? && op + 1 + n + (2 + 1 + LAST_LITERALS) + n / 255 > job.olimit {
      return GivenUp;
    }
    if job.policy.FillOutput? && op + 1 + (n + 240) / 255 + n + 2 + 1 + MF_LIMIT - MIN_MATCH > job.olimit {
      return Ending(anchor, op);
    }
    LiteralsInRoom(job, anchor, n, op);
    assert WithLiterals(job, table, anchor, ip, m, filled, op)
        == AtMatch(table, anchor, ip, m, filled, op, op + 1 + LengthSize(n) + n);
    hide LiteralPart, InRoom, Room, LengthSize, WithLiterals, Written, Job.Valid;
    var next := WriteLiterals(job, dst, anchor, ip, m, filled, op, end);
    st := Matching(anchor, ip, m, filled, op, next);
  }

  lemma Anchored(job: Job, anchor: nat, op: nat)
    requires job.Valid() && InRoom(job, anchor, op)
    ensures job.start <= anchor <= job.End() <= |job.buf| && 1 <= job.acceleration
  {
  }

  lemma SizeOfGood(job: Job, table: Table)
    requires Good(job, table)
    ensures |table| == job.TableSize()
  {
  }

  /** From a candidate found, backwards, to the literals before it. */
  method FoundStep(job: Job, ghost before: Table, ghost entered: Table, dst: array<byte>, anchor: nat,
                   ghost ip0: nat, op: nat, p: nat, m: nat, ghost end: nat)
    returns (st: State)
    requires job.Valid() && Hashable(job, ip0) && anchor <= ip0 && InRoom(job, anchor, op)
    requires |before| == job.TableSize()
    requires Search(job, before, ip0, 1, job.acceleration * 64) == Found(p, m, entered)
    requires op <= end && Room(job) <= end <= dst.Length
    modifies dst
    ensures CursorOf(st, entered) == FromSearch(job, before, anchor, ip0, op)
    ensures Written(job, old(dst[..]), dst[..], st, op, end)
  {
    hide FromSearch, Search, WithLiterals, CatchUp, InRoom, Room, Written, Hashable, Job.Valid;
    Anchored(job, anchor, op);
    FromSearchFound(job, before, anchor, ip0, op, p, m, entered);
    var ip, pos := GoBack(job, anchor, p, m);
    st := LiteralStep(job, entered, dst, anchor, ip, pos, p, op, end);
  }

  /** From the search for a match to the literals before it. */
  method SearchStep(job: Job, table: array<nat>, dst: array<byte>, anchor: nat, ip0: nat, op: nat, ghost end: nat)
    returns (st: State)
    requires job.Valid() && Hashable(job, ip0) && anchor <= ip0 && InRoom(job, anchor, op)
    requires Good(job, table[..]) && Below(table[..], job.Index(ip0))
    requires op <= end && Room(job) <= end <= dst.Length
    modifies table, dst
    ensures |old(table[..])| == job.TableSize()
    ensures CursorOf(st, table[..]) == FromSearch(job, old(table[..]), anchor, ip0, op)
    ensures 1 <= job.acceleration && table[..] == SearchTable(job, old(table[..]), ip0)
    ensures Kept(job, table[..]) && Written(job, old(dst[..]), dst[..], st, op, end)
  {
    hide FromSearch, Search, FindingOk, Good, Below, InRoom, Room, Kept, Written, Hashable, Job.Valid;
    ghost var before := table[..];
    ghost var out := dst[..];
    Anchored(job, anchor, op);
    SizeOfGood(job, before);
    SearchIsSound(job, before, ip0, 1, job.acceleration * 64);
    FoundKept(job, Search(job, before, ip0, 1, job.acceleration * 64));
    var found, p, m := FindMatch(job, table, ip0);
    assert dst[..] == out;
    if found {
      st := FoundStep(job, before, table[..], dst, anchor, ip0, op, p, m, end);
    } else {
      FromSearchNotFound(job, before, anchor, ip0, op);
      NothingWritten(job, out, anchor, op, end);
      st := Ending(anchor, op);
    }
  }

  lemma FoundKept(job: Job, r: Finding)
    requires job.Valid() && FindingOk(job, r) && (r.Found? ==> r.ip < job.MfLimitPlusOne())
    ensures Kept(job, r.table)
  {
    hide Good;
    if r.Found? {
      BelowMore(r.table, job.Index(r.ip) + 1, job.Index(job.End()));
    }
  }

  /** The cursor behind a match, once both positions there are entered. */
  lemma MatchEndCases(job: Job, table: Table, ip: nat, op: nat, filled: nat)
    requires job.Valid() && |table| == job.TableSize() && job.start + 2 <= ip
    ensures ip >= job.MfLimitPlusOne() ==> FromMatchEnd(job, table, ip, op, filled) == AtLast(ip, op)
  {
  }

  /** Enters a position. */
  method Enter(job: Job, table: array<nat>, p: nat, ghost bound: int)
    requires job.Valid() && Hashable(job, p) && Good(job, table[..]) && Below(table[..], bound) && job.Index(p) < bound
    modifies table
    ensures |old(table[..])| == job.TableSize() && job.Index(p) >= 0
    ensures table[..] == old(table[..])[job.Hash(p) := job.Index(p)]
    ensures Good(job, table[..]) && Below(table[..], bound)
  {
    ghost var before: Table := table[..];
    assert table.Length == job.TableSize();
    EnterKeepsGood(job, before, p);
    EnterKeepsBelow(job, before, p, bound);
    hide Good, Below, Job.Hash;
    var index: nat := job.Index(p);
    table[job.Hash(p)] := index;
    assert table[..] == before[job.Hash(p) := index];
  }

  /** Enters the two positions behind a match, and checks the candidate for the second. */
  method EnterBehind(job: Job, table: array<nat>, ip: nat, ghost op: nat, ghost filled: nat)
    returns (accepted: bool, m: nat)
    requires job.Valid() && job.start + MIN_MATCH <= ip < job.MfLimitPlusOne()
    requires Good(job, table[..]) && Below(table[..], job.Index(ip))
    modifies table
    ensures |old(table[..])| == table.Length == job.TableSize() && job.End() <= |job.buf| && 1 <= job.acceleration
    ensures Hashable(job, ip + 1)
    ensures FromMatchEnd(job, old(table[..]), ip, op, filled)
            == if accepted then AtMatch(table[..], ip, ip, m, filled, op, op + 1)
               else FromSearch(job, table[..], ip, ip + 1, op)
    ensures MatchEndTable(job, old(table[..]), ip)
            == if accepted then table[..] else SearchTable(job, table[..], ip + 1)
    ensures Good(job, table[..]) && Below(table[..], job.Index(ip) + 1)
  {
    assert Hashable(job, ip) && Hashable(job, ip - 2) && 0 <= job.Index(ip - 2) < job.Index(ip);
    assert table.Length == job.TableSize() && job.End() <= |job.buf| && 1 <= job.acceleration && Hashable(job, ip + 1);
    hide *;
    MatchEndVisits(job, table[..], ip, op, filled);
    AgainTable(job, table[..], ip);
    Enter(job, table, ip - 2, job.Index(ip));
    accepted, m := Visit(job, table, ip, job.Hash(ip));
  }

  /** Another match at once: an empty run of literals. */
  method ChainStep(job: Job, ghost table: Table, dst: array<byte>, ip: nat, m: nat, filled: nat, op: nat,
                   ghost end: nat)
    returns (st: State)
    requires op < end && ip <= |job.buf| && end <= dst.Length && (!job.policy.FillOutput? ==> op + 3 <= Room(job))
    modifies dst
    ensures CursorOf(st, table) == AtMatch(table, ip, ip, m, filled, op, op + 1)
    ensures Written(job, old(dst[..]), dst[..], st, op, end)
  {
    ghost var before := dst[..op];
    dst[op] := 0;
    st := Matching(ip, ip, m, filled, op, op + 1);
    EmptyLiterals(job.buf[ip..ip]);
    hide LiteralPart;
    assert dst[..op + 1] == before + LiteralPart(job.buf[ip..ip], 0);
  }

  /** Behind a match: the end of the block, another match at once, or a search for one. */
  method MatchEndStep(job: Job, table: array<nat>, dst: array<byte>, ip: nat, op: nat, filled: nat, ghost end: nat)
    returns (st: State)
    requires job.Valid() && job.start + MIN_MATCH <= ip <= job.End() && InRoom(job, ip, op)
    requires Good(job, table[..]) && Below(table[..], job.Index(ip))
    requires op < end && Room(job) <= end <= dst.Length && (!job.policy.FillOutput? ==> op + 3 <= Room(job))
    modifies table, dst
    ensures |old(table[..])| == job.TableSize() && job.End() <= |job.buf| && 1 <= job.acceleration
    ensures CursorOf(st, table[..]) == FromMatchEnd(job, old(table[..]), ip, op, filled)
    ensures table[..] == MatchEndTable(job, old(table[..]), ip)
    ensures Kept(job, table[..]) && Written(job, old(dst[..]), dst[..], st, op, end)
  {
    ghost var before := table[..];
    MatchEndCases(job, before, ip, op, filled);
    if ip >= job.MfLimitPlusOne() {
      BelowMore(before, job.Index(ip), job.Index(job.End()));
      return Ending(ip, op);
    }
    st := MatchAgain(job, table, dst, ip, op, filled, end);
  }

  method MatchAgain(job: Job, table: array<nat>, dst: array<byte>, ip: nat, op: nat, filled: nat, ghost end: nat)
    returns (st: State)
    requires job.Valid() && job.start + MIN_MATCH <= ip < job.MfLimitPlusOne() && InRoom(job, ip, op)
    requires Good(job, table[..]) && Below(table[..], job.Index(ip))
    requires op < end && Room(job) <= end <= dst.Length && (!job.policy.FillOutput? ==> op + 3 <= Room(job))
    modifies table, dst
    ensures |old(table[..])| == job.TableSize() && job.End() <= |job.buf| && 1 <= job.acceleration
    ensures CursorOf(st, table[..]) == FromMatchEnd(job, old(table[..]), ip, op, filled)
    ensures table[..] == MatchEndTable(job, old(table[..]), ip)
    ensures Kept(job, table[..]) && Written(job, old(dst[..]), dst[..], st, op, end)
  {
    hide FromMatchEnd, FromSearch, Good, Below, InRoom, Room, Job.Hash, Job.Accepts, Job.Valid, Written, Hashable, Kept,
        MatchEndTable, SearchTable;
    ghost var out := dst[..];
    var accepted, m := EnterBehind(job, table, ip, op, filled);
    ghost var entered := table[..];
    assert dst[..] == out;
    if accepted {
      BelowMore(entered, job.Index(ip) + 1, job.Index(job.End()));
      KeptIs(job, entered);
      st := ChainStep(job, entered, dst, ip, m, filled, op, end);
      assert table[..] == entered;
    } else {
      BelowMore(entered, job.Index(ip) + 1, job.Index(ip + 1));
      st := SearchStep(job, table, dst, ip, ip + 1, op, end);
    }
  }

  lemma AgainTable(job: Job, table: Table, ip: nat)
    requires job.Valid() && Good(job, table) && job.start + 2 <= ip < job.MfLimitPlusOne()
    ensures |table| == job.TableSize() && job.End() <= |job.buf| && 1 <= job.acceleration && Hashable(job, ip + 1)
    ensures ip + 8 <= |job.buf| && 0 <= job.Index(ip - 2) && 0 <= job.Index(ip)
    ensures var filling := table[job.Hash(ip - 2) := job.Index(ip - 2)];
            var entered := filling[job.Hash(ip) := job.Index(ip)];
            MatchEndTable(job, table, ip)
            == if job.Accepts(filling[job.Hash(ip)], ip) then entered else SearchTable(job, entered, ip + 1)
  {
    hide Job.Hash, Job.Accepts, SearchTable;
  }

  /** The clearing loop of a shortened match. */
  method ClearPositions(job: Job, table: array<nat>, p0: nat, last: nat)
    requires job.Valid() && table.Length == job.TableSize() && (p0 <= last ==> Hashable(job, p0) && Hashable(job, last))
    modifies table
    ensures table[..] == Clear(job, old(table[..]), p0, last)
  {
    hide Job.Hash;
    var p := p0;
    ghost var whole := Clear(job, table[..], p0, last);
    while p <= last
      invariant p0 <= p && (p <= last ==> Hashable(job, p) && Hashable(job, last))
      invariant whole == Clear(job, table[..], p, last)
      decreases last + 1 - p
    {
      ghost var before := table[..];
      table[job.Hash(p)] := 0;
      assert table[..] == before[job.Hash(p) := 0];
      p := p + 1;
    }
  }

  /** The over-storing write of a match length stays in the room, and so does the next token. */
  lemma MatchInRoom(job: Job, c: Cursor)
    requires Sound(job, c) && Takes(job, c) && InRoom(job, c.anchor, c.token)
    ensures var code := TakenCode(job, c);
            c.op + 2 + (if code < 15 then 0 else (code - 15) / 255 + 4) <= Room(job)
    ensures job.start + MIN_MATCH <= NextIp(job, c) <= job.End()
    ensures InRoom(job, NextIp(job, c), NextOp(job, c)) && NextOp(job, c) < Room(job)
    ensures !job.policy.FillOutput? ==> NextOp(job, c) + 3 <= Room(job)
  {
    TakenShape(job, c);
    NextIpAhead(job, c);
    var code := TakenCode(job, c);
    if job.policy.NotLimited? {
      TakenPays(job, c);
      TakenOp(job, c);
      UnlimitedMatchInRoom(job, c.anchor - job.start, c.token, c.ip - c.anchor, code, c.op);
      DivGrows(NextIp(job, c) - job.start, job.size);
    } else if TooLong(job, c) {
      ShortenedFillsRoom(job, c);
    } else {
      RoomAfterUncut(job, c);
    }
  }

  lemma UnlimitedMatchInRoom(job: Job, n: nat, token: nat, literals: nat, code: nat, op: nat)
    requires Amortised(n, token) && op == token + 1 + LengthSize(literals) + literals
    requires n + literals + MIN_MATCH + code <= job.size && job.policy.NotLimited?
    ensures op + 2 + (if code < 15 then 0 else (code - 15) / 255 + 4) <= Room(job)
  {
    LengthSizeSmall(literals);
    DivSum(n, literals);
    DivSum(n + literals, code);
    DivGrows(n + literals + code, job.size);
  }

  /** The match length that is written: counted, and shortened if need be, with the table cleaned up. */
  method SettleCode(job: Job, table: array<nat>, st: State, counted: nat) returns (code: nat)
    requires st.Matching? && job.Valid() && Takes(job, CursorOf(st, table[..]))
    requires counted == MatchCode(job, CursorOf(st, table[..]))
    modifies table
    ensures var c := CursorOf(st, old(table[..]));
            Takes(job, c) && code == TakenCode(job, c) && table[..] == NextTable(job, c)
  {
    ghost var c := CursorOf(st, table[..]);
    code := counted;
    if !job.policy.NotLimited? && st.op + 2 + (1 + LAST_LITERALS) + (code + 240) / 255 > job.olimit {
      code := 15 - 1 + (job.olimit - (st.op + 2) - 1 - LAST_LITERALS) * 255;
      assert code == TakenCode(job, c);
      var ip := st.ip + MIN_MATCH + code;
      if ip <= st.filled {
        ClearPositions(job, table, ip, st.filled);
      }
    }
  }

  /** The state between two steps: a trusted cursor, and the bytes before its token, behind which the
      literals of its match are written. */
  ghost predicate Between(job: Job, table: Table, dst: seq<byte>, st: State, before: seq<byte>, end: nat) {
    && Sound(job, CursorOf(st, table)) && Kept(job, table) && end <= |dst| && Room(job) <= end
    && match st
       case GivenUp => true
       case Ending(anchor, op) => |before| == op <= end && dst[..op] == before && InRoom(job, anchor, op)
       case Matching(anchor, ip, _, _, token, op) =>
         && |before| == token && op <= end && dst[..op] == before + LiteralPart(job.buf[anchor..ip], 0)
         && InRoom(job, anchor, token) && (!job.policy.FillOutput? ==> op + 2 <= Room(job))
  }

  /** Writes a settled match length behind its offset. */
  method WriteTaken(job: Job, dst: array<byte>, st: State, code: nat, ghost c: Cursor, ghost before: seq<byte>,
                    ghost end: nat)
    returns (op: nat)
    requires st.Matching? && c.AtMatch? && c.op == st.op && c.token == st.token && Sound(job, c) && Takes(job, c)
    requires InRoom(job, c.anchor, c.token) && Room(job) <= end <= dst.Length && c.op + 2 <= dst.Length
    requires code == TakenCode(job, c) && |before| == c.token && c.pos <= c.ip && c.ip - c.pos <= DISTANCE_MAX
    requires dst[..c.op + 2] == before + LiteralPart(job.buf[c.anchor..c.ip], 0) + OffsetBytes(c.ip - c.pos)
    modifies dst
    ensures op == NextOp(job, c) && WellFormedSequence(Taken(job, c))
    ensures Wrote(dst, before + EncodeSequence(Taken(job, c)), end)
  {
    MatchInRoom(job, c);
    TakenShape(job, c);
    NextShape(job, c);
    hide *;
    op := WriteMatchLength(dst, st.token, st.op + 2, c.ip - c.pos, code, before, job.buf[c.anchor..c.ip], end);
  }

  /** The match length of a taken match, behind its offset. */
  method FinishMatch(job: Job, table: array<nat>, dst: array<byte>, st: State, counted: nat,
                     ghost c: Cursor, ghost before: seq<byte>, ghost end: nat)
    returns (ip: nat, op: nat)
    requires st.Matching? && c == CursorOf(st, table[..]) && Sound(job, c) && Takes(job, c)
    requires InRoom(job, c.anchor, c.token) && Room(job) <= end <= dst.Length && c.op + 2 <= dst.Length
    requires counted == MatchCode(job, c) && |before| == c.token && c.pos <= c.ip && c.ip - c.pos <= DISTANCE_MAX
    requires dst[..c.op + 2] == before + LiteralPart(job.buf[c.anchor..c.ip], 0) + OffsetBytes(c.ip - c.pos)
    modifies table, dst
    ensures ip == NextIp(job, c) && op == NextOp(job, c) && table[..] == NextTable(job, c)
    ensures WellFormedSequence(Taken(job, c)) && Wrote(dst, before + EncodeSequence(Taken(job, c)), end)
  {
    ghost var out := dst[..];
    NextShape(job, c);
    assert job.Valid() && c.ip == st.ip && c.op == st.op && c.token == st.token;
    hide Sound, Takes, Taken, TakenCode, NextOp, NextIp, NextTable, MatchCode, InRoom, Room, LiteralPart, OffsetBytes;
    hide EncodeSequence, LengthSize, Job.Valid;
    var code := SettleCode(job, table, st, counted);
    assert dst[..] == out && dst[..c.op + 2] == out[..c.op + 2] && dst[end..] == out[end..];
    op := WriteTaken(job, dst, st, code, c, before, end);
    ip := st.ip + MIN_MATCH + code;
  }

  lemma NextShape(job: Job, c: Cursor)
    requires Takes(job, c)
    ensures c.AtMatch? && NextOp(job, c) == c.op + 2 + LengthSize(TakenCode(job, c))
    ensures NextIp(job, c) == c.ip + MIN_MATCH + TakenCode(job, c)
  {
  }

  /** The offset, and the count of the match; `ok` tells whether its length fits the limit. */
  method StartMatch(job: Job, table: array<nat>, dst: array<byte>, st: State, ghost before: seq<byte>, ghost end: nat)
    returns (ok: bool, counted: nat)
    requires st.Matching? && Between(job, table[..], dst[..], st, before, end)
    requires !Rewinds(job, CursorOf(st, table[..]))
    modifies dst
    ensures counted == MatchCode(job, CursorOf(st, table[..]))
    ensures ok <==> Takes(job, CursorOf(st, table[..]))
    ensures st.pos <= st.ip && st.anchor <= st.ip <= |job.buf| && st.ip - st.pos <= DISTANCE_MAX
    ensures Wrote(dst, before + LiteralPart(job.buf[st.anchor..st.ip], 0) + OffsetBytes(st.ip - st.pos), end)
  {
    ghost var c := CursorOf(st, table[..]);
    MatchShape(job, c);
    assert dst[..][..st.op] == dst[..st.op];
    WriteOffset(dst, st.op, st.ip - st.pos, end);
    hide Sound, LiteralPart, Kept, CommonLen;
    counted := Count(job.buf, st.ip + MIN_MATCH, st.pos + MIN_MATCH, job.MatchLimit());
    ok := !(job.policy.LimitedOutput? && st.op + 2 + (1 + LAST_LITERALS) + (counted + 240) / 255 > job.olimit);
  }

  /** Offset and length of a match; the length may turn out not to fit. */
  method WriteMatch(job: Job, table: array<nat>, dst: array<byte>, st: State, ghost before: seq<byte>, ghost end: nat)
    returns (ok: bool, ip: nat, op: nat)
    requires st.Matching? && Between(job, table[..], dst[..], st, before, end)
    requires !Rewinds(job, CursorOf(st, table[..]))
    modifies table, dst
    ensures ok <==> Takes(job, CursorOf(st, old(table[..])))
    ensures ok ==>
      var c := CursorOf(st, old(table[..]));
      && Takes(job, c) && ip == NextIp(job, c) && op == NextOp(job, c) && table[..] == NextTable(job, c)
      && WellFormedSequence(Taken(job, c)) && Wrote(dst, before + EncodeSequence(Taken(job, c)), end)
    ensures !ok ==> table[..] == old(table[..]) && end <= dst.Length && dst[end..] == old(dst[end..])
  {
    ghost var c := CursorOf(st, table[..]);
    ghost var entered := table[..];
    assert Sound(job, c) && InRoom(job, st.anchor, st.token) && Room(job) <= end && |before| == st.token;
    assert st.op == |before + LiteralPart(job.buf[st.anchor..st.ip], 0)| by {
      assert dst[..][..st.op] == before + LiteralPart(job.buf[st.anchor..st.ip], 0);
    }
    hide Between, Sound, Takes, InRoom, Room, LiteralPart, EncodeSequence, MatchCode, NextTable, NextIp, NextOp,
        Rewinds;
    ghost var kept := dst[end..];
    var counted: nat;
    ok, counted := StartMatch(job, table, dst, st, before, end);
    assert table[..] == entered && dst[end..] == kept;
    ip, op := 0, 0;
    if ok {
      ip, op := FinishMatch(job, table, dst, st, counted, c, before, end);
    }
  }

  lemma MatchShape(job: Job, c: Cursor)
    requires Sound(job, c) && c.AtMatch? && !Rewinds(job, c)
    ensures job.Low() <= c.pos < c.ip && c.ip - c.pos <= DISTANCE_MAX
    ensures 0 <= c.pos + MIN_MATCH < c.ip + MIN_MATCH && job.MatchLimit() <= |job.buf| && c.ip <= |job.buf|
  {
    hide Good, Below, Matches;
  }

  lemma BetweenAtLast(job: Job, table: Table, dst: seq<byte>, anchor: nat, token: nat, before: seq<byte>, end: nat)
    requires job.Valid() && Kept(job, table) && InRoom(job, anchor, token) && Room(job) <= end <= |dst|
    requires |before| == token <= end && dst[..token] == before
    ensures Between(job, table, dst, Ending(anchor, token), before, end)
  {
    LastIsSound(job, anchor, token);
    hide Sound, Kept;
  }

  /** A step that wrote behind `before` leaves the state it promises. */
  lemma BetweenAfter(job: Job, table: Table, was: seq<byte>, dst: seq<byte>, st: State, before: seq<byte>, op: nat,
                     end: nat)
    requires Sound(job, CursorOf(st, table)) && Kept(job, table) && Room(job) <= end <= |dst|
    requires !st.GivenUp? ==> st.anchor == CursorOf(st, table).anchor && CursorOf(st, table).token == op
    requires !st.GivenUp? ==> InRoom(job, st.anchor, op)
    requires Written(job, was, dst, st, op, end) && |before| == op && was[..op] == before
    ensures Between(job, table, dst, st, before, end)
    ensures dst[end..] == was[end..]
  {
    hide Sound, Kept, InRoom, Room, LiteralPart;
  }

  /** Behind a match, with the bytes written so far at hand. */
  method GoOn(job: Job, table: array<nat>, dst: array<byte>, ip: nat, op: nat, filled: nat, ghost before: seq<byte>,
              ghost end: nat)
    returns (st: State)
    requires job.Valid() && job.start + MIN_MATCH <= ip <= job.End() && InRoom(job, ip, op)
    requires Good(job, table[..]) && Below(table[..], job.Index(ip)) && |table[..]| == job.TableSize()
    requires op < end && Room(job) <= end <= dst.Length && (!job.policy.FillOutput? ==> op + 3 <= Room(job))
    requires |before| == op && dst[..op] == before
    requires Sound(job, FromMatchEnd(job, table[..], ip, op, filled))
    modifies table, dst
    ensures |old(table[..])| == job.TableSize() && job.End() <= |job.buf| && 1 <= job.acceleration
    ensures CursorOf(st, table[..]) == FromMatchEnd(job, old(table[..]), ip, op, filled)
    ensures table[..] == MatchEndTable(job, old(table[..]), ip)
    ensures Between(job, table[..], dst[..], st, before, end) && dst[end..] == old(dst[end..])
  {
    ghost var entered, out := table[..], dst[..];
    assert job.start + 2 <= ip && job.End() <= |job.buf| && 1 <= job.acceleration;
    hide Sound, Kept, InRoom, Room, Between, Written, Good, Below, FromMatchEnd, Job.Valid;
    st := MatchEndStep(job, table, dst, ip, op, filled, end);
    assert !FromMatchEnd(job, entered, ip, op, filled).Failed? ==>
        FromMatchEnd(job, entered, ip, op, filled).anchor == ip
        && FromMatchEnd(job, entered, ip, op, filled).token == op;
    BetweenAfter(job, table[..], out, dst[..], st, before, op, end);
  }

  /** One round of the main loop, said of cursors and of the bytes written. */
  ghost predicate Advances(job: Job, c: Cursor, next: Cursor, before: seq<byte>, after: seq<byte>) {
    && c.AtMatch?
    && if Takes(job, c) then
         && WellFormedSequence(Taken(job, c)) && next == TakeMatch(job, c)
         && after == before + EncodeSequence(Taken(job, c))
       else
         after == before && next == if Rewinds(job, c) then AtLast(c.anchor, c.token) else Failed
  }

  lemma RewoundIsLast(job: Job, table: Table, dst: seq<byte>, st: State, before: seq<byte>, end: nat)
    requires st.Matching? && Between(job, table, dst, st, before, end) && Rewinds(job, CursorOf(st, table))
    ensures Between(job, table, dst, Ending(st.anchor, st.token), before, end)
    ensures Advances(job, CursorOf(st, table), AtLast(st.anchor, st.token), before, before)
  {
    assert Sound(job, CursorOf(st, table)) && job.Valid() && st.anchor <= st.ip <= |job.buf|;
    hide Kept, Room, LiteralPart, Sound;
    assert |before| <= st.op by {
      assert dst[..st.op] == before + LiteralPart(job.buf[st.anchor..st.ip], 0);
    }
    assert dst[..|before|] == dst[..st.op][..|before|];
    BetweenAtLast(job, table, dst, st.anchor, st.token, before, end);
  }

  lemma GivenUpIsBetween(job: Job, table: Table, dst: seq<byte>, before: seq<byte>, end: nat)
    requires job.Valid() && Kept(job, table) && Room(job) <= end <= |dst|
    ensures Between(job, table, dst, GivenUp, before, end)
  {
    hide Kept, Room;
  }

  /** One match of the main loop: given back, given up, or written and left behind. */
  method MatchStep(job: Job, table: array<nat>, dst: array<byte>, st: State, ghost before: seq<byte>, ghost end: nat)
    returns (next: State, ghost after: seq<byte>)
    requires st.Matching? && Between(job, table[..], dst[..], st, before, end)
    modifies table, dst
    ensures Between(job, table[..], dst[..], next, after, end) && dst[end..] == old(dst[end..])
    ensures Advances(job, CursorOf(st, old(table[..])), CursorOf(next, table[..]), before, after)
    ensures InBounds(job, CursorOf(st, old(table[..]))) && table[..] == TableAfter(job, CursorOf(st, old(table[..])))
  {
    ghost var c := CursorOf(st, table[..]);
    assert Sound(job, c) && end <= dst.Length && job.Valid() && InBounds(job, c);
    if job.policy.FillOutput? && st.op + 2 + 1 + MF_LIMIT - MIN_MATCH > job.olimit {
      RewoundIsLast(job, table[..], dst[..], st, before, end);
      return Ending(st.anchor, st.token), before;
    }
    assert !Rewinds(job, c);
    assert Kept(job, table[..]) && Room(job) <= end && InRoom(job, c.anchor, c.token) && |before| == c.token;
    hide *;
    var ok, ip, op := WriteMatch(job, table, dst, st, before, end);
    if !ok {
      GivenUpIsBetween(job, table[..], dst[..], before, end);
      return GivenUp, before;
    }
    after := before + EncodeSequence(Taken(job, c));
    TakeMatchIsSound(job, c);
    NextTableIsSound(job, c);
    MatchInRoom(job, c);
    TakenSize(job, c);
    next := GoOn(job, table, dst, ip, op, st.filled, after, end);
  }

  /** The last literals fit wherever the checks of the code let them be written. */
  lemma LastInRoom(job: Job, anchor: nat, op: nat)
    requires job.Valid() && InRoom(job, anchor, op) && LastRun(job, anchor, op).Some?
    ensures var b := LastRun(job, anchor, op).value;
            && b.Last? && anchor + |b.literals| <= job.End() <= |job.buf|
            && b == Last(job.buf[anchor..anchor + |b.literals|], 0)
            && op + 1 + LengthSize(|b.literals|) + |b.literals| <= Room(job)
            && |Encode(b)| == 1 + LengthSize(|b.literals|) + |b.literals|
  {
    LastRunShape(job, anchor, op);
    LastFits(job, anchor, op);
    hide LastRun;
    var b := LastRun(job, anchor, op).value;
    EncodedLastSize(b.literals);
    if job.policy.NotLimited? {
      LastPays(anchor - job.start, op, |b.literals|);
    }
  }

  /** The last literals, all of them or as many as fit; nothing if that is not allowed. */
  method LastStep(job: Job, dst: array<byte>, anchor: nat, op: nat, ghost end: nat) returns (result: nat, consumed: nat)
    requires job.Valid() && InRoom(job, anchor, op) && Room(job) <= end <= dst.Length && op <= end
    modifies dst
    ensures job.start <= anchor <= job.End() && (job.policy.FillOutput? ==> op < job.olimit)
    ensures match LastRun(job, anchor, op)
            case None => result == 0 && dst[..] == old(dst[..])
            case Some(b) => && WellFormed(b) && Wrote(dst, old(dst[..op]) + Encode(b), end)
                            && result == op + |Encode(b)| && result > 0 && consumed == anchor - job.start + OutLen(b)
  {
    var run := job.End() - anchor;
    if !job.policy.NotLimited? && op + run + 1 + (run + 255 - RUN_MASK) / 255 > job.olimit {
      if job.policy.FillOutput? {
        run := job.olimit - op - 1;
        run := run - (run + 256 - RUN_MASK) / 256;
      } else {
        return 0, 0;
      }
    }
    result := WriteLastRun(job, dst, anchor, op, run, end);
    consumed := anchor + run - job.start;
  }

  method WriteLastRun(job: Job, dst: array<byte>, anchor: nat, op: nat, run: nat, ghost end: nat) returns (result: nat)
    requires job.Valid() && InRoom(job, anchor, op) && Room(job) <= end <= dst.Length && op <= end
    requires LastRun(job, anchor, op).Some? && LastRun(job, anchor, op).value.Last?
    requires |LastRun(job, anchor, op).value.literals| == run
    modifies dst
    ensures var b := LastRun(job, anchor, op).value;
            && WellFormed(b) && Wrote(dst, old(dst[..op]) + Encode(b), end)
            && result == op + |Encode(b)| && result > 0 && OutLen(b) == run
  {
    hide LastRun, InRoom, Room, LengthSize, LiteralPart, Job.Valid;
    LastInRoom(job, anchor, op);
    result := WriteLast(dst, op, job.buf, anchor, run, end);
  }

  /** What is written so far, and what is still to come, make up the whole. */
  ghost predicate Follows(job: Job, c: Cursor, before: seq<byte>, whole: Option<Block>) {
    && InBounds(job, c)
    && (whole.None? <==> Plan(job, c).None?)
    && (whole.Some? ==>
          var rest := Plan(job, c).value;
          && !c.Failed? && WellFormed(whole.value) && WellFormed(rest)
          && Encode(whole.value) == before + Encode(rest)
          && OutLen(whole.value) == c.anchor - job.start + OutLen(rest))
  }

  lemma FollowsTaken(job: Job, c: Cursor, before: seq<byte>, whole: Option<Block>)
    requires Follows(job, c, before, whole) && Sound(job, c) && Takes(job, c) && WellFormedSequence(Taken(job, c))
    ensures Follows(job, TakeMatch(job, c), before + EncodeSequence(Taken(job, c)), whole)
  {
    PlanTakes(job, c);
    TakenShape(job, c);
    hide Sound, Takes, Taken, TakeMatch, EncodeSequence, NextIp;
    if whole.Some? {
      var rest := Plan(job, TakeMatch(job, c)).value;
      Assoc(before, EncodeSequence(Taken(job, c)), Encode(rest));
    }
  }

  /** Every round of the main loop keeps to the plan. */
  lemma AdvancesFollows(job: Job, c: Cursor, next: Cursor, before: seq<byte>, after: seq<byte>, whole: Option<Block>)
    requires Follows(job, c, before, whole) && Sound(job, c) && Advances(job, c, next, before, after)
    ensures Follows(job, next, after, whole)
    ensures Remaining(job, next) < Remaining(job, c)
  {
    assert InBounds(job, c);
    hide Sound;
    if Takes(job, c) {
      FollowsTaken(job, c, before, whole);
      RemainingShrinks(job, c);
    }
  }

  lemma StartFacts(job: Job, table: Table)
    requires job.Valid() && Good(job, table) && (job.policy.FillOutput? ==> 1 <= job.olimit)
    ensures InRoom(job, job.start, 0) && |table| == job.TableSize() && job.start + job.size <= |job.buf|
  {
  }

  /** Where the main loop starts: the first position entered, and the second searched. */
  method FirstStep(job: Job, table: array<nat>, dst: array<byte>, ghost end: nat) returns (st: State)
    requires job.Valid() && 1 <= job.size && Good(job, table[..]) && Below(table[..], job.startIndex + 1)
    requires Room(job) <= end <= dst.Length && (job.policy.FillOutput? ==> 1 <= job.olimit)
    modifies table, dst
    ensures |old(table[..])| == job.TableSize()
    ensures CursorOf(st, table[..]) == FirstCursor(job, old(table[..]))
    ensures table[..] == FirstTable(job, old(table[..]))
    ensures Between(job, table[..], dst[..], st, [], end) && dst[end..] == old(dst[end..])
  {
    hide Good, Below, InRoom, Room, Kept, Between, FromSearch, Job.Hash, Job.Valid;
    StartFacts(job, table[..]);
    assert |dst[..]| == dst.Length && dst[..][..0] == [];
    if job.size < MIN_LENGTH {
      BelowMore(table[..], job.startIndex + 1, job.Index(job.End()));
      KeptIs(job, table[..]);
      BetweenAtLast(job, table[..], dst[..], job.start, 0, [], end);
      st := Ending(job.start, 0);
    } else {
      st := FirstSearch(job, table, dst, end);
    }
  }

  lemma FirstFacts(job: Job)
    requires job.Valid() && MIN_LENGTH <= job.size && InRoom(job, job.start, 0)
    ensures job.start + 8 <= |job.buf| && Hashable(job, job.start) && Hashable(job, job.start + 1)
    ensures 1 <= job.acceleration
    ensures job.Index(job.start) == job.startIndex && job.Index(job.start + 1) == job.startIndex + 1
    ensures job.policy.FillOutput? ==> 0 < job.olimit
  {
  }

  method FirstSearch(job: Job, table: array<nat>, dst: array<byte>, ghost end: nat) returns (st: State)
    requires job.Valid() && MIN_LENGTH <= job.size && Good(job, table[..]) && Below(table[..], job.startIndex + 1)
    requires Room(job) <= end <= dst.Length && InRoom(job, job.start, 0)
    modifies table, dst
    ensures |old(table[..])| == job.TableSize() && job.start + 8 <= |job.buf|
    ensures CursorOf(st, table[..])
            == FromSearch(job, old(table[..])[job.Hash(job.start) := job.startIndex], job.start, job.start + 1, 0)
    ensures Hashable(job, job.start + 1) && 1 <= job.acceleration
    ensures table[..] == SearchTable(job, old(table[..])[job.Hash(job.start) := job.startIndex], job.start + 1)
    ensures Between(job, table[..], dst[..], st, [], end) && dst[end..] == old(dst[end..])
  {
    hide Good, Below, InRoom, Room, Kept, Between, Written, Sound, FromSearch, Job.Hash, Job.Valid, Hashable, Job.Index;
    FirstFacts(job);
    ghost var out := dst[..];
    Enter(job, table, job.start, job.startIndex + 1);
    ghost var entered := table[..];
    FromSearchIsSound(job, entered, job.start, job.start + 1, 0);
    assert dst[..] == out && out[..0] == [];
    st := SearchStep(job, table, dst, job.start, job.start + 1, 0, end);
    BetweenAfter(job, table[..], out, dst[..], st, [], 0, end);
  }

  lemma BetweenParts(job: Job, table: Table, dst: seq<byte>, st: State, before: seq<byte>, end: nat)
    requires Between(job, table, dst, st, before, end)
    ensures job.Valid() && Sound(job, CursorOf(st, table)) && Kept(job, table) && Room(job) <= end <= |dst|
    ensures st.Ending? ==> InRoom(job, st.anchor, st.op) && |before| == st.op <= end && dst[..st.op] == before
  {
    hide Kept, Room, InRoom, LiteralPart;
  }

  lemma FirstFollows(job: Job, c: Cursor, whole: Option<Block>)
    requires Sound(job, c) && whole == Plan(job, c) && (!c.Failed? ==> c.anchor == job.start)
    ensures Follows(job, c, [], whole)
  {
    assert InBounds(job, c);
    hide Plan, Sound, Encode, OutLen, WellFormed, InBounds;
    if whole.Some? {
      PlanFits(job, c);
      assert [] + Encode(whole.value) == Encode(whole.value);
    }
  }

  lemma FollowsToLast(job: Job, table: Table, st: State, before: seq<byte>, whole: Option<Block>)
    requires !st.Matching? && Follows(job, CursorOf(st, table), before, whole)
    ensures st.GivenUp? ==> whole.None?
    ensures st.Ending? ==>
      && job.start <= st.anchor <= job.End() <= |job.buf| && (job.policy.FillOutput? ==> st.op < job.olimit)
      && (whole.None? <==> LastRun(job, st.anchor, st.op).None?)
      && (whole.Some? ==>
            var last := LastRun(job, st.anchor, st.op).value;
            && WellFormed(whole.value) && WellFormed(last) && Encode(whole.value) == before + Encode(last)
            && OutLen(whole.value) == st.anchor - job.start + OutLen(last))
  {
    hide LastRun;
  }

  /** What the table is to be in the end. */
  ghost predicate Leaves(job: Job, st: State, table: Table, left: Table) {
    && InBounds(job, CursorOf(st, table)) && |table| == job.TableSize()
    && LeftBy(job, CursorOf(st, table), table) == left
  }

  lemma LeavesNow(job: Job, st: State, table: Table, left: Table)
    requires Leaves(job, st, table, left)
    ensures InBounds(job, CursorOf(st, table)) && |table| == job.TableSize()
    ensures LeftBy(job, CursorOf(st, table), table) == left
    ensures st.Matching? ==> CursorOf(st, table).AtMatch? && CursorOf(st, table).table == table
  {
  }

  /** One match further the same table is to be left. */
  lemma LeavesOn(job: Job, c: Cursor, next: State, table: Table, before: seq<byte>, after: seq<byte>, left: Table)
    requires InBounds(job, c) && c.AtMatch? && |c.table| == job.TableSize() && LeftBy(job, c, c.table) == left
    requires Advances(job, c, CursorOf(next, table), before, after) && table == TableAfter(job, c)
    ensures Leaves(job, next, table, left)
  {
    hide Takes, TakeMatch, Taken, EncodeSequence, MatchEndTable, NextTable, NextIp, Rewinds;
    if Takes(job, c) {
      TakenLeaves(job, c);
    } else {
      StopLeaves(job, c);
    }
  }

  lemma StopLeaves(job: Job, c: Cursor)
    requires InBounds(job, c) && c.AtMatch? && !Takes(job, c)
    ensures LeftBy(job, c, c.table) == c.table == TableAfter(job, c)
    ensures Rewinds(job, c) ==> InBounds(job, AtLast(c.anchor, c.token))
    ensures InBounds(job, Failed)
  {
  }

  lemma LeavesLast(job: Job, st: State, table: Table, left: Table)
    requires Leaves(job, st, table, left) && !st.Matching?
    ensures table == left
  {
  }

  lemma LeavesFirst(job: Job, st: State, before: Table, table: Table)
    requires job.Valid() && |before| == job.TableSize() && (job.policy.FillOutput? ==> 1 <= job.olimit)
    requires CursorOf(st, table) == FirstCursor(job, before) && table == FirstTable(job, before)
    ensures Leaves(job, st, table, Left(job, before))
  {
    hide FirstCursor, FirstTable, LeftBy;
  }

  /** LZ4_compress_generic_validated. The result is the size of the block, 0 if it is not written. */
  method CompressGenericValidated(job: Job, table: array<nat>, dst: array<byte>, ghost end: nat)
    returns (result: nat, consumed: nat)
    requires job.Valid() && 1 <= job.size && Good(job, table[..]) && Below(table[..], job.startIndex + 1)
    requires Room(job) <= end <= dst.Length
    modifies table, dst
    ensures |old(table[..])| == job.TableSize()
    ensures match Compressed(job, old(table[..]))
            case None => result == 0
            case Some(b) => && WellFormed(b) && 0 < result == |Encode(b)| <= end
                            && dst[..result] == Encode(b) && consumed == OutLen(b)
    ensures dst[end..] == old(dst[end..]) && Kept(job, table[..])
    ensures table[..] == Left(job, old(table[..]))
  {
    if job.policy.FillOutput? && job.olimit < 1 {
      BelowMore(table[..], job.startIndex + 1, job.Index(job.End()));
      return 0, 0;
    }
    ghost var whole, left := Compressed(job, table[..]), Left(job, table[..]);
    var st := FirstStep(job, table, dst, end);
    BetweenParts(job, table[..], dst[..], st, [], end);
    FirstFollows(job, CursorOf(st, table[..]), whole);
    LeavesFirst(job, st, old(table[..]), table[..]);
    hide *;
    result, consumed := Rounds(job, table, dst, st, whole, left, end);
  }

  /** The main loop, and the last literals. */
  method Rounds(job: Job, table: array<nat>, dst: array<byte>, st0: State, ghost whole: Option<Block>,
                ghost left: Table, ghost end: nat)
    returns (result: nat, consumed: nat)
    requires Between(job, table[..], dst[..], st0, [], end) && end <= dst.Length
    requires Follows(job, CursorOf(st0, table[..]), [], whole) && Leaves(job, st0, table[..], left)
    modifies table, dst
    ensures match whole
            case None => result == 0
            case Some(b) => && WellFormed(b) && 0 < result == |Encode(b)| <= end
                            && dst[..result] == Encode(b) && consumed == OutLen(b)
    ensures dst[end..] == old(dst[end..]) && Kept(job, table[..]) && table[..] == left
  {
    hide *;
    var st := st0;
    ghost var before: seq<byte> := [];
    ghost var kept := dst[end..];
    while st.Matching?
      invariant Between(job, table[..], dst[..], st, before, end) && dst[end..] == kept
      invariant Follows(job, CursorOf(st, table[..]), before, whole) && Leaves(job, st, table[..], left)
      decreases Remaining(job, CursorOf(st, table[..]))
    {
      ghost var c, now := CursorOf(st, table[..]), table[..];
      LeavesNow(job, st, now, left);
      BetweenParts(job, table[..], dst[..], st, before, end);
      ghost var after;
      st, after := MatchStep(job, table, dst, st, before, end);
      AdvancesFollows(job, c, CursorOf(st, table[..]), before, after, whole);
      LeavesOn(job, c, st, table[..], before, after, left);
      before := after;
    }
    BetweenParts(job, table[..], dst[..], st, before, end);
    FollowsToLast(job, table[..], st, before, whole);
    LeavesLast(job, st, table[..], left);
    if st.GivenUp? {
      return 0, 0;
    }
    result, consumed := LastStep(job, dst, st.anchor, st.op, end);
  }
}
