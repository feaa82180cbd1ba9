/**
 What LZ4_compress_generic_validated decides, without the buffer it writes: which matches the lossy
 hash table yields, how far each is extended, and where the output policy cuts the block short.
 The methods of Compressor compute exactly this; the lemmas of PlanProperties are about this.
 */
module GreedyPlan {
  import opened Bytes
  import opened BlockFormat
  import opened MatchCount

  const MAX_INPUT_SIZE := 0x7E00_0000
  const LIMIT_64K := 65536 + (MF_LIMIT - 1)
  const MIN_LENGTH := MF_LIMIT + 1

  datatype TableType = ByU32 | ByU16
  datatype Policy = NotLimited | LimitedOutput | FillOutput

  /** The little-endian number in `n` bytes. */
  function LittleEndian(buf: seq<byte>, p: nat, n: nat): nat
    requires p + n <= |buf|
    decreases n
  {
    if n == 0 then 0
    else
      var low: int := buf[p];
      low + 256 * LittleEndian(buf, p + 1, n - 1)
  }

  /** LZ4_hash4 for the 16-bit table. */
  function Hash4(sequence: nat): (h: nat)
    ensures h < 8192
  {
    (sequence * 2654435761) % 0x1_0000_0000 / 0x8_0000
  }

  /** LZ4_hash5 for the 32-bit table. */
  function Hash5(sequence: nat): (h: nat)
    ensures h < 4096
  {
    ((sequence * 0x100_0000) % 0x1_0000_0000_0000_0000 * 889523592379) % 0x1_0000_0000_0000_0000 / 0x10_0000_0000_0000
  }

  /** One compression: a block [start, start + size) of a buffer, preceded by `dictSize` bytes it may
      refer to; positions are stored in the table shifted so that `start` becomes `startIndex`. */
  datatype Job = Job(buf: seq<byte>, start: nat, size: nat, dictSize: nat, startIndex: nat,
                     tableType: TableType, dictSmall: bool, acceleration: nat, policy: Policy, olimit: int) {
    function End(): nat { start + size }

    function MfLimitPlusOne(): int { start + size - MF_LIMIT + 1 }

    function MatchLimit(): int { start + size - LAST_LITERALS }

    function Low(): int { start - dictSize }

    ghost predicate Valid() {
      && start + size <= |buf| && dictSize <= start && 1 <= acceleration
      && startIndex + size <= 0x8000_0000
      && (dictSmall ==> dictSize <= startIndex)
      && (tableType.ByU16? ==> startIndex + size < LIMIT_64K)
      && (policy.FillOutput? ==> startIndex == 0)
    }

    function TableSize(): nat {
      if tableType.ByU16? then 8192 else 4096
    }

    /** What an entry of the table can hold: 16 bits or 32. */
    function EntryLimit(): nat {
      if tableType.ByU16? then 0x1_0000 else 0x1_0000_0000
    }

    function Index(p: nat): int { p - start + startIndex }

    function Position(index: nat): int { index - startIndex + start }

    /** LZ4_hashPosition. */
    function Hash(p: nat): (h: nat)
      requires p + 8 <= |buf|
      ensures h < TableSize()
    {
      if tableType.ByU16? then Hash4(LittleEndian(buf, p, 4)) else Hash5(LittleEndian(buf, p, 8))
    }

    /** The checks a table entry must pass to be a match for position `p`. */
    predicate Accepts(index: nat, p: nat) {
      && (dictSmall ==> index + dictSize >= startIndex)
      && (tableType.ByU16? || index + DISTANCE_MAX >= Index(p))
      && Same4(buf, Position(index), p)
    }
  }

  predicate Same4(buf: seq<byte>, q: int, p: int) {
    && 0 <= q && 0 <= p && q + 4 <= |buf| && p + 4 <= |buf|
    && buf[p] == buf[q] && buf[p + 1] == buf[q + 1] && buf[p + 2] == buf[q + 2] && buf[p + 3] == buf[q + 3]
  }

  /** A place where positions can be hashed and looked up. */
  predicate Hashable(job: Job, p: nat) {
    job.start <= p <= job.MfLimitPlusOne() && job.End() <= |job.buf|
  }

  type Table = seq<nat>

  /** A candidate found, or none before the data ran out; and the table after the search. */
  datatype Finding = Found(ip: nat, pos: nat, table: Table) | NotFound(table: Table)

  /** The search loop: the first accepted candidate from `fwd` on, striding ever wider, with every
      visited position entered in the table. */
  function Search(job: Job, table: Table, fwd: nat, step: nat, nb: nat): (r: Finding)
    requires |table| == job.TableSize() && Hashable(job, fwd) && 1 <= step && 64 <= nb
    ensures |r.table| == |table|
    ensures r.Found? ==> fwd <= r.ip < job.MfLimitPlusOne() && r.pos + 4 <= |job.buf|
    decreases job.MfLimitPlusOne() - fwd
  {
    var next := fwd + step;
    if next > job.MfLimitPlusOne() then NotFound(table)
    else
      var h := job.Hash(fwd);
      var index := table[h];
      var entered := table[h := job.Index(fwd)];
      if job.Accepts(index, fwd) then Found(fwd, job.Position(index), entered)
      else Search(job, entered, next, nb / 64, nb + 1)
  }

  /** How far a match extends backwards, not below the anchor nor the start of the history. */
  function CatchUp(job: Job, anchor: nat, ip: nat, m: nat): (k: nat)
    requires anchor <= ip <= |job.buf| && m <= |job.buf|
    ensures anchor + k <= ip && k <= m
    decreases ip
  {
    if ip > anchor && m > job.Low() && m > 0 && job.buf[ip - 1] == job.buf[m - 1]
    then 1 + CatchUp(job, anchor, ip - 1, m - 1)
    else 0
  }

  /** Where the compressor stands: literals of a sequence written and its match at hand; at the last
      literals; or given up. `token` is the output position of the sequence's token. */
  datatype Cursor =
    | AtMatch(table: Table, anchor: nat, ip: nat, pos: nat, filled: nat, token: nat, op: nat)
    | AtLast(anchor: nat, token: nat)
    | Failed

  /** The output checks before literals are written. */
  function WithLiterals(job: Job, table: Table, anchor: nat, ip: nat, m: nat, filled: nat, op: nat): Cursor
    requires anchor <= ip
  {
    var n := ip - anchor;
    if job.policy.LimitedOutput? && op + 1 + n + (2 + 1 + LAST_LITERALS) + n / 255 > job.olimit then Failed
    else if job.policy.FillOutput? && op + 1 + (n + 240) / 255 + n + 2 + 1 + MF_LIMIT - MIN_MATCH > job.olimit then
      AtLast(anchor, op)
    else AtMatch(table, anchor, ip, m, filled, op, op + 1 + LengthSize(n) + n)
  }

  /** Finds the next match from `ip` on. */
  function FromSearch(job: Job, table: Table, anchor: nat, ip: nat, op: nat): (c: Cursor)
    requires |table| == job.TableSize() && Hashable(job, ip) && anchor <= ip && 1 <= job.acceleration
    ensures !c.Failed? ==> c.anchor == anchor && c.token == op
    ensures c.AtMatch? ==> anchor <= c.ip <= c.filled < job.MfLimitPlusOne() && |c.table| == |table|
  {
    match Search(job, table, ip, 1, job.acceleration * 64)
    case NotFound(_) => AtLast(anchor, op)
    case Found(p, m, entered) =>
      var k := CatchUp(job, anchor, p, m);
      WithLiterals(job, entered, anchor, p - k, m - k, p, op)
  }

  /** Behind a match that ends at `ip`: the end of the block, another match at once, or a search. */
  function FromMatchEnd(job: Job, table: Table, ip: nat, op: nat, filled: nat): (c: Cursor)
    requires |table| == job.TableSize() && job.start + 2 <= ip && job.End() <= |job.buf| && 1 <= job.acceleration
    ensures !c.Failed? ==> c.anchor == ip && c.token == op
    ensures c.AtMatch? ==> ip <= c.ip < job.MfLimitPlusOne() && |c.table| == |table|
  {
    if ip >= job.MfLimitPlusOne() then AtLast(ip, op)
    else
      var filling := table[job.Hash(ip - 2) := job.Index(ip - 2)];
      var h := job.Hash(ip);
      var index := filling[h];
      var entered := filling[h := job.Index(ip)];
      if job.Accepts(index, ip) then AtMatch(entered, ip, ip, job.Position(index), filled, op, op + 1)
      else FromSearch(job, entered, ip, ip + 1, op)
  }

  /** The match is too close to the end of the room, and is given back. */
  predicate Rewinds(job: Job, c: Cursor)
    requires c.AtMatch?
  {
    job.policy.FillOutput? && c.op + 2 + 1 + MF_LIMIT - MIN_MATCH > job.olimit
  }

  /** The match length, less 4, as far as the data goes. */
  function MatchCode(job: Job, c: Cursor): nat
    requires c.AtMatch?
  {
    CommonLen(job.buf, c.ip + MIN_MATCH, c.pos + MIN_MATCH, job.MatchLimit())
  }

  /** The length does not fit in the room that is left. */
  predicate TooLong(job: Job, c: Cursor)
    requires c.AtMatch?
  {
    !job.policy.NotLimited? && c.op + 2 + (1 + LAST_LITERALS) + (MatchCode(job, c) + 240) / 255 > job.olimit
  }

  /** Removes the positions [p, last] from the table. */
  function Clear(job: Job, table: Table, p: nat, last: nat): (r: Table)
    requires |table| == job.TableSize() && (p <= last ==> Hashable(job, p) && Hashable(job, last))
    ensures |r| == |table|
    decreases last + 1 - p
  {
    if p > last then table else Clear(job, table[job.Hash(p) := 0], p + 1, last)
  }

  /** A cursor within the bounds every function here needs. */
  predicate InBounds(job: Job, c: Cursor) {
    && job.End() <= |job.buf| && 1 <= job.acceleration
    && match c
       case Failed => true
       case AtLast(anchor, token) =>
         job.start <= anchor <= job.End() && (job.policy.FillOutput? ==> token < job.olimit)
       case AtMatch(table, anchor, ip, pos, filled, token, op) =>
         && job.start <= anchor <= ip < job.MfLimitPlusOne() && |table| == job.TableSize()
         && filled < job.MfLimitPlusOne()
         && (job.policy.FillOutput? ==> token < job.olimit)
  }

  /** The match at hand is taken: it is not given back, and if too long it may be shortened. */
  predicate Takes(job: Job, c: Cursor) {
    c.AtMatch? && InBounds(job, c) && !Rewinds(job, c) && (TooLong(job, c) ==> job.policy.FillOutput?)
  }

  /** The match length, less 4, that is written: shortened when filling the output, if need be. */
  function TakenCode(job: Job, c: Cursor): (code: nat)
    requires Takes(job, c)
    ensures code <= MatchCode(job, c)
    ensures TooLong(job, c) ==> code < MatchCode(job, c)
  {
    if TooLong(job, c) then 15 - 1 + (job.olimit - (c.op + 2) - 1 - LAST_LITERALS) * 255
    else MatchCode(job, c)
  }

  /** Input and output position, and the table, behind a taken match. */
  function NextIp(job: Job, c: Cursor): (ip: nat)
    requires Takes(job, c)
    ensures ip <= job.MatchLimit()
  {
    c.ip + MIN_MATCH + TakenCode(job, c)
  }

  function NextOp(job: Job, c: Cursor): (op: nat)
    requires Takes(job, c)
    ensures job.policy.FillOutput? ==> op < job.olimit
  {
    c.op + 2 + LengthSize(TakenCode(job, c))
  }

  function NextTable(job: Job, c: Cursor): (table: Table)
    requires Takes(job, c)
    ensures |table| == job.TableSize()
  {
    if TooLong(job, c) && NextIp(job, c) <= c.filled then Clear(job, c.table, NextIp(job, c), c.filled) else c.table
  }

  function Distance(ip: nat, pos: nat): nat {
    if pos <= ip then ip - pos else 0
  }

  /** The sequence written for a taken match. */
  function Taken(job: Job, c: Cursor): Sequence
    requires Takes(job, c)
  {
    Sequence(job.buf[c.anchor..c.ip], Distance(c.ip, c.pos), TakenCode(job, c) + MIN_MATCH)
  }

  /** Takes the match at hand and moves on to the next cursor. */
  function TakeMatch(job: Job, c: Cursor): (c': Cursor)
    requires Takes(job, c)
    ensures !c'.Failed? ==> c'.anchor == NextIp(job, c) && c'.token == NextOp(job, c)
    ensures InBounds(job, c')
  {
    FromMatchEnd(job, NextTable(job, c), NextIp(job, c), NextOp(job, c), c.filled)
  }

  /** How many literals fit behind one token in `room` bytes. */
  function FillRun(room: nat): int {
    room - (room + 256 - RUN_MASK) / 256
  }

  /** The last literals, cut to the room when filling the output. */
  function LastRun(job: Job, anchor: nat, op: nat): Option<Block>
    requires job.start <= anchor <= job.End() <= |job.buf| && (job.policy.FillOutput? ==> op < job.olimit)
  {
    var run := job.End() - anchor;
    if !job.policy.NotLimited? && op + run + 1 + (run + 255 - RUN_MASK) / 255 > job.olimit then
      if job.policy.FillOutput? then Some(Last(job.buf[anchor..anchor + FillRun(job.olimit - op - 1)], 0))
      else None
    else Some(Last(job.buf[anchor..job.End()], 0))
  }

  /** What remains to be read when a cursor is reached; shrinks with every match taken. */
  function Remaining(job: Job, c: Cursor): nat {
    match c
    case Failed => 0
    case AtLast(anchor, _) => 1
    case AtMatch(_, anchor, _, _, _, _, _) => if anchor <= |job.buf| then |job.buf| - anchor + 2 else 0
  }

  /** The block the compressor writes from a cursor on, or nothing if it gives up. */
  function Plan(job: Job, c: Cursor): Option<Block>
    requires InBounds(job, c)
    decreases Remaining(job, c)
  {
    match c
    case Failed => None
    case AtLast(anchor, token) => LastRun(job, anchor, token)
    case AtMatch(_, anchor, _, _, _, token, _) =>
      if Takes(job, c) then
        match Plan(job, TakeMatch(job, c))
        case None => None
        case Some(rest) => Some(More(Taken(job, c), rest))
      else if Rewinds(job, c) then LastRun(job, anchor, token)
      else None
  }

  /** The cursor a compression starts with: short inputs are literals only, others enter their first
      position in the table and search from the second. */
  function FirstCursor(job: Job, table: Table): (c: Cursor)
    requires job.End() <= |job.buf| && 1 <= job.acceleration && |table| == job.TableSize()
    requires job.policy.FillOutput? ==> 1 <= job.olimit
    ensures InBounds(job, c)
  {
    if job.size < MIN_LENGTH then AtLast(job.start, 0)
    else FromSearch(job, table[job.Hash(job.start) := job.startIndex], job.start, job.start + 1, 0)
  }

  /** The block LZ4_compress_generic_validated writes. */
  function Compressed(job: Job, table: Table): Option<Block>
    requires job.End() <= |job.buf| && 1 <= job.acceleration && |table| == job.TableSize()
  {
    if job.policy.FillOutput? && job.olimit < 1 then None else Plan(job, FirstCursor(job, table))
  }

  // ----- The table that is left behind -----

  /** The table behind a search. */
  function SearchTable(job: Job, table: Table, ip: nat): (r: Table)
    requires |table| == job.TableSize() && Hashable(job, ip) && 1 <= job.acceleration
    ensures |r| == |table|
  {
    Search(job, table, ip, 1, job.acceleration * 64).table
  }

  /** The table when the next match behind one that ends at `ip` is found, or none. */
  function MatchEndTable(job: Job, table: Table, ip: nat): (r: Table)
    requires |table| == job.TableSize() && job.start + 2 <= ip && job.End() <= |job.buf| && 1 <= job.acceleration
    ensures |r| == |table|
  {
    if ip >= job.MfLimitPlusOne() then table
    else
      var filling := table[job.Hash(ip - 2) := job.Index(ip - 2)];
      var h := job.Hash(ip);
      var entered := filling[h := job.Index(ip)];
      if job.Accepts(filling[h], ip) then entered else SearchTable(job, entered, ip + 1)
  }

  /** The table one match later. */
  function TableAfter(job: Job, c: Cursor): (r: Table)
    requires c.AtMatch? && InBounds(job, c)
    ensures |r| == job.TableSize()
  {
    if Takes(job, c) then MatchEndTable(job, NextTable(job, c), NextIp(job, c)) else c.table
  }

  /** The table the compressor leaves from a cursor on, where it is `table`. */
  function LeftBy(job: Job, c: Cursor, table: Table): (r: Table)
    requires InBounds(job, c) && |table| == job.TableSize()
    ensures |r| == |table|
    decreases Remaining(job, c)
  {
    if !c.AtMatch? then table
    else if Takes(job, c) then LeftBy(job, TakeMatch(job, c), TableAfter(job, c))
    else c.table
  }

  function FirstTable(job: Job, table: Table): (r: Table)
    requires job.End() <= |job.buf| && 1 <= job.acceleration && |table| == job.TableSize()
    ensures |r| == |table|
  {
    if job.size < MIN_LENGTH then table
    else SearchTable(job, table[job.Hash(job.start) := job.startIndex], job.start + 1)
  }

  /** The table LZ4_compress_generic_validated leaves. */
  function Left(job: Job, table: Table): (r: Table)
    requires job.End() <= |job.buf| && 1 <= job.acceleration && |table| == job.TableSize()
    ensures |r| == |table|
  {
    if job.policy.FillOutput? && job.olimit < 1 then table
    else LeftBy(job, FirstCursor(job, table), FirstTable(job, table))
  }
}
