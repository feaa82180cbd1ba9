/**
 The size of the compressed block without a limit, and what a limit changes: nothing, as long as
 there is room for the worst case.
 */
module PlanLimits {
  import opened Bytes
  import opened BlockFormat
  import opened MatchCount
  import opened GreedyPlan
  import opened PlanProperties
  import opened PlanTheorems

  /** LZ4_compressBound. */
  function CompressBound(size: nat): nat {
    if size > MAX_INPUT_SIZE then 0 else size + size / 255 + 16
  }

  // ----- The bound -----

  /** Output written for `n` bytes of input: at most one byte in 255 more. */
  predicate Amortised(n: nat, op: nat) {
    op <= n + n / 255
  }

  /** A sequence pays for its token and offset with the bytes its match saves, and for long literals
      with one byte in 255. */
  lemma SequencePays(n: nat, op: nat, literals: nat, code: nat)
    requires Amortised(n, op)
    ensures Amortised(n + literals + MIN_MATCH + code, op + 3 + LengthSize(literals) + literals + LengthSize(code))
  {
    DivSum(n, literals);
    DivGrows(n + literals, n + literals + MIN_MATCH + code);
    LengthSizeSmall(literals);
    assert LengthSize(code) <= code;
  }

  lemma DivSum(a: nat, b: nat)
    ensures a / 255 + b / 255 <= (a + b) / 255
  {
  }

  lemma DivGrows(a: nat, b: nat)
    requires a <= b
    ensures a / 255 <= b / 255
  {
  }

  lemma LengthSizeSmall(n: nat)
    ensures LengthSize(n) <= n / 255 + 1
  {
  }

  lemma LastPays(n: nat, op: nat, run: nat)
    requires Amortised(n, op)
    ensures op + 1 + LengthSize(run) + run <= n + run + (n + run) / 255 + 2
  {
    DivSum(n, run);
    LengthSizeSmall(run);
  }

  lemma TakenPays(job: Job, c: Cursor)
    requires Sound(job, c) && Takes(job, c) && Amortised(c.anchor - job.start, c.token)
    ensures job.start <= NextIp(job, c) && Amortised(NextIp(job, c) - job.start, NextOp(job, c))
  {
    TakenOp(job, c);
    TakenShape(job, c);
    assert c.AtMatch?;
    hide *;
    SequencePays(c.anchor - job.start, c.token, c.ip - c.anchor, TakenCode(job, c));
  }

  /** Behind `op` bytes of output, the block stays within one byte in 255 of the input, and two. */
  ghost predicate Bounded(job: Job, op: nat, b: Block) {
    WellFormed(b) && op + |Encode(b)| <= job.size + job.size / 255 + 2
  }

  lemma LastIsBounded(job: Job, anchor: nat, op: nat)
    requires job.Valid() && job.start <= anchor <= job.End() && !job.policy.FillOutput?
    requires LastRun(job, anchor, op).Some? && Amortised(anchor - job.start, op)
    ensures Bounded(job, op, LastRun(job, anchor, op).value)
  {
    LastRunShape(job, anchor, op);
    hide LastRun, Amortised;
    var l := LastRun(job, anchor, op).value.literals;
    EncodedLastSize(l);
    LastPays(anchor - job.start, op, |l|);
  }

  lemma MoreIsBounded(job: Job, c: Cursor, rest: Block)
    requires Sound(job, c) && Takes(job, c) && Bounded(job, NextOp(job, c), rest)
    ensures Bounded(job, c.token, More(Taken(job, c), rest))
  {
    TakenSize(job, c);
    hide Sound, Takes, Taken, NextOp, EncodeSequence;
  }

  /** However the input is cut into sequences, the block is at most `size + size / 255 + 2` long. */
  lemma {:induction false} PlanIsBounded(job: Job, c: Cursor)
    requires Sound(job, c) && Plan(job, c).Some? && !job.policy.FillOutput?
    requires !c.Failed? ==> Amortised(c.anchor - job.start, c.token)
    ensures !c.Failed? && Bounded(job, c.token, Plan(job, c).value)
    decreases Remaining(job, c)
  {
    assert job.Valid() && InBounds(job, c);
    hide *;
    if Takes(job, c) {
      PlanTakes(job, c);
      TakeMatchIsSound(job, c);
      RemainingShrinks(job, c);
      TakenPays(job, c);
      PlanIsBounded(job, TakeMatch(job, c));
      MoreIsBounded(job, c, Plan(job, TakeMatch(job, c)).value);
    } else {
      PlanStops(job, c);
      LastIsBounded(job, c.anchor, c.token);
    }
  }

  // ----- A limit changes nothing but success -----

  /** The same job without a limit. */
  function Unlimited(job: Job): Job {
    job.(policy := NotLimited, olimit := 0)
  }

  lemma SameHash(job: Job, p: nat)
    requires p + 8 <= |job.buf|
    ensures Unlimited(job).Hash(p) == job.Hash(p)
  {
    hide Hash4, Hash5;
  }

  lemma SameAccepts(job: Job, index: nat, p: nat)
    ensures Unlimited(job).Accepts(index, p) == job.Accepts(index, p)
    ensures Unlimited(job).Index(p) == job.Index(p) && Unlimited(job).Position(index) == job.Position(index)
    ensures Unlimited(job).MfLimitPlusOne() == job.MfLimitPlusOne() && Hashable(Unlimited(job), p) == Hashable(job, p)
    ensures Unlimited(job).TableSize() == job.TableSize() && Unlimited(job).acceleration == job.acceleration
    ensures Unlimited(job).buf == job.buf && Unlimited(job).start == job.start && Unlimited(job).End() == job.End()
  {
    hide Same4;
  }

  lemma {:induction false} SameSearch(job: Job, table: Table, fwd: nat, step: nat, nb: nat)
    requires |table| == job.TableSize() && Hashable(job, fwd) && 1 <= step && 64 <= nb
    ensures Search(Unlimited(job), table, fwd, step, nb) == Search(job, table, fwd, step, nb)
    decreases job.MfLimitPlusOne() - fwd
  {
    hide Search, Job.Hash, Job.Accepts, Unlimited;
    SameHash(job, fwd);
    SameAccepts(job, table[job.Hash(fwd)], fwd);
    if fwd + step <= job.MfLimitPlusOne() {
      SearchVisits(job, table, fwd, step, nb);
      SearchVisits(Unlimited(job), table, fwd, step, nb);
      SameSearch(job, table[job.Hash(fwd) := job.Index(fwd)], fwd + step, nb / 64, nb + 1);
    } else {
      SearchEnds(job, table, fwd, step, nb);
      SearchEnds(Unlimited(job), table, fwd, step, nb);
    }
  }

  lemma {:induction false} SameCatchUp(job: Job, anchor: nat, ip: nat, m: nat)
    requires anchor <= ip <= |job.buf| && m <= |job.buf|
    ensures CatchUp(Unlimited(job), anchor, ip, m) == CatchUp(job, anchor, ip, m)
    decreases ip
  {
    if ip > anchor && m > 0 {
      SameCatchUp(job, anchor, ip - 1, m - 1);
    }
  }

  lemma SameFromSearch(job: Job, table: Table, anchor: nat, ip: nat, op: nat)
    requires job.Valid() && |table| == job.TableSize() && Hashable(job, ip) && job.start <= anchor <= ip
    requires job.policy.LimitedOutput? && !FromSearch(job, table, anchor, ip, op).Failed?
    ensures FromSearch(Unlimited(job), table, anchor, ip, op) == FromSearch(job, table, anchor, ip, op)
  {
    SameSearch(job, table, ip, 1, job.acceleration * 64);
    match Search(job, table, ip, 1, job.acceleration * 64)
    case NotFound(_) =>
    case Found(p, m, entered) => SameCatchUp(job, anchor, p, m);
  }

  lemma SameEntered(job: Job, table: Table, ip: nat)
    requires job.Valid() && |table| == job.TableSize() && job.start + 2 <= ip < job.MfLimitPlusOne()
    ensures ip + 8 <= |job.buf| && job.End() <= |job.buf| && 1 <= job.acceleration && Hashable(job, ip + 1)
    ensures 0 <= job.Index(ip - 2) <= job.Index(ip)
    ensures var u := Unlimited(job);
            && u.buf == job.buf && u.start == job.start && u.acceleration == job.acceleration
            && u.TableSize() == job.TableSize()
            && u.End() == job.End() && u.MfLimitPlusOne() == job.MfLimitPlusOne()
            && u.Hash(ip) == job.Hash(ip) && u.Hash(ip - 2) == job.Hash(ip - 2)
            && u.Index(ip) == job.Index(ip) && u.Index(ip - 2) == job.Index(ip - 2)
            && var candidate := table[job.Hash(ip - 2) := job.Index(ip - 2)][job.Hash(ip)];
               && u.Accepts(candidate, ip) == job.Accepts(candidate, ip)
               && u.Position(candidate) == job.Position(candidate)
  {
    hide Hash4, Hash5, Same4, Job.Hash;
    SameHash(job, ip - 2);
    SameHash(job, ip);
  }

  lemma SameVisit(job: Job, table: Table, ip: nat, op: nat, filled: nat)
    requires job.Valid() && |table| == job.TableSize() && job.start + 2 <= ip < job.MfLimitPlusOne()
    requires job.policy.LimitedOutput? && !FromMatchEnd(job, table, ip, op, filled).Failed?
    ensures FromMatchEnd(Unlimited(job), table, ip, op, filled) == FromMatchEnd(job, table, ip, op, filled)
  {
    hide *;
    SameEntered(job, table, ip);
    MatchEndVisits(job, table, ip, op, filled);
    MatchEndVisits(Unlimited(job), table, ip, op, filled);
    var filling := table[job.Hash(ip - 2) := job.Index(ip - 2)];
    if !job.Accepts(filling[job.Hash(ip)], ip) {
      SameFromSearch(job, filling[job.Hash(ip) := job.Index(ip)], ip, ip + 1, op);
    }
  }

  lemma SameFromMatchEnd(job: Job, table: Table, ip: nat, op: nat, filled: nat)
    requires job.Valid() && |table| == job.TableSize() && job.start + 2 <= ip
    requires job.policy.LimitedOutput? && !FromMatchEnd(job, table, ip, op, filled).Failed?
    ensures FromMatchEnd(Unlimited(job), table, ip, op, filled) == FromMatchEnd(job, table, ip, op, filled)
  {
    if ip < job.MfLimitPlusOne() {
      SameVisit(job, table, ip, op, filled);
    }
  }

  lemma SameTaken(job: Job, c: Cursor)
    requires job.Valid() && job.policy.LimitedOutput? && Takes(job, c)
    ensures Takes(Unlimited(job), c) && TakenCode(Unlimited(job), c) == TakenCode(job, c)
    ensures Taken(Unlimited(job), c) == Taken(job, c) && NextIp(Unlimited(job), c) == NextIp(job, c)
    ensures NextOp(Unlimited(job), c) == NextOp(job, c) && NextTable(Unlimited(job), c) == NextTable(job, c) == c.table
  {
  }

  lemma SameTakeMatch(job: Job, c: Cursor)
    requires job.Valid() && job.policy.LimitedOutput? && Takes(job, c) && !TakeMatch(job, c).Failed?
    ensures Takes(Unlimited(job), c) && TakeMatch(Unlimited(job), c) == TakeMatch(job, c)
  {
    SameTaken(job, c);
    hide FromMatchEnd, Takes, NextIp, NextOp, NextTable, TakenCode;
    assert job.start + 2 <= NextIp(job, c) by { NextIpAhead(job, c); }
    SameFromMatchEnd(job, NextTable(job, c), NextIp(job, c), NextOp(job, c), c.filled);
  }

  lemma NextIpAhead(job: Job, c: Cursor)
    requires Takes(job, c)
    ensures job.start + MIN_MATCH <= NextIp(job, c)
  {
  }

  /** When the limited compressor succeeds, it has written what the unlimited one writes. */
  lemma {:induction false} LimitedAgrees(job: Job, c: Cursor)
    requires Sound(job, c) && job.policy.LimitedOutput? && Plan(job, c).Some?
    ensures InBounds(Unlimited(job), c) && Plan(Unlimited(job), c) == Plan(job, c)
    decreases Remaining(job, c)
  {
    hide Good, Below, TooLong, Matches;
    if Takes(job, c) {
      PlanTakes(job, c);
      TakeMatchIsSound(job, c);
      LimitedAgrees(job, TakeMatch(job, c));
      SameTakeMatch(job, c);
      SameTaken(job, c);
      PlanTakes(Unlimited(job), c);
    } else {
      PlanStops(job, c);
    }
  }

  // ----- A block that fits is written -----

  /** The block written without a limit would fit. */
  ghost predicate Fits(job: Job, c: Cursor) {
    && job.Valid() && job.policy.LimitedOutput? && Sound(Unlimited(job), c)
    && Plan(Unlimited(job), c).Some? && WellFormed(Plan(Unlimited(job), c).value)
    && !c.Failed? && c.token + |Encode(Plan(Unlimited(job), c).value)| <= job.olimit
  }

  /** The check before the literals passes. */
  predicate Passes(job: Job, c: Cursor)
    requires c.AtMatch? && c.anchor <= c.ip
  {
    var n := c.ip - c.anchor;
    c.token + 1 + n + (2 + 1 + LAST_LITERALS) + n / 255 <= job.olimit
  }

  lemma LengthSizeLarge(n: nat)
    ensures n / 255 <= LengthSize(n) == (n + 240) / 255
  {
  }

  /** Where the rest of the block fits, all checks around a match pass. */
  lemma ChecksPass(job: Job, c: Cursor, n: nat, code: nat, rest: nat)
    requires c.AtMatch? && c.anchor <= c.ip && n == c.ip - c.anchor && c.op == c.token + 1 + LengthSize(n) + n
    requires job.policy.LimitedOutput? && 6 <= rest
    requires c.token + 3 + LengthSize(n) + n + LengthSize(code) + rest <= job.olimit
    ensures Passes(job, c) && !Rewinds(job, c)
    ensures c.op + 2 + (1 + LAST_LITERALS) + (code + 240) / 255 <= job.olimit
    ensures c.token < job.olimit
  {
    LengthSizeLarge(n);
    LengthSizeLarge(code);
  }

  /** Without a limit every match is taken. */
  lemma UnlimitedTakes(job: Job, c: Cursor)
    requires InBounds(Unlimited(job), c) && c.AtMatch?
    ensures Takes(Unlimited(job), c) && TakenCode(Unlimited(job), c) == MatchCode(job, c) && c.anchor <= c.ip
  {
  }

  lemma CheckedTakes(job: Job, c: Cursor)
    requires Takes(Unlimited(job), c) && !Rewinds(job, c)
    requires c.op + 2 + (1 + LAST_LITERALS) + (MatchCode(job, c) + 240) / 255 <= job.olimit && c.token < job.olimit
    ensures Takes(job, c) && !TooLong(job, c) && Taken(job, c) == Taken(Unlimited(job), c)
    ensures NextIp(job, c) == NextIp(Unlimited(job), c) && NextOp(job, c) == NextOp(Unlimited(job), c)
    ensures NextTable(job, c) == NextTable(Unlimited(job), c) == c.table
  {
  }

  lemma UnlimitedTail(job: Job, c: Cursor)
    requires Sound(Unlimited(job), c) && Takes(Unlimited(job), c) && Plan(Unlimited(job), c).Some?
    ensures var u := Unlimited(job);
            var next := TakeMatch(u, c);
            && Sound(u, next) && !next.Failed? && next.token == NextOp(u, c) && Plan(u, next).Some?
            && WellFormed(Plan(u, next).value) && WellFormedSequence(Taken(u, c))
            && Plan(u, c) == Some(More(Taken(u, c), Plan(u, next).value))
            && |Encode(Plan(u, c).value)| == |EncodeSequence(Taken(u, c))| + |Encode(Plan(u, next).value)|
            && 6 <= |Encode(Plan(u, next).value)|
  {
    var u := Unlimited(job);
    hide Sound, Takes, Taken, TakeMatch, Plan, EncodeSequence;
    PlanTakes(u, c);
    TakeMatchIsSound(u, c);
    PlanFits(u, TakeMatch(u, c));
    PlanEndsWell(u, c);
    PlanEndsWell(u, TakeMatch(u, c));
    TakenSize(u, c);
    TailTakesSix(Plan(u, TakeMatch(u, c)).value);
  }

  lemma OpOfMatch(job: Job, c: Cursor)
    requires Sound(job, c) && Takes(job, c)
    ensures c.AtMatch? && c.anchor <= c.ip && c.op == c.token + 1 + LengthSize(c.ip - c.anchor) + (c.ip - c.anchor)
    ensures NextOp(job, c) == c.op + 2 + LengthSize(TakenCode(job, c))
  {
    hide Good, Below, Matches;
  }

  /** A match of a block that fits: its checks pass, it is taken with its full length, and what
      follows it fits as well. */
  lemma FitsTakes(job: Job, c: Cursor)
    requires Fits(job, c) && c.AtMatch?
    ensures c.anchor <= c.ip && Passes(job, c) && Takes(Unlimited(job), c) && Takes(job, c)
    ensures Taken(job, c) == Taken(Unlimited(job), c) && Fits(job, TakeMatch(Unlimited(job), c))
    ensures NextIp(job, c) == NextIp(Unlimited(job), c) && NextOp(job, c) == NextOp(Unlimited(job), c)
    ensures NextTable(job, c) == NextTable(Unlimited(job), c) == c.table
  {
    var u := Unlimited(job);
    hide Sound, Takes, Taken, TakeMatch, Plan, Encode, EncodeSequence, NextOp, NextIp, NextTable, TakenCode, MatchCode;
    hide Passes, Rewinds, InBounds, Job.Valid, Unlimited;
    FitsInBounds(job, c);
    UnlimitedTakes(job, c);
    UnlimitedTail(job, c);
    TakenSize(u, c);
    OpOfMatch(u, c);
    ChecksPass(job, c, c.ip - c.anchor, MatchCode(job, c), |Encode(Plan(u, TakeMatch(u, c)).value)|);
    CheckedTakes(job, c);
  }

  lemma FitsInBounds(job: Job, c: Cursor)
    requires Fits(job, c)
    ensures job.Valid() && job.policy.LimitedOutput? && InBounds(Unlimited(job), c)
  {
  }

  /** Where the check before its literals passes, the search comes to the same match. */
  lemma PassedSearch(job: Job, table: Table, anchor: nat, ip: nat, op: nat)
    requires job.Valid() && |table| == job.TableSize() && Hashable(job, ip) && job.start <= anchor <= ip
    requires job.policy.LimitedOutput?
    requires var c := FromSearch(Unlimited(job), table, anchor, ip, op); c.AtMatch? ==> Passes(job, c)
    ensures FromSearch(job, table, anchor, ip, op) == FromSearch(Unlimited(job), table, anchor, ip, op)
  {
    SameSearch(job, table, ip, 1, job.acceleration * 64);
    match Search(job, table, ip, 1, job.acceleration * 64)
    case NotFound(_) =>
    case Found(p, m, entered) => SameCatchUp(job, anchor, p, m);
  }

  lemma PassedVisit(job: Job, table: Table, ip: nat, op: nat, filled: nat)
    requires job.Valid() && |table| == job.TableSize() && job.start + 2 <= ip < job.MfLimitPlusOne()
    requires job.policy.LimitedOutput?
    requires var c := FromMatchEnd(Unlimited(job), table, ip, op, filled); c.AtMatch? ==> Passes(job, c)
    ensures FromMatchEnd(job, table, ip, op, filled) == FromMatchEnd(Unlimited(job), table, ip, op, filled)
  {
    hide *;
    SameEntered(job, table, ip);
    MatchEndVisits(job, table, ip, op, filled);
    MatchEndVisits(Unlimited(job), table, ip, op, filled);
    var filling := table[job.Hash(ip - 2) := job.Index(ip - 2)];
    if !job.Accepts(filling[job.Hash(ip)], ip) {
      PassedSearch(job, filling[job.Hash(ip) := job.Index(ip)], ip, ip + 1, op);
    }
  }

  lemma PassedMatchEnd(job: Job, table: Table, ip: nat, op: nat, filled: nat)
    requires job.Valid() && |table| == job.TableSize() && job.start + 2 <= ip
    requires job.policy.LimitedOutput?
    requires var c := FromMatchEnd(Unlimited(job), table, ip, op, filled); c.AtMatch? ==> Passes(job, c)
    ensures FromMatchEnd(job, table, ip, op, filled) == FromMatchEnd(Unlimited(job), table, ip, op, filled)
  {
    if ip < job.MfLimitPlusOne() {
      PassedVisit(job, table, ip, op, filled);
    }
  }

  lemma PassedTakeMatch(job: Job, c: Cursor)
    requires job.Valid() && job.policy.LimitedOutput? && c.AtMatch? && Takes(job, c) && Takes(Unlimited(job), c)
    requires NextIp(job, c) == NextIp(Unlimited(job), c) && NextOp(job, c) == NextOp(Unlimited(job), c)
    requires NextTable(job, c) == NextTable(Unlimited(job), c)
    requires var next := TakeMatch(Unlimited(job), c); next.AtMatch? ==> Passes(job, next)
    ensures TakeMatch(job, c) == TakeMatch(Unlimited(job), c)
  {
    hide FromMatchEnd, Takes, NextIp, NextOp, NextTable, TakenCode, Passes;
    NextIpAhead(job, c);
    PassedMatchEnd(job, NextTable(job, c), NextIp(job, c), NextOp(job, c), c.filled);
  }

  lemma FitsLast(job: Job, c: Cursor)
    requires Fits(job, c) && c.AtLast?
    ensures InBounds(job, c) && Plan(job, c) == Plan(Unlimited(job), c)
  {
    LengthSizeLarge(job.End() - c.anchor);
    EncodedLastSize(job.buf[c.anchor..job.End()]);
  }

  /** A block that fits is written, and is the one written without a limit. */
  lemma {:induction false} FitsAgrees(job: Job, c: Cursor)
    requires Fits(job, c)
    ensures InBounds(job, c) && Plan(job, c) == Plan(Unlimited(job), c)
    decreases Remaining(Unlimited(job), c)
  {
    hide Sound, Takes, Taken, TakeMatch, Plan, Encode, NextOp, NextIp, NextTable, InBounds, Passes, Job.Valid;
    hide Remaining, Unlimited, Fits;
    if c.AtMatch? {
      FitsTakes(job, c);
      var next := TakeMatch(Unlimited(job), c);
      FitsInBounds(job, c);
      RemainingShrinks(Unlimited(job), c);
      FitsAgrees(job, next);
      if next.AtMatch? {
        FitsTakes(job, next);
      }
      PassedTakeMatch(job, c);
      PlanTakes(job, c);
      PlanTakes(Unlimited(job), c);
      TakesInBounds(job, c);
    } else {
      FitsNotFailed(job, c);
      FitsLast(job, c);
    }
  }

  lemma TakesInBounds(job: Job, c: Cursor)
    requires Takes(job, c)
    ensures InBounds(job, c)
  {
  }

  lemma FitsNotFailed(job: Job, c: Cursor)
    requires Fits(job, c)
    ensures !c.Failed?
  {
  }

  // ----- Success -----

  /** Room for the worst case. */
  predicate Roomy(job: Job) {
    job.policy.LimitedOutput? ==> CompressBound(job.size) <= job.olimit && job.size <= MAX_INPUT_SIZE
  }

  lemma LiteralsFit(job: Job, n: nat, op: nat, literals: nat)
    requires Amortised(n, op) && n + literals + MF_LIMIT <= job.size && Roomy(job) && job.policy.LimitedOutput?
    ensures op + 1 + literals + (2 + 1 + LAST_LITERALS) + literals / 255 <= job.olimit
  {
    DivSum(n, literals);
    DivGrows(n + literals, job.size);
  }

  lemma MatchFits(job: Job, n: nat, op: nat, literals: nat, code: nat)
    requires Amortised(n, op) && n + literals + MIN_MATCH + code + LAST_LITERALS <= job.size
    requires Roomy(job) && job.policy.LimitedOutput?
    ensures op + 1 + LengthSize(literals) + literals + 2 + (1 + LAST_LITERALS) + (code + 240) / 255 <= job.olimit
  {
    DivSum(n, literals);
    DivGrows(n + literals, job.size);
    LengthSizeSmall(literals);
    assert (code + 240) / 255 <= code / 255 + 1 <= code + 1;
  }

  lemma RunFits(job: Job, n: nat, op: nat, run: nat)
    requires Amortised(n, op) && n + run == job.size && Roomy(job) && job.policy.LimitedOutput?
    ensures op + run + 1 + (run + 240) / 255 <= job.olimit
  {
    DivSum(n, run);
    assert (run + 240) / 255 <= run / 255 + 1;
  }

  /** A cursor with room ahead: not given up, and with its cost so far amortised. */
  ghost predicate Easy(job: Job, c: Cursor) {
    !c.Failed? && job.start <= c.anchor && Amortised(c.anchor - job.start, c.token)
  }

  lemma SearchIsEasy(job: Job, table: Table, anchor: nat, ip: nat, op: nat)
    requires job.Valid() && |table| == job.TableSize() && Hashable(job, ip) && job.start <= anchor <= ip
    requires Amortised(anchor - job.start, op) && Roomy(job)
    ensures Easy(job, FromSearch(job, table, anchor, ip, op))
  {
    hide Amortised, Roomy, Search, CatchUp;
    match Search(job, table, ip, 1, job.acceleration * 64)
    case NotFound(_) =>
    case Found(p, m, entered) =>
      if job.policy.LimitedOutput? {
        LiteralsFit(job, anchor - job.start, op, p - CatchUp(job, anchor, p, m) - anchor);
      }
  }

  lemma MatchEndIsEasy(job: Job, table: Table, ip: nat, op: nat, filled: nat)
    requires job.Valid() && |table| == job.TableSize() && job.start + 2 <= ip
    requires Amortised(ip - job.start, op) && Roomy(job)
    ensures Easy(job, FromMatchEnd(job, table, ip, op, filled))
  {
    if ip < job.MfLimitPlusOne() {
      assert Hashable(job, ip + 1) && Hashable(job, ip);
      hide Amortised, Roomy, FromSearch, FromMatchEnd, Job.Hash, Job.Accepts;
      MatchEndVisits(job, table, ip, op, filled);
      var filling := table[job.Hash(ip - 2) := job.Index(ip - 2)];
      if !job.Accepts(filling[job.Hash(ip)], ip) {
        SearchIsEasy(job, filling[job.Hash(ip) := job.Index(ip)], ip, ip + 1, op);
      }
    }
  }

  lemma EasyTakes(job: Job, c: Cursor)
    requires Sound(job, c) && Easy(job, c) && Roomy(job) && c.AtMatch? && !Rewinds(job, c)
    ensures Takes(job, c)
  {
    if job.policy.LimitedOutput? {
      MatchFits(job, c.anchor - job.start, c.token, c.ip - c.anchor, MatchCode(job, c));
    }
  }

  /** Without a limit, with room for the worst case, or when filling the output, there is a block. */
  lemma {:induction false} PlanSucceeds(job: Job, c: Cursor)
    requires Sound(job, c) && Easy(job, c) && Roomy(job)
    ensures Plan(job, c).Some?
    decreases Remaining(job, c)
  {
    hide Good, Below, TooLong, Matches, Amortised;
    if c.AtMatch? && !Rewinds(job, c) {
      EasyTakes(job, c);
      TakenPays(job, c);
      TakeMatchIsSound(job, c);
      NextIpAhead(job, c);
      MatchEndIsEasy(job, NextTable(job, c), NextIp(job, c), NextOp(job, c), c.filled);
      PlanSucceeds(job, TakeMatch(job, c));
    } else {
      if job.policy.LimitedOutput? {
        RunFits(job, c.anchor - job.start, c.token, job.End() - c.anchor);
      }
    }
  }
}
