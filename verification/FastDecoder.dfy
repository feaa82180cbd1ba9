/**
 LZ4_decompress_generic: the optimised decoder. A fast loop runs while 64 bytes of output room are
 left, then a safe loop finishes, entered in the middle of a sequence when the fast one gives up
 there. The labels it jumps to are methods here: each decodes the rest of the current sequence.
 */
module FastDecoder {
  import opened Bytes
  import opened BlockFormat
  import opened DecoderSpec
  import opened WildCopy

  const FASTLOOP_SAFE_DISTANCE := 64
  const MATCH_SAFEGUARD_DISTANCE := 12

  /** The part of memory a call works on: output goes to [start, end), history starts at `lo`. With
      the 64 KB prefix the code takes the low limit at start - 65536 without looking. */
  datatype Window = Window(lo: nat, start: nat, end: nat, withPrefix64k: bool) {
    predicate Valid() {
      lo <= start <= end && (withPrefix64k ==> lo + DISTANCE_MAX <= start)
    }

    function LowPrefix(): int {
      if withPrefix64k then start - 65536 else lo
    }
  }

  /** How one sequence ended. */
  datatype Outcome = Continue(ip: nat, op: nat) | Finish(op: nat) | Error(ip: nat)

  ghost predicate Serves(task: Task, src: seq<byte>, w: Window, partial: bool) {
    && task.src == src && task.partial == partial
    && w.Valid() && task.cap == w.end - w.lo && |task.init| == w.start - w.lo
  }

  /** What every step promises about its outcome, given the bytes it left. */
  ghost predicate Good(task: Task, w: Window, dst: seq<byte>, r: Outcome) {
    && w.Valid() && w.end <= |dst|
    && match r
       case Continue(ip, op) => ip < |task.src| && w.start <= op <= w.end && task.Inv(ip, dst[w.lo..op])
       case Finish(op) => w.start <= op <= w.end && task.Finished(dst[w.lo..op])
       case Error(_) => task.Rejected()
  }

  function AddRun(n: nat, r: Option<(nat, nat)>): Option<(nat, nat)> {
    match r
    case None => None
    case Some((v, j)) => Some((n + v, j))
  }

  lemma GoodContinue(task: Task, w: Window, dst: array<byte>, ip: nat, op: nat)
    requires w.Valid() && w.start <= op <= w.end <= dst.Length && ip < |task.src|
    requires task.Inv(ip, dst[w.lo..op])
    ensures Good(task, w, dst[..], Continue(ip, op))
  {
    assert dst[..][w.lo..op] == dst[w.lo..op];
  }

  lemma GoodFinish(task: Task, w: Window, dst: array<byte>, op: nat)
    requires w.Valid() && w.start <= op <= w.end <= dst.Length
    requires task.Finished(dst[w.lo..op])
    ensures Good(task, w, dst[..], Finish(op))
  {
    assert dst[..][w.lo..op] == dst[w.lo..op];
  }

  lemma GoodError(task: Task, w: Window, dst: seq<byte>, r: Outcome)
    requires w.Valid() && w.end <= |dst| && r.Error? && task.Rejected()
    ensures Good(task, w, dst, r)
  {
  }

  /** Reads a 255-run; gives up past `ilimit`, or at it when `check` is set. */
  method ReadVariableLength(src: seq<byte>, ip0: nat, ilimit: int, check: bool) returns (ok: bool, length: nat, ip: nat)
    requires ilimit < |src| && (check || ip0 < |src|)
    ensures ok <==> !(check && ip0 >= ilimit) && ReadRun(src, ip0).Some? && ReadRun(src, ip0).value.1 <= ilimit
    ensures ok ==> ReadRun(src, ip0) == Some((length, ip))
  {
    ip, length := ip0, 0;
    if check && ip >= ilimit {
      return false, length, ip;
    }
    var s := 255;
    while s == 255
      invariant ip0 <= ip && (s == 255 ==> ip < |src|)
      invariant s == 255 ==> ReadRun(src, ip0) == AddRun(length, ReadRun(src, ip))
      invariant s != 255 ==> ReadRun(src, ip0) == Some((length, ip)) && ip <= ilimit
      decreases |src| - ip
    {
      s := src[ip];
      ip := ip + 1;
      length := length + s;
      if ip > ilimit {
        assert ReadRun(src, ip - 1).None? || ReadRun(src, ip - 1).value.1 >= ip;
        return false, length, ip;
      }
    }
    ok := true;
  }

  /** The bytes [op, op') are the input from `ip` on, and nothing else in reach moved. */
  twostate predicate Appended(dst: array<byte>, op: nat, op': nat, src: seq<byte>, ip: nat, end: nat)
    reads dst
  {
    && op <= op' <= end <= dst.Length && ip + (op' - op) <= |src|
    && dst[op..op'] == src[ip..ip + (op' - op)]
    && dst[..op] == old(dst[..op])
    && dst[end..] == old(dst[end..])
  }

  /** History and output so far, extended by the bytes just written. */
  lemma Join(dst: array<byte>, lo: nat, op: nat, op': nat, kept: seq<byte>)
    requires lo <= op <= op' <= dst.Length && dst[..op] == kept
    ensures dst[lo..op'] == kept[lo..] + dst[op..op']
  {
    assert dst[lo..op] == kept[lo..];
  }

  /** The literal copy of the safe loop (label safe_literal_copy): an exact copy that must be the last
      one when little room is left on either side, an over-copying one otherwise. */
  method SafeLiterals(src: seq<byte>, dst: array<byte>, w: Window, partial: bool, ip: nat, op: nat, n: nat)
    returns (r: Outcome)
    requires ip <= |src| && w.Valid() && w.start <= op <= w.end <= dst.Length
    modifies dst
    ensures r.Continue? ==>
      && r.ip == ip + n && r.op == op + n && r.ip + 3 <= |src|
      && (if partial then r.op < w.end else r.op + MF_LIMIT <= w.end)
    ensures !r.Error? ==>
      op <= r.op <= w.end && ip + (r.op - op) <= |src| && dst[op..r.op] == src[ip..ip + (r.op - op)]
    ensures r.Finish? ==>
      && (if partial
          then r.op - op == Min(n, Min(|src| - ip, w.end - op)) && (r.op == w.end || ip + (r.op - op) + 2 >= |src|)
          else r.op == op + n && ip + n == |src|)
    ensures r.Error? ==>
      !partial && (op + n > w.end - MF_LIMIT || ip + n > |src| - 8) && (ip + n != |src| || op + n > w.end)
    ensures dst[..op] == old(dst[..op]) && dst[w.end..] == old(dst[w.end..])
  {
    hide Min;
    MinIs(n, Min(|src| - ip, w.end - op));
    MinIs(|src| - ip, w.end - op);
    var iend, oend := |src|, w.end;
    var cpy, length := op + n, n;
    if cpy > oend - MF_LIMIT || ip + length > iend - (2 + 1 + LAST_LITERALS) {
      if partial {
        if ip + length > iend {
          length := iend - ip;
          cpy := op + length;
        }
        if cpy > oend {
          cpy := oend;
          length := oend - op;
        }
      } else {
        if ip + length != iend || cpy > oend {
          return Error(ip);
        }
      }
      CopyInExact(dst, op, src, ip, length, oend);
      if !partial || cpy == oend || ip + length >= iend - 2 {
        return Finish(op + length);
      }
      return Continue(ip + length, op + length);
    } else {
      CopyInWild(dst, op, src, ip, n, oend);
      return Continue(ip + length, cpy);
    }
  }

  lemma MinIs(a: int, b: int)
    ensures Min(a, b) == if a <= b then a else b
  {
  }

  /** The literals, and no byte more. */
  method CopyInExact(dst: array<byte>, op: nat, src: seq<byte>, ip: nat, n: nat, ghost end: nat)
    requires op + n <= end <= dst.Length && ip + n <= |src|
    modifies dst
    ensures dst[op..op + n] == src[ip..ip + n]
    ensures dst[..op] == old(dst[..op]) && dst[end..] == old(dst[end..])
  {
    CopyIn(dst, op, src, ip, n);
  }

  /** The literals eight bytes at a time. */
  method CopyInWild(dst: array<byte>, op: nat, src: seq<byte>, ip: nat, n: nat, ghost end: nat)
    requires op + n + 8 <= end <= dst.Length && ip + n + 8 <= |src|
    modifies dst
    ensures dst[op..op + n] == src[ip..ip + n]
    ensures dst[..op] == old(dst[..op]) && dst[end..] == old(dst[end..])
  {
    WildCopy8In(dst, op, src, ip, op + n);
  }

  lemma RejectedByOffset(task: Task, t: nat, out: seq<byte>, s: Sequence, next: nat)
    requires task.Inv(t, out) && ParseHead(task.src, t) == Full(s, next)
    requires s.offset > |out + s.literals| && (task.partial ==> |out + s.literals| < task.cap) && next < |task.src|
    ensures task.Rejected()
  {
    hide ParseHead, Readable, Task.Stands, Run;
    ReadableStep(task.src, t, out, s, next);
    forall b | task.Stands(0, task.init, b)
      ensures false
    {
      var r :| task.Stands(t, out, r) && Run(out, r) == Run(task.init, b);
      FullExpected(task, t, out, r, s, next);
    }
  }

  lemma RejectedByRoom(task: Task, t: nat, out: seq<byte>, s: Sequence, next: nat)
    requires task.Inv(t, out) && ParseHead(task.src, t) == Full(s, next) && !task.partial
    requires |out + s.literals| + s.matchLen + LAST_LITERALS > task.cap
    ensures task.Rejected()
  {
    forall b | task.Stands(0, task.init, b)
      ensures false
    {
      var r :| task.Stands(t, out, r) && Run(out, r) == Run(task.init, b);
      FullExpected(task, t, out, r, s, next);
    }
  }

  lemma MatchCopiedMeans(was: seq<byte>, dst: array<byte>, lo: nat, op: nat, n: nat, offset: nat, end: nat)
    requires MatchCopied(was, dst[..], lo, op, n, offset, end)
    ensures lo + offset <= op && op + n <= end <= dst.Length == |was|
    ensures dst[lo..op + n] == CopyMatch(was[lo..op], offset, n)
    ensures dst[..op] == was[..op] && dst[end..] == was[end..]
  {
    assert dst[..][lo..op + n] == dst[lo..op + n] && dst[..][..op] == dst[..op] && dst[..][end..] == dst[end..];
  }

  /** The match copy of partial decoding near the end of the output: as much of it as fits. */
  method PartialMatch(src: seq<byte>, dst: array<byte>, w: Window, ghost task: Task,
                      ghost t: nat, ghost out: seq<byte>, ghost s: Sequence,
                      offset: nat, length: nat, ip: nat, op0: nat)
    returns (r: Outcome)
    requires Serves(task, src, w, true) && w.start <= op0 <= w.end <= dst.Length && op0 < w.end
    requires task.Inv(t, out) && ParseHead(src, t) == Full(s, ip) && ip < |src|
    requires s.offset == offset && s.matchLen == length && dst[w.lo..op0] == out + s.literals
    requires w.lo + offset <= op0
    modifies dst
    ensures Good(task, w, dst[..], r)
    ensures r.Continue? ==> ip <= r.ip
    ensures dst[..op0] == old(dst[..op0]) && dst[w.end..] == old(dst[w.end..])
  {
    hide Parse, ParseHead, Run, CopyMatch, Good, Task.Inv, Task.Finished;
    ghost var was := dst[..];
    assert was[w.lo..op0] == dst[w.lo..op0];
    var n := Min(length, w.end - op0);
    ByteCopy(dst, op0, n, offset);
    if offset != 0 {
      MatchIsCopied(was, dst[..], w.lo, op0, n, offset, w.end);
      MatchCopiedMeans(was, dst, w.lo, op0, n, offset, w.end);
    }
    PartialResult(task, t, out, s, ip, n, dst[w.lo..op0 + n]);
    if op0 + n == w.end {
      r := Finish(op0 + n);
      GoodFinish(task, w, dst, op0 + n);
    } else {
      r := Continue(ip, op0 + n);
      GoodContinue(task, w, dst, ip, op0 + n);
    }
  }

  /** A block with offset 0 is not one that partial decoding must decode. */
  lemma RejectedByZero(task: Task, t: nat, out: seq<byte>, s: Sequence, next: nat)
    requires task.partial && task.Inv(t, out) && ParseHead(task.src, t) == Full(s, next)
    requires |out + s.literals| < task.cap && s.offset == 0 && next < |task.src|
    ensures task.Rejected()
  {
    hide ParseHead, Readable, Task.Stands, Run;
    ReadableStep(task.src, t, out, s, next);
    forall b | task.Stands(0, task.init, b)
      ensures false
    {
      var r :| task.Stands(t, out, r) && Run(out, r) == Run(task.init, b);
      FullExpected(task, t, out, r, s, next);
    }
  }

  /** Nor is it the beginning of one. */
  lemma NothingCut(task: Task, t: nat, out: seq<byte>, s: Sequence, next: nat)
    requires task.TracksCut(t, out) && ParseHead(task.src, t) == Full(s, next) && s.offset == 0
    ensures forall whole :: !task.Cuts(whole, 0, task.init)
  {
    forall whole | task.Cuts(whole, 0, task.init)
      ensures false
    {
      TrackedCut(task, whole, t, out);
      SequenceOfPrefix(task, whole, t, out, s, next);
    }
  }

  /** A match copied as far as it fits; with offset 0, nothing was expected. */
  lemma PartialResult(task: Task, t: nat, out: seq<byte>, s: Sequence, next: nat, n: nat, r: seq<byte>)
    requires task.partial && task.Inv(t, out) && ParseHead(task.src, t) == Full(s, next) && next < |task.src|
    requires s.offset <= |out + s.literals| < task.cap && n <= s.matchLen
    requires s.offset != 0 ==> r == CopyMatch(out + s.literals, s.offset, n)
    ensures n == s.matchLen ==> task.Inv(next, r)
    ensures |out + s.literals| + n == task.cap ==> task.Finished(r)
  {
    if s.offset == 0 {
      RejectedByZero(task, t, out, s, next);
      NothingCut(task, t, out, s, next);
    } else {
      if n == s.matchLen {
        SequenceStep(task, t, out, s, next);
      }
      if |out + s.literals| + n == task.cap {
        StopInMatch(task, t, out, s, next, n);
      }
    }
  }

  /** Copies `n` bytes of a match: singly when they overlap, at once when they do not. */
  method ByteCopy(dst: array<byte>, op0: nat, n: nat, offset: nat)
    requires offset <= op0 && op0 + n <= dst.Length
    modifies dst
    ensures offset != 0 ==> Copied(dst[..], op0, op0 + n, offset)
    ensures offset == 0 ==> dst[..] == old(dst[..])
    ensures forall i :: 0 <= i < dst.Length && !(op0 <= i < op0 + n) ==> dst[i] == old(dst[i])
  {
    var op, m := op0, op0 - offset;
    if m + n > op {
      while op < op0 + n
        invariant op0 <= op <= op0 + n && m + offset == op
        invariant offset != 0 ==> Copied(dst[..], op0, op, offset)
        invariant offset == 0 ==> dst[..] == old(dst[..])
        invariant forall i :: 0 <= i < dst.Length && !(op0 <= i < op) ==> dst[i] == old(dst[i])
      {
        dst[op] := dst[m];
        op, m := op + 1, m + 1;
      }
    } else {
      CopyWithin(dst, op, m, n);
    }
  }

  /** The rest of a sequence from label safe_match_copy on: its head is read, its literals are out. */
  method FromMatchCopy(src: seq<byte>, dst: array<byte>, w: Window, partial: bool, ghost task: Task,
                       ghost t: nat, ghost out: seq<byte>, ghost s: Sequence,
                       offset: nat, length: nat, ip: nat, op0: nat)
    returns (r: Outcome)
    requires Serves(task, src, w, partial) && w.start <= op0 <= w.end <= dst.Length
    requires task.Inv(t, out) && ParseHead(src, t) == Full(s, ip) && ip < |src|
    requires s.offset == offset && s.matchLen == length && dst[w.lo..op0] == out + s.literals
    requires if partial then op0 < w.end else op0 + MF_LIMIT <= w.end
    modifies dst
    ensures Good(task, w, dst[..], r)
    ensures r.Continue? ==> ip <= r.ip
    ensures dst[..op0] == old(dst[..op0]) && dst[w.end..] == old(dst[w.end..])
  {
    EncodeParsedSequence(src, t, s, ip);
    hide Parse, ParseHead, Run, CopyMatch, MatchCopied, EncodeSequence, At;
    if op0 - offset < w.LowPrefix() {
      RejectedByOffset(task, t, out, s, ip);
      return Error(ip);
    }
    if partial && op0 + length > w.end - MATCH_SAFEGUARD_DISTANCE {
      r := PartialMatch(src, dst, w, task, t, out, s, offset, length, ip, op0);
    } else {
      r := FullMatch(src, dst, w, partial, task, t, out, s, offset, length, ip, op0);
    }
  }

  /** The match copy of the safe loop, when all of the match is wanted. */
  method FullMatch(src: seq<byte>, dst: array<byte>, w: Window, partial: bool, ghost task: Task,
                   ghost t: nat, ghost out: seq<byte>, ghost s: Sequence,
                   offset: nat, length: nat, ip: nat, op0: nat)
    returns (r: Outcome)
    requires Serves(task, src, w, partial) && w.start <= op0 <= w.end <= dst.Length
    requires task.Inv(t, out) && ParseHead(src, t) == Full(s, ip) && ip < |src|
    requires s.offset == offset && s.matchLen == length && dst[w.lo..op0] == out + s.literals
    requires MIN_MATCH <= length && w.lo + offset <= op0
    requires if partial then op0 + length + MF_LIMIT <= w.end else op0 + MF_LIMIT <= w.end
    modifies dst
    ensures Good(task, w, dst[..], r)
    ensures r.Continue? ==> ip <= r.ip
    ensures dst[..op0] == old(dst[..op0]) && dst[w.end..] == old(dst[w.end..])
  {
    hide Parse, ParseHead, Run, CopyMatch, MatchCopied, Good;
    ghost var was := dst[..];
    assert was[w.lo..op0] == dst[w.lo..op0] && was[..op0] == dst[..op0] && was[w.end..] == dst[w.end..];
    var ok := CopyMatchSafe(dst, w.lo, op0, length, offset, w.end);
    if !ok {
      RejectedByRoom(task, t, out, s, ip);
      r := Error(ip);
      GoodError(task, w, dst[..], r);
      return;
    }
    SequenceStep(task, t, out, s, ip);
    MatchCopiedMeans(was, dst, w.lo, op0, length, offset, w.end);
    r := Continue(ip, op0 + length);
    GoodContinue(task, w, dst, ip, op0 + length);
  }

  /** The literals of the sequence at `t` are `n` bytes from `j` on. */
  ghost predicate LiteralsAt(src: seq<byte>, t: nat, token: byte, n: nat, j: nat) {
    && t < |src| && token == src[t] && ReadLength(src, High(token), t + 1) == Some((n, j))
    && (n < RUN_MASK || j + RUN_MASK <= |src|)
  }

  /** A match length completes the head of a sequence. */
  lemma HeadFromLength(src: seq<byte>, t: nat, token: byte, n: nat, j: nat, length: nat, next: nat)
    requires LiteralsAt(src, t, token, n, j) && j + n + 2 <= |src|
    requires ReadLength(src, Low(token), j + n + 2) == Some((length, next))
    ensures ParseHead(src, t) == Full(Sequence(src[j..j + n], ReadLE16(src, j + n), length + MIN_MATCH), next)
  {
  }

  /** Behind the literals only a match length is left to read. */
  lemma NextOfHead(src: seq<byte>, t: nat, token: byte, n: nat, j: nat)
    requires LiteralsAt(src, t, token, n, j) && j + n + 2 <= |src|
    ensures var h := ReadLength(src, Low(token), j + n + 2);
            ParseHead(src, t).Full? ==> h.Some? && ParseHead(src, t).next == h.value.1
  {
    hide ReadLength, ReadLE16;
  }

  /** A match length that is missing, or leaves fewer than four bytes, cannot belong to a good block. */
  lemma RejectedByLength(task: Task, t: nat, out: seq<byte>, token: byte, n: nat, j: nat)
    requires task.Inv(t, out) && LiteralsAt(task.src, t, token, n, j) && j + n + 2 <= |task.src|
    requires task.partial ==> |out| + n < task.cap
    requires var h := ReadLength(task.src, Low(token), j + n + 2); h.None? || h.value.1 + LAST_LITERALS > |task.src| + 1
    requires j + n + 2 < |task.src|
    ensures task.Rejected()
  {
    hide ReadLength, Task.Stands, Run, ReadLE16;
    NextOfHead(task.src, t, token, n, j);
    forall b | task.Stands(0, task.init, b)
      ensures false
    {
      var r :| task.Stands(t, out, r) && Run(out, r) == Run(task.init, b);
      MatchExpected(task, t, out, r, n, j);
    }
  }

  /** The length code of the match behind the literals that end at `k`; `ok` is false only when the
      block is bad. */
  method MatchLength(src: seq<byte>, ghost task: Task, ghost t: nat, ghost out: seq<byte>, token: byte,
                     ghost n: nat, k: nat)
    returns (ok: bool, length: nat, ip: nat)
    requires task.src == src && task.Inv(t, out)
    requires n <= k && LiteralsAt(src, t, token, n, k - n) && k + 2 < |src|
    requires task.partial ==> |out| + n < task.cap
    ensures ok ==> ReadLength(src, Low(token), k + 2) == Some((length, ip)) && k + 2 <= ip < |src|
    ensures ok ==> length <= 14 || Low(token) == ML_MASK
    ensures !ok ==> task.Rejected()
  {
    hide High, Low, Task.Inv, Task.Rejected, LiteralsAt, ParseHead;
    ok, length, ip := true, Low(token), k + 2;
    if length == ML_MASK {
      var good, more, next := ReadVariableLength(src, ip, |src| - LAST_LITERALS + 1, false);
      if !good {
        RejectedByLength(task, t, out, token, n, k - n);
        return false, length, next;
      }
      length, ip := length + more, next;
    }
  }

  /** Label _copy_match: literals and offset are known, the match length is next. */
  method FromMatchCode(src: seq<byte>, dst: array<byte>, w: Window, partial: bool, ghost task: Task,
                       ghost t: nat, ghost out: seq<byte>, ghost n: nat, ghost j: nat,
                       token: byte, offset: nat, ip0: nat, op: nat)
    returns (r: Outcome)
    requires Serves(task, src, w, partial) && w.start <= op <= w.end <= dst.Length
    requires task.Inv(t, out) && LiteralsAt(src, t, token, n, j)
    requires ip0 == j + n + 2 < |src| && offset == ReadLE16(src, j + n) && dst[w.lo..op] == out + src[j..j + n]
    requires if partial then op < w.end else op + MF_LIMIT <= w.end
    modifies dst
    ensures Good(task, w, dst[..], r)
    ensures r.Continue? ==> ip0 <= r.ip
    ensures dst[..op] == old(dst[..op]) && dst[w.end..] == old(dst[w.end..])
  {
    hide ParseHead, Parse, Run, ReadLength, Good, Low, High, LiteralsAt, Task.Inv, Task.Rejected;
    var ok, length, ip := MatchLength(src, task, t, out, token, n, ip0 - 2);
    if !ok {
      r := Error(ip);
      GoodError(task, w, dst[..], r);
      return;
    }
    HeadFromLength(src, t, token, n, j, length, ip);
    length := length + MIN_MATCH;
    r := FromMatchCopy(src, dst, w, partial, task, t, out, Sequence(src[j..j + n], offset, length), offset, length,
        ip, op);
  }

  /** Literals that break the parsing restrictions cannot belong to a good block. */
  lemma RejectedByLiterals(task: Task, t: nat, out: seq<byte>, token: byte, n: nat, j: nat)
    requires task.Inv(t, out) && LiteralsAt(task.src, t, token, n, j) && !task.partial
    requires |out| + n + MF_LIMIT > task.cap || j + n + 8 > |task.src|
    requires j + n != |task.src| || |out| + n > task.cap
    ensures task.Rejected()
  {
    forall b | task.Stands(0, task.init, b)
      ensures false
    {
      var r :| task.Stands(t, out, r) && Run(out, r) == Run(task.init, b);
      LiteralsExpected(task, t, out, r);
    }
  }

  /** The literals just copied were the last thing to do. */
  lemma FinishedByLiterals(task: Task, t: nat, out: seq<byte>, token: byte, n: nat, j: nat, k: nat)
    requires task.Inv(t, out) && LiteralsAt(task.src, t, token, n, j) && j <= |task.src|
    requires |out| <= task.cap
    requires if task.partial
             then && k == Min(n, Min(|task.src| - j, task.cap - |out|))
                  && (|out| + k == task.cap || j + k + 2 >= |task.src|)
             else k == n && j + n == |task.src| && |out| + n <= task.cap
    ensures task.Finished(out + task.src[j..j + k])
  {
    if task.partial && |out| + k == task.cap {
      StopInLiterals(task, t, out, n, j, k);
    } else if j + n == |task.src| {
      LastStep(task, t, out, task.src[j..], Low(token));
      assert task.src[j..j + k] == task.src[j..];
    } else {
      ShortInput(task, t, out, token, n, j, k);
      CutLiteralsBegin(task, t, out, n, j, k);
      ReadableEnds(task.src, t, out, n, j, k);
    }
  }

  /** Input that ends in the middle of a sequence cannot belong to a good block. */
  lemma ShortInput(task: Task, t: nat, out: seq<byte>, token: byte, n: nat, j: nat, k: nat)
    requires task.Inv(t, out) && LiteralsAt(task.src, t, token, n, j) && task.partial && j + n != |task.src|
    requires j <= |task.src| && |out| <= task.cap && |out| + k != task.cap
    requires k == Min(n, Min(|task.src| - j, task.cap - |out|)) && j + k + 2 >= |task.src|
    ensures forall b :: !task.Stands(0, task.init, b)
  {
    forall b | task.Stands(0, task.init, b)
      ensures false
    {
      var r :| task.Stands(t, out, r) && Run(out, r) == Run(task.init, b);
      LiteralsExpected(task, t, out, r);
    }
  }

  lemma JoinLiterals(dst: array<byte>, lo: nat, op: nat, op': nat, kept: seq<byte>, src: seq<byte>, ip: nat)
    requires lo <= op <= op' <= dst.Length && dst[..op] == kept && ip + (op' - op) <= |src|
    requires dst[op..op'] == src[ip..ip + (op' - op)]
    ensures dst[lo..op'] == kept[lo..] + src[ip..ip + (op' - op)]
  {
    Join(dst, lo, op, op', kept);
  }

  lemma LiteralsFinish(task: Task, w: Window, dst: array<byte>, t: nat, out: seq<byte>, token: byte, n: nat, j: nat,
                       op: nat, op': nat)
    requires Serves(task, task.src, w, task.partial) && w.start <= op <= op' <= w.end <= dst.Length
    requires task.Inv(t, out) && LiteralsAt(task.src, t, token, n, j) && j <= |task.src|
    requires |out| == op - w.lo && j + (op' - op) <= |task.src|
    requires dst[w.lo..op'] == out + task.src[j..j + (op' - op)]
    requires if task.partial
             then && op' - op == Min(n, Min(|task.src| - j, w.end - op))
                  && (op' == w.end || j + (op' - op) + 2 >= |task.src|)
             else op' == op + n && j + n == |task.src|
    ensures Good(task, w, dst[..], Finish(op'))
  {
    hide Good, LiteralsAt, Task.Inv, Task.Finished;
    FinishedByLiterals(task, t, out, token, n, j, op' - op);
    GoodFinish(task, w, dst, op');
  }

  /** Label safe_literal_copy: the literal length is known. */
  method FromLiterals(src: seq<byte>, dst: array<byte>, w: Window, partial: bool, ghost task: Task,
                      ghost t: nat, token: byte, n: nat, ip: nat, op: nat)
    returns (r: Outcome)
    requires Serves(task, src, w, partial) && w.start <= op <= w.end <= dst.Length
    requires task.Inv(t, dst[w.lo..op]) && LiteralsAt(src, t, token, n, ip) && ip <= |src|
    modifies dst
    ensures Good(task, w, dst[..], r)
    ensures r.Continue? ==> ip <= r.ip
    ensures dst[..op] == old(dst[..op]) && dst[w.end..] == old(dst[w.end..])
  {
    hide High, Low, ReadLength, ReadLE16, ParseHead, Parse, Run, Good, LiteralsAt, Task.Inv, Task.Rejected,
        Task.Finished;
    ghost var kept := dst[..op];
    ghost var out := kept[w.lo..];
    FrontKept(dst, w.lo, op, kept);
    var c := SafeLiterals(src, dst, w, partial, ip, op, n);
    if c.Error? {
      RejectedByLiterals(task, t, out, token, n, ip);
      GoodError(task, w, dst[..], c);
      return c;
    }
    JoinLiterals(dst, w.lo, op, c.op, kept, src, ip);
    if c.Finish? {
      LiteralsFinish(task, w, dst, t, out, token, n, ip, op, c.op);
      return c;
    }
    var offset := ReadLE16(src, c.ip);
    r := FromMatchCode(src, dst, w, partial, task, t, out, n, ip, token, offset, c.ip + 2, c.op);
  }

  /** A literal length that is missing, or leaves fewer than 15 bytes, cannot belong to a good block. */
  lemma RejectedByRun(task: Task, t: nat, out: seq<byte>)
    requires task.Inv(t, out) && t < |task.src| && High(task.src[t]) == RUN_MASK
    requires var h := ReadRun(task.src, t + 1); h.None? || h.value.1 + RUN_MASK > |task.src|
    ensures task.Rejected()
  {
    forall b | task.Stands(0, task.init, b)
      ensures false
    {
      var r :| task.Stands(t, out, r) && Run(out, r) == Run(task.init, b);
      LiteralsExpected(task, t, out, r);
    }
  }

  /** The length of the literals at `t`; `ok` is false only when the block is bad. */
  method LiteralLength(src: seq<byte>, ghost task: Task, t: nat, ghost out: seq<byte>)
    returns (ok: bool, n: nat, ip: nat)
    requires task.src == src && task.Inv(t, out) && t < |src|
    ensures ok ==> LiteralsAt(src, t, src[t], n, ip) && t < ip <= |src|
    ensures !ok ==> task.Rejected()
  {
    hide High, Low, Task.Inv, Task.Rejected;
    var token := src[t];
    ok, n, ip := true, High(token), t + 1;
    if n == RUN_MASK {
      var good, more, next := ReadVariableLength(src, ip, |src| - RUN_MASK, true);
      if !good {
        RejectedByRun(task, t, out);
        return false, n, next;
      }
      n, ip := n + more, next;
    }
  }

  /** One round of the safe loop. The shortcut copies 16 bytes for at most 14 literals and 18 for a
      match of at most 18, and falls back to _copy_match when the match is long or close. */
  method FromToken(src: seq<byte>, dst: array<byte>, w: Window, partial: bool, ghost task: Task, t: nat, op: nat)
    returns (r: Outcome)
    requires Serves(task, src, w, partial) && w.start <= op <= w.end <= dst.Length
    requires t < |src| && task.Inv(t, dst[w.lo..op])
    modifies dst
    ensures Good(task, w, dst[..], r)
    ensures r.Continue? ==> t < r.ip
    ensures dst[..op] == old(dst[..op]) && dst[w.end..] == old(dst[w.end..])
  {
    var iend: int, oend: int := |src|, w.end;
    var token := src[t];
    var length := High(token);
    if length != RUN_MASK && t + 1 < iend - 14 - 2 && op <= oend - 14 - 18 {
      r := Shortcut(src, dst, w, partial, task, t, op);
    } else {
      var ok, n, ip := LiteralLength(src, task, t, dst[w.lo..op]);
      if !ok {
        r := Error(ip);
        GoodError(task, w, dst[..], r);
        return;
      }
      r := FromLiterals(src, dst, w, partial, task, t, token, n, ip, op);
    }
  }

  /** At most 14 literals copied as 16 bytes. */
  method CopyIn16(dst: array<byte>, op: nat, src: seq<byte>, ip: nat, n: nat, ghost end: nat)
    requires n <= 16 && op + 16 <= end <= dst.Length && ip + 16 <= |src|
    modifies dst
    ensures Appended(dst, op, op + n, src, ip, end)
  {
    CopyIn(dst, op, src, ip, 16);
  }

  /** The second stage of the shortcut: 18 bytes for a match of at most 18. */
  method ShortMatch(dst: array<byte>, w: Window, ghost task: Task, ghost t: nat, ghost out: seq<byte>,
                    ghost s: Sequence, offset: nat, length: nat, ip: nat, op: nat)
    returns (r: Outcome)
    requires w.Valid() && w.start <= op && w.end <= dst.Length && op + 18 <= w.end && task.cap == w.end - w.lo
    requires task.Inv(t, out) && ParseHead(task.src, t) == Full(s, ip) && ip < |task.src|
    requires s.offset == offset && s.matchLen == length && dst[w.lo..op] == out + s.literals
    requires 8 <= offset && w.lo + offset <= op && length <= 18
    modifies dst
    ensures Good(task, w, dst[..], r) && r == Continue(ip, op + length)
    ensures dst[..op] == old(dst[..op]) && dst[w.end..] == old(dst[w.end..])
  {
    hide Parse, ParseHead, Run, CopyMatch, MatchCopied, Good, Task.Inv;
    ghost var was := dst[..];
    assert was[w.lo..op] == dst[w.lo..op] && was[..op] == dst[..op] && was[w.end..] == dst[w.end..];
    CopyMatch18(dst, w.lo, op, length, offset, w.end);
    SequenceStep(task, t, out, s, ip);
    MatchCopiedMeans(was, dst, w.lo, op, length, offset, w.end);
    GoodContinue(task, w, dst, ip, op + length);
    r := Continue(ip, op + length);
  }

  /** The two-stage shortcut of the safe loop. */
  method Shortcut(src: seq<byte>, dst: array<byte>, w: Window, partial: bool, ghost task: Task, t: nat, op0: nat)
    returns (r: Outcome)
    requires Serves(task, src, w, partial) && w.start <= op0 && w.end <= dst.Length
    requires t + 17 < |src| && op0 + 32 <= w.end && High(src[t]) != RUN_MASK && task.Inv(t, dst[w.lo..op0])
    modifies dst
    ensures Good(task, w, dst[..], r)
    ensures r.Continue? ==> t < r.ip
    ensures dst[..op0] == old(dst[..op0]) && dst[w.end..] == old(dst[w.end..])
  {
    hide High, Low, ReadLE16, Parse, Run, CopyMatch, MatchCopied, Good, Task.Inv;
    ghost var kept, out := dst[..op0], dst[w.lo..op0];
    assert out == kept[w.lo..];
    var token := src[t];
    var n, ip := High(token), t + 1;
    CopyIn16(dst, op0, src, ip, n, w.end);
    var op := op0 + n;
    Join(dst, w.lo, op0, op, kept);
    var length, offset := Low(token), ReadLE16(src, ip + n);
    if length != ML_MASK && 8 <= offset && (w.withPrefix64k || op - offset >= w.LowPrefix()) {
      HeadFromLength(src, t, token, n, ip, length, ip + n + 2);
      ghost var s := Sequence(src[ip..ip + n], offset, length + MIN_MATCH);
      r := ShortMatch(dst, w, task, t, out, s, offset, length + MIN_MATCH, ip + n + 2, op);
      return;
    }
    r := FromMatchCode(src, dst, w, partial, task, t, out, n, ip, token, offset, ip + n + 2, op);
  }

  /** How the fast loop passes control on: round again, into the safe loop at one of its labels, or
      out with an error. */
  datatype Exit =
    | Again(ip: nat, op: nat)
    | ToLiterals(token: byte, n: nat, ip: nat, op: nat)
    | ToMatchCopy(offset: nat, length: nat, ip: nat, op: nat)
    | Failed(ip: nat)

  /** The state the safe loop may be entered with; `t` is the token and `s` the sequence at hand. */
  ghost predicate Handed(task: Task, w: Window, dst: seq<byte>, e: Exit, t: nat, s: Sequence) {
    && w.Valid() && w.end <= |dst|
    && match e
       case Again(ip, op) =>
         && ip < |task.src| && w.start <= op && op + FASTLOOP_SAFE_DISTANCE <= w.end
         && task.Inv(ip, dst[w.lo..op])
       case ToLiterals(token, n, ip, op) =>
         && w.start <= op <= w.end && ip <= |task.src|
         && LiteralsAt(task.src, t, token, n, ip) && task.Inv(t, dst[w.lo..op])
       case ToMatchCopy(offset, length, ip, op) =>
         && w.start + |s.literals| <= op && op + MF_LIMIT <= w.end && ip < |task.src|
         && s.offset == offset && s.matchLen == length && ParseHead(task.src, t) == Full(s, ip)
         && dst[op - |s.literals|..op] == s.literals
         && task.Inv(t, dst[w.lo..op - |s.literals|])
       case Failed(_) => task.Rejected()
  }

  lemma HandedFailed(task: Task, w: Window, dst: seq<byte>, e: Exit, t: nat, s: Sequence)
    requires w.Valid() && w.end <= |dst| && e.Failed? && task.Rejected()
    ensures Handed(task, w, dst, e, t, s)
  {
  }

  lemma FrontKept(dst: array<byte>, lo: nat, op: nat, kept: seq<byte>)
    requires lo <= op <= dst.Length && dst[..op] == kept
    ensures dst[lo..op] == kept[lo..]
  {
  }

  lemma ShorterFront(dst: array<byte>, a: nat, b: nat)
    requires a <= b <= dst.Length
    ensures dst[..a] == dst[..b][..a]
  {
  }

  lemma HandedLiterals(task: Task, w: Window, dst: array<byte>, token: byte, n: nat, ip: nat, op: nat, t: nat,
                       s: Sequence)
    requires w.Valid() && w.start <= op <= w.end <= dst.Length && ip <= |task.src|
    requires LiteralsAt(task.src, t, token, n, ip) && task.Inv(t, dst[w.lo..op])
    ensures Handed(task, w, dst[..], ToLiterals(token, n, ip, op), t, s)
  {
    hide LiteralsAt, Task.Inv;
    assert dst[..][w.lo..op] == dst[w.lo..op];
  }

  /** One round of the fast loop. */
  method FastStep(src: seq<byte>, dst: array<byte>, w: Window, ghost task: Task, t: nat, op0: nat)
    returns (e: Exit, ghost s: Sequence)
    requires Serves(task, src, w, task.partial) && w.start <= op0 && w.end <= dst.Length
    requires op0 + FASTLOOP_SAFE_DISTANCE <= w.end && t < |src| && w.lo <= op0 && task.Inv(t, dst[w.lo..op0])
    modifies dst
    ensures Handed(task, w, dst[..], e, t, s)
    ensures e.Again? ==> t < e.ip
    ensures dst[..op0] == old(dst[..op0]) && dst[w.end..] == old(dst[w.end..])
  {
    hide High, LiteralsAt, ReadLength, Handed, Task.Inv, Task.Rejected;
    ghost var out := dst[w.lo..op0];
    s := Sequence([], 0, 0);
    var ok, n, ip := LiteralLength(src, task, t, out);
    if !ok {
      e := Failed(ip);
      HandedFailed(task, w, dst[..], e, t, s);
    } else {
      e, s := FastSequence(src, dst, w, task, t, out, src[t], n, ip, op0);
    }
  }

  /** A round of the fast loop once its literal length is known. */
  method FastSequence(src: seq<byte>, dst: array<byte>, w: Window, ghost task: Task, ghost t: nat,
                      ghost out: seq<byte>, token: byte, n: nat, ip: nat, op0: nat)
    returns (e: Exit, ghost s: Sequence)
    requires Serves(task, src, w, task.partial) && w.start <= op0 && w.end <= dst.Length && w.lo <= op0
    requires op0 + FASTLOOP_SAFE_DISTANCE <= w.end && LiteralsAt(src, t, token, n, ip) && t < ip <= |src|
    requires task.Inv(t, out) && dst[w.lo..op0] == out
    modifies dst
    ensures Handed(task, w, dst[..], e, t, s)
    ensures e.Again? ==> t < e.ip
    ensures dst[..op0] == old(dst[..op0]) && dst[w.end..] == old(dst[w.end..])
  {
    hide High, Low, ReadLength, ReadRun, ParseHead, LiteralsAt, Handed, Task.Inv, Task.Rejected, Task.Finished;
    s := Sequence([], 0, 0);
    ghost var kept := dst[..op0];
    FrontKept(dst, w.lo, op0, kept);
    var copied := FastLiterals(src, dst, w.end, n, ip, op0);
    FrontKept(dst, w.lo, op0, kept);
    if !copied {
      e := ToLiterals(token, n, ip, op0);
      HandedLiterals(task, w, dst, token, n, ip, op0, t, s);
    } else {
      ShorterFront(dst, op0, op0 + n);
      e, s := FastMatch(src, dst, w, task, t, out, n, ip + n, token, op0 + n);
      ShorterFront(dst, op0, op0 + n);
    }
  }

  /** The literals of a round of the fast loop; left to the safe loop when room gets short. */
  method FastLiterals(src: seq<byte>, dst: array<byte>, end: nat, n: nat, ip: nat, op: nat) returns (copied: bool)
    requires op + FASTLOOP_SAFE_DISTANCE <= end <= dst.Length
    modifies dst
    ensures copied ==> op + n + 32 <= end && ip + n + 2 < |src| && dst[op..op + n] == src[ip..ip + n]
    ensures dst[..op] == old(dst[..op]) && dst[end..] == old(dst[end..])
  {
    if n >= RUN_MASK {
      if op + n > end - 32 || ip + n > |src| - 32 {
        return false;
      }
      CopyInLong(dst, op, src, ip, n, end);
    } else {
      if ip > |src| - (16 + 1) {
        return false;
      }
      CopyIn16(dst, op, src, ip, n, end);
    }
    copied := true;
  }

  /** A long run of literals copied 32 bytes at a time. */
  method CopyInLong(dst: array<byte>, op: nat, src: seq<byte>, ip: nat, n: nat, ghost end: nat)
    requires 1 <= n && op + n + 32 <= end <= dst.Length && ip + n + 32 <= |src|
    modifies dst
    ensures Appended(dst, op, op + n, src, ip, end)
  {
    WildCopy32In(dst, op, src, ip, op + n);
  }

  /** The copy of the fast loop, once the head of the sequence is known. A short match at a distance
      of at least 8 takes 18 bytes at once; `coded` tells a match length that needed extra bytes. */
  method FastCopy(src: seq<byte>, dst: array<byte>, w: Window, ghost task: Task,
                  ghost t: nat, ghost out: seq<byte>, ghost s: Sequence, coded: bool,
                  offset: nat, length: nat, ip: nat, op: nat)
    returns (e: Exit)
    requires Serves(task, src, w, task.partial) && w.end <= dst.Length && op + 32 <= w.end
    requires task.Inv(t, out) && ParseHead(src, t) == Full(s, ip) && ip < |src|
    requires s.offset == offset && s.matchLen == length && (coded || length <= 18)
    requires w.start + |s.literals| <= op && MIN_MATCH <= length && offset <= DISTANCE_MAX
    requires dst[w.lo..op - |s.literals|] == out && dst[op - |s.literals|..op] == s.literals
    modifies dst
    ensures Handed(task, w, dst[..], e, t, s)
    ensures e.Again? ==> e.ip == ip
    ensures dst[..op] == old(dst[..op]) && dst[w.end..] == old(dst[w.end..])
  {
    hide Parse, ParseHead, Run, CopyMatch, MatchCopied;
    assert dst[w.lo..op] == out + s.literals by {
      assert dst[w.lo..op] == dst[w.lo..op - |s.literals|] + dst[op - |s.literals|..op];
    }
    if coded && op - offset < w.LowPrefix() {
      RejectedByOffset(task, t, out, s, ip);
      return Failed(ip);
    }
    if op + length >= w.end - FASTLOOP_SAFE_DISTANCE {
      assert dst[..][op - |s.literals|..op] == s.literals && dst[..][w.lo..op - |s.literals|] == out;
      return ToMatchCopy(offset, length, ip, op);
    }
    ghost var was := dst[..];
    assert was[w.lo..op] == dst[w.lo..op] && was[..op] == dst[..op] && was[w.end..] == dst[w.end..];
    if !coded && (w.withPrefix64k || op - offset >= w.LowPrefix()) && 8 <= offset {
      CopyMatch18(dst, w.lo, op, length, offset, w.end);
    } else {
      if op - offset < w.LowPrefix() {
        RejectedByOffset(task, t, out, s, ip);
        return Failed(ip);
      }
      CopyMatchFast(dst, w.lo, op, length, offset, w.end);
    }
    SequenceStep(task, t, out, s, ip);
    MatchCopiedMeans(was, dst, w.lo, op, length, offset, w.end);
    assert dst[..][w.lo..op + length] == dst[w.lo..op + length];
    e := Again(ip, op + length);
  }

  /** The match part of a round of the fast loop: its head, then either a copy or the safe loop. */
  method FastMatch(src: seq<byte>, dst: array<byte>, w: Window, ghost task: Task,
                   ghost t: nat, ghost out: seq<byte>, ghost n: nat, j: nat, token: byte, op: nat)
    returns (e: Exit, ghost s: Sequence)
    requires Serves(task, src, w, task.partial) && w.start + n <= op && w.end <= dst.Length
    requires task.Inv(t, out) && n <= j && LiteralsAt(src, t, token, n, j - n) && j + 2 < |src|
    requires op + 32 <= w.end && dst[w.lo..op - n] == out && dst[op - n..op] == src[j - n..j]
    modifies dst
    ensures Handed(task, w, dst[..], e, t, s)
    ensures e.Again? ==> j <= e.ip
    ensures dst[..op] == old(dst[..op]) && dst[w.end..] == old(dst[w.end..])
  {
    s := Sequence([], 0, 0);
    hide High, Low, ReadLength, ReadLE16, ParseHead, Parse, Run, LiteralsAt, Handed, Task.Inv, Task.Rejected;
    var ok, length, ip := MatchLength(src, task, t, out, token, n, j);
    if !ok {
      HandedFailed(task, w, dst[..], Failed(ip), t, s);
      return Failed(ip), s;
    }
    var offset := ReadLE16(src, j);
    HeadFromLength(src, t, token, n, j - n, length, ip);
    s := Sequence(src[j - n..j], offset, length + MIN_MATCH);
    e := FastCopy(src, dst, w, task, t, out, s, Low(token) == ML_MASK, offset, length + MIN_MATCH, ip, op);
  }

  /** LZ4_decompress_generic: `task` says what is expected of it. */
  method DecompressGeneric(src: seq<byte>, dst: array<byte>, w: Window, partial: bool, ghost task: Task)
    returns (result: int)
    requires Serves(task, src, w, partial) && w.end <= dst.Length && task.init == dst[w.lo..w.start]
    modifies dst
    ensures result >= 0 ==> w.start + result <= w.end && task.Finished(dst[w.lo..w.start + result])
    ensures result < 0 ==> task.Rejected() || (w.start == w.end && !partial && src != [0])
    ensures w.start == w.end && !partial ==> (result >= 0 <==> src == [0])
    ensures dst[..w.start] == old(dst[..w.start]) && dst[w.end..] == old(dst[w.end..])
  {
    hide Good, Task.Inv, Task.Finished, Task.Rejected;
    StartHolds(task);
    if w.start == w.end {
      if partial {
        NothingToDo(task);
        return 0;
      }
      if |src| == 1 && src[0] == 0 {
        NothingToDo(task);
        return 0;
      }
      return -1;
    }
    if |src| == 0 {
      NothingStands(task);
      return -1;
    }
    var r: Outcome;
    if w.end - w.start < FASTLOOP_SAFE_DISTANCE {
      r := Continue(0, w.start);
      GoodContinue(task, w, dst, 0, w.start);
    } else {
      r := FastLoop(src, dst, w, partial, task);
    }
    r := SafeLoop(src, dst, w, partial, task, r);
    GoodEnds(task, w, dst, r);
    result := if r.Finish? then r.op - w.start else -(r.ip as int) - 1;
  }

  /** The safe loop, from wherever the fast one leaves off. */
  method SafeLoop(src: seq<byte>, dst: array<byte>, w: Window, partial: bool, ghost task: Task, r0: Outcome)
    returns (r: Outcome)
    requires Serves(task, src, w, partial) && w.end <= dst.Length && Good(task, w, dst[..], r0)
    modifies dst
    ensures Good(task, w, dst[..], r) && !r.Continue?
    ensures dst[..w.start] == old(dst[..w.start]) && dst[w.end..] == old(dst[w.end..])
  {
    hide Good, Task.Inv, Task.Finished, Task.Rejected;
    r := r0;
    while r.Continue?
      invariant Good(task, w, dst[..], r)
      invariant dst[..w.start] == old(dst[..w.start]) && dst[w.end..] == old(dst[w.end..])
      decreases |src| + 1 - (if r.Continue? then r.ip else |src| + 1)
    {
      GoodGoesOn(task, w, dst, r);
      ghost var kept := dst[..r.op];
      assert dst[..w.start] == kept[..w.start];
      r := FromToken(src, dst, w, partial, task, r.ip, r.op);
      assert dst[..w.start] == kept[..w.start];
    }
  }

  lemma GoodGoesOn(task: Task, w: Window, dst: array<byte>, r: Outcome)
    requires Good(task, w, dst[..], r) && r.Continue?
    ensures r.ip < |task.src| && w.start <= r.op <= w.end <= dst.Length && w.lo <= w.start
    ensures task.Inv(r.ip, dst[w.lo..r.op])
  {
    hide Task.Inv;
    assert dst[..][w.lo..r.op] == dst[w.lo..r.op];
  }

  lemma GoodEnds(task: Task, w: Window, dst: array<byte>, r: Outcome)
    requires Good(task, w, dst[..], r) && !r.Continue?
    ensures w.Valid() && w.end <= dst.Length
    ensures r.Finish? ==> w.start <= r.op <= w.end && task.Finished(dst[w.lo..r.op])
    ensures r.Error? ==> task.Rejected()
  {
    hide Task.Finished, Task.Rejected;
    if r.Finish? {
      assert dst[..][w.lo..r.op] == dst[w.lo..r.op];
    }
  }

  /** No block stands in an empty input. */
  lemma NothingStands(task: Task)
    requires task.src == []
    ensures task.Rejected()
  {
    forall b | task.Stands(0, task.init, b)
      ensures false
    {
      LiteralsExpected(task, 0, task.init, b);
    }
  }

  /** With no room for output, an empty block (or stopping at once) is all there is. */
  lemma NothingToDo(task: Task)
    requires |task.init| == task.cap && (task.partial || task.src == [0])
    ensures task.Finished(task.init)
  {
    if task.src == [0] {
      assert ParseHead(task.src, 0) == Final([], 0);
      assert task.init + [] == task.init;
    }
    forall b | task.Stands(0, task.init, b)
      ensures task.init <= Run(task.init, b).value
    {
      RunExtends(task.init, b);
    }
    if Readable(task.src, 0, task.init).Some? {
      ReadableExtends(task.src, 0, task.init);
    }
    forall whole | task.Cuts(whole, 0, task.init)
      ensures task.init <= Decode(whole, 0, task.init).value
    {
      RunExtends(task.init, Parse(whole, 0).value);
    }
  }

  /** The fast loop proper. */
  method FastRounds(src: seq<byte>, dst: array<byte>, w: Window, ghost task: Task)
    returns (e: Exit, ghost t: nat, ghost s: Sequence)
    requires Serves(task, src, w, task.partial) && w.end <= dst.Length && task.init == dst[w.lo..w.start]
    requires w.start + FASTLOOP_SAFE_DISTANCE <= w.end && 0 < |src|
    modifies dst
    ensures !e.Again? && Handed(task, w, dst[..], e, t, s)
    ensures dst[..w.start] == old(dst[..w.start]) && dst[w.end..] == old(dst[w.end..])
  {
    hide Parse, ParseHead, Run, LiteralsAt;
    e, t, s := Again(0, w.start), 0, Sequence([], 0, 0);
    assert dst[..][w.lo..w.start] == task.init;
    while e.Again?
      invariant Handed(task, w, dst[..], e, t, s)
      invariant dst[..w.start] == old(dst[..w.start]) && dst[w.end..] == old(dst[w.end..])
      decreases |src| + 1 - (if e.Again? then e.ip else |src| + 1)
    {
      assert dst[..][w.lo..e.op] == dst[w.lo..e.op];
      t := e.ip;
      ghost var kept := dst[..e.op];
      e, s := FastStep(src, dst, w, task, e.ip, e.op);
      assert dst[..w.start] == kept[..w.start];
    }
  }

  /** The fast loop, and the step that finishes the sequence it gave up on. */
  method FastLoop(src: seq<byte>, dst: array<byte>, w: Window, partial: bool, ghost task: Task) returns (r: Outcome)
    requires Serves(task, src, w, partial) && w.end <= dst.Length && task.init == dst[w.lo..w.start]
    requires w.start + FASTLOOP_SAFE_DISTANCE <= w.end && 0 < |src|
    modifies dst
    ensures Good(task, w, dst[..], r)
    ensures dst[..w.start] == old(dst[..w.start]) && dst[w.end..] == old(dst[w.end..])
  {
    hide Handed, Good;
    var e, t, s := FastRounds(src, dst, w, task);
    r := Resume(src, dst, w, partial, task, e, t, s);
  }

  /** Enters the safe loop in the middle of a sequence. */
  method Resume(src: seq<byte>, dst: array<byte>, w: Window, partial: bool, ghost task: Task,
                e: Exit, ghost t: nat, ghost s: Sequence)
    returns (r: Outcome)
    requires Serves(task, src, w, partial) && w.end <= dst.Length && !e.Again? && Handed(task, w, dst[..], e, t, s)
    modifies dst
    ensures Good(task, w, dst[..], r)
    ensures dst[..w.start] == old(dst[..w.start]) && dst[w.end..] == old(dst[w.end..])
  {
    hide Parse, ParseHead, Run, LiteralsAt, Good, Task.Inv, Task.Rejected;
    match e
    case ToLiterals(token, n, ip, op) =>
      assert dst[..][w.lo..op] == dst[w.lo..op];
      ghost var kept := dst[..op];
      r := FromLiterals(src, dst, w, partial, task, t, token, n, ip, op);
      assert dst[..w.start] == kept[..w.start];
    case ToMatchCopy(offset, length, ip, op) =>
      ghost var kept, out := dst[..op], dst[w.lo..op - |s.literals|];
      assert dst[..][w.lo..op - |s.literals|] == out;
      assert dst[w.lo..op] == out + s.literals;
      r := FromMatchCopy(src, dst, w, partial, task, t, out, s, offset, length, ip, op);
      assert dst[..w.start] == kept[..w.start];
    case Failed(ip) =>
      r := Error(ip);
      GoodError(task, w, dst[..], r);
  }
}
